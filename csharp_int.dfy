/** C#'s 32-bit `int`: its range, unchecked wrap-around and truncating division. */
module CSharpInt {

  const Two31: int := 0x8000_0000
  const Two32: int := 0x1_0000_0000

  newtype int32 = x: int | -0x8000_0000 <= x < 0x8000_0000

  /** The value an unchecked 32-bit operation leaves when the exact result is x. */
  function Wrap32(x: int): (r: int32)
    ensures (r as int - x) % Two32 == 0
    ensures -Two31 <= x < Two31 ==> r as int == x
  {
    ((x + Two31) % Two32 - Two31) as int32
  }

  /** C#'s integer division, which rounds toward zero: q * d is the multiple
      of d nearest x on the side of zero, never past x. */
  function TruncDiv(x: int, d: int): (q: int)
    requires d > 0
    ensures 0 <= x ==> 0 <= q * d <= x < q * d + d
    ensures x < 0 ==> q * d - d < x <= q * d <= 0
  {
    if x >= 0 then
      DivBracket(x, d);
      x / d
    else
      DivBracket(-x, d);
      -((-x) / d)
  }

  /** Euclidean division of a non-negative n by a positive d, and its
      negation, bracket n between neighbouring multiples of d. */
  lemma DivBracket(n: int, d: int)
    requires 0 <= n && 0 < d
    ensures 0 <= (n / d) * d <= n < (n / d) * d + d
    ensures (-(n / d)) * d == -((n / d) * d)
  {
    var q := n / d;
    assert n == q * d + n % d;
    assert 0 <= q * d by { assert 0 <= q; }
  }

  /** The bracket in `TruncDiv`'s contract leaves one quotient only. */
  lemma TruncDivUnique(x: int, d: int, q: int)
    requires d > 0
    requires 0 <= x ==> 0 <= q * d <= x < q * d + d
    requires x < 0 ==> q * d - d < x <= q * d <= 0
    ensures q == TruncDiv(x, d)
  {
    var t := TruncDiv(x, d);
    assert (q - t) * d == q * d - t * d;
    if q > t {
      MulAtLeast(q - t, d);
    } else if q < t {
      MulAtLeast(t - q, d);
    }
  }

  lemma MulAtLeast(a: int, d: int)
    requires 1 <= a && 0 < d
    ensures d <= a * d
  {
    assert a * d == (a - 1) * d + d;
    assert 0 <= (a - 1) * d by { assert 0 <= a - 1; }
  }

  /** C# gives -7 / 2 == -3 and -1 / 100 == 0, where floor division gives
      -4 and -1. */
  lemma TruncDivNegative()
    ensures TruncDiv(-7, 2) == -3 && TruncDiv(-1, 100) == 0
  {
    TruncDivUnique(-7, 2, -3);
    TruncDivUnique(-1, 100, 0);
  }
}
