/** The unit-count shorthand shown on the system panels (`Shorthand` in the
    enemy and friendly panels, which carry the same switch): up to 9999 the
    plain number, then thousands with one decimal, whole thousands, and
    millions. */
module UnitsText {
  import opened CSharpInt

  predicate IsDigit(c: char)
  {
    '0' <= c <= '9'
  }

  function DigitChar(d: int): (c: char)
    requires 0 <= d < 10
    ensures IsDigit(c) && c as int - '0' as int == d
  {
    ('0' as int + d) as char
  }

  /** `int.ToString()` for a non-negative value: decimal digits, no sign,
      no leading zeros. */
  function Decimal(n: nat): (s: string)
    ensures |s| >= 1
    ensures forall i :: 0 <= i < |s| ==> IsDigit(s[i])
    decreases n
  {
    if n < 10 then [DigitChar(n)] else Decimal(n / 10) + [DigitChar(n % 10)]
  }

  /** Reads a string of decimal digits back as a number. */
  function ParseDecimal(s: string): int
    decreases |s|
  {
    if s == [] then 0 else 10 * ParseDecimal(s[..|s| - 1]) + (s[|s| - 1] as int - '0' as int)
  }

  lemma {:induction false} ParseDecimalOfDecimal(n: nat)
    ensures ParseDecimal(Decimal(n)) == n
    decreases n
  {
    if n >= 10 {
      var s := Decimal(n);
      assert s[..|s| - 1] == Decimal(n / 10);
      ParseDecimalOfDecimal(n / 10);
    }
  }

  function Pow10(k: nat): (p: nat)
    ensures p >= 1
  {
    if k == 0 then 1 else 10 * Pow10(k - 1)
  }

  /** A number below 10^k prints in at most k digits. */
  lemma {:induction false} DecimalLength(n: nat, k: nat)
    requires 1 <= k && n < Pow10(k)
    ensures |Decimal(n)| <= k
    decreases k
  {
    if n >= 10 {
      assert k >= 2;
      DecimalLength(n / 10, k - 1);
    }
  }

  /** `Shorthand(int a)`: negative counts match no case and give "". */
  function Shorthand(a: int32): (s: string)
    ensures s == "" <==> a < 0
    ensures |s| <= 5
  {
    if 0 <= a < 10000 then
      DecimalLength(a as nat, 4);
      Decimal(a as nat)
    else if 10000 <= a < 100000 then
      DecimalLength(a as nat / 1000, 2);
      Decimal(a as nat / 1000) + "." + Decimal(a as nat % 1000 / 100) + "k"
    else if 100000 <= a < 1000000 then
      DecimalLength(a as nat / 1000, 3);
      Decimal(a as nat / 1000) + "k"
    else if a >= 1000000 then
      DecimalLength(a as nat / 1000000, 4);
      Decimal(a as nat / 1000000) + "M"
    else
      ""
  }

  /** The number a reader takes a shorthand to stand for. */
  function ReadShorthand(s: string): int
  {
    if |s| >= 1 && s[|s| - 1] == 'M' then 1000000 * ParseDecimal(s[..|s| - 1])
    else if |s| >= 3 && s[|s| - 1] == 'k' && s[|s| - 3] == '.' then
      1000 * ParseDecimal(s[..|s| - 3]) + 100 * ParseDecimal(s[|s| - 2..|s| - 1])
    else if |s| >= 1 && s[|s| - 1] == 'k' then 1000 * ParseDecimal(s[..|s| - 1])
    else ParseDecimal(s)
  }

  /** The step below which a shorthand drops detail. */
  function Resolution(a: int): int
  {
    if a < 10000 then 1 else if a < 100000 then 100 else if a < 1000000 then 1000 else 1000000
  }

  /** Every non-negative count is shown exactly up to 9999 and otherwise
      rounded down to the shown precision: the shorthand never overstates. */
  lemma ShorthandApproximates(a: int32)
    requires a >= 0
    ensures ReadShorthand(Shorthand(a)) <= a as int < ReadShorthand(Shorthand(a)) + Resolution(a as int)
  {
    var n := a as nat;
    var s := Shorthand(a);
    if n < 10000 {
      assert IsDigit(s[|s| - 1]);
      ParseDecimalOfDecimal(n);
    } else if n < 100000 {
      var q := Decimal(n / 1000);
      var r := Decimal(n % 1000 / 100);
      assert r == [DigitChar(n % 1000 / 100)];
      assert s == q + "." + r + "k";
      assert s[..|s| - 3] == q;
      assert s[|s| - 2..|s| - 1] == r;
      ParseDecimalOfDecimal(n / 1000);
      ParseDecimalOfDecimal(n % 1000 / 100);
    } else if n < 1000000 {
      var q := Decimal(n / 1000);
      assert n / 1000 >= 100;
      DecimalAtLeast3(n / 1000);
      assert s == q + "k";
      assert s[|s| - 3] == q[|q| - 2];
      assert s[..|s| - 1] == q;
      ParseDecimalOfDecimal(n / 1000);
    } else {
      var q := Decimal(n / 1000000);
      assert s == q + "M";
      assert s[..|s| - 1] == q;
      ParseDecimalOfDecimal(n / 1000000);
    }
  }

  lemma DecimalAtLeast3(n: nat)
    requires n >= 100
    ensures |Decimal(n)| >= 3
  {
    assert Decimal(n) == Decimal(n / 10) + [DigitChar(n % 10)];
    assert Decimal(n / 10) == Decimal(n / 100) + [DigitChar(n / 10 % 10)];
  }

  /** Between 10000 and 99999 the digit after the point is a single digit. */
  lemma ThousandsWithDecimal(a: int32)
    requires 10000 <= a < 100000
    ensures var s := Shorthand(a);
      |s| == 5 && s[2] == '.' && IsDigit(s[3]) && s[4] == 'k'
  {
    var n := a as nat;
    DecimalLength(n / 1000, 2);
    assert n / 1000 >= 10;
    assert Decimal(n / 1000) == Decimal(n / 1000 / 10) + [DigitChar(n / 1000 % 10)];
  }
}
