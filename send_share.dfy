/** The share of a system's units that the friendly panel proposes to send
    when one of its four percentage toggles is on: toggle `index` selects
    `syncVal = (index + 1) * 25` percent, and the proposal is
    `units * syncVal / 100` in C# `int` arithmetic. */
module SendShare {
  import opened CSharpInt

  /** Largest unit count whose product with 100 still fits in an `int`. */
  const SafeUnits: int := 21474836

  /** `syncVal = (index + 1) * 25` for toggle `index` of the four toggles. */
  function SyncVal(index: int): (v: int32)
    requires 0 <= index < 4
    ensures v == 25 || v == 50 || v == 75 || v == 100
    ensures v as int % 25 == 0 && v as int / 25 == index + 1
  {
    ((index + 1) * 25) as int32
  }

  /** The share as the panel computes it: the product wraps around at 32
      bits before the division. */
  function ShareAsWritten(units: int32, syncVal: int32): (r: int32)
    ensures 0 <= units as int * syncVal as int <= 0x7fff_ffff ==> r as int == units as int * syncVal as int / 100
  {
    TruncDiv(Wrap32(units as int * syncVal as int) as int, 100) as int32
  }

  /** The share computed without wrap-around: the product is taken exactly
      (as a 64-bit product would be) and only the quotient is narrowed. */
  function Share(units: int32, syncVal: int32): (r: int32)
    requires units >= 0 && 0 <= syncVal <= 100
    ensures 0 <= r <= units
    ensures r as int * 100 <= units as int * syncVal as int < (r as int + 1) * 100
  {
    ShareBound(units as int, syncVal as int);
    (units as int * syncVal as int / 100) as int32
  }

  lemma ShareBound(u: int, v: int)
    requires u >= 0 && 0 <= v <= 100
    ensures 0 <= u * v / 100 <= u
  {
    assert u * v <= u * 100 by {
      assert u * (100 - v) >= 0;
    }
  }

  /** Up to `SafeUnits` units the panel's arithmetic gives the exact share,
      which lies between 0 and the units held. */
  lemma ShareAsWrittenInRange(units: int32, index: int)
    requires 0 <= units as int <= SafeUnits && 0 <= index < 4
    ensures ShareAsWritten(units, SyncVal(index)) == Share(units, SyncVal(index))
    ensures 0 <= ShareAsWritten(units, SyncVal(index)) <= units
  {
    var v := SyncVal(index) as int;
    assert units as int * v <= SafeUnits * 100 by {
      assert units as int * (100 - v) >= 0;
      assert (SafeUnits - units as int) * 100 >= 0;
    }
  }

  /** One unit more and the full share wraps to a negative proposal. */
  lemma ShareAsWrittenOverflows()
    ensures ShareAsWritten((SafeUnits + 1) as int32, SyncVal(3)) < 0
    ensures Share((SafeUnits + 1) as int32, SyncVal(3)) as int == SafeUnits + 1
  {
    assert Wrap32((SafeUnits + 1) * 100) as int == (SafeUnits + 1) * 100 - Two32;
  }
}
