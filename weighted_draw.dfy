/** The two weighted coin flips of the Balthazar graph. Each takes one draw
    from `[0, percent0 + percent1)` (an explicit parameter here, in place of
    Unity's `Random.Range`) and is meant to yield its first outcome for
    `percent0` of the draws and its second for `percent1` of them. */
module WeightedDraw {

  /** `Random01Weighted` as written: 1 exactly when the draw is strictly
      greater than `percent0`. */
  function Random01WeightedAsWritten(percent0: int, draw: int): (r: int)
    ensures r == 0 || r == 1
    ensures r == 1 <==> draw > percent0
  {
    if draw > percent0 then 1 else 0
  }

  /** `Random01Weighted` as intended: 1 for the `percent1` draws from
      `percent0` on. */
  function Random01Weighted(percent0: int, draw: int): (r: int)
    ensures r == 0 || r == 1
    ensures r == 1 <==> draw >= percent0
  {
    if draw >= percent0 then 1 else 0
  }

  /** `RandomWeighted(a, b, percent0, percent1)` as written: `a` exactly
      when the draw is strictly greater than `percent0`. */
  function RandomWeightedAsWritten(a: int, b: int, percent0: int, draw: int): (r: int)
    ensures r == a || r == b
    ensures draw > percent0 ==> r == a
    ensures a != b && r == a ==> draw > percent0
  {
    if draw > percent0 then a else b
  }

  /** `RandomWeighted` as intended: `a` for the `percent0` draws below
      `percent0`, `b` for the rest. */
  function RandomWeighted(a: int, b: int, percent0: int, draw: int): (r: int)
    ensures r == a || r == b
    ensures draw < percent0 ==> r == a
    ensures a != b && r == a ==> draw < percent0
  {
    if draw < percent0 then a else b
  }

  /** How many of the draws 0 .. k-1 make the flip as written give 1. */
  function OnesAsWritten(percent0: int, k: nat): nat
  {
    if k == 0 then 0 else OnesAsWritten(percent0, k - 1) + Random01WeightedAsWritten(percent0, k - 1)
  }

  /** How many of the draws 0 .. k-1 make the intended flip give 1. */
  function Ones(percent0: int, k: nat): nat
  {
    if k == 0 then 0 else Ones(percent0, k - 1) + Random01Weighted(percent0, k - 1)
  }

  /** How many of the draws 0 .. k-1 make the weighted choice as written
      give its first value. */
  function FirstsAsWritten(percent0: int, k: nat): nat
  {
    if k == 0 then 0 else FirstsAsWritten(percent0, k - 1) + (if RandomWeightedAsWritten(1, 0, percent0, k - 1) == 1 then 1 else 0)
  }

  /** How many of the draws 0 .. k-1 make the intended choice give its
      first value. */
  function Firsts(percent0: int, k: nat): nat
  {
    if k == 0 then 0 else Firsts(percent0, k - 1) + (if RandomWeighted(1, 0, percent0, k - 1) == 1 then 1 else 0)
  }

  lemma {:induction false} OnesAsWrittenCount(percent0: nat, k: nat)
    ensures OnesAsWritten(percent0, k) == if k <= percent0 then 0 else k - percent0 - 1
    decreases k
  {
    if k > 0 {
      OnesAsWrittenCount(percent0, k - 1);
    }
  }

  lemma {:induction false} OnesCount(percent0: nat, k: nat)
    ensures Ones(percent0, k) == if k <= percent0 then 0 else k - percent0
    decreases k
  {
    if k > 0 {
      OnesCount(percent0, k - 1);
    }
  }

  lemma {:induction false} FirstsAsWrittenCount(percent0: nat, k: nat)
    ensures FirstsAsWritten(percent0, k) == if k <= percent0 then 0 else k - percent0 - 1
    decreases k
  {
    if k > 0 {
      FirstsAsWrittenCount(percent0, k - 1);
    }
  }

  lemma {:induction false} FirstsCount(percent0: nat, k: nat)
    ensures Firsts(percent0, k) == if k <= percent0 then k else percent0
    decreases k
  {
    if k > 0 {
      FirstsCount(percent0, k - 1);
    }
  }

  /** Of the `percent0 + percent1` equally likely draws, the flip as written
      gives 1 for only `percent1 - 1`: with (60, 40) that is 39 in 100. */
  lemma Random01WeightedAsWrittenOffByOne(percent0: nat, percent1: nat)
    requires percent1 >= 1
    ensures OnesAsWritten(percent0, percent0 + percent1) == percent1 - 1
  {
    OnesAsWrittenCount(percent0, percent0 + percent1);
  }

  /** The intended flip gives 1 for exactly `percent1` of the draws. */
  lemma Random01WeightedShare(percent0: nat, percent1: nat)
    ensures Ones(percent0, percent0 + percent1) == percent1
  {
    OnesCount(percent0, percent0 + percent1);
  }

  /** The weighted choice as written gives its first value for
      `percent1 - 1` draws, not `percent0`. */
  lemma RandomWeightedAsWrittenSkewed(percent0: nat, percent1: nat)
    requires percent1 >= 1
    ensures FirstsAsWritten(percent0, percent0 + percent1) == percent1 - 1
  {
    FirstsAsWrittenCount(percent0, percent0 + percent1);
  }

  /** The intended choice gives its first value for exactly `percent0`
      draws. */
  lemma RandomWeightedShare(percent0: nat, percent1: nat)
    ensures Firsts(percent0, percent0 + percent1) == percent0
  {
    FirstsCount(percent0, percent0 + percent1);
  }
}
