/** What `PickPotentialNode` can return: the coord of a candidate, none only
    when there are no candidates, and in each mode a candidate whose number
    of neighbouring nodes is extreme (or within one of it in the semi
    modes). */
module BalthazarSelection {
  import opened Hex
  import opened WeightedDraw
  import opened BalthazarModel

  /** Every candidate carries its six flags. */
  predicate SixFlags(sites: seq<Site>)
  {
    forall j :: 0 <= j < |sites| ==> |sites[j].hasNeighbor| == 6
  }

  /** The scan's `minCon` and `maxCon` bound the counts of the candidates
      scanned. */
  lemma {:induction false} ConBounds(sites: seq<Site>, k: nat)
    requires k <= |sites|
    ensures forall j :: 0 <= j < k ==> MinConUpTo(sites, k) <= SiteCount(sites[j]) <= MaxConUpTo(sites, k)
    ensures MinConUpTo(sites, k) <= 7 && MaxConUpTo(sites, k) >= 0
  {
    if k > 0 {
      ConBounds(sites, k - 1);
    }
  }

  /** Once a candidate is scanned, `maxCon` is the count of one of them. */
  lemma {:induction false} MaxAttained(sites: seq<Site>, k: nat) returns (j: int)
    requires 0 < k <= |sites|
    ensures 0 <= j < k && SiteCount(sites[j]) == MaxConUpTo(sites, k)
  {
    if k == 1 {
      j := 0;
    } else {
      j := MaxAttained(sites, k - 1);
      if SiteCount(sites[k - 1]) >= MaxConUpTo(sites, k - 1) {
        j := k - 1;
      }
    }
  }

  /** Once a candidate with at most six flags set is scanned, `minCon` is
      the count of one of them (its start value 7 is never kept). */
  lemma {:induction false} MinAttained(sites: seq<Site>, k: nat) returns (j: int)
    requires 0 < k <= |sites| && SixFlags(sites)
    ensures 0 <= j < k && SiteCount(sites[j]) == MinConUpTo(sites, k)
  {
    if k == 1 {
      j := 0;
    } else {
      j := MinAttained(sites, k - 1);
      if SiteCount(sites[k - 1]) <= MinConUpTo(sites, k - 1) {
        j := k - 1;
      }
    }
  }

  /** Every pool entry is a scanned candidate that its mode's filter admits
      with that candidate's own draw. */
  lemma {:induction false} PoolUpToSound(sites: seq<Site>, mode: Mode, minCon: int, maxCon: int, draws: seq<int>, k: nat)
    requires k <= |sites| && |draws| == |sites|
    ensures forall i :: 0 <= i < |PoolUpTo(sites, mode, minCon, maxCon, draws, k)| ==>
      exists j :: 0 <= j < k && PoolUpTo(sites, mode, minCon, maxCon, draws, k)[i] == sites[j] &&
        Admits(mode, SiteCount(sites[j]), minCon, maxCon, draws[j])
  {
    if k > 0 {
      PoolUpToSound(sites, mode, minCon, maxCon, draws, k - 1);
      var prev := PoolUpTo(sites, mode, minCon, maxCon, draws, k - 1);
      var pool := PoolUpTo(sites, mode, minCon, maxCon, draws, k);
      forall i | 0 <= i < |PoolUpTo(sites, mode, minCon, maxCon, draws, k)|
        ensures exists j ::
          0 <= j < k && PoolUpTo(sites, mode, minCon, maxCon, draws, k)[i] == sites[j] && Admits(mode, SiteCount(sites[j]), minCon, maxCon, draws[j])
      {
        if i < |prev| {
          assert pool[i] == prev[i];
          var j :| 0 <= j < k - 1 && prev[i] == sites[j] && Admits(mode, SiteCount(sites[j]), minCon, maxCon, draws[j]);
          assert 0 <= j < k && pool[i] == sites[j];
        } else {
          assert pool == prev + [sites[k - 1]];
          assert pool[i] == sites[k - 1];
          assert Admits(mode, SiteCount(sites[k - 1]), minCon, maxCon, draws[k - 1]);
        }
      }
    } else {
      assert PoolUpTo(sites, mode, minCon, maxCon, draws, k) == [];
    }
  }

  /** Every scanned candidate that the filter admits is in the pool. */
  lemma {:induction false} PoolUpToComplete(sites: seq<Site>, mode: Mode, minCon: int, maxCon: int, draws: seq<int>, k: nat)
    requires k <= |sites| && |draws| == |sites|
    ensures forall j :: 0 <= j < k && Admits(mode, SiteCount(sites[j]), minCon, maxCon, draws[j]) ==>
      sites[j] in PoolUpTo(sites, mode, minCon, maxCon, draws, k)
  {
    if k > 0 {
      PoolUpToComplete(sites, mode, minCon, maxCon, draws, k - 1);
    }
  }

  /** A candidate whose count is the extreme the mode looks for passes the
      filter whatever its draw, so the pool is empty only when there are no
      candidates. */
  lemma PoolEmpty(sites: seq<Site>, mode: Mode, draws: seq<int>)
    requires |draws| == |sites| && SixFlags(sites)
    ensures |Pool(sites, mode, draws)| == 0 <==> |sites| == 0
  {
    if |sites| > 0 && mode != Random {
      var (minCon, maxCon) := Bounds(sites, mode);
      var j: int;
      if mode == Structural || mode == SemiStructural {
        j := MaxAttained(sites, |sites|);
      } else {
        j := MinAttained(sites, |sites|);
      }
      assert Admits(mode, SiteCount(sites[j]), minCon, maxCon, draws[j]);
      PoolUpToComplete(sites, mode, minCon, maxCon, draws, |sites|);
    }
  }

  /** Candidate j has the count its mode looks for: the most neighbouring
      nodes in `Structural` mode, the fewest in `Chaotic` mode, within one
      of them in the semi modes, anything in `Random` mode. */
  predicate Extreme(sites: seq<Site>, mode: Mode, j: int)
    requires 0 <= j < |sites|
  {
    (mode == Structural ==> forall l :: 0 <= l < |sites| ==> SiteCount(sites[l]) <= SiteCount(sites[j])) &&
    (mode == SemiStructural ==> forall l :: 0 <= l < |sites| ==> SiteCount(sites[l]) <= SiteCount(sites[j]) + 1) &&
    (mode == SemiChaotic ==> forall l :: 0 <= l < |sites| ==> SiteCount(sites[j]) <= SiteCount(sites[l]) + 1) &&
    (mode == Chaotic ==> forall l :: 0 <= l < |sites| ==> SiteCount(sites[j]) <= SiteCount(sites[l]))
  }

  /** A candidate the filter admits against the scanned bounds has the
      count its mode looks for. */
  lemma AdmittedExtreme(sites: seq<Site>, mode: Mode, draws: seq<int>, j: int)
    requires |draws| == |sites| && 0 <= j < |sites|
    requires Admits(mode, SiteCount(sites[j]), Bounds(sites, mode).0, Bounds(sites, mode).1, draws[j])
    ensures Extreme(sites, mode, j)
  {
    ConBounds(sites, |sites|);
  }

  /** `PickPotentialNode` returns the coord of a candidate, and none only
      when there are no candidates. The candidate has the most neighbouring
      nodes in `Structural` mode and the fewest in `Chaotic` mode; the semi
      modes stay within one of that. */
  lemma PickedSite(sites: seq<Site>, mode: Mode, draws: seq<int>, pick: int)
    requires |draws| == |sites| && SixFlags(sites)
    requires |Pool(sites, mode, draws)| > 0 ==> 0 <= pick < |Pool(sites, mode, draws)|
    ensures Picked(sites, mode, draws, pick) == None <==> |sites| == 0
    ensures Picked(sites, mode, draws, pick).Some? ==>
      exists j :: 0 <= j < |sites| && sites[j].coord == Picked(sites, mode, draws, pick).value &&
        Extreme(sites, mode, j)
  {
    PoolEmpty(sites, mode, draws);
    var pool := Pool(sites, mode, draws);
    if |pool| > 0 {
      var (minCon, maxCon) := Bounds(sites, mode);
      var j: int;
      if mode == Random {
        j := pick;
      } else {
        PoolUpToSound(sites, mode, minCon, maxCon, draws, |sites|);
        j :| 0 <= j < |sites| && pool[pick] == sites[j] && Admits(mode, SiteCount(sites[j]), minCon, maxCon, draws[j]);
        AdmittedExtreme(sites, mode, draws, j);
      }
      assert sites[j].coord == Picked(sites, mode, draws, pick).value;
    }
  }
}
