/** The map generator's two loops over the graph, with every draw explicit.

    In set-up a fresh graph gets its first triangle, then each round
    materializes the candidate that `PickPotentialNode` returns. Every graph
    reached this way is a growing lattice whose ids are exactly the list
    positions 0 .. nodeCount-1, which the id-as-index overloads of the graph
    rely on.

    In edge loss each round deletes the edge between two drawn nodes; links
    stay symmetric and no live node is left isolated. */
module BalthazarSetup {
  import opened Hex
  import opened BalthazarModel
  import opened BalthazarInvariants
  import opened BalthazarTriangle
  import opened BalthazarSelection
  import opened BalthazarDeletion

  /** The draws of one round: one per candidate for the semi modes' coin
      flips, and the index into the pool. */
  datatype Round = Round(draws: seq<int>, pick: int)

  /** Whether a round's draws are ones `Random.Range` can return for the
      graph as it stands: each flip's draw in 0 .. 99, the pick inside the
      pool. */
  predicate Drawable(s: State, mode: Mode, round: Round)
  {
    |round.draws| == |s.sites| &&
    (forall j :: 0 <= j < |round.draws| ==> 0 <= round.draws[j] < 100) &&
    0 <= round.pick < |Pool(s.sites, mode, round.draws)|
  }

  /** The rounds of `MG_SetupNodes` from s. The loop stops at the first
      round whose draws cannot occur, where the C# would have thrown on an
      empty pool. */
  function Grown(s: State, mode: Mode, rounds: seq<Round>): (r: State)
    requires WellFormed(s)
    ensures WellFormed(r)
    decreases |rounds|
  {
    if rounds == [] || !Drawable(s, mode, rounds[0]) then s
    else
      match Picked(s.sites, mode, rounds[0].draws, rounds[0].pick)
      case None => s
      case Some(c) => Grown(Materialized(s, c).1, mode, rounds[1..])
  }

  /** The node list is the ids 0 .. nodeCount-1 in order. */
  predicate IdsAreIndices(s: State)
  {
    |s.nodes| == s.nodeCount && forall k :: 0 <= k < |s.nodes| ==> s.nodes[k] == k
  }

  /** The candidates of a growing lattice carry six flags each. */
  lemma GrowthSixFlags(s: State)
    requires Growth(s)
    ensures SixFlags(s.sites)
  {
    forall j | 0 <= j < |s.sites| ensures |s.sites[j].hasNeighbor| == 6 {
      assert SiteShape(s.sites[j], |s.store|);
    }
  }

  /** Materializing a candidate of a growing lattice whose ids are list
      positions appends the next id, so the ids are list positions again. */
  lemma MaterializedIds(s: State, c: Coord)
    requires Growth(s) && IdsAreIndices(s) && SiteIndex(s.sites, c) != -1
    ensures var r := Materialized(s, c);
      r.0 && Growth(r.1) && IdsAreIndices(r.1) && r.1.nodeCount == s.nodeCount + 1
  {
    MaterializedGrowth(s, c);
    var r := Materialized(s, c).1;
    assert r.nodes == s.nodes + [s.nodeCount];
    forall k | 0 <= k < |r.nodes| ensures r.nodes[k] == k {
      if k < |s.nodes| { assert r.nodes[k] == s.nodes[k]; }
    }
  }

  /** One round from a growing lattice whose ids are list positions: the
      pick names a candidate, so the materialization succeeds, and both
      facts hold again. */
  lemma RoundKeeps(s: State, mode: Mode, round: Round)
    requires Growth(s) && IdsAreIndices(s) && Drawable(s, mode, round)
    ensures Picked(s.sites, mode, round.draws, round.pick).Some?
    ensures var c := Picked(s.sites, mode, round.draws, round.pick).value;
      var r := Materialized(s, c);
      r.0 && Growth(r.1) && IdsAreIndices(r.1) && r.1.nodeCount == s.nodeCount + 1
  {
    GrowthSixFlags(s);
    PickedSite(s.sites, mode, round.draws, round.pick);
    var c := Picked(s.sites, mode, round.draws, round.pick).value;
    assert SiteIndex(s.sites, c) != -1;
    MaterializedIds(s, c);
  }

  /** Any number of rounds keeps a growing lattice with ids as list
      positions, and spends one id per round played. */
  lemma {:induction false} GrownKeeps(s: State, mode: Mode, rounds: seq<Round>)
    requires Growth(s) && IdsAreIndices(s)
    ensures var r := Grown(s, mode, rounds);
      Growth(r) && IdsAreIndices(r) && s.nodeCount <= r.nodeCount <= s.nodeCount + |rounds|
    decreases |rounds|
  {
    if rounds != [] && Drawable(s, mode, rounds[0]) {
      RoundKeeps(s, mode, rounds[0]);
      var c := Picked(s.sites, mode, rounds[0].draws, rounds[0].pick).value;
      GrownKeeps(Materialized(s, c).1, mode, rounds[1..]);
    }
  }

  /** The first triangle's ids are its list positions. */
  lemma TriangleIds()
    ensures IdsAreIndices(Triangle())
  {
  }

  /** `MG_SetupNodes`: every graph the set-up builds is a growing lattice
      with ids 0 .. nodeCount-1 as its node list, at least the triangle's
      three nodes and at most one more per round. */
  lemma SetupGrowth(mode: Mode, rounds: seq<Round>)
    ensures var r := Grown(WithTriangle(EmptyGraph), mode, rounds);
      Growth(r) && IdsAreIndices(r) && 3 <= r.nodeCount <= 3 + |rounds|
  {
    TriangleIsRule();
    TriangleGrowsRule();
    TriangleIds();
    GrownKeeps(Triangle(), mode, rounds);
  }

  /** `MG_LoseEdges`: each round deletes the edge between the live nodes at
      two drawn list positions, if there is one. The loop stops at the
      first pair of draws outside the list, which `Random.Range` cannot
      return (on an empty list the C# would throw). */
  function EdgesLost(s: State, pairs: seq<(int, int)>): (r: State)
    requires WellFormed(s)
    ensures WellFormed(r) && r.sites == s.sites && |r.store| == |s.store|
    decreases |pairs|
  {
    if pairs == [] || !(0 <= pairs[0].0 < |s.nodes| && 0 <= pairs[0].1 < |s.nodes|) then s
    else
      var n1, n2 := s.nodes[pairs[0].0], s.nodes[pairs[0].1];
      DeletedEdgeShape(s, n1, n2);
      EdgesLost(DeletedEdge(s, n1, n2), pairs[1..])
  }

  /** However many edges are lost, adjacency stays symmetric and spatially
      consistent and no live node is left without a link. */
  lemma {:induction false} EdgesLostKeeps(s: State, pairs: seq<(int, int)>)
    requires Linkage(s) && NoIsolated(s)
    ensures Linkage(EdgesLost(s, pairs)) && NoIsolated(EdgesLost(s, pairs))
    decreases |pairs|
  {
    if pairs != [] && 0 <= pairs[0].0 < |s.nodes| && 0 <= pairs[0].1 < |s.nodes| {
      var n1, n2 := s.nodes[pairs[0].0], s.nodes[pairs[0].1];
      DeletedEdgeLinkage(s, n1, n2);
      EdgesLostKeeps(DeletedEdge(s, n1, n2), pairs[1..]);
    }
  }
}
