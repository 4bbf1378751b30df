/** The value-level model of the Balthazar graph: the records the graph
    keeps, one specification function per graph operation, and the
    invariants of a growing lattice.

    The C# `Node` and `PotentialNode` are structs whose flag and neighbour
    arrays are shared by every copy, so a write through any copy is seen
    through all of them. The model therefore keeps every node ever built in
    an arena indexed by id (`store`), names neighbours by id, and lists the
    live nodes (`nodes`) by id in list order. */
module BalthazarModel {
  import opened Hex
  import opened WeightedDraw

  /** A node's shared state: its coord, its `hasNeighbor` flags and the ids
      of the node copies in its `neighbors` array. */
  datatype NodeRec = NodeRec(coord: Coord, hasNeighbor: seq<bool>, neighbors: seq<int>)

  /** A candidate site (`PotentialNode`): flag d says a node was found at
      coord + Delta(d); `neighbors[d]` is that node's id. */
  datatype Site = Site(coord: Coord, hasNeighbor: seq<bool>, neighbors: seq<int>)

  /** The graph: the live node list (ids, in list order), every node record
      by id, the candidate list and the id counter `nodeCount`. */
  datatype State = State(nodes: seq<int>, store: seq<NodeRec>, sites: seq<Site>, nodeCount: int)

  const NoFlags: seq<bool> := [false, false, false, false, false, false]
  /** A fresh `Node[6]` holds default structs, whose id is 0. */
  const NoIds: seq<int> := [0, 0, 0, 0, 0, 0]

  /** `new Node(id)` before any link: coord (0,0), no flags. */
  const BlankNode := NodeRec(Zero, NoFlags, NoIds)

  /** `new PotentialNode(0)` placed at c. */
  function BlankSite(c: Coord): Site
  {
    Site(c, NoFlags, NoIds)
  }

  const EmptyGraph := State([], [], [], 0)

  // ---------------------------------------------------------------- shapes

  predicate RecShape(r: NodeRec, n: int)
  {
    |r.hasNeighbor| == 6 && |r.neighbors| == 6 &&
    forall d: Dir :: r.hasNeighbor[d] ==> 0 <= r.neighbors[d] < n
  }

  predicate SiteShape(p: Site, n: int)
  {
    |p.hasNeighbor| == 6 && |p.neighbors| == 6 &&
    forall d: Dir :: p.hasNeighbor[d] ==> 0 <= p.neighbors[d] < n
  }

  predicate IdsIn(nodes: seq<int>, n: int)
  {
    forall k :: 0 <= k < |nodes| ==> 0 <= nodes[k] < n
  }

  /** The representation invariant every operation relies on: one record
      per id handed out, six flags everywhere, every id in range. */
  predicate WellFormed(s: State)
  {
    |s.store| == s.nodeCount &&
    (forall id :: 0 <= id < |s.store| ==> RecShape(s.store[id], |s.store|)) &&
    IdsIn(s.nodes, |s.store|) &&
    (forall k :: 0 <= k < |s.sites| ==> SiteShape(s.sites[k], |s.store|))
  }

  // ------------------------------------------------------------ node lookup

  /** `FindNodeAtCoord`: the id of the LAST live node at c, or -1. */
  function NodeAt(nodes: seq<int>, store: seq<NodeRec>, c: Coord): (r: int)
    requires IdsIn(nodes, |store|)
    ensures r == -1 <==> forall k :: 0 <= k < |nodes| ==> store[nodes[k]].coord != c
    ensures r != -1 ==> r in nodes && store[r].coord == c
    ensures r != -1 ==>
      exists k :: 0 <= k < |nodes| && nodes[k] == r &&
        forall j :: k < j < |nodes| ==> store[nodes[j]].coord != c
    decreases |nodes|
  {
    if nodes == [] then -1
    else if store[nodes[|nodes| - 1]].coord == c then nodes[|nodes| - 1]
    else NodeAt(nodes[..|nodes| - 1], store, c)
  }

  /** A live node sits at c. */
  predicate Occupied(s: State, c: Coord)
    requires IdsIn(s.nodes, |s.store|)
  {
    exists k :: 0 <= k < |s.nodes| && s.store[s.nodes[k]].coord == c
  }

  // -------------------------------------------------------- candidate sites

  /** `HexPotentialNode`: sets flag d (and its neighbour id) for every
      direction with a live node; a flag is never cleared. */
  function Hexed(nodes: seq<int>, store: seq<NodeRec>, p: Site): (h: Site)
    requires IdsIn(nodes, |store|)
    requires |p.hasNeighbor| == 6 && |p.neighbors| == 6
    ensures h.coord == p.coord && |h.hasNeighbor| == 6 && |h.neighbors| == 6
    ensures forall d: Dir :: p.hasNeighbor[d] ==> h.hasNeighbor[d]
    ensures forall d: Dir :: h.hasNeighbor[d] && !p.hasNeighbor[d] ==>
      h.neighbors[d] in nodes && store[h.neighbors[d]].coord == Add(p.coord, Delta(d))
  {
    Site(p.coord,
         seq(6, i requires 0 <= i < 6 =>
           NodeAt(nodes, store, Add(p.coord, Delta(i as Dir))) != -1 || p.hasNeighbor[i]),
         seq(6, i requires 0 <= i < 6 =>
           var found := NodeAt(nodes, store, Add(p.coord, Delta(i as Dir)));
           if found != -1 then found else p.neighbors[i]))
  }

  /** `MergePotentialNodes(mergeThis, intoThis)`: ORs the flags of
      `mergeThis` into `intoThis`, taking its neighbour ids where it is
      flagged. */
  function Merged(m: Site, into: Site): (r: Site)
    requires |m.hasNeighbor| == 6 && |m.neighbors| == 6
    requires |into.hasNeighbor| == 6 && |into.neighbors| == 6
    ensures r.coord == into.coord && |r.hasNeighbor| == 6 && |r.neighbors| == 6
    ensures forall d: Dir :: r.hasNeighbor[d] == (into.hasNeighbor[d] || m.hasNeighbor[d])
    ensures forall d: Dir :: r.hasNeighbor[d] ==>
      (m.hasNeighbor[d] && r.neighbors[d] == m.neighbors[d]) || (into.hasNeighbor[d] && r.neighbors[d] == into.neighbors[d])
  {
    Site(into.coord,
         seq(6, i requires 0 <= i < 6 => into.hasNeighbor[i] || m.hasNeighbor[i]),
         seq(6, i requires 0 <= i < 6 => if m.hasNeighbor[i] then m.neighbors[i] else into.neighbors[i]))
  }

  /** `FindPotentialNode(c)`: the position of the FIRST candidate at c, or -1. */
  function SiteIndex(sites: seq<Site>, c: Coord): (k: int)
    ensures -1 <= k < |sites|
    ensures k == -1 <==> forall j :: 0 <= j < |sites| ==> sites[j].coord != c
    ensures k != -1 ==> sites[k].coord == c && forall j :: 0 <= j < k ==> sites[j].coord != c
    decreases |sites|
  {
    if sites == [] then -1
    else if sites[0].coord == c then 0
    else
      var k := SiteIndex(sites[1..], c);
      if k == -1 then -1 else k + 1
  }

  /** `potentialNodes.Remove(pn)`: drops the first candidate whose coord
      equals pn's (`PotentialNode.==` compares coords only). */
  function RemoveSite(sites: seq<Site>, c: Coord): (r: seq<Site>)
    ensures SiteIndex(sites, c) == -1 ==> r == sites
    ensures SiteIndex(sites, c) != -1 ==> |r| == |sites| - 1
  {
    var k := SiteIndex(sites, c);
    if k == -1 then sites else sites[..k] + sites[k + 1..]
  }

  /** The list part of `AddPotentialNode`: every candidate at pn's coord
      absorbs pn's flags; pn is appended only when none is there. */
  function InsertSite(sites: seq<Site>, pn: Site): (r: seq<Site>)
    requires forall k :: 0 <= k < |sites| ==> |sites[k].hasNeighbor| == 6 && |sites[k].neighbors| == 6
    requires |pn.hasNeighbor| == 6 && |pn.neighbors| == 6
    ensures |sites| <= |r| <= |sites| + 1 && SiteIndex(r, pn.coord) != -1
  {
    if SiteIndex(sites, pn.coord) == -1 then
      assert (sites + [pn])[|sites|] == pn;
      sites + [pn]
    else
      var r := seq(|sites|, k requires 0 <= k < |sites| =>
        if sites[k].coord == pn.coord then Merged(pn, sites[k]) else sites[k]);
      assert r[SiteIndex(sites, pn.coord)].coord == pn.coord;
      r
  }

  /** `AddPotentialNode(n, dir)`: a candidate at n's coord + Delta(dir),
      with its occupancy derived, merged or appended. */
  function WithSite(s: State, n: int, dir: Dir): (r: State)
    requires WellFormed(s) && 0 <= n < |s.store|
    ensures r.nodes == s.nodes && r.store == s.store && r.nodeCount == s.nodeCount
    ensures SiteIndex(r.sites, Add(s.store[n].coord, Delta(dir))) != -1
  {
    var pn := Hexed(s.nodes, s.store, BlankSite(Add(s.store[n].coord, Delta(dir))));
    s.(sites := InsertSite(s.sites, pn))
  }

  /** The `foreach` after a materialization: every candidate re-derived. */
  function Refreshed(nodes: seq<int>, store: seq<NodeRec>, sites: seq<Site>): (r: seq<Site>)
    requires IdsIn(nodes, |store|)
    requires forall k :: 0 <= k < |sites| ==> |sites[k].hasNeighbor| == 6 && |sites[k].neighbors| == 6
    ensures |r| == |sites| && forall k :: 0 <= k < |r| ==> r[k].coord == sites[k].coord
  {
    seq(|sites|, k requires 0 <= k < |sites| => Hexed(nodes, store, sites[k]))
  }

  // ------------------------------------------------------------ node list

  /** `AddNode()`: a blank node with the next id, appended to the list. */
  function WithNode(s: State): (r: State)
    ensures r.nodes == s.nodes + [s.nodeCount]
    ensures |r.store| == |s.store| + 1 && r.nodeCount == s.nodeCount + 1 && r.sites == s.sites
  {
    State(s.nodes + [s.nodeCount], s.store + [BlankNode], s.sites, s.nodeCount + 1)
  }

  /** `AddNodes(k)`: k blank nodes (none when k is not positive). */
  function WithNodes(s: State, k: int): (r: State)
    ensures var n := if k <= 0 then 0 else k;
      |r.nodes| == |s.nodes| + n && r.nodeCount == s.nodeCount + n && |r.store| == |s.store| + n && r.sites == s.sites
    decreases k
  {
    if k <= 0 then s else WithNode(WithNodes(s, k - 1))
  }

  // ----------------------------------------------------------------- links

  /** `LinkNodes(ref n1, ref n2, d)`: flags d on n1 and Opposite(d) on n2,
      each naming the other, and moves n2 to c1 + Delta(d), where c1 is the
      coord held by the n1 copy passed in. */
  function Linked(store: seq<NodeRec>, n1: int, c1: Coord, n2: int, d: Dir): (r: seq<NodeRec>)
    requires 0 <= n1 < |store| && 0 <= n2 < |store|
    requires forall id :: 0 <= id < |store| ==> RecShape(store[id], |store|)
    ensures |r| == |store|
    ensures RecShape(r[n1], |r|) && RecShape(r[n2], |r|)
    ensures r[n1].hasNeighbor[d] && r[n1].neighbors[d] == n2
    ensures r[n2].hasNeighbor[Opposite(d)] && r[n2].neighbors[Opposite(d)] == n1 && r[n2].coord == Add(c1, Delta(d))
  {
    assert RecShape(store[n1], |store|) && RecShape(store[n2], |store|);
    var r1 := store[n1].(hasNeighbor := store[n1].hasNeighbor[d := true],
                         neighbors := store[n1].neighbors[d := n2]);
    var st := store[n1 := r1];
    var o := Opposite(d);
    var r2 := st[n2].(coord := Add(c1, Delta(d)),
                      hasNeighbor := st[n2].hasNeighbor[o := true],
                      neighbors := st[n2].neighbors[o := n1]);
    st[n2 := r2]
  }

  lemma LinkedShape(store: seq<NodeRec>, n1: int, c1: Coord, n2: int, d: Dir)
    requires 0 <= n1 < |store| && 0 <= n2 < |store|
    requires forall id :: 0 <= id < |store| ==> RecShape(store[id], |store|)
    ensures var st := Linked(store, n1, c1, n2, d);
      |st| == |store| && forall id :: 0 <= id < |st| ==> RecShape(st[id], |st|)
  {
  }

  /** The first k steps of the linking loop of `MaterializePotentialNode`:
      for each flagged direction i of pn, the neighbour copy (at pn's coord
      + Delta(i)) is linked to the new node `id` in direction Opposite(i). */
  function LinkUpTo(store: seq<NodeRec>, pn: Site, id: int, k: nat): (st: seq<NodeRec>)
    requires k <= 6 && 0 <= id < |store|
    requires forall j :: 0 <= j < |store| ==> RecShape(store[j], |store|)
    requires SiteShape(pn, |store|)
    ensures |st| == |store| && forall j :: 0 <= j < |st| ==> RecShape(st[j], |st|)
  {
    if k == 0 then store
    else
      var prev := LinkUpTo(store, pn, id, k - 1);
      var i := (k - 1) as Dir;
      if pn.hasNeighbor[i] then
        LinkedShape(prev, pn.neighbors[i], Add(pn.coord, Delta(i)), id, Opposite(i));
        Linked(prev, pn.neighbors[i], Add(pn.coord, Delta(i)), id, Opposite(i))
      else prev
  }

  /** `LinkNodes(n1id, n2id, d)`: links the nodes at two list positions;
      the first one's coord is read from the list. */
  function LinkedAt(s: State, i1: int, i2: int, d: Dir): (r: State)
    requires WellFormed(s) && 0 <= i1 < |s.nodes| && 0 <= i2 < |s.nodes|
    ensures r.nodes == s.nodes && r.sites == s.sites && r.nodeCount == s.nodeCount && |r.store| == |s.store|
    ensures r.store[s.nodes[i2]].coord == Add(s.store[s.nodes[i1]].coord, Delta(d))
    ensures RecShape(r.store[s.nodes[i1]], |r.store|) && RecShape(r.store[s.nodes[i2]], |r.store|)
    ensures r.store[s.nodes[i1]].neighbors[d] == s.nodes[i2] && r.store[s.nodes[i2]].neighbors[Opposite(d)] == s.nodes[i1]
  {
    s.(store := Linked(s.store, s.nodes[i1], s.store[s.nodes[i1]].coord, s.nodes[i2], d))
  }

  /** `GenerateFirstTriangle()` run on any graph: three new nodes, the links
      among list positions 0, 1 and 2, and a candidate beyond each. */
  function WithTriangle(s: State): (r: State)
    requires WellFormed(s)
    ensures WellFormed(r) && |r.store| == |s.store| + 3
  {
    var s0 := WithNodes(s, 3);
    WithNodesShape(s, 3);
    var s1 := LinkedAt(s0, 0, 1, UR);
    LinkedShape(s0.store, s0.nodes[0], s0.store[s0.nodes[0]].coord, s0.nodes[1], UR);
    var s2 := LinkedAt(s1, 1, 2, DR);
    LinkedShape(s1.store, s1.nodes[1], s1.store[s1.nodes[1]].coord, s1.nodes[2], DR);
    var s3 := LinkedAt(s2, 0, 2, R);
    LinkedShape(s2.store, s2.nodes[0], s2.store[s2.nodes[0]].coord, s2.nodes[2], R);
    var s4 := WithSite(s3, s3.nodes[0], UL);
    WithSiteShape(s3, s3.nodes[0], UL);
    var s5 := WithSite(s4, s4.nodes[1], R);
    WithSiteShape(s4, s4.nodes[1], R);
    WithSiteShape(s5, s5.nodes[2], DL);
    WithSite(s5, s5.nodes[2], DL)
  }

  lemma {:induction false} WithNodesShape(s: State, k: int)
    requires WellFormed(s)
    ensures var r := WithNodes(s, k);
      WellFormed(r) && |r.nodes| == |s.nodes| + (if k <= 0 then 0 else k)
    decreases k
  {
    if k > 0 {
      WithNodesShape(s, k - 1);
      var p := WithNodes(s, k - 1);
      var r := WithNode(p);
      forall id | 0 <= id < |r.store| ensures RecShape(r.store[id], |r.store|) {
        if id < |p.store| { assert RecShape(p.store[id], |p.store|); }
      }
      forall j | 0 <= j < |r.sites| ensures SiteShape(r.sites[j], |r.store|) {
        assert SiteShape(p.sites[j], |p.store|);
      }
    }
  }

  // ------------------------------------------------------------- frontier

  /** `fpn` after the loop has seen directions below k: Prev(i) for the
      first flagged i whose Prev(i) is unflagged, or -1. */
  function FirstGapUpTo(f: seq<bool>, k: nat): (g: int)
    requires |f| == 6 && k <= 6
    ensures -1 <= g < 6
  {
    if k == 0 then -1
    else
      var g := FirstGapUpTo(f, k - 1);
      var i := (k - 1) as Dir;
      if f[i] && g == -1 && !f[Prev(i)] then Prev(i) as int else g
  }

  /** `lpn` after the loop has seen directions below k: Next(i) for the
      last flagged i whose Next(i) is unflagged, or -1. */
  function LastGapUpTo(f: seq<bool>, k: nat): (g: int)
    requires |f| == 6 && k <= 6
    ensures -1 <= g < 6
  {
    if k == 0 then -1
    else
      var g := LastGapUpTo(f, k - 1);
      var i := (k - 1) as Dir;
      if f[i] && !f[Next(i)] then Next(i) as int else g
  }

  // -------------------------------------------------------- materialization

  /** The first half of `MaterializePotentialNode(c)` when a candidate pn
      is at c: pn leaves the list, the next id is spent on a new node, each
      neighbour pn flags is linked to it, and it joins the node list. */
  function Placed(s: State, c: Coord): (r: State)
    requires WellFormed(s) && SiteIndex(s.sites, c) != -1
    ensures WellFormed(r) && r.nodeCount == s.nodeCount + 1
  {
    var pn := s.sites[SiteIndex(s.sites, c)];
    var id := s.nodeCount;
    var store0 := s.store + [BlankNode];
    StoreGrowsShape(s);
    var r := State(s.nodes + [id], LinkUpTo(store0, pn, id, 6), RemoveSite(s.sites, c), s.nodeCount + 1);
    RemoveSiteShape(s.sites, c, |s.store|, |store0|);
    r
  }

  /** `MaterializePotentialNode(c)`. Without a candidate at c the lookup
      yields a default candidate (coord (0,0), no arrays): the first
      candidate at (0,0) is removed, an id is spent on a node that is never
      added, and the flag read then fails, so the result is `false`. With
      one, the node is placed, every candidate is re-derived, and a new
      candidate is added beyond each of the two gaps found by the scan. */
  function Materialized(s: State, c: Coord): (r: (bool, State))
    requires WellFormed(s)
    ensures WellFormed(r.1) && r.1.nodeCount == s.nodeCount + 1
    ensures r.0 <==> SiteIndex(s.sites, c) != -1
  {
    var k := SiteIndex(s.sites, c);
    var id := s.nodeCount;
    if k == -1 then
      assert WellFormed(State(s.nodes, s.store + [BlankNode], RemoveSite(s.sites, Zero), s.nodeCount + 1)) by {
        StoreGrowsShape(s);
        RemoveSiteShape(s.sites, Zero, |s.store|, |s.store| + 1);
      }
      (false, State(s.nodes, s.store + [BlankNode], RemoveSite(s.sites, Zero), s.nodeCount + 1))
    else
      var pn := s.sites[k];
      var s1 := Placed(s, c);
      var s2 := s1.(sites := Refreshed(s1.nodes, s1.store, s1.sites));
      assert WellFormed(s2) by { RefreshedShape(s1); }
      var f := FirstGapUpTo(pn.hasNeighbor, 6);
      var l := LastGapUpTo(pn.hasNeighbor, 6);
      var s3 := if f != -1 then WithSite(s2, id, f as Dir) else s2;
      assert WellFormed(s3) by { if f != -1 { WithSiteShape(s2, id, f as Dir); } }
      var s4 := if l != -1 then WithSite(s3, id, l as Dir) else s3;
      assert WellFormed(s4) by { if l != -1 { WithSiteShape(s3, id, l as Dir); } }
      (true, s4)
  }

  lemma StoreGrowsShape(s: State)
    requires WellFormed(s)
    ensures var store0 := s.store + [BlankNode];
      forall j :: 0 <= j < |store0| ==> RecShape(store0[j], |store0|)
  {
    var store0 := s.store + [BlankNode];
    forall j | 0 <= j < |store0| ensures RecShape(store0[j], |store0|) {
      if j < |s.store| { assert RecShape(s.store[j], |s.store|); }
    }
  }

  lemma RemoveSiteShape(sites: seq<Site>, c: Coord, n: int, m: int)
    requires n <= m
    requires forall k :: 0 <= k < |sites| ==> SiteShape(sites[k], n)
    ensures var r := RemoveSite(sites, c); forall k :: 0 <= k < |r| ==> SiteShape(r[k], m)
  {
    var r := RemoveSite(sites, c);
    var i := SiteIndex(sites, c);
    forall k | 0 <= k < |r| ensures SiteShape(r[k], m) {
      if i == -1 || k < i { assert r[k] == sites[k]; } else { assert r[k] == sites[k + 1]; }
    }
  }

  lemma RefreshedShape(s: State)
    requires WellFormed(s)
    ensures WellFormed(s.(sites := Refreshed(s.nodes, s.store, s.sites)))
  {
    var r := Refreshed(s.nodes, s.store, s.sites);
    forall k | 0 <= k < |r| ensures SiteShape(r[k], |s.store|) {
      assert SiteShape(s.sites[k], |s.store|);
      forall d: Dir | r[k].hasNeighbor[d] ensures 0 <= r[k].neighbors[d] < |s.store| {
        var found := NodeAt(s.nodes, s.store, Add(s.sites[k].coord, Delta(d)));
        if found != -1 {
          var j :| 0 <= j < |s.nodes| && s.nodes[j] == found;
        }
      }
    }
  }

  lemma HexedShape(s: State, p: Site)
    requires WellFormed(s) && SiteShape(p, |s.store|)
    ensures SiteShape(Hexed(s.nodes, s.store, p), |s.store|)
  {
    var r := Hexed(s.nodes, s.store, p);
    forall d: Dir | r.hasNeighbor[d] ensures 0 <= r.neighbors[d] < |s.store| {
      var found := NodeAt(s.nodes, s.store, Add(p.coord, Delta(d)));
      if found != -1 {
        var j :| 0 <= j < |s.nodes| && s.nodes[j] == found;
      }
    }
  }

  lemma WithSiteShape(s: State, n: int, dir: Dir)
    requires WellFormed(s) && 0 <= n < |s.store|
    ensures WellFormed(WithSite(s, n, dir))
  {
    var pn := Hexed(s.nodes, s.store, BlankSite(Add(s.store[n].coord, Delta(dir))));
    HexedShape(s, BlankSite(Add(s.store[n].coord, Delta(dir))));
    var r := InsertSite(s.sites, pn);
    forall k | 0 <= k < |r| ensures SiteShape(r[k], |s.store|) {
      if k < |s.sites| { assert SiteShape(s.sites[k], |s.store|); }
    }
  }

  // -------------------------------------------------------------- deletion

  /** The edge scan of `DeleteEdge`: the first direction in which r is
      linked to n2 (flag set and the stored id equal to n2), or -1. */
  function EdgeIndex(r: NodeRec, n2: int): (i: int)
    requires |r.hasNeighbor| == 6 && |r.neighbors| == 6
    ensures -1 <= i < 6
    ensures i == -1 <==> forall d: Dir :: !(r.hasNeighbor[d] && r.neighbors[d] == n2)
    ensures i != -1 ==> r.hasNeighbor[i] && r.neighbors[i] == n2
    ensures i != -1 ==> forall d: Dir :: d as int < i ==> !(r.hasNeighbor[d] && r.neighbors[d] == n2)
  {
    EdgeIndexFrom(r, n2, 0)
  }

  function EdgeIndexFrom(r: NodeRec, n2: int, k: nat): (i: int)
    requires |r.hasNeighbor| == 6 && |r.neighbors| == 6 && k <= 6
    ensures i == -1 || k <= i < 6
    ensures i == -1 <==> forall d: Dir :: k <= d as int ==> !(r.hasNeighbor[d] && r.neighbors[d] == n2)
    ensures i != -1 ==> r.hasNeighbor[i] && r.neighbors[i] == n2
    ensures i != -1 ==> forall d: Dir :: k <= d as int < i ==> !(r.hasNeighbor[d] && r.neighbors[d] == n2)
    decreases 6 - k
  {
    if k == 6 then -1
    else if r.hasNeighbor[k] && r.neighbors[k] == n2 then k
    else EdgeIndexFrom(r, n2, k + 1)
  }

  /** The position of the first occurrence of id in the list, or -1. */
  function IdIndex(nodes: seq<int>, id: int): (k: int)
    ensures -1 <= k < |nodes|
    ensures k == -1 <==> id !in nodes
    ensures k != -1 ==> nodes[k] == id && id !in nodes[..k]
    decreases |nodes|
  {
    if nodes == [] then -1
    else if nodes[0] == id then 0
    else
      var k := IdIndex(nodes[1..], id);
      assert k != -1 ==> nodes[1..][..k] == nodes[1..k + 1];
      if k == -1 then -1 else k + 1
  }

  /** `ShredNode(n)`, that is `nodes.Remove(n)`: drops the first list entry
      with n's id (`Node.==` compares ids only). */
  function RemoveId(nodes: seq<int>, id: int): (r: seq<int>)
    ensures id !in nodes ==> r == nodes
    ensures id in nodes ==> |r| == |nodes| - 1
  {
    var k := IdIndex(nodes, id);
    if k == -1 then nodes else nodes[..k] + nodes[k + 1..]
  }

  /** Clears one flag of a record; the stale neighbour id stays behind. */
  function Cleared(r: NodeRec, d: Dir): (c: NodeRec)
    requires |r.hasNeighbor| == 6
    ensures c.coord == r.coord && c.neighbors == r.neighbors && |c.hasNeighbor| == 6 && !c.hasNeighbor[d]
    ensures forall e: Dir :: e != d ==> c.hasNeighbor[e] == r.hasNeighbor[e]
  {
    r.(hasNeighbor := r.hasNeighbor[d := false])
  }

  /** `DeleteEdge(n1, n2)`: with no edge from n1 to n2 nothing changes (the
      source logs an error); otherwise n1's flag i and n2's flag
      Opposite(i) are cleared, and each endpoint left with no flag is
      shredded, n1 first. */
  function DeletedEdge(s: State, n1: int, n2: int): (r: State)
    requires WellFormed(s) && 0 <= n1 < |s.store| && 0 <= n2 < |s.store|
    ensures r.sites == s.sites && r.nodeCount == s.nodeCount && |r.store| == |s.store|
    ensures EdgeIndex(s.store[n1], n2) == -1 ==> r == s
    ensures |r.store[n2].hasNeighbor| == 6
    ensures EdgeIndex(s.store[n1], n2) != -1 ==> !r.store[n2].hasNeighbor[Opposite(EdgeIndex(s.store[n1], n2) as Dir)]
  {
    assert RecShape(s.store[n1], |s.store|) && RecShape(s.store[n2], |s.store|);
    var i := EdgeIndex(s.store[n1], n2);
    if i == -1 then s
    else
      var st1 := s.store[n1 := Cleared(s.store[n1], i as Dir)];
      var nodes1 := if NeighborCount(st1[n1].hasNeighbor) == 0 then RemoveId(s.nodes, n1) else s.nodes;
      var st2 := st1[n2 := Cleared(st1[n2], Opposite(i as Dir))];
      var nodes2 := if NeighborCount(st2[n2].hasNeighbor) == 0 then RemoveId(nodes1, n2) else nodes1;
      s.(nodes := nodes2, store := st2)
  }

  /** The first k steps of the loop of `DeleteNode(n)`: for each direction
      still flagged on n, the edge to the id stored there is deleted. */
  function DeletedNodeUpTo(s: State, n: int, k: nat): (r: State)
    requires WellFormed(s) && 0 <= n < |s.store| && k <= 6
    ensures WellFormed(r) && |r.store| == |s.store| && r.sites == s.sites
    decreases k
  {
    if k == 0 then s
    else
      var prev := DeletedNodeUpTo(s, n, k - 1);
      var i := (k - 1) as Dir;
      assert RecShape(prev.store[n], |prev.store|);
      if prev.store[n].hasNeighbor[i] then
        DeletedEdgeShape(prev, n, prev.store[n].neighbors[i]);
        DeletedEdge(prev, n, prev.store[n].neighbors[i])
      else prev
  }

  lemma RemoveIdMembers(nodes: seq<int>, id: int)
    ensures forall x :: x in RemoveId(nodes, id) ==> x in nodes
    ensures |RemoveId(nodes, id)| == if id in nodes then |nodes| - 1 else |nodes|
  {
    var k := IdIndex(nodes, id);
    if k != -1 {
      var r := nodes[..k] + nodes[k + 1..];
      assert RemoveId(nodes, id) == r;
      assert |r| == |nodes| - 1;
      forall j | 0 <= j < |r| ensures r[j] in nodes {
        if j < k {
          assert r[j] == nodes[j];
        } else {
          assert r[j] == nodes[j + 1];
        }
      }
    }
  }

  lemma DeletedEdgeShape(s: State, n1: int, n2: int)
    requires WellFormed(s) && 0 <= n1 < |s.store| && 0 <= n2 < |s.store|
    ensures var r := DeletedEdge(s, n1, n2);
      WellFormed(r) && |r.store| == |s.store| && r.sites == s.sites && r.nodeCount == s.nodeCount
  {
    DeletedEdgeNodes(s, n1, n2);
    DeletedEdgeRecs(s, n1, n2);
    SameSitesWellFormed(s, DeletedEdge(s, n1, n2));
  }

  /** A state with the same candidates and store size as a well-formed one,
      fewer live ids and shaped records, is well formed. */
  lemma SameSitesWellFormed(s: State, r: State)
    requires WellFormed(s) && r.sites == s.sites && r.nodeCount == s.nodeCount && |r.store| == |s.store|
    requires forall x :: x in r.nodes ==> x in s.nodes
    requires forall id :: 0 <= id < |r.store| ==> RecShape(r.store[id], |r.store|)
    ensures WellFormed(r)
  {
    forall k | 0 <= k < |r.nodes| ensures 0 <= r.nodes[k] < |s.store| {
      var x := r.nodes[k];
      assert x in r.nodes;
    }
  }

  /** Every record keeps its shape when an edge is deleted. */
  lemma DeletedEdgeRecs(s: State, n1: int, n2: int)
    requires WellFormed(s) && 0 <= n1 < |s.store| && 0 <= n2 < |s.store|
    ensures var st := DeletedEdge(s, n1, n2).store;
      forall id :: 0 <= id < |st| ==> RecShape(st[id], |st|)
  {
    assert RecShape(s.store[n1], |s.store|) && RecShape(s.store[n2], |s.store|);
    var i := EdgeIndex(s.store[n1], n2);
    if i != -1 {
      var st1 := s.store[n1 := Cleared(s.store[n1], i as Dir)];
      ClearedShape(s.store, n1, i as Dir);
      ClearedShape(st1, n2, Opposite(i as Dir));
    }
  }

  /** Deleting an edge only ever drops ids from the live list. */
  lemma DeletedEdgeNodes(s: State, n1: int, n2: int)
    requires WellFormed(s) && 0 <= n1 < |s.store| && 0 <= n2 < |s.store|
    ensures forall x :: x in DeletedEdge(s, n1, n2).nodes ==> x in s.nodes
  {
    assert RecShape(s.store[n1], |s.store|);
    if EdgeIndex(s.store[n1], n2) != -1 {
      RemoveIdMembers(s.nodes, n1);
      RemoveIdMembers(RemoveId(s.nodes, n1), n2);
      RemoveIdMembers(s.nodes, n2);
    }
  }

  lemma ClearedShape(store: seq<NodeRec>, n: int, d: Dir)
    requires 0 <= n < |store|
    requires forall id :: 0 <= id < |store| ==> RecShape(store[id], |store|)
    ensures |store[n].hasNeighbor| == 6
    ensures var st := store[n := Cleared(store[n], d)];
      forall id :: 0 <= id < |st| ==> RecShape(st[id], |st|)
  {
    assert RecShape(store[n], |store|);
  }

  // ------------------------------------------------------------ selection

  /** The five selection modes (`pickMode`). */
  datatype Mode = Structural | SemiStructural | Random | SemiChaotic | Chaotic

  datatype Option<T> = None | Some(value: T)

  /** `GetNeighborCount` of a candidate. */
  function SiteCount(p: Site): nat
  {
    NeighborCount(p.hasNeighbor)
  }

  /** `minCon` after the scan of the first k candidates, from 7. */
  function MinConUpTo(sites: seq<Site>, k: nat): (m: int)
    requires k <= |sites|
    ensures m <= 7 && forall j :: 0 <= j < k ==> m <= SiteCount(sites[j])
  {
    if k == 0 then 7 else Min(MinConUpTo(sites, k - 1), SiteCount(sites[k - 1]))
  }

  /** `maxCon` after the scan of the first k candidates, from 0. */
  function MaxConUpTo(sites: seq<Site>, k: nat): (m: int)
    requires k <= |sites|
    ensures m >= 0 && forall j :: 0 <= j < k ==> SiteCount(sites[j]) <= m
  {
    if k == 0 then 0 else Max(MaxConUpTo(sites, k - 1), SiteCount(sites[k - 1]))
  }

  function Min(a: int, b: int): int { if a <= b then a else b }
  function Max(a: int, b: int): int { if a >= b then a else b }

  /** The bounds `PickPotentialNode` filters by: computed over every
      candidate except in `Random` mode, which keeps 7 and 0. */
  function Bounds(sites: seq<Site>, mode: Mode): (b: (int, int))
    ensures mode == Random ==> b == (7, 0)
    ensures mode != Random ==> forall j :: 0 <= j < |sites| ==> b.0 <= SiteCount(sites[j]) <= b.1
  {
    if mode == Random then (7, 0) else (MinConUpTo(sites, |sites|), MaxConUpTo(sites, |sites|))
  }

  /** Whether a candidate with `count` flags enters the pool; the semi modes
      spend the candidate's own draw on `Random01Weighted(60, 40)`, as
      written: the flip is 1 only for draws above 60. */
  predicate Admits(mode: Mode, count: int, minCon: int, maxCon: int, draw: int)
    ensures (mode == Structural || mode == SemiStructural) && count == maxCon ==> Admits(mode, count, minCon, maxCon, draw)
    ensures (mode == SemiChaotic || mode == Chaotic) && count == minCon ==> Admits(mode, count, minCon, maxCon, draw)
    ensures Admits(mode, count, minCon, maxCon, draw) && mode == SemiStructural ==> count >= maxCon - 1
    ensures Admits(mode, count, minCon, maxCon, draw) && mode == SemiChaotic ==> count <= minCon + 1
    ensures mode == SemiStructural && count == maxCon - 1 ==> (Admits(mode, count, minCon, maxCon, draw) <==> draw > 60)
    ensures mode == SemiChaotic && count == minCon + 1 ==> (Admits(mode, count, minCon, maxCon, draw) <==> draw > 60)
  {
    match mode
    case Structural => count == maxCon
    case SemiStructural => count >= maxCon - Random01WeightedAsWritten(60, draw)
    case Random => true
    case SemiChaotic => count <= minCon + Random01WeightedAsWritten(60, draw)
    case Chaotic => count == minCon
  }

  /** The pool built from the first k candidates, in list order. */
  function PoolUpTo(sites: seq<Site>, mode: Mode, minCon: int, maxCon: int, draws: seq<int>, k: nat): (pool: seq<Site>)
    requires k <= |sites| && |draws| == |sites|
    ensures |pool| <= k && forall i :: 0 <= i < |pool| ==> pool[i] in sites[..k]
  {
    if k == 0 then []
    else
      var prev := PoolUpTo(sites, mode, minCon, maxCon, draws, k - 1);
      if Admits(mode, SiteCount(sites[k - 1]), minCon, maxCon, draws[k - 1]) then prev + [sites[k - 1]] else prev
  }

  /** `pnList`: in `Random` mode the candidate list itself. */
  function Pool(sites: seq<Site>, mode: Mode, draws: seq<int>): (pool: seq<Site>)
    requires |draws| == |sites|
    ensures mode == Random ==> pool == sites
    ensures |pool| <= |sites| && forall i :: 0 <= i < |pool| ==> pool[i] in sites
  {
    var (minCon, maxCon) := Bounds(sites, mode);
    if mode == Random then sites else PoolUpTo(sites, mode, minCon, maxCon, draws, |sites|)
  }

  /** `PickPotentialNode(mode)`: the coord of pool entry `pick`; on an
      empty pool the index 0 is out of range and there is no result. */
  function Picked(sites: seq<Site>, mode: Mode, draws: seq<int>, pick: int): (r: Option<Coord>)
    requires |draws| == |sites|
    requires |Pool(sites, mode, draws)| > 0 ==> 0 <= pick < |Pool(sites, mode, draws)|
    ensures |sites| == 0 ==> r == None
    ensures r.Some? ==> exists j :: 0 <= j < |sites| && sites[j].coord == r.value
  {
    var pool := Pool(sites, mode, draws);
    if |pool| == 0 then None else Some(pool[pick].coord)
  }
}
