/** The invariants of a Balthazar lattice and the facts about single steps
    that the preservation proofs are built from. A lattice links every two
    live nodes at neighbouring coords, in both directions, and leaves no live
    node without a link; a growing lattice also keeps each candidate exact:
    one candidate per free coord it names, flagged exactly towards the live
    nodes around it. */
module BalthazarInvariants {
  import opened Hex
  import opened BalthazarModel

  predicate DistinctIds(nodes: seq<int>)
  {
    forall j, k :: 0 <= j < k < |nodes| ==> nodes[j] != nodes[k]
  }

  /** No two live nodes share a coord. */
  predicate DistinctCoords(s: State)
    requires WellFormed(s)
  {
    forall j, k ::
      (0 <= j < |s.nodes| && 0 <= k < |s.nodes| && s.store[s.nodes[j]].coord == s.store[s.nodes[k]].coord) ==>
        s.nodes[j] == s.nodes[k]
  }

  /** Flag d of node a names a live node one step away in direction d,
      which is flagged back towards a. */
  predicate Mutual(s: State, a: int, d: Dir)
    requires WellFormed(s) && 0 <= a < |s.store|
  {
    var r := s.store[a];
    assert RecShape(r, |s.store|);
    r.hasNeighbor[d] ==>
      var b := r.neighbors[d];
      b in s.nodes && s.store[b].coord == Add(r.coord, Delta(d)) &&
      s.store[b].hasNeighbor[Opposite(d)] && s.store[b].neighbors[Opposite(d)] == a
  }

  /** Adjacency is symmetric and spatially consistent. */
  predicate Linkage(s: State)
  {
    WellFormed(s) && DistinctIds(s.nodes) && DistinctCoords(s) &&
    forall k, d: Dir :: 0 <= k < |s.nodes| ==> Mutual(s, s.nodes[k], d)
  }

  /** Every live node has at least one link. */
  predicate NoIsolated(s: State)
    requires WellFormed(s)
  {
    forall k :: 0 <= k < |s.nodes| ==> NeighborCount(s.store[s.nodes[k]].hasNeighbor) > 0
  }

  /** Two live nodes at neighbouring coords are linked. */
  predicate Complete(s: State)
    requires WellFormed(s)
  {
    forall k, d: Dir :: 0 <= k < |s.nodes| && Occupied(s, Add(s.store[s.nodes[k]].coord, Delta(d))) ==>
      s.store[s.nodes[k]].hasNeighbor[d]
  }

  predicate Lattice(s: State)
  {
    Linkage(s) && NoIsolated(s) && Complete(s)
  }

  /** Flag d of candidate p is set exactly when a live node sits one step
      away in direction d, and then names that node. */
  predicate FlagExact(s: State, p: Site, d: Dir)
    requires WellFormed(s) && SiteShape(p, |s.store|)
  {
    (p.hasNeighbor[d] <==> Occupied(s, Add(p.coord, Delta(d)))) &&
    (p.hasNeighbor[d] ==> p.neighbors[d] in s.nodes && s.store[p.neighbors[d]].coord == Add(p.coord, Delta(d)))
  }

  /** A candidate is at a free coord, next to a live node, and exact. */
  predicate SiteOk(s: State, p: Site)
    requires WellFormed(s) && SiteShape(p, |s.store|)
  {
    !Occupied(s, p.coord) && SiteCount(p) > 0 && forall d: Dir :: FlagExact(s, p, d)
  }

  predicate DistinctSites(sites: seq<Site>)
  {
    forall j, k :: 0 <= j < k < |sites| ==> sites[j].coord != sites[k].coord
  }

  /** The invariant of a lattice grown from the first triangle. */
  predicate Growth(s: State)
  {
    Lattice(s) && DistinctSites(s.sites) &&
    forall k :: 0 <= k < |s.sites| ==> SiteOk(s, s.sites[k])
  }

  // ------------------------------------------------------ the linking loop

  /** Step e of the linking loop reaches node x: e is flagged on pn, names
      x, and the loop has passed it. */
  predicate Hit(pn: Site, e: Dir, k: nat, x: int)
    requires |pn.hasNeighbor| == 6 && |pn.neighbors| == 6
  {
    e as int < k && pn.hasNeighbor[e] && pn.neighbors[e] == x
  }

  /** After k steps of the linking loop, a node other than the new one has
      only gained the back-links of the steps that reached it, each in the
      slot opposite to the step's direction; its coord is unchanged. */
  lemma LinkUpToOthers(store: seq<NodeRec>, pn: Site, id: int, k: nat, x: int)
    requires k <= 6 && 0 <= id < |store| && 0 <= x < |store| && x != id
    requires forall j :: 0 <= j < |store| ==> RecShape(store[j], |store|)
    requires SiteShape(pn, |store|)
    ensures var st := LinkUpTo(store, pn, id, k);
      st[x].coord == store[x].coord &&
      forall d: Dir :: st[x].hasNeighbor[d] == (store[x].hasNeighbor[d] || Hit(pn, Opposite(d), k, x)) &&
        st[x].neighbors[d] == (if Hit(pn, Opposite(d), k, x) then id else store[x].neighbors[d])
  {
    forall d: Dir
      ensures var st := LinkUpTo(store, pn, id, k);
        st[x].coord == store[x].coord &&
        st[x].hasNeighbor[d] == (store[x].hasNeighbor[d] || Hit(pn, Opposite(d), k, x)) &&
        st[x].neighbors[d] == (if Hit(pn, Opposite(d), k, x) then id else store[x].neighbors[d])
    {
      LinkUpToOtherAt(store, pn, id, k, x, d);
    }
  }

  /** `LinkUpToOthers` for one slot d of x. */
  lemma {:induction false} LinkUpToOtherAt(store: seq<NodeRec>, pn: Site, id: int, k: nat, x: int, d: Dir)
    requires k <= 6 && 0 <= id < |store| && 0 <= x < |store| && x != id
    requires forall j :: 0 <= j < |store| ==> RecShape(store[j], |store|)
    requires SiteShape(pn, |store|)
    ensures var st := LinkUpTo(store, pn, id, k);
      st[x].coord == store[x].coord &&
      st[x].hasNeighbor[d] == (store[x].hasNeighbor[d] || Hit(pn, Opposite(d), k, x)) &&
      st[x].neighbors[d] == (if Hit(pn, Opposite(d), k, x) then id else store[x].neighbors[d])
    decreases k
  {
    if k > 0 {
      LinkUpToOtherAt(store, pn, id, k - 1, x, d);
      var i := (k - 1) as Dir;
      var prev := LinkUpTo(store, pn, id, k - 1);
      OppositeInvolutive(d);
      OppositeInvolutive(i);
      assert Hit(pn, Opposite(d), k, x) == (Hit(pn, Opposite(d), k - 1, x) || (pn.hasNeighbor[i] && pn.neighbors[i] == x && d == Opposite(i)));
      if pn.hasNeighbor[i] {
        assert LinkUpTo(store, pn, id, k) == Linked(prev, pn.neighbors[i], Add(pn.coord, Delta(i)), id, Opposite(i));
        LinkStepOther(prev, pn, id, i, x);
      } else {
        assert LinkUpTo(store, pn, id, k) == prev;
      }
    }
  }

  /** One step of the linking loop, seen from a node x other than the new
      one: only when step i names x does it gain the back-link in the slot
      opposite to i; its coord is unchanged. */
  lemma LinkStepOther(store: seq<NodeRec>, pn: Site, id: int, i: Dir, x: int)
    requires 0 <= id < |store| && 0 <= x < |store| && x != id
    requires forall j :: 0 <= j < |store| ==> RecShape(store[j], |store|)
    requires SiteShape(pn, |store|) && pn.hasNeighbor[i]
    ensures var st := Linked(store, pn.neighbors[i], Add(pn.coord, Delta(i)), id, Opposite(i));
      var hit := pn.neighbors[i] == x;
      st[x].coord == store[x].coord &&
      st[x].hasNeighbor == (if hit then store[x].hasNeighbor[Opposite(i) := true] else store[x].hasNeighbor) &&
      st[x].neighbors == (if hit then store[x].neighbors[Opposite(i) := id] else store[x].neighbors)
  {
  }

  /** After k steps the new node holds the links of the flagged directions
      passed so far, and sits at pn's coord once one of them was flagged. */
  lemma LinkUpToNew(store: seq<NodeRec>, pn: Site, id: int, k: nat)
    requires k <= 6 && 0 <= id < |store|
    requires forall j :: 0 <= j < |store| ==> RecShape(store[j], |store|)
    requires SiteShape(pn, |store|)
    requires forall d: Dir :: pn.hasNeighbor[d] ==> pn.neighbors[d] != id
    ensures var st := LinkUpTo(store, pn, id, k);
      (forall e: Dir :: st[id].hasNeighbor[e] == (store[id].hasNeighbor[e] || (e as int < k && pn.hasNeighbor[e]))) &&
      (forall e: Dir :: st[id].neighbors[e] == (if e as int < k && pn.hasNeighbor[e] then pn.neighbors[e] else store[id].neighbors[e])) &&
      st[id].coord == (if exists e: Dir :: e as int < k && pn.hasNeighbor[e] then pn.coord else store[id].coord)
  {
    LinkUpToNewLinks(store, pn, id, k);
    LinkUpToNewCoord(store, pn, id, k);
  }

  /** The flags and ids half of `LinkUpToNew`. */
  lemma {:induction false} LinkUpToNewLinks(store: seq<NodeRec>, pn: Site, id: int, k: nat)
    requires k <= 6 && 0 <= id < |store|
    requires forall j :: 0 <= j < |store| ==> RecShape(store[j], |store|)
    requires SiteShape(pn, |store|)
    requires forall d: Dir :: pn.hasNeighbor[d] ==> pn.neighbors[d] != id
    ensures var st := LinkUpTo(store, pn, id, k);
      (forall e: Dir :: st[id].hasNeighbor[e] == (store[id].hasNeighbor[e] || (e as int < k && pn.hasNeighbor[e]))) &&
      (forall e: Dir :: st[id].neighbors[e] == (if e as int < k && pn.hasNeighbor[e] then pn.neighbors[e] else store[id].neighbors[e]))
    decreases k
  {
    if k > 0 {
      LinkUpToNewLinks(store, pn, id, k - 1);
      var i := (k - 1) as Dir;
      var prev := LinkUpTo(store, pn, id, k - 1);
      if pn.hasNeighbor[i] {
        assert LinkUpTo(store, pn, id, k) == Linked(prev, pn.neighbors[i], Add(pn.coord, Delta(i)), id, Opposite(i));
        LinkStepNew(prev, pn, id, i);
      } else {
        assert LinkUpTo(store, pn, id, k) == prev;
      }
    }
  }

  /** The coord half of `LinkUpToNew`. */
  lemma {:induction false} LinkUpToNewCoord(store: seq<NodeRec>, pn: Site, id: int, k: nat)
    requires k <= 6 && 0 <= id < |store|
    requires forall j :: 0 <= j < |store| ==> RecShape(store[j], |store|)
    requires SiteShape(pn, |store|)
    requires forall d: Dir :: pn.hasNeighbor[d] ==> pn.neighbors[d] != id
    ensures LinkUpTo(store, pn, id, k)[id].coord ==
      (if exists e: Dir :: e as int < k && pn.hasNeighbor[e] then pn.coord else store[id].coord)
    decreases k
  {
    if k > 0 {
      LinkUpToNewCoord(store, pn, id, k - 1);
      var i := (k - 1) as Dir;
      var prev := LinkUpTo(store, pn, id, k - 1);
      if pn.hasNeighbor[i] {
        assert LinkUpTo(store, pn, id, k) == Linked(prev, pn.neighbors[i], Add(pn.coord, Delta(i)), id, Opposite(i));
        LinkStepNew(prev, pn, id, i);
        assert i as int < k && pn.hasNeighbor[i];
      } else {
        assert LinkUpTo(store, pn, id, k) == prev;
        assert (exists e: Dir :: e as int < k && pn.hasNeighbor[e]) == (exists e: Dir :: e as int < k - 1 && pn.hasNeighbor[e]) by {
          if exists e: Dir :: e as int < k && pn.hasNeighbor[e] {
            var e: Dir :| e as int < k && pn.hasNeighbor[e];
            assert e != i;
          }
        }
      }
    }
  }

  /** One step of the linking loop, seen from the new node: it gains the
      link of direction i to pn's neighbour there and moves to pn's coord. */
  lemma LinkStepNew(store: seq<NodeRec>, pn: Site, id: int, i: Dir)
    requires 0 <= id < |store| && forall j :: 0 <= j < |store| ==> RecShape(store[j], |store|)
    requires SiteShape(pn, |store|) && pn.hasNeighbor[i] && pn.neighbors[i] != id
    ensures var st := Linked(store, pn.neighbors[i], Add(pn.coord, Delta(i)), id, Opposite(i));
      (forall e: Dir :: st[id].hasNeighbor[e] == (store[id].hasNeighbor[e] || e == i)) &&
      (forall e: Dir :: st[id].neighbors[e] == (if e == i then pn.neighbors[i] else store[id].neighbors[e])) &&
      st[id].coord == pn.coord
  {
    OppositeInvolutive(i);
    StepBack(pn.coord, i);
  }

  // ------------------------------------------------------- placing a node

  /** A flag count above zero means some flag is set. */
  lemma SomeFlag(f: seq<bool>) returns (e: Dir)
    requires |f| == 6 && NeighborCount(f) > 0
    ensures f[e]
  {
    var i :| 0 <= i < 6 && f[i];
    e := i as Dir;
  }

  /** The new node after the first half of a materialization: it is the
      next id, appended to the list, at c, with exactly the candidate's
      flags and, where flagged, its neighbours. */
  lemma PlacedNew(s: State, c: Coord)
    requires Growth(s) && SiteIndex(s.sites, c) != -1
    ensures var pn := s.sites[SiteIndex(s.sites, c)];
      var id := s.nodeCount;
      var r := Placed(s, c);
      r.nodes == s.nodes + [id] && |r.store| == id + 1 &&
      r.store[id].coord == c &&
      (forall e: Dir :: r.store[id].hasNeighbor[e] == pn.hasNeighbor[e]) &&
      (forall e: Dir :: pn.hasNeighbor[e] ==> r.store[id].neighbors[e] == pn.neighbors[e])
  {
    var pn := s.sites[SiteIndex(s.sites, c)];
    var store0 := s.store + [BlankNode];
    StoreGrowsShape(s);
    assert SiteShape(pn, |s.store|) && SiteOk(s, pn);
    LinkUpToNew(store0, pn, s.nodeCount, 6);
    var e := SomeFlag(pn.hasNeighbor);
  }

  /** An older node x after the first half of a materialization keeps its
      coord and gains only the back-links aimed at it. */
  lemma PlacedOld(s: State, c: Coord, x: int)
    requires Growth(s) && SiteIndex(s.sites, c) != -1 && 0 <= x < |s.store|
    ensures var pn := s.sites[SiteIndex(s.sites, c)];
      var r := Placed(s, c);
      |r.store| == |s.store| + 1 && r.store[x].coord == s.store[x].coord &&
      forall d: Dir ::
        r.store[x].hasNeighbor[d] == (s.store[x].hasNeighbor[d] || Hit(pn, Opposite(d), 6, x)) &&
        r.store[x].neighbors[d] == (if Hit(pn, Opposite(d), 6, x) then s.nodeCount else s.store[x].neighbors[d])
  {
    var pn := s.sites[SiteIndex(s.sites, c)];
    var store0 := s.store + [BlankNode];
    StoreGrowsShape(s);
    assert SiteShape(pn, |s.store|);
    LinkUpToOthers(store0, pn, s.nodeCount, 6, x);
  }

  /** Every older node keeps its coord. */
  lemma PlacedCoords(s: State, c: Coord)
    requires Growth(s) && SiteIndex(s.sites, c) != -1
    ensures forall x :: 0 <= x < |s.store| ==> Placed(s, c).store[x].coord == s.store[x].coord
  {
    forall x | 0 <= x < |s.store| ensures Placed(s, c).store[x].coord == s.store[x].coord {
      PlacedOld(s, c, x);
    }
  }

  /** Placing appends the next id to the list, with its record at c. */
  lemma PlacedAppends(s: State, c: Coord)
    requires Growth(s) && SiteIndex(s.sites, c) != -1
    ensures var r := Placed(s, c);
      r.nodes == s.nodes + [s.nodeCount] && |r.store| == s.nodeCount + 1 && r.store[s.nodeCount].coord == c
  {
    PlacedNew(s, c);
  }

  /** Exactly one more coord is occupied after placing: c. */
  lemma PlacedOccupied(s: State, c: Coord, y: Coord)
    requires Growth(s) && SiteIndex(s.sites, c) != -1
    ensures Occupied(Placed(s, c), y) <==> Occupied(s, y) || y == c
  {
    PlacedOccupiedKept(s, c, y);
    PlacedOccupiedOnly(s, c, y);
  }

  /** Every coord occupied before placing, and c, is occupied after. */
  lemma PlacedOccupiedKept(s: State, c: Coord, y: Coord)
    requires Growth(s) && SiteIndex(s.sites, c) != -1
    ensures Occupied(s, y) || y == c ==> Occupied(Placed(s, c), y)
  {
    PlacedAppends(s, c);
    var r := Placed(s, c);
    if Occupied(s, y) {
      var k :| 0 <= k < |s.nodes| && s.store[s.nodes[k]].coord == y;
      PlacedOld(s, c, s.nodes[k]);
      assert r.nodes[k] == s.nodes[k];
    }
    if y == c {
      assert r.nodes[|s.nodes|] == s.nodeCount;
    }
  }

  /** A coord occupied after placing was occupied before, or is c. */
  lemma PlacedOccupiedOnly(s: State, c: Coord, y: Coord)
    requires Growth(s) && SiteIndex(s.sites, c) != -1
    ensures Occupied(Placed(s, c), y) ==> Occupied(s, y) || y == c
  {
    PlacedAppends(s, c);
    var r := Placed(s, c);
    if Occupied(r, y) {
      var k :| 0 <= k < |r.nodes| && r.store[r.nodes[k]].coord == y;
      if k < |s.nodes| {
        assert r.nodes[k] == s.nodes[k];
        PlacedOld(s, c, s.nodes[k]);
        assert s.store[s.nodes[k]].coord == y;
      }
    }
  }

  lemma PlacedMutualOld(s: State, c: Coord, k: int, d: Dir)
    requires Growth(s) && SiteIndex(s.sites, c) != -1 && 0 <= k < |s.nodes|
    ensures Mutual(Placed(s, c), s.nodes[k], d)
  {
    var pn := s.sites[SiteIndex(s.sites, c)];
    var a := s.nodes[k];
    assert SiteShape(pn, |s.store|);
    if Hit(pn, Opposite(d), 6, a) {
      PlacedBackLink(s, c, k, d);
    } else {
      PlacedKeptLink(s, c, k, d);
    }
  }

  /** A back-link to the new node is mutual. */
  lemma PlacedBackLink(s: State, c: Coord, k: int, d: Dir)
    requires Growth(s) && SiteIndex(s.sites, c) != -1 && 0 <= k < |s.nodes|
    requires var pn := s.sites[SiteIndex(s.sites, c)];
      SiteShape(pn, |s.store|) && Hit(pn, Opposite(d), 6, s.nodes[k])
    ensures Mutual(Placed(s, c), s.nodes[k], d)
  {
    PlacedNew(s, c);
    PlacedOld(s, c, s.nodes[k]);
    var r := Placed(s, c);
    var pn := s.sites[SiteIndex(s.sites, c)];
    var o := Opposite(d);
    OppositeInvolutive(d);
    assert SiteOk(s, pn);
    assert FlagExact(s, pn, o);
    StepBack(c, o);
    assert r.nodes[|s.nodes|] == s.nodeCount;
  }

  /** A link an older node already had stays mutual: its partner's back
      slot is not one the new node takes, since c was free. */
  lemma PlacedKeptLink(s: State, c: Coord, k: int, d: Dir)
    requires Growth(s) && SiteIndex(s.sites, c) != -1 && 0 <= k < |s.nodes|
    requires var pn := s.sites[SiteIndex(s.sites, c)];
      SiteShape(pn, |s.store|) && !Hit(pn, Opposite(d), 6, s.nodes[k])
    ensures Mutual(Placed(s, c), s.nodes[k], d)
  {
    var a := s.nodes[k];
    PlacedOld(s, c, a);
    var r := Placed(s, c);
    var pn := s.sites[SiteIndex(s.sites, c)];
    assert RecShape(s.store[a], |s.store|);
    if s.store[a].hasNeighbor[d] {
      assert Mutual(s, a, d);
      var b := s.store[a].neighbors[d];
      var j :| 0 <= j < |s.nodes| && s.nodes[j] == b;
      PlacedNew(s, c);
      assert r.nodes[j] == b;
      PlacedOld(s, c, b);
      OppositeInvolutive(d);
      NoHitOnPartner(s, c, k, d);
    }
  }

  /** The linking loop never reaches the partner of an existing link in the
      link's own direction: that partner would be one step from both c and
      the live node, which would put the live node on the free coord c. */
  lemma NoHitOnPartner(s: State, c: Coord, k: int, d: Dir)
    requires Growth(s) && SiteIndex(s.sites, c) != -1 && 0 <= k < |s.nodes|
    requires RecShape(s.store[s.nodes[k]], |s.store|) && s.store[s.nodes[k]].hasNeighbor[d]
    ensures var pn := s.sites[SiteIndex(s.sites, c)];
      SiteShape(pn, |s.store|) && !Hit(pn, d, 6, s.store[s.nodes[k]].neighbors[d])
  {
    var pn := s.sites[SiteIndex(s.sites, c)];
    var a := s.nodes[k];
    var b := s.store[a].neighbors[d];
    assert SiteShape(pn, |s.store|) && SiteOk(s, pn);
    assert Mutual(s, a, d);
    assert s.store[a].coord != c by {
      assert !Occupied(s, c);
    }
    assert FlagExact(s, pn, d);
  }

  lemma PlacedMutualNew(s: State, c: Coord, d: Dir)
    requires Growth(s) && SiteIndex(s.sites, c) != -1
    ensures Mutual(Placed(s, c), s.nodeCount, d)
  {
    PlacedNew(s, c);
    var r := Placed(s, c);
    var pn := s.sites[SiteIndex(s.sites, c)];
    assert SiteShape(pn, |s.store|) && SiteOk(s, pn);
    OppositeInvolutive(d);
    if pn.hasNeighbor[d] {
      assert FlagExact(s, pn, d);
      var b := pn.neighbors[d];
      var j :| 0 <= j < |s.nodes| && s.nodes[j] == b;
      assert r.nodes[j] == b;
      PlacedOld(s, c, b);
      assert Hit(pn, Opposite(Opposite(d)), 6, b);
    }
  }

  /** Placing the node keeps links mutual, ids and coords distinct. */
  lemma PlacedLinkage(s: State, c: Coord)
    requires Growth(s) && SiteIndex(s.sites, c) != -1
    ensures Linkage(Placed(s, c))
  {
    PlacedNew(s, c);
    PlacedCoords(s, c);
    var r := Placed(s, c);
    var id := s.nodeCount;
    var pn := s.sites[SiteIndex(s.sites, c)];
    assert SiteShape(pn, |s.store|) && SiteOk(s, pn);
    forall k, d: Dir | 0 <= k < |r.nodes| ensures Mutual(r, r.nodes[k], d) {
      if k < |s.nodes| {
        PlacedMutualOld(s, c, k, d);
      } else {
        PlacedMutualNew(s, c, d);
      }
    }
    forall j, k | 0 <= j < k < |r.nodes| ensures r.nodes[j] != r.nodes[k] {
      if k == |s.nodes| {
        assert r.nodes[j] == s.nodes[j] < |s.store|;
      }
    }
    forall j, k | 0 <= j < |r.nodes| && 0 <= k < |r.nodes| && r.store[r.nodes[j]].coord == r.store[r.nodes[k]].coord
      ensures r.nodes[j] == r.nodes[k]
    {
    }
  }

  /** Placing the node leaves no live node without a link. */
  lemma PlacedNoIsolated(s: State, c: Coord)
    requires Growth(s) && SiteIndex(s.sites, c) != -1
    ensures NoIsolated(Placed(s, c))
  {
    PlacedNew(s, c);
    var r := Placed(s, c);
    var pn := s.sites[SiteIndex(s.sites, c)];
    assert SiteShape(pn, |s.store|) && SiteOk(s, pn);
    forall k | 0 <= k < |r.nodes| ensures NeighborCount(r.store[r.nodes[k]].hasNeighbor) > 0 {
      if k < |s.nodes| {
        var a := s.nodes[k];
        assert RecShape(s.store[a], |s.store|);
        var e := SomeFlag(s.store[a].hasNeighbor);
        PlacedOld(s, c, a);
        assert r.nodes[k] == a && r.store[a].hasNeighbor[e];
      } else {
        var e := SomeFlag(pn.hasNeighbor);
        assert r.store[r.nodes[k]].hasNeighbor[e];
      }
    }
  }

  /** Placing the node links it to every live node around c. */
  lemma PlacedComplete(s: State, c: Coord)
    requires Growth(s) && SiteIndex(s.sites, c) != -1
    ensures Complete(Placed(s, c))
  {
    PlacedNew(s, c);
    PlacedCoords(s, c);
    var r := Placed(s, c);
    var id := s.nodeCount;
    var pn := s.sites[SiteIndex(s.sites, c)];
    assert SiteShape(pn, |s.store|) && SiteOk(s, pn);
    forall k, d: Dir | 0 <= k < |r.nodes| && Occupied(r, Add(r.store[r.nodes[k]].coord, Delta(d)))
      ensures r.store[r.nodes[k]].hasNeighbor[d]
    {
      var a := r.nodes[k];
      var y := Add(r.store[a].coord, Delta(d));
      PlacedOccupied(s, c, y);
      NeighboursDistinct(r.store[a].coord, d, d);
      if k == |s.nodes| {
        assert FlagExact(s, pn, d);
      } else if y == c {
        var o := Opposite(d);
        StepBack(c, o);
        OppositeInvolutive(d);
        assert s.store[a].coord == Add(c, Delta(o));
        assert Occupied(s, Add(c, Delta(o))) by {
          assert s.store[s.nodes[k]].coord == Add(c, Delta(o));
        }
        assert FlagExact(s, pn, o);
        var b := pn.neighbors[o];
        var j :| 0 <= j < |s.nodes| && s.nodes[j] == b;
        assert s.nodes[j] == s.nodes[k];
        PlacedOld(s, c, a);
        assert Hit(pn, Opposite(d), 6, a);
      } else {
        assert Complete(s);
        assert s.store[s.nodes[k]].hasNeighbor[d];
        PlacedOld(s, c, a);
      }
    }
  }

  // ----------------------------------------------------------- candidates

  /** The lattice facts are about nodes only: a new candidate list keeps
      them, and keeps occupancy. */
  lemma SitesOnly(t: State, sites: seq<Site>)
    requires Lattice(t) && WellFormed(t.(sites := sites))
    ensures Lattice(t.(sites := sites))
    ensures forall y :: Occupied(t.(sites := sites), y) <==> Occupied(t, y)
  {
    var u := t.(sites := sites);
    forall k, d: Dir | 0 <= k < |u.nodes| ensures Mutual(u, u.nodes[k], d) {
      assert Mutual(t, t.nodes[k], d);
    }
  }

  /** `HexPotentialNode` makes a candidate exact, provided its flags were
      sound: it sets every flag towards a live node and names the last live
      node there, and it never clears a flag. */
  lemma HexedExact(t: State, p: Site)
    requires WellFormed(t) && SiteShape(p, |t.store|)
    requires forall d: Dir :: p.hasNeighbor[d] ==> Occupied(t, Add(p.coord, Delta(d)))
    ensures var h := Hexed(t.nodes, t.store, p);
      SiteShape(h, |t.store|) && h.coord == p.coord &&
      (forall d: Dir :: p.hasNeighbor[d] ==> h.hasNeighbor[d]) &&
      forall d: Dir :: FlagExact(t, h, d)
  {
    HexedShape(t, p);
    var h := Hexed(t.nodes, t.store, p);
    forall d: Dir ensures FlagExact(t, h, d) {
      var y := Add(p.coord, Delta(d));
      var found := NodeAt(t.nodes, t.store, y);
      assert h.hasNeighbor[d] == (found != -1 || p.hasNeighbor[d]);
      if found != -1 {
        var j :| 0 <= j < |t.nodes| && t.nodes[j] == found;
        assert Occupied(t, y);
      }
    }
  }

  /** The entries of a candidate list after removing the one at c: the
      others, in order, none of them at c. */
  lemma RemoveSiteEntries(sites: seq<Site>, c: Coord)
    requires DistinctSites(sites) && SiteIndex(sites, c) != -1
    ensures var r := RemoveSite(sites, c);
      |r| == |sites| - 1 && DistinctSites(r) && SiteIndex(r, c) == -1 &&
      forall j :: 0 <= j < |r| ==> r[j] == sites[if j < SiteIndex(sites, c) then j else j + 1]
  {
    var k := SiteIndex(sites, c);
    var r := RemoveSite(sites, c);
    assert r == sites[..k] + sites[k + 1..];
    forall j | 0 <= j < |r| ensures r[j] == sites[if j < k then j else j + 1] && r[j].coord != c {
      if j < k { assert r[j] == sites[j]; } else { assert r[j] == sites[j + 1]; }
    }
    forall i, j | 0 <= i < j < |r| ensures r[i].coord != r[j].coord {
      var i' := if i < k then i else i + 1;
      var j' := if j < k then j else j + 1;
      assert r[i] == sites[i'] && r[j] == sites[j'] && i' < j';
    }
  }

  /** A sound candidate away from c stays free and its flags still point
      at live nodes once the node at c is placed. */
  lemma PlacedKeepsSite(s: State, c: Coord, p: Site)
    requires Growth(s) && SiteIndex(s.sites, c) != -1
    requires SiteShape(p, |s.store|) && SiteOk(s, p) && p.coord != c
    ensures var t := Placed(s, c);
      SiteShape(p, |t.store|) && !Occupied(t, p.coord) &&
      forall d: Dir :: p.hasNeighbor[d] ==> Occupied(t, Add(p.coord, Delta(d)))
  {
    forall d: Dir | p.hasNeighbor[d] ensures Occupied(Placed(s, c), Add(p.coord, Delta(d))) {
      assert FlagExact(s, p, d);
      PlacedOccupied(s, c, Add(p.coord, Delta(d)));
    }
    PlacedOccupied(s, c, p.coord);
  }

  /** One remaining candidate, re-derived after the node is placed: exact,
      free and next to a live node. */
  lemma RefreshedSiteOk(s: State, c: Coord, k: int)
    requires Growth(s) && SiteIndex(s.sites, c) != -1
    requires 0 <= k < |s.sites| - 1
    ensures var t := Placed(s, c);
      var h := Hexed(t.nodes, t.store, t.sites[k]);
      SiteShape(h, |t.store|) && h.coord == t.sites[k].coord && SiteOk(t, h)
  {
    var t := Placed(s, c);
    RemoveSiteEntries(s.sites, c);
    var p := t.sites[k];
    var i := if k < SiteIndex(s.sites, c) then k else k + 1;
    assert p == s.sites[i];
    assert SiteShape(p, |s.store|) && SiteOk(s, p);
    PlacedKeepsSite(s, c, p);
    HexedOk(t, p);
  }

  /** A free candidate with a flag, all of whose flags point at live nodes,
      comes out of `HexPotentialNode` exact, free and still flagged. */
  lemma HexedOk(t: State, p: Site)
    requires WellFormed(t) && SiteShape(p, |t.store|)
    requires !Occupied(t, p.coord) && SiteCount(p) > 0
    requires forall d: Dir :: p.hasNeighbor[d] ==> Occupied(t, Add(p.coord, Delta(d)))
    ensures var h := Hexed(t.nodes, t.store, p);
      SiteShape(h, |t.store|) && h.coord == p.coord && SiteOk(t, h)
  {
    HexedExact(t, p);
    var h := Hexed(t.nodes, t.store, p);
    var e := SomeFlag(p.hasNeighbor);
    assert h.hasNeighbor[e];
  }

  /** A lattice with a new candidate list that is exact for its nodes is a
      growing lattice. */
  lemma SitesGrowth(t: State, sites: seq<Site>)
    requires Lattice(t) && WellFormed(t.(sites := sites)) && DistinctSites(sites)
    requires forall k :: 0 <= k < |sites| ==> SiteShape(sites[k], |t.store|) && SiteOk(t, sites[k])
    ensures Growth(t.(sites := sites))
  {
    var u := t.(sites := sites);
    SitesOnly(t, sites);
    forall k | 0 <= k < |sites| ensures SiteOk(u, sites[k]) {
      var p := sites[k];
      assert SiteOk(t, p);
      forall d: Dir ensures FlagExact(u, p, d) {
        assert FlagExact(t, p, d);
      }
    }
  }

  /** After placing the node, every remaining candidate re-derived is
      exact again, still free and still next to a live node, and none is
      left at the placed coordinate. */
  lemma RefreshedOk(s: State, c: Coord)
    requires Growth(s) && SiteIndex(s.sites, c) != -1
    ensures var t := Placed(s, c);
      var u := t.(sites := Refreshed(t.nodes, t.store, t.sites));
      WellFormed(u) && Growth(u) && SiteIndex(u.sites, c) == -1
  {
    var t := Placed(s, c);
    PlacedLinkage(s, c);
    PlacedNoIsolated(s, c);
    PlacedComplete(s, c);
    RefreshedShape(t);
    var sites := Refreshed(t.nodes, t.store, t.sites);
    RemoveSiteEntries(s.sites, c);
    forall k | 0 <= k < |sites| ensures SiteShape(sites[k], |t.store|) && SiteOk(t, sites[k]) {
      RefreshedSiteOk(s, c, k);
    }
    RefreshedCoords(t, c);
    SitesGrowth(t, sites);
  }

  /** Re-deriving the candidates moves none of them, so distinct coords stay
      distinct and a coord without a candidate stays without one. */
  lemma RefreshedCoords(t: State, c: Coord)
    requires WellFormed(t) && DistinctSites(t.sites) && SiteIndex(t.sites, c) == -1
    ensures var sites := Refreshed(t.nodes, t.store, t.sites);
      DistinctSites(sites) && SiteIndex(sites, c) == -1
  {
    var sites := Refreshed(t.nodes, t.store, t.sites);
    forall k | 0 <= k < |sites| ensures sites[k].coord == t.sites[k].coord {
      assert SiteShape(t.sites[k], |t.store|);
    }
  }

  /** Merging an exact candidate into an exact candidate at the same coord
      keeps it exact; its flags do not change. */
  lemma MergedOk(t: State, q: Site, p: Site)
    requires WellFormed(t) && SiteShape(q, |t.store|) && SiteShape(p, |t.store|)
    requires q.coord == p.coord && SiteOk(t, p)
    requires forall d: Dir :: FlagExact(t, q, d)
    ensures var m := Merged(q, p);
      SiteShape(m, |t.store|) && m.coord == p.coord && m.hasNeighbor == p.hasNeighbor && SiteOk(t, m)
  {
    var m := Merged(q, p);
    forall d: Dir ensures m.hasNeighbor[d] == p.hasNeighbor[d] && FlagExact(t, m, d) {
      assert FlagExact(t, q, d) && FlagExact(t, p, d);
    }
  }

  /** The candidate `AddPotentialNode(n, dir)` builds before it reaches
      the list: exact, and flagged back towards n. */
  lemma NewSiteOk(t: State, n: int, dir: Dir)
    requires Lattice(t) && n in t.nodes
    requires !Occupied(t, Add(t.store[n].coord, Delta(dir)))
    ensures var y := Add(t.store[n].coord, Delta(dir));
      var q := Hexed(t.nodes, t.store, BlankSite(y));
      SiteShape(q, |t.store|) && q.coord == y && SiteOk(t, q) &&
      q.hasNeighbor[Opposite(dir)] && q.neighbors[Opposite(dir)] == n
  {
    var y := Add(t.store[n].coord, Delta(dir));
    HexedExact(t, BlankSite(y));
    var q := Hexed(t.nodes, t.store, BlankSite(y));
    StepBack(t.store[n].coord, dir);
    var k :| 0 <= k < |t.nodes| && t.nodes[k] == n;
    assert FlagExact(t, q, Opposite(dir));
    var m := q.neighbors[Opposite(dir)];
    var j :| 0 <= j < |t.nodes| && t.nodes[j] == m;
    assert t.store[t.nodes[j]].coord == t.store[t.nodes[k]].coord;
  }

  /** The list part of `AddPotentialNode`, entry by entry: a candidate at
      q's coord absorbs q, the others stay, and q is appended only when no
      candidate was at its coord. */
  lemma InsertSiteEntries(sites: seq<Site>, q: Site)
    requires forall k :: 0 <= k < |sites| ==> |sites[k].hasNeighbor| == 6 && |sites[k].neighbors| == 6
    requires |q.hasNeighbor| == 6 && |q.neighbors| == 6
    ensures var r := InsertSite(sites, q);
      |r| == (if SiteIndex(sites, q.coord) == -1 then |sites| + 1 else |sites|) &&
      (SiteIndex(sites, q.coord) == -1 ==> r[|sites|] == q) &&
      forall k :: 0 <= k < |sites| ==>
        r[k] == (if sites[k].coord == q.coord then Merged(q, sites[k]) else sites[k]) &&
        r[k].coord == sites[k].coord
  {
  }

  /** Inserting an exact candidate into a list of exact candidates leaves
      every entry exact: a merge keeps the flags of the one it merges into. */
  lemma InsertSiteOk(t: State, q: Site)
    requires Growth(t) && SiteShape(q, |t.store|) && SiteOk(t, q)
    ensures forall k :: 0 <= k < |t.sites| ==> |t.sites[k].hasNeighbor| == 6 && |t.sites[k].neighbors| == 6
    ensures var sites := InsertSite(t.sites, q);
      forall k :: 0 <= k < |sites| ==> SiteShape(sites[k], |t.store|) && SiteOk(t, sites[k])
  {
    forall k | 0 <= k < |t.sites| ensures SiteShape(t.sites[k], |t.store|) && SiteOk(t, t.sites[k]) {
    }
    InsertSiteEntries(t.sites, q);
    var sites := InsertSite(t.sites, q);
    forall k | 0 <= k < |sites| ensures SiteShape(sites[k], |t.store|) && SiteOk(t, sites[k]) {
      if k < |t.sites| && t.sites[k].coord == q.coord {
        MergedOk(t, q, t.sites[k]);
      }
    }
  }

  /** `AddPotentialNode`'s list step keeps the candidates' coords distinct:
      it either merges into the one candidate at q's coord or appends q
      where there was none. */
  lemma InsertSiteDistinct(sites: seq<Site>, q: Site)
    requires forall k :: 0 <= k < |sites| ==> |sites[k].hasNeighbor| == 6 && |sites[k].neighbors| == 6
    requires |q.hasNeighbor| == 6 && |q.neighbors| == 6
    requires DistinctSites(sites)
    ensures DistinctSites(InsertSite(sites, q))
  {
    InsertSiteEntries(sites, q);
    var r := InsertSite(sites, q);
    forall j, k | 0 <= j < k < |r| ensures r[j].coord != r[k].coord {
      if k == |sites| {
        assert r[k] == q;
      }
    }
  }

  /** `AddPotentialNode(n, dir)` towards a free coord keeps a growing
      lattice growing and changes nothing but the candidate list. */
  lemma WithSiteGrowth(t: State, n: int, dir: Dir)
    requires Growth(t) && n in t.nodes
    requires !Occupied(t, Add(t.store[n].coord, Delta(dir)))
    ensures var u := WithSite(t, n, dir);
      WellFormed(u) && Growth(u) && u.nodes == t.nodes && u.store == t.store && u.nodeCount == t.nodeCount
  {
    var y := Add(t.store[n].coord, Delta(dir));
    var q := Hexed(t.nodes, t.store, BlankSite(y));
    var sites := InsertSite(t.sites, q);
    assert WithSite(t, n, dir) == t.(sites := sites);
    WithSiteShape(t, n, dir);
    NewSiteOk(t, n, dir);
    InsertSiteOk(t, q);
    InsertSiteDistinct(t.sites, q);
    SitesGrowth(t, sites);
  }

  /** After `AddPotentialNode(n, dir)` towards a free coord, the candidate
      there is flagged back towards n, and every other candidate is as it
      was. */
  lemma WithSiteAt(t: State, n: int, dir: Dir)
    requires Growth(t) && n in t.nodes
    requires !Occupied(t, Add(t.store[n].coord, Delta(dir)))
    ensures var u := WithSite(t, n, dir);
      var y := Add(t.store[n].coord, Delta(dir));
      var k := SiteIndex(u.sites, y);
      k != -1 && |u.sites[k].hasNeighbor| == 6 && |u.sites[k].neighbors| == 6 &&
      u.sites[k].hasNeighbor[Opposite(dir)] && u.sites[k].neighbors[Opposite(dir)] == n &&
      forall j :: 0 <= j < |u.sites| && u.sites[j].coord != y ==> j < |t.sites| && u.sites[j] == t.sites[j]
  {
    var y := Add(t.store[n].coord, Delta(dir));
    NewSiteOk(t, n, dir);
    var q := Hexed(t.nodes, t.store, BlankSite(y));
    forall k | 0 <= k < |t.sites| ensures |t.sites[k].hasNeighbor| == 6 && |t.sites[k].neighbors| == 6 {
      assert SiteShape(t.sites[k], |t.store|);
    }
    InsertSiteAt(t.sites, q);
    var i := SiteIndex(t.sites, y);
    if i != -1 {
      assert SiteShape(t.sites[i], |t.store|);
    }
  }

  /** After `AddPotentialNode`'s list step, the first candidate at q's
      coord is q itself or q merged into the candidate that was there, and
      every candidate elsewhere is as it was. */
  lemma InsertSiteAt(sites: seq<Site>, q: Site)
    requires forall k :: 0 <= k < |sites| ==> |sites[k].hasNeighbor| == 6 && |sites[k].neighbors| == 6
    requires |q.hasNeighbor| == 6 && |q.neighbors| == 6
    ensures var r := InsertSite(sites, q);
      var i := SiteIndex(sites, q.coord);
      SiteIndex(r, q.coord) != -1 &&
      r[SiteIndex(r, q.coord)] == (if i == -1 then q else Merged(q, sites[i])) &&
      forall j :: 0 <= j < |r| && r[j].coord != q.coord ==> j < |sites| && r[j] == sites[j]
  {
    InsertSiteEntries(sites, q);
    var r := InsertSite(sites, q);
    var i := SiteIndex(sites, q.coord);
    if i != -1 {
      assert SiteIndex(r, q.coord) == i;
    } else {
      assert SiteIndex(r, q.coord) == |sites|;
    }
  }

  // -------------------------------------------------------------- frontier

  /** The scan's first gap is an unflagged direction just before a flagged
      one; there is none exactly when every flagged direction seen is
      preceded by a flagged one. */
  lemma {:induction false} FirstGapFacts(f: seq<bool>, k: nat)
    requires |f| == 6 && k <= 6
    ensures var g := FirstGapUpTo(f, k);
      (g != -1 ==> !f[g] && exists i: Dir :: i as int < k && f[i] && Prev(i) as int == g) &&
      (g == -1 <==> forall i: Dir :: i as int < k && f[i] ==> f[Prev(i)])
    decreases k
  {
    if k > 0 {
      FirstGapFacts(f, k - 1);
      var i := (k - 1) as Dir;
      var g := FirstGapUpTo(f, k);
      if g != -1 && g == FirstGapUpTo(f, k - 1) {
        var j: Dir :| j as int < k - 1 && f[j] && Prev(j) as int == g;
      }
    }
  }

  /** The scan's last gap is an unflagged direction just after a flagged
      one; there is none exactly when every flagged direction seen is
      followed by a flagged one. */
  lemma {:induction false} LastGapFacts(f: seq<bool>, k: nat)
    requires |f| == 6 && k <= 6
    ensures var g := LastGapUpTo(f, k);
      (g != -1 ==> !f[g] && exists i: Dir :: i as int < k && f[i] && Next(i) as int == g) &&
      (g == -1 <==> forall i: Dir :: i as int < k && f[i] ==> f[Next(i)])
    decreases k
  {
    if k > 0 {
      LastGapFacts(f, k - 1);
      var i := (k - 1) as Dir;
      var g := LastGapUpTo(f, k);
      if g != -1 && g == LastGapUpTo(f, k - 1) {
        var j: Dir :| j as int < k - 1 && f[j] && Next(j) as int == g;
      }
    }
  }

  /** A flag pattern closed under stepping back one direction is all or
      nothing. */
  lemma ClosedUnderPrev(f: seq<bool>, e: Dir)
    requires |f| == 6 && f[e]
    requires forall i: Dir :: f[i] ==> f[Prev(i)]
    ensures forall i: Dir :: f[i]
  {
    var e1 := Prev(e);
    var e2 := Prev(e1);
    var e3 := Prev(e2);
    var e4 := Prev(e3);
    var e5 := Prev(e4);
    assert f[e5];
  }

  /** A flag pattern closed under stepping on one direction is all or
      nothing. */
  lemma ClosedUnderNext(f: seq<bool>, e: Dir)
    requires |f| == 6 && f[e]
    requires forall i: Dir :: f[i] ==> f[Next(i)]
    ensures forall i: Dir :: f[i]
  {
    var e1 := Next(e);
    var e2 := Next(e1);
    var e3 := Next(e2);
    var e4 := Next(e3);
    var e5 := Next(e4);
    assert f[e5];
  }

  /** A node placed with at least one neighbour finds both gaps exactly
      when it is not surrounded, and each gap is a free direction. */
  lemma GapsExist(f: seq<bool>)
    requires |f| == 6 && NeighborCount(f) > 0
    ensures var g := FirstGapUpTo(f, 6); var h := LastGapUpTo(f, 6);
      (g == -1 <==> NeighborCount(f) == 6) && (h == -1 <==> NeighborCount(f) == 6) &&
      (g != -1 ==> !f[g]) && (h != -1 ==> !f[h])
  {
    FirstGapFacts(f, 6);
    LastGapFacts(f, 6);
    var e :| 0 <= e < 6 && f[e];
    if FirstGapUpTo(f, 6) == -1 { ClosedUnderPrev(f, e as Dir); }
    if LastGapUpTo(f, 6) == -1 { ClosedUnderNext(f, e as Dir); }
  }

  // -------------------------------------------------------- materialization

  /** A direction the candidate at c does not flag is still free once the
      node is placed at c. */
  lemma FreeAfterPlacing(s: State, c: Coord, g: Dir)
    requires Growth(s) && SiteIndex(s.sites, c) != -1
    requires var pn := s.sites[SiteIndex(s.sites, c)]; |pn.hasNeighbor| == 6 && !pn.hasNeighbor[g]
    ensures !Occupied(Placed(s, c), Add(c, Delta(g)))
  {
    var pn := s.sites[SiteIndex(s.sites, c)];
    assert SiteShape(pn, |s.store|) && SiteOk(s, pn) && FlagExact(s, pn, g);
    NeighboursDistinct(c, g, g);
    PlacedOccupied(s, c, Add(c, Delta(g)));
  }

  /** A candidate list that has one at y still has one there after a
      candidate is added. */
  lemma InsertSiteKeeps(sites: seq<Site>, q: Site, y: Coord)
    requires forall k :: 0 <= k < |sites| ==> |sites[k].hasNeighbor| == 6 && |sites[k].neighbors| == 6
    requires |q.hasNeighbor| == 6 && |q.neighbors| == 6
    requires SiteIndex(sites, y) != -1
    ensures SiteIndex(InsertSite(sites, q), y) != -1
  {
    InsertSiteEntries(sites, q);
    var k := SiteIndex(sites, y);
    assert InsertSite(sites, q)[k].coord == y;
  }

  /** A growing lattice has no candidate at an occupied coord. */
  lemma NoSiteWhereOccupied(t: State, y: Coord)
    requires Growth(t) && Occupied(t, y)
    ensures SiteIndex(t.sites, y) == -1
  {
    forall k | 0 <= k < |t.sites| ensures t.sites[k].coord != y {
      assert SiteOk(t, t.sites[k]);
    }
  }

  /** One of the two `AddPotentialNode` calls that end a materialization,
      taken when the scan found gap g next to the new node id at c. */
  lemma GapStep(t: State, id: int, c: Coord, g: int)
    requires Growth(t) && id in t.nodes && t.store[id].coord == c
    requires g != -1 ==> 0 <= g < 6 && !Occupied(t, Add(c, Delta(g as Dir)))
    ensures var u := if g != -1 then WithSite(t, id, g as Dir) else t;
      WellFormed(u) && Growth(u) && u.nodes == t.nodes && u.store == t.store && u.nodeCount == t.nodeCount &&
      (g != -1 ==> SiteIndex(u.sites, Add(c, Delta(g as Dir))) != -1) &&
      forall y :: SiteIndex(t.sites, y) != -1 ==> SiteIndex(u.sites, y) != -1
  {
    if g != -1 {
      var dir := g as Dir;
      WithSiteGrowth(t, id, dir);
      var q := Hexed(t.nodes, t.store, BlankSite(Add(c, Delta(dir))));
      assert WithSite(t, id, dir).sites == InsertSite(t.sites, q);
      forall k | 0 <= k < |t.sites| ensures |t.sites[k].hasNeighbor| == 6 && |t.sites[k].neighbors| == 6 {
        assert SiteShape(t.sites[k], |t.store|);
      }
      InsertSiteAt(t.sites, q);
      forall y | SiteIndex(t.sites, y) != -1 ensures SiteIndex(InsertSite(t.sites, q), y) != -1 {
        InsertSiteKeeps(t.sites, q, y);
      }
    }
  }

  /** `MaterializePotentialNode(c)` with a candidate at c keeps a growing
      lattice growing: the new node is the next id, appended, at c, linked
      exactly where the candidate was flagged; no candidate is left at c;
      a candidate now waits beyond each gap the scan found (by `GapsExist`,
      both are found unless the node is surrounded); and every other
      candidate is an old one, so at most two come in, both beside the new
      node. */
  lemma MaterializedGrowth(s: State, c: Coord)
    requires Growth(s) && SiteIndex(s.sites, c) != -1
    ensures var pn := s.sites[SiteIndex(s.sites, c)];
      var r := Materialized(s, c);
      var id := s.nodeCount;
      r.0 && Growth(r.1) && r.1.nodes == s.nodes + [id] && r.1.nodeCount == id + 1 &&
      r.1.store[id].coord == c &&
      (forall e: Dir :: r.1.store[id].hasNeighbor[e] == pn.hasNeighbor[e]) &&
      SiteIndex(r.1.sites, c) == -1 &&
      var f := FirstGapUpTo(pn.hasNeighbor, 6);
      var l := LastGapUpTo(pn.hasNeighbor, 6);
      (f != -1 ==> SiteIndex(r.1.sites, Add(c, Delta(f as Dir))) != -1) &&
      (l != -1 ==> SiteIndex(r.1.sites, Add(c, Delta(l as Dir))) != -1) &&
      |r.1.sites| <= |s.sites| + 1 && CoordsFrom(r.1.sites, s.sites, c, GapCoords(c, f, l))
  {
    MaterializedSites(s, c);
    var pn := s.sites[SiteIndex(s.sites, c)];
    var id := s.nodeCount;
    assert SiteShape(pn, |s.store|) && SiteOk(s, pn);
    var s1 := Placed(s, c);
    PlacedNew(s, c);
    RefreshedOk(s, c);
    var s2 := s1.(sites := Refreshed(s1.nodes, s1.store, s1.sites));
    GapsExist(pn.hasNeighbor);
    var f := FirstGapUpTo(pn.hasNeighbor, 6);
    var l := LastGapUpTo(pn.hasNeighbor, 6);
    assert id in s2.nodes && s2.store[id].coord == c;
    if f != -1 { FreeAfterPlacing(s, c, f as Dir); }
    if l != -1 { FreeAfterPlacing(s, c, l as Dir); }
    GapStep(s2, id, c, f);
    var s3 := if f != -1 then WithSite(s2, id, f as Dir) else s2;
    GapStep(s3, id, c, l);
    var s4 := if l != -1 then WithSite(s3, id, l as Dir) else s3;
    assert Materialized(s, c) == (true, s4);
    var k := |s.nodes|;
    assert s4.nodes[k] == id && s4.store[id].coord == c;
    NoSiteWhereOccupied(s4, c);
  }

  /** The coords beyond the first and last gap of a materialization at c,
      for those the scan found. */
  function GapCoords(c: Coord, f: int, l: int): (g: set<Coord>)
    ensures |g| <= 2
    ensures forall y :: y in g <==> (0 <= f < 6 && y == Add(c, Delta(f as Dir))) || (0 <= l < 6 && y == Add(c, Delta(l as Dir)))
  {
    (if 0 <= f < 6 then {Add(c, Delta(f as Dir))} else {}) + (if 0 <= l < 6 then {Add(c, Delta(l as Dir))} else {})
  }

  /** Every entry of a candidate list is an old candidate away from c or
      sits at one of the coords g. */
  predicate CoordsFrom(list: seq<Site>, sites: seq<Site>, c: Coord, g: set<Coord>)
  {
    forall j :: 0 <= j < |list| ==> (list[j].coord != c && SiteIndex(sites, list[j].coord) != -1) || list[j].coord in g
  }

  /** Where the candidates stand after materializing at c: each is an old
      candidate away from c or sits beyond one of the two gaps the scan
      found, so at most two new candidates come in, both next to the new
      node, and the list grows by at most one. */
  lemma MaterializedSites(s: State, c: Coord)
    requires Growth(s) && SiteIndex(s.sites, c) != -1
    ensures var pn := s.sites[SiteIndex(s.sites, c)];
      var r := Materialized(s, c).1;
      |r.sites| <= |s.sites| + 1 &&
      CoordsFrom(r.sites, s.sites, c, GapCoords(c, FirstGapUpTo(pn.hasNeighbor, 6), LastGapUpTo(pn.hasNeighbor, 6)))
  {
    var pn := s.sites[SiteIndex(s.sites, c)];
    var id := s.nodeCount;
    var f := FirstGapUpTo(pn.hasNeighbor, 6);
    var l := LastGapUpTo(pn.hasNeighbor, 6);
    var g := GapCoords(c, f, l);
    var s1 := Placed(s, c);
    var s2 := s1.(sites := Refreshed(s1.nodes, s1.store, s1.sites));
    assert WellFormed(s2) && s2.store[id].coord == c && |s2.sites| == |s.sites| - 1 && CoordsFrom(s2.sites, s.sites, c, g) by {
      PlacedAppends(s, c);
      RefreshedShape(s1);
      RefreshedFrom(s, c, g);
    }
    var s3 := if f != -1 then WithSite(s2, id, f as Dir) else s2;
    if f != -1 { GapKeepsFrom(s2, s.sites, c, g, id, f as Dir); }
    var s4 := if l != -1 then WithSite(s3, id, l as Dir) else s3;
    if l != -1 { GapKeepsFrom(s3, s.sites, c, g, id, l as Dir); }
    assert Materialized(s, c) == (true, s4);
  }

  /** After placing and re-deriving, every candidate is an old one away
      from c, and one fewer than before. */
  lemma RefreshedFrom(s: State, c: Coord, g: set<Coord>)
    requires Growth(s) && SiteIndex(s.sites, c) != -1
    ensures var s1 := Placed(s, c);
      var sites := Refreshed(s1.nodes, s1.store, s1.sites);
      |sites| == |s.sites| - 1 && CoordsFrom(sites, s.sites, c, g)
  {
    var s1 := Placed(s, c);
    var sites := Refreshed(s1.nodes, s1.store, s1.sites);
    RemoveSiteEntries(s.sites, c);
    forall j | 0 <= j < |sites|
      ensures sites[j].coord != c && SiteIndex(s.sites, sites[j].coord) != -1
    {
      var i := if j < SiteIndex(s.sites, c) then j else j + 1;
      assert sites[j].coord == s1.sites[j].coord == s.sites[i].coord;
    }
  }

  /** `AddPotentialNode(id, dir)` from the node at c towards a coord of g
      keeps a candidate list drawn from old candidates and g, and adds at
      most one entry. */
  lemma GapKeepsFrom(t: State, sites: seq<Site>, c: Coord, g: set<Coord>, id: int, dir: Dir)
    requires WellFormed(t) && 0 <= id < |t.store| && t.store[id].coord == c
    requires Add(c, Delta(dir)) in g && CoordsFrom(t.sites, sites, c, g)
    ensures var u := WithSite(t, id, dir);
      WellFormed(u) && u.store == t.store && u.nodes == t.nodes &&
      |u.sites| <= |t.sites| + 1 && CoordsFrom(u.sites, sites, c, g)
  {
    WithSiteShape(t, id, dir);
    assert forall k :: 0 <= k < |t.sites| ==> SiteShape(t.sites[k], |t.store|);
    InsertKeepsFrom(t.sites, sites, c, g, Hexed(t.nodes, t.store, BlankSite(Add(c, Delta(dir)))));
  }

  /** Inserting a candidate at one of the coords g keeps a list drawn from
      old candidates and g, and adds at most one entry. */
  lemma InsertKeepsFrom(list: seq<Site>, sites: seq<Site>, c: Coord, g: set<Coord>, q: Site)
    requires forall k :: 0 <= k < |list| ==> |list[k].hasNeighbor| == 6 && |list[k].neighbors| == 6
    requires |q.hasNeighbor| == 6 && |q.neighbors| == 6
    requires CoordsFrom(list, sites, c, g) && q.coord in g
    ensures |InsertSite(list, q)| <= |list| + 1 && CoordsFrom(InsertSite(list, q), sites, c, g)
  {
    InsertSiteCoords(list, q);
  }

  /** `AddPotentialNode`'s list step adds at most one entry, at q's coord,
      and moves no other entry. */
  lemma InsertSiteCoords(sites: seq<Site>, q: Site)
    requires forall k :: 0 <= k < |sites| ==> |sites[k].hasNeighbor| == 6 && |sites[k].neighbors| == 6
    requires |q.hasNeighbor| == 6 && |q.neighbors| == 6
    ensures var r := InsertSite(sites, q);
      |sites| <= |r| <= |sites| + 1 &&
      forall j :: 0 <= j < |r| ==> r[j].coord == q.coord || (j < |sites| && r[j].coord == sites[j].coord)
  {
  }

  /** Spending an id on a record that never joins the list changes no
      invariant. */
  lemma LatticeStoreGrows(s: State)
    requires Lattice(s)
    ensures var t := State(s.nodes, s.store + [BlankNode], s.sites, s.nodeCount + 1);
      WellFormed(t) && Lattice(t) && forall y :: Occupied(t, y) <==> Occupied(s, y)
  {
    var t := State(s.nodes, s.store + [BlankNode], s.sites, s.nodeCount + 1);
    StoreGrowsWellFormed(s);
    assert forall k :: 0 <= k < |s.nodes| ==> t.store[t.nodes[k]] == s.store[s.nodes[k]];
    StoreGrowsOccupied(s);
    forall k, d: Dir | 0 <= k < |t.nodes| ensures Mutual(t, t.nodes[k], d) {
      assert Mutual(s, s.nodes[k], d);
    }
  }

  /** A blank record appended to the store keeps the state well formed. */
  lemma StoreGrowsWellFormed(s: State)
    requires WellFormed(s)
    ensures WellFormed(State(s.nodes, s.store + [BlankNode], s.sites, s.nodeCount + 1))
  {
    var t := State(s.nodes, s.store + [BlankNode], s.sites, s.nodeCount + 1);
    StoreGrowsShape(s);
    forall k | 0 <= k < |t.sites| ensures SiteShape(t.sites[k], |t.store|) {
      assert SiteShape(s.sites[k], |s.store|);
    }
  }

  /** A record that is not in the node list occupies no coord. */
  lemma StoreGrowsOccupied(s: State)
    requires WellFormed(s)
    ensures var t := State(s.nodes, s.store + [BlankNode], s.sites, s.nodeCount + 1);
      WellFormed(t) && forall y :: Occupied(t, y) <==> Occupied(s, y)
  {
    var t := State(s.nodes, s.store + [BlankNode], s.sites, s.nodeCount + 1);
    StoreGrowsWellFormed(s);
    assert forall k :: 0 <= k < |s.nodes| ==> t.store[t.nodes[k]] == s.store[s.nodes[k]];
    forall y ensures Occupied(t, y) <==> Occupied(s, y) {
      if Occupied(s, y) {
        var k :| 0 <= k < |s.nodes| && s.store[s.nodes[k]].coord == y;
        assert t.store[t.nodes[k]].coord == y;
      }
    }
  }

  /** The same for a growing lattice. */
  lemma GrowthStoreGrows(s: State)
    requires Growth(s)
    ensures var t := State(s.nodes, s.store + [BlankNode], s.sites, s.nodeCount + 1);
      WellFormed(t) && Growth(t)
  {
    var t := State(s.nodes, s.store + [BlankNode], s.sites, s.nodeCount + 1);
    LatticeStoreGrows(s);
    var u := State(s.nodes, s.store + [BlankNode], [], s.nodeCount + 1);
    forall k | 0 <= k < |s.sites| ensures SiteShape(s.sites[k], |t.store|) && SiteOk(u, s.sites[k]) {
      var p := s.sites[k];
      assert SiteShape(p, |s.store|) && SiteOk(s, p);
      forall d: Dir ensures FlagExact(u, p, d) {
        assert FlagExact(s, p, d);
        assert forall j :: 0 <= j < |s.nodes| ==> u.store[u.nodes[j]] == s.store[s.nodes[j]];
      }
    }
    assert Lattice(u) by { SitesOnly(t, []); }
    SitesGrowth(u, s.sites);
    assert u.(sites := s.sites) == t;
  }

  /** Dropping a candidate keeps a growing lattice growing. */
  lemma GrowthDropSite(t: State, c: Coord)
    requires Growth(t)
    ensures WellFormed(t.(sites := RemoveSite(t.sites, c))) && Growth(t.(sites := RemoveSite(t.sites, c)))
    ensures SiteIndex(RemoveSite(t.sites, c), c) == -1
    ensures |RemoveSite(t.sites, c)| == |t.sites| - (if SiteIndex(t.sites, c) == -1 then 0 else 1)
  {
    var sites := RemoveSite(t.sites, c);
    RemoveSiteShape(t.sites, c, |t.store|, |t.store|);
    if SiteIndex(t.sites, c) != -1 {
      RemoveSiteEntries(t.sites, c);
      var i := SiteIndex(t.sites, c);
      forall k | 0 <= k < |sites| ensures SiteShape(sites[k], |t.store|) && SiteOk(t, sites[k]) {
        var j := if k < i then k else k + 1;
        assert sites[k] == t.sites[j] && SiteOk(t, t.sites[j]);
      }
      SitesGrowth(t, sites);
    }
  }

  /** `MaterializePotentialNode(c)` without a candidate at c fails, spends
      an id, adds no node, drops the candidate at (0,0) if there is one,
      and keeps a growing lattice growing. */
  lemma MaterializedMissing(s: State, c: Coord)
    requires Growth(s) && SiteIndex(s.sites, c) == -1
    ensures var r := Materialized(s, c);
      !r.0 && Growth(r.1) && r.1.nodes == s.nodes && r.1.nodeCount == s.nodeCount + 1 &&
      r.1.store[..|s.store|] == s.store && SiteIndex(r.1.sites, Zero) == -1 &&
      |r.1.sites| == |s.sites| - (if SiteIndex(s.sites, Zero) == -1 then 0 else 1)
  {
    GrowthStoreGrows(s);
    var t := State(s.nodes, s.store + [BlankNode], s.sites, s.nodeCount + 1);
    GrowthDropSite(t, Zero);
    assert Materialized(s, c).1 == t.(sites := RemoveSite(t.sites, Zero));
  }
}
