/** Edge and node deletion on a linked lattice: `DeleteEdge` cuts one link
    in both directions and shreds exactly the endpoints it leaves without a
    link, and `DeleteNode` cuts every link of a live node, which then leaves
    the graph. Both keep the linkage invariant and leave no live node
    isolated. */
module BalthazarDeletion {
  import opened Hex
  import opened BalthazarModel
  import opened BalthazarInvariants

  /** Entry j of `nodes.Remove(id)` when id is at position k. */
  lemma RemoveIdAt(nodes: seq<int>, id: int, j: int)
    requires IdIndex(nodes, id) != -1 && 0 <= j < |nodes| - 1
    ensures |RemoveId(nodes, id)| == |nodes| - 1
    ensures RemoveId(nodes, id)[j] == nodes[if j < IdIndex(nodes, id) then j else j + 1]
  {
    var k := IdIndex(nodes, id);
    var a, b := nodes[..k], nodes[k + 1..];
    assert RemoveId(nodes, id) == a + b;
    if j < k {
      assert (a + b)[j] == a[j];
    } else {
      assert (a + b)[j] == b[j - k];
    }
  }

  /** `nodes.Remove(id)` on a list without repeated ids removes exactly that
      id and keeps the others distinct. */
  lemma RemoveIdDistinct(nodes: seq<int>, id: int)
    requires DistinctIds(nodes)
    ensures DistinctIds(RemoveId(nodes, id))
    ensures forall x :: x in RemoveId(nodes, id) <==> x in nodes && x != id
  {
    var k := IdIndex(nodes, id);
    if k != -1 {
      var r := RemoveId(nodes, id);
      forall i, j | 0 <= i < j < |r| ensures r[i] != r[j] {
        RemoveIdAt(nodes, id, i);
        RemoveIdAt(nodes, id, j);
      }
      forall x | x in r ensures x in nodes && x != id {
        var j :| 0 <= j < |r| && r[j] == x;
        RemoveIdAt(nodes, id, j);
      }
      forall x | x in nodes && x != id ensures x in r {
        var j :| 0 <= j < |nodes| && nodes[j] == x;
        if j < k {
          RemoveIdAt(nodes, id, j);
        } else {
          RemoveIdAt(nodes, id, j - 1);
        }
      }
    }
  }

  /** Live ids at the same coord are the same node (membership form). */
  lemma SameCoordSameNode(s: State, x: int, y: int)
    requires WellFormed(s) && DistinctCoords(s) && x in s.nodes && y in s.nodes
    requires s.store[x].coord == s.store[y].coord
    ensures x == y
  {
    var j :| 0 <= j < |s.nodes| && s.nodes[j] == x;
    var k :| 0 <= k < |s.nodes| && s.nodes[k] == y;
  }

  /** The direction in which a live node of a linked lattice names n2 is the
      only one, and n2 is another node. */
  lemma EdgeOfLive(s: State, n1: int, n2: int)
    requires Linkage(s) && n1 in s.nodes && 0 <= n2 < |s.store|
    ensures RecShape(s.store[n1], |s.store|)
    ensures var i := EdgeIndex(s.store[n1], n2);
      i != -1 ==>
        n1 != n2 && n2 in s.nodes && Mutual(s, n1, i as Dir) &&
        s.store[n2].hasNeighbor[Opposite(i as Dir)] && s.store[n2].neighbors[Opposite(i as Dir)] == n1
  {
    assert RecShape(s.store[n1], |s.store|);
    var i := EdgeIndex(s.store[n1], n2);
    if i != -1 {
      var k :| 0 <= k < |s.nodes| && s.nodes[k] == n1;
      assert Mutual(s, s.nodes[k], i as Dir);
      NeighboursDistinct(s.store[n1].coord, i as Dir, i as Dir);
    }
  }

  /** `DeleteEdge(n1, n2)` from a live node of a linked lattice: with no
      link from n1 to n2 nothing changes; otherwise the link is cleared at
      both ends (ids stay behind, flags drop) and exactly the endpoints left
      with no flag leave the node list. */
  lemma DeletedEdgeEffect(s: State, n1: int, n2: int)
    requires Linkage(s) && n1 in s.nodes && 0 <= n2 < |s.store|
    ensures RecShape(s.store[n1], |s.store|) && RecShape(s.store[n2], |s.store|)
    ensures var i := EdgeIndex(s.store[n1], n2);
      var r := DeletedEdge(s, n1, n2);
      (i == -1 ==> r == s) &&
      (i != -1 ==>
        n1 != n2 &&
        r.store == s.store[n1 := Cleared(s.store[n1], i as Dir)][n2 := Cleared(s.store[n2], Opposite(i as Dir))] &&
        r.sites == s.sites && r.nodeCount == s.nodeCount && DistinctIds(r.nodes) &&
        forall x :: x in r.nodes <==>
          x in s.nodes && ((x != n1 && x != n2) || NeighborCount(r.store[x].hasNeighbor) > 0))
  {
    EdgeOfLive(s, n1, n2);
    assert RecShape(s.store[n2], |s.store|);
    var i := EdgeIndex(s.store[n1], n2);
    if i != -1 {
      var r := DeletedEdge(s, n1, n2);
      var st1 := s.store[n1 := Cleared(s.store[n1], i as Dir)];
      var nodes1 := if NeighborCount(st1[n1].hasNeighbor) == 0 then RemoveId(s.nodes, n1) else s.nodes;
      RemoveIdDistinct(s.nodes, n1);
      RemoveIdDistinct(nodes1, n2);
      assert r.store[n1] == st1[n1];
    }
  }

  /** Cutting one link of a live node keeps a linked lattice linked and
      leaves no live node without a link. */
  lemma DeletedEdgeLinkage(s: State, n1: int, n2: int)
    requires Linkage(s) && NoIsolated(s) && n1 in s.nodes && 0 <= n2 < |s.store|
    ensures Linkage(DeletedEdge(s, n1, n2)) && NoIsolated(DeletedEdge(s, n1, n2))
  {
    DeletedEdgeEffect(s, n1, n2);
    if EdgeIndex(s.store[n1], n2) != -1 {
      var r := DeletedEdge(s, n1, n2);
      DeletedEdgeCoords(s, n1, n2);
      DeletedEdgeNoIsolated(s, n1, n2);
      forall k, d: Dir | 0 <= k < |r.nodes| ensures Mutual(r, r.nodes[k], d) {
        assert r.nodes[k] in r.nodes;
        DeletedEdgeMutual(s, n1, n2, r.nodes[k], d);
      }
    }
  }

  /** Deleting an edge moves no node and lists no node that was not
      listed. */
  lemma DeletedEdgeStays(s: State, n1: int, n2: int)
    requires WellFormed(s) && 0 <= n1 < |s.store| && 0 <= n2 < |s.store|
    ensures |DeletedEdge(s, n1, n2).store| == |s.store|
    ensures forall x :: 0 <= x < |s.store| ==> DeletedEdge(s, n1, n2).store[x].coord == s.store[x].coord
    ensures forall x :: x in DeletedEdge(s, n1, n2).nodes ==> x in s.nodes
  {
    DeletedEdgeShape(s, n1, n2);
    RemoveIdMembers(s.nodes, n1);
    RemoveIdMembers(RemoveId(s.nodes, n1), n2);
    RemoveIdMembers(s.nodes, n2);
  }

  lemma DeletedEdgeCoords(s: State, n1: int, n2: int)
    requires Linkage(s) && n1 in s.nodes && 0 <= n2 < |s.store|
    ensures WellFormed(DeletedEdge(s, n1, n2)) && DistinctCoords(DeletedEdge(s, n1, n2))
  {
    DeletedEdgeStays(s, n1, n2);
    DeletedEdgeShape(s, n1, n2);
    var r := DeletedEdge(s, n1, n2);
    forall j, k | 0 <= j < |r.nodes| && 0 <= k < |r.nodes| && r.store[r.nodes[j]].coord == r.store[r.nodes[k]].coord
      ensures r.nodes[j] == r.nodes[k]
    {
      assert r.nodes[j] in r.nodes && r.nodes[k] in r.nodes;
      SameCoordSameNode(s, r.nodes[j], r.nodes[k]);
    }
  }

  lemma DeletedEdgeNoIsolated(s: State, n1: int, n2: int)
    requires Linkage(s) && NoIsolated(s) && n1 in s.nodes && 0 <= n2 < |s.store|
    ensures WellFormed(DeletedEdge(s, n1, n2)) && NoIsolated(DeletedEdge(s, n1, n2))
  {
    DeletedEdgeEffect(s, n1, n2);
    DeletedEdgeShape(s, n1, n2);
    var r := DeletedEdge(s, n1, n2);
    forall k | 0 <= k < |r.nodes| ensures NeighborCount(r.store[r.nodes[k]].hasNeighbor) > 0 {
      var x := r.nodes[k];
      assert x in r.nodes;
      if x != n1 && x != n2 {
        var j :| 0 <= j < |s.nodes| && s.nodes[j] == x;
      }
    }
  }

  /** After the cut every record keeps its coord and ids, and a flag stays
      set exactly when it was set and is not one of the two cleared. */
  lemma DeletedEdgeFlag(s: State, n1: int, n2: int, y: int, d: Dir)
    requires Linkage(s) && n1 in s.nodes && 0 <= n2 < |s.store| && 0 <= y < |s.store|
    requires EdgeIndex(s.store[n1], n2) != -1
    ensures WellFormed(DeletedEdge(s, n1, n2))
    ensures var r := DeletedEdge(s, n1, n2);
      var e := EdgeIndex(s.store[n1], n2) as Dir;
      r.store[y].coord == s.store[y].coord && r.store[y].neighbors == s.store[y].neighbors &&
      (r.store[y].hasNeighbor[d] <==> s.store[y].hasNeighbor[d] && (y, d) != (n1, e) && (y, d) != (n2, Opposite(e)))
  {
    DeletedEdgeStore(s, n1, n2);
    DeletedEdgeShape(s, n1, n2);
    assert RecShape(s.store[y], |s.store|);
  }

  /** The records after the cut: both ends cleared, at distinct ids. */
  lemma DeletedEdgeStore(s: State, n1: int, n2: int)
    requires Linkage(s) && n1 in s.nodes && 0 <= n2 < |s.store|
    requires EdgeIndex(s.store[n1], n2) != -1
    ensures var i := EdgeIndex(s.store[n1], n2) as Dir;
      n1 != n2 && RecShape(s.store[n1], |s.store|) && RecShape(s.store[n2], |s.store|) &&
      DeletedEdge(s, n1, n2).store == s.store[n1 := Cleared(s.store[n1], i)][n2 := Cleared(s.store[n2], Opposite(i))]
  {
    DeletedEdgeEffect(s, n1, n2);
  }

  /** One flag of a surviving node after the cut: it is a flag the lattice
      had, other than the two cleared, so its partner's back-flag survives
      and keeps the partner live. */
  lemma DeletedEdgeMutual(s: State, n1: int, n2: int, x: int, d: Dir)
    requires Linkage(s) && n1 in s.nodes && 0 <= n2 < |s.store|
    requires EdgeIndex(s.store[n1], n2) != -1
    requires x in DeletedEdge(s, n1, n2).nodes
    ensures WellFormed(DeletedEdge(s, n1, n2)) && Mutual(DeletedEdge(s, n1, n2), x, d)
  {
    DeletedEdgeEffect(s, n1, n2);
    DeletedEdgeShape(s, n1, n2);
    EdgeOfLive(s, n1, n2);
    var r := DeletedEdge(s, n1, n2);
    var e := EdgeIndex(s.store[n1], n2) as Dir;
    assert x in s.nodes;
    var j :| 0 <= j < |s.nodes| && s.nodes[j] == x;
    assert Mutual(s, s.nodes[j], d);
    DeletedEdgeFlag(s, n1, n2, x, d);
    if r.store[x].hasNeighbor[d] {
      var b := s.store[x].neighbors[d];
      OppositeInvolutive(d);
      OppositeInvolutive(e);
      DeletedEdgeFlag(s, n1, n2, b, Opposite(d));
      assert r.store[b].hasNeighbor[Opposite(d)];
      assert b in r.nodes;
    }
  }

  /** The facts `DeleteNode(n)` keeps from one step of its loop to the
      next: the lattice is linked with no isolated node, n's flags below k
      are cleared and the rest untouched, and n is live exactly while it
      keeps a flag. */
  predicate DeletingNode(t: State, s: State, n: int, k: int)
    requires WellFormed(s) && 0 <= n < |s.store|
  {
    Linkage(t) && NoIsolated(t) && |t.store| == |s.store| &&
    RecShape(t.store[n], |t.store|) && RecShape(s.store[n], |s.store|) &&
    (forall d: Dir :: d as int < k ==> !t.store[n].hasNeighbor[d]) &&
    (forall d: Dir :: d as int >= k ==> t.store[n].hasNeighbor[d] == s.store[n].hasNeighbor[d]) &&
    t.store[n].neighbors == s.store[n].neighbors &&
    (n in t.nodes <==> NeighborCount(t.store[n].hasNeighbor) > 0)
  }

  /** Step i of the loop of `DeleteNode(n)` when flag i is still set: the
      edge found is the one in direction i, and the facts carry over. */
  lemma DeletedNodeStep(t: State, s: State, n: int, i: Dir)
    requires WellFormed(s) && 0 <= n < |s.store| && DeletingNode(t, s, n, i as int)
    requires t.store[n].hasNeighbor[i]
    ensures DeletingNode(DeletedEdge(t, n, t.store[n].neighbors[i]), s, n, i as int + 1)
  {
    var nb := t.store[n].neighbors[i];
    assert n in t.nodes;
    EdgeOfLive(t, n, nb);
    assert EdgeIndex(t.store[n], nb) == i as int;
    DeletedEdgeEffect(t, n, nb);
    DeletedEdgeLinkage(t, n, nb);
    DeletedEdgeShape(t, n, nb);
    var r := DeletedEdge(t, n, nb);
    assert RecShape(r.store[n], |r.store|);
  }

  /** The first k steps of `DeleteNode(n)` on a live node of a linked
      lattice keep the loop's facts. */
  lemma {:induction false} DeletedNodeSteps(s: State, n: int, k: nat)
    requires Linkage(s) && NoIsolated(s) && n in s.nodes && k <= 6
    ensures 0 <= n < |s.store| && DeletingNode(DeletedNodeUpTo(s, n, k), s, n, k)
    decreases k
  {
    if k == 0 {
      DeletingNodeStart(s, n);
    } else {
      DeletedNodeSteps(s, n, k - 1);
      DeletedNodeNext(s, n, k);
    }
  }

  /** Step k of the loop of `DeleteNode(n)`, whichever branch it takes. */
  lemma DeletedNodeNext(s: State, n: int, k: nat)
    requires WellFormed(s) && 0 <= n < |s.store| && 0 < k <= 6
    requires DeletingNode(DeletedNodeUpTo(s, n, k - 1), s, n, k - 1)
    ensures DeletingNode(DeletedNodeUpTo(s, n, k), s, n, k)
  {
    var prev := DeletedNodeUpTo(s, n, k - 1);
    var i := (k - 1) as Dir;
    if prev.store[n].hasNeighbor[i] {
      DeletedNodeStep(prev, s, n, i);
    } else {
      DeletingNodeSkip(prev, s, n, i);
    }
  }

  lemma DeletingNodeStart(s: State, n: int)
    requires Linkage(s) && NoIsolated(s) && n in s.nodes
    ensures 0 <= n < |s.store| && DeletingNode(s, s, n, 0)
  {
    var j :| 0 <= j < |s.nodes| && s.nodes[j] == n;
    assert RecShape(s.store[n], |s.store|);
  }

  lemma DeletingNodeSkip(t: State, s: State, n: int, i: Dir)
    requires WellFormed(s) && 0 <= n < |s.store| && DeletingNode(t, s, n, i as int)
    requires !t.store[n].hasNeighbor[i]
    ensures DeletingNode(t, s, n, i as int + 1)
  {
  }

  /** `DeleteNode(n)` on a live node of a linked lattice cuts all of n's
      links and shreds n, keeps the lattice linked with no isolated node,
      and leaves the candidates and the id counter alone. */
  lemma DeletedNodeGone(s: State, n: int)
    requires Linkage(s) && NoIsolated(s) && n in s.nodes
    ensures var r := DeletedNodeUpTo(s, n, 6);
      Linkage(r) && NoIsolated(r) && n !in r.nodes &&
      (forall d: Dir :: !r.store[n].hasNeighbor[d]) &&
      r.sites == s.sites && |r.store| == |s.store|
  {
    DeletedNodeSteps(s, n, 6);
  }
}
