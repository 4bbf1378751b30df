/** The Balthazar `Graph` as the object the game drives: its node list, its
    candidate list and its id counter are fields that the methods update
    step by step, with the loops of the C# methods. The node records, shared
    by every copy of a C# `Node`, live in `store`, indexed by id. Every
    method is proved to leave exactly the state its specification function
    in `BalthazarModel` describes. */
module BalthazarGraph {
  import opened Hex
  import opened WeightedDraw
  import opened BalthazarModel

  class Graph {
    var nodes: seq<int>
    var store: seq<NodeRec>
    var potentialNodes: seq<Site>
    var nodeCount: int

    /** The whole state as a value. */
    function Model(): State
      reads this
    {
      State(nodes, store, potentialNodes, nodeCount)
    }

    /** `Graph(seed)`: empty lists and counter 0; the seed only initialises
        Unity's generator, which is not part of this model. */
    constructor (seed: int)
      ensures Model() == EmptyGraph
    {
      nodes := [];
      store := [];
      potentialNodes := [];
      nodeCount := 0;
    }

    /** `AddNode()`: builds a blank node, gives it the next id and appends
        it to the list. */
    method AddNode()
      modifies this
      ensures Model() == WithNode(old(Model()))
    {
      store := store + [BlankNode];
      nodes := nodes + [nodeCount];
      nodeCount := nodeCount + 1;
    }

    /** `AddNodes(nodesToAdd)`. */
    method AddNodes(nodesToAdd: int)
      modifies this
      ensures Model() == WithNodes(old(Model()), nodesToAdd)
    {
      var i := 0;
      while i < nodesToAdd
        invariant 0 <= i <= (if nodesToAdd < 0 then 0 else nodesToAdd)
        invariant Model() == WithNodes(old(Model()), i)
      {
        AddNode();
        i := i + 1;
      }
    }

    /** `AddNode(Node n)`: appends an already built node to the list. */
    method AddExistingNode(n: int)
      modifies this
      ensures Model() == old(Model()).(nodes := old(nodes) + [n])
    {
      nodes := nodes + [n];
    }

    /** `ShredNode(n)`. */
    method ShredNode(n: int)
      modifies this
      ensures Model() == old(Model()).(nodes := RemoveId(old(nodes), n))
    {
      nodes := RemoveId(nodes, n);
    }

    /** `DeleteEdge(Node n1, Node n2)`: the scan stops one step past the
        first direction linking n1 to n2 and steps back. */
    method DeleteEdge(n1: int, n2: int)
      requires WellFormed(Model()) && 0 <= n1 < |store| && 0 <= n2 < |store|
      modifies this
      ensures Model() == DeletedEdge(old(Model()), n1, n2)
    {
      assert RecShape(store[n1], |store|) && RecShape(store[n2], |store|);
      var foundEdge, i := ScanEdge(n1, n2);
      if !foundEdge {
        return;
      }
      store := store[n1 := Cleared(store[n1], i as Dir)];
      var count1 := CountNeighbors(store[n1].hasNeighbor);
      if count1 == 0 {
        ShredNode(n1);
      }
      store := store[n2 := Cleared(store[n2], Opposite(i as Dir))];
      var count2 := CountNeighbors(store[n2].hasNeighbor);
      if count2 == 0 {
        ShredNode(n2);
      }
    }

    /** The scan of `DeleteEdge`: it stops one step past the first
        direction linking n1 to n2, and the index steps back to it. */
    method ScanEdge(n1: int, n2: int) returns (foundEdge: bool, i: int)
      requires 0 <= n1 < |store| && |store[n1].hasNeighbor| == 6 && |store[n1].neighbors| == 6
      ensures foundEdge <==> EdgeIndex(store[n1], n2) != -1
      ensures foundEdge ==> i == EdgeIndex(store[n1], n2)
    {
      foundEdge := false;
      i := 0;
      while i < 6 && !foundEdge
        invariant 0 <= i <= 6
        invariant foundEdge ==> 1 <= i && i - 1 == EdgeIndex(store[n1], n2)
        invariant !foundEdge ==>
          forall d: Dir :: d as int < i ==> !(store[n1].hasNeighbor[d] && store[n1].neighbors[d] == n2)
      {
        if store[n1].neighbors[i] == n2 && store[n1].hasNeighbor[i] {
          foundEdge := true;
        }
        i := i + 1;
      }
      i := i - 1;
    }

    /** `DeleteEdge(int n1_ID, int n2_ID)`: the nodes at two list positions. */
    method DeleteEdgeAt(i1: int, i2: int)
      requires WellFormed(Model()) && 0 <= i1 < |nodes| && 0 <= i2 < |nodes|
      modifies this
      ensures Model() == DeletedEdge(old(Model()), old(nodes[i1]), old(nodes[i2]))
    {
      DeleteEdge(nodes[i1], nodes[i2]);
    }

    /** `DeleteNode(Node n)`: every flag is read afresh, after the deletions
        made for the directions before it. */
    method DeleteNode(n: int)
      requires WellFormed(Model()) && 0 <= n < |store|
      modifies this
      ensures Model() == DeletedNodeUpTo(old(Model()), n, 6)
    {
      for i := 0 to 6
        invariant Model() == DeletedNodeUpTo(old(Model()), n, i)
      {
        assert RecShape(store[n], |store|);
        if store[n].hasNeighbor[i] {
          DeletedEdgeShape(Model(), n, store[n].neighbors[i]);
          DeleteEdge(n, store[n].neighbors[i]);
        }
      }
    }

    /** `DeleteNode(int nodeID)`: the node at a list position. */
    method DeleteNodeAt(k: int)
      requires WellFormed(Model()) && 0 <= k < |nodes|
      modifies this
      ensures Model() == DeletedNodeUpTo(old(Model()), old(nodes[k]), 6)
    {
      DeleteNode(nodes[k]);
    }

    /** `MergePotentialNodes(mergeThis, intoThis)`. */
    method MergePotentialNodes(mergeThis: Site, intoThis: Site) returns (pn: Site)
      requires |mergeThis.hasNeighbor| == 6 && |mergeThis.neighbors| == 6
      requires |intoThis.hasNeighbor| == 6 && |intoThis.neighbors| == 6
      ensures pn == Merged(mergeThis, intoThis)
    {
      pn := intoThis;
      ghost var m := Merged(mergeThis, intoThis);
      for i := 0 to 6
        invariant pn.coord == intoThis.coord && |pn.hasNeighbor| == 6 && |pn.neighbors| == 6
        invariant forall j :: 0 <= j < 6 ==>
          pn.hasNeighbor[j] == (if j < i then m.hasNeighbor[j] else intoThis.hasNeighbor[j]) &&
          pn.neighbors[j] == (if j < i then m.neighbors[j] else intoThis.neighbors[j])
      {
        if mergeThis.hasNeighbor[i] {
          pn := pn.(hasNeighbor := pn.hasNeighbor[i := true], neighbors := pn.neighbors[i := mergeThis.neighbors[i]]);
        }
      }
      assert pn.hasNeighbor == m.hasNeighbor && pn.neighbors == m.neighbors;
    }

    /** `FindNodeAtCoord(c, out foundNode)`: the scan keeps the last match;
        the id -1 of the placeholder node means none. */
    method FindNodeAtCoord(c: Coord) returns (found: bool, foundNode: int)
      requires IdsIn(nodes, |store|)
      ensures foundNode == NodeAt(nodes, store, c)
      ensures found <==> foundNode != -1
    {
      foundNode := -1;
      for k := 0 to |nodes|
        invariant foundNode == NodeAt(nodes[..k], store, c)
      {
        assert nodes[..k + 1][..k] == nodes[..k];
        if store[nodes[k]].coord == c {
          foundNode := nodes[k];
        }
      }
      assert nodes[..|nodes|] == nodes;
      found := foundNode != -1;
    }

    /** `HexPotentialNode(pn)`. */
    method HexPotentialNode(pn: Site) returns (r: Site)
      requires IdsIn(nodes, |store|)
      requires |pn.hasNeighbor| == 6 && |pn.neighbors| == 6
      ensures r == Hexed(nodes, store, pn)
    {
      r := pn;
      ghost var h := Hexed(nodes, store, pn);
      for i := 0 to 6
        invariant r.coord == pn.coord && |r.hasNeighbor| == 6 && |r.neighbors| == 6
        invariant forall j :: 0 <= j < 6 ==>
          r.hasNeighbor[j] == (if j < i then h.hasNeighbor[j] else pn.hasNeighbor[j]) &&
          r.neighbors[j] == (if j < i then h.neighbors[j] else pn.neighbors[j])
      {
        var check := Add(pn.coord, Delta(i as Dir));
        var found, n := FindNodeAtCoord(check);
        if found {
          r := r.(hasNeighbor := r.hasNeighbor[i := true], neighbors := r.neighbors[i := n]);
        }
      }
      assert r.hasNeighbor == h.hasNeighbor && r.neighbors == h.neighbors;
    }

    /** `AddPotentialNode(Node n, dir)`: a blank candidate beyond n, its
        occupancy derived, then merged into the list. */
    method AddPotentialNode(n: int, dir: Dir)
      requires WellFormed(Model()) && 0 <= n < |store|
      modifies this
      ensures Model() == WithSite(old(Model()), n, dir)
      ensures WellFormed(Model())
    {
      WithSiteShape(Model(), n, dir);
      var pn := BlankSite(Add(store[n].coord, Delta(dir)));
      pn := HexPotentialNode(pn);
      MergeOrAppend(pn);
    }

    /** The list loop of `AddPotentialNode`: every candidate at pn's coord
        absorbs pn; pn is appended only when none matched. */
    method MergeOrAppend(pn: Site)
      requires |pn.hasNeighbor| == 6 && |pn.neighbors| == 6
      requires forall k :: 0 <= k < |potentialNodes| ==>
        |potentialNodes[k].hasNeighbor| == 6 && |potentialNodes[k].neighbors| == 6
      modifies this
      ensures Model() == old(Model()).(sites := InsertSite(old(potentialNodes), pn))
    {
      ghost var sites := potentialNodes;
      var alreadyExists := false;
      for i := 0 to |potentialNodes|
        invariant nodes == old(nodes) && store == old(store) && nodeCount == old(nodeCount)
        invariant |potentialNodes| == |sites|
        invariant forall k :: 0 <= k < |sites| ==>
          potentialNodes[k] == (if k < i && sites[k].coord == pn.coord then Merged(pn, sites[k]) else sites[k])
        invariant alreadyExists <==> exists k :: 0 <= k < i && sites[k].coord == pn.coord
      {
        if pn.coord == potentialNodes[i].coord {
          var merged := MergePotentialNodes(pn, potentialNodes[i]);
          potentialNodes := potentialNodes[i := merged];
          alreadyExists := true;
        }
      }
      if !alreadyExists {
        assert potentialNodes == sites;
        potentialNodes := potentialNodes + [pn];
      } else {
        assert SiteIndex(sites, pn.coord) != -1;
        assert potentialNodes == InsertSite(sites, pn);
      }
    }

    /** `AddPotentialNode(int nodeID, dir)`: the node at a list position. */
    method AddPotentialNodeAt(k: int, dir: Dir)
      requires WellFormed(Model()) && 0 <= k < |nodes|
      modifies this
      ensures Model() == WithSite(old(Model()), old(nodes[k]), dir)
      ensures WellFormed(Model())
    {
      AddPotentialNode(nodes[k], dir);
    }

    /** `LinkNodes(ref n1, ref n2, d)`, with c1 the coord of the n1 copy. */
    method LinkNodesRef(n1: int, c1: Coord, n2: int, d: Dir)
      requires WellFormed(Model()) && 0 <= n1 < |store| && 0 <= n2 < |store|
      modifies this
      ensures Model() == old(Model()).(store := Linked(old(store), n1, c1, n2, d))
      ensures WellFormed(Model())
    {
      LinkedShape(store, n1, c1, n2, d);
      store := Linked(store, n1, c1, n2, d);
    }

    /** `LinkNodes(int n1id, int n2id, d)`: the nodes at two list positions. */
    method LinkNodes(i1: int, i2: int, d: Dir)
      requires WellFormed(Model()) && 0 <= i1 < |nodes| && 0 <= i2 < |nodes|
      modifies this
      ensures Model() == LinkedAt(old(Model()), i1, i2, d)
      ensures WellFormed(Model())
    {
      LinkNodesRef(nodes[i1], store[nodes[i1]].coord, nodes[i2], d);
    }

    /** `GenerateFirstTriangle()`. */
    method GenerateFirstTriangle()
      requires WellFormed(Model())
      modifies this
      ensures Model() == WithTriangle(old(Model()))
    {
      WithNodesShape(Model(), 3);
      AddNodes(3);
      LinkNodes(0, 1, UR);
      LinkNodes(1, 2, DR);
      LinkNodes(0, 2, R);
      AddPotentialNodeAt(0, UL);
      AddPotentialNodeAt(1, R);
      AddPotentialNodeAt(2, DL);
    }

    /** `FindPotentialNode(c)`: the first candidate at c; when there is none
        the default candidate, at (0,0) and without arrays. */
    method FindPotentialNode(c: Coord) returns (found: bool, pn: Site)
      ensures found <==> SiteIndex(potentialNodes, c) != -1
      ensures found ==> pn == potentialNodes[SiteIndex(potentialNodes, c)]
      ensures !found ==> pn == Site(Zero, [], [])
    {
      for k := 0 to |potentialNodes|
        invariant forall j :: 0 <= j < k ==> potentialNodes[j].coord != c
      {
        if potentialNodes[k].coord == c {
          return true, potentialNodes[k];
        }
      }
      return false, Site(Zero, [], []);
    }

    /** `MaterializePotentialNode(c)`; false where the source fails on the
        missing candidate's flag array, after its id was spent. */
    method MaterializePotentialNode(c: Coord) returns (ok: bool)
      requires WellFormed(Model())
      modifies this
      ensures (ok, Model()) == Materialized(old(Model()), c)
    {
      var found, pn := FindPotentialNode(c);
      potentialNodes := RemoveSite(potentialNodes, pn.coord);
      var id := nodeCount;
      nodeCount := nodeCount + 1;
      store := store + [BlankNode];
      if !found {
        return false;
      }
      assert SiteShape(pn, |old(store)|);
      StoreGrowsShape(old(Model()));
      var fpn, lpn := LinkAround(pn, id);
      AddExistingNode(id);
      assert Model() == Placed(old(Model()), c);
      RefreshPotentialNodes();
      if fpn != -1 {
        AddPotentialNode(id, fpn as Dir);
      }
      if lpn != -1 {
        AddPotentialNode(id, lpn as Dir);
      }
      ok := true;
    }

    /** The linking loop of `MaterializePotentialNode`: every neighbour pn
        flags is linked to the new node id, and the scan notes the first
        and the last gap beside a flagged direction. */
    method LinkAround(pn: Site, id: int) returns (fpn: int, lpn: int)
      requires 0 <= id < |store| && forall j :: 0 <= j < |store| ==> RecShape(store[j], |store|)
      requires SiteShape(pn, |store|)
      modifies this
      ensures store == LinkUpTo(old(store), pn, id, 6)
      ensures fpn == FirstGapUpTo(pn.hasNeighbor, 6) && lpn == LastGapUpTo(pn.hasNeighbor, 6)
      ensures nodes == old(nodes) && potentialNodes == old(potentialNodes) && nodeCount == old(nodeCount)
    {
      fpn, lpn := -1, -1;
      ghost var store0 := store;
      for i := 0 to 6
        invariant store == LinkUpTo(store0, pn, id, i)
        invariant fpn == FirstGapUpTo(pn.hasNeighbor, i) && lpn == LastGapUpTo(pn.hasNeighbor, i)
        invariant potentialNodes == old(potentialNodes) && nodeCount == old(nodeCount) && nodes == old(nodes)
      {
        var d := i as Dir;
        if pn.hasNeighbor[d] {
          LinkedShape(store, pn.neighbors[d], Add(pn.coord, Delta(d)), id, Opposite(d));
          store := Linked(store, pn.neighbors[d], Add(pn.coord, Delta(d)), id, Opposite(d));
          if !pn.hasNeighbor[Next(d)] {
            lpn := Next(d) as int;
          }
          if fpn == -1 {
            if !pn.hasNeighbor[Prev(d)] {
              fpn := Prev(d) as int;
            }
          }
        }
      }
    }

    /** The `foreach` of `MaterializePotentialNode` that re-derives every
        candidate in place. */
    method RefreshPotentialNodes()
      requires WellFormed(Model())
      modifies this
      ensures Model() == old(Model()).(sites := Refreshed(old(nodes), old(store), old(potentialNodes)))
      ensures WellFormed(Model())
    {
      ghost var s1 := Model();
      RefreshedShape(s1);
      for k := 0 to |potentialNodes|
        invariant nodes == s1.nodes && store == s1.store && nodeCount == s1.nodeCount
        invariant |potentialNodes| == |s1.sites|
        invariant forall j :: 0 <= j < |s1.sites| ==>
          potentialNodes[j] == (if j < k then Hexed(nodes, store, s1.sites[j]) else s1.sites[j])
      {
        assert SiteShape(s1.sites[k], |store|);
        var h := HexPotentialNode(potentialNodes[k]);
        potentialNodes := potentialNodes[k := h];
      }
      assert potentialNodes == Refreshed(s1.nodes, s1.store, s1.sites);
    }

    /** `MaterializePotentialNode(int nodeID, dir)`: the candidate beyond the
        node at a list position. */
    method MaterializePotentialNodeAt(k: int, dir: Dir) returns (ok: bool)
      requires WellFormed(Model()) && 0 <= k < |nodes|
      modifies this
      ensures (ok, Model()) == Materialized(old(Model()), Add(old(store[nodes[k]].coord), Delta(dir)))
    {
      ok := MaterializePotentialNode(Add(store[nodes[k]].coord, Delta(dir)));
    }

    /** `PickPotentialNode(mode)`: `draws[k]` is the draw spent on candidate
        k in the semi modes, `pick` the final draw over the pool. */
    method PickPotentialNode(mode: Mode, draws: seq<int>, pick: int) returns (r: Option<Coord>)
      requires |draws| == |potentialNodes|
      requires |Pool(potentialNodes, mode, draws)| > 0 ==> 0 <= pick < |Pool(potentialNodes, mode, draws)|
      ensures r == Picked(potentialNodes, mode, draws, pick)
    {
      var minCon, maxCon := 7, 0;
      if mode != Random {
        minCon, maxCon := ScanCounts();
      }
      var pnList: seq<Site> := [];
      if mode == Random {
        pnList := potentialNodes;
      } else {
        pnList := Filter(mode, minCon, maxCon, draws);
      }
      assert pnList == Pool(potentialNodes, mode, draws);
      if |pnList| == 0 {
        return None;
      }
      r := Some(pnList[pick].coord);
    }

    /** The first loop of `PickPotentialNode`: the fewest and the most
        neighbouring nodes over the candidates, from 7 and 0. */
    method ScanCounts() returns (minCon: int, maxCon: int)
      ensures minCon == MinConUpTo(potentialNodes, |potentialNodes|)
      ensures maxCon == MaxConUpTo(potentialNodes, |potentialNodes|)
    {
      minCon, maxCon := 7, 0;
      for k := 0 to |potentialNodes|
        invariant minCon == MinConUpTo(potentialNodes, k) && maxCon == MaxConUpTo(potentialNodes, k)
      {
        var count := SiteCount(potentialNodes[k]);
        minCon := Min(minCon, count);
        maxCon := Max(maxCon, count);
      }
    }

    /** The second loop of `PickPotentialNode`: the candidates the mode's
        filter admits, in list order. */
    method Filter(mode: Mode, minCon: int, maxCon: int, draws: seq<int>) returns (pnList: seq<Site>)
      requires |draws| == |potentialNodes|
      ensures pnList == PoolUpTo(potentialNodes, mode, minCon, maxCon, draws, |potentialNodes|)
    {
      pnList := [];
      for k := 0 to |potentialNodes|
        invariant pnList == PoolUpTo(potentialNodes, mode, minCon, maxCon, draws, k)
      {
        if Admits(mode, SiteCount(potentialNodes[k]), minCon, maxCon, draws[k]) {
          pnList := pnList + [potentialNodes[k]];
        }
      }
    }
  }
}
