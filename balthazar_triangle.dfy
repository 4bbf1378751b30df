/** The starting triangle: what `GenerateFirstTriangle` builds on a fresh
    graph, written out, and the proof that it is a growing lattice, so that
    every graph grown from it by materializations stays one. */
module BalthazarTriangle {
  import opened Hex
  import opened BalthazarModel
  import opened BalthazarInvariants

  /** Nodes 0, 1 and 2 at (0,0), (1,1) and (2,0), pairwise linked, with one
      candidate beyond each: up-left of node 0, right of node 1, down-left
      of node 2. */
  const FirstTriangle := State(
    [0, 1, 2],
    [NodeRec(Coord(0, 0), [true, true, false, false, false, false], [1, 2, 0, 0, 0, 0]),
     NodeRec(Coord(1, 1), [false, false, true, true, false, false], [0, 0, 2, 0, 0, 0]),
     NodeRec(Coord(2, 0), [false, false, false, false, true, true], [0, 0, 0, 0, 0, 1])],
    [Site(Coord(-1, 1), [false, true, true, false, false, false], [0, 1, 0, 0, 0, 0]),
     Site(Coord(3, 1), [false, false, false, true, true, false], [0, 0, 0, 2, 1, 0]),
     Site(Coord(1, -1), [true, false, false, false, false, true], [2, 0, 0, 0, 0, 0])],
    3)

  /** The stages of `GenerateFirstTriangle` on a fresh graph, as the node
      records stand after `AddNodes(3)` and after each `LinkNodes`. */
  const Stage0 := [BlankNode, BlankNode, BlankNode]
  const Stage1 := [
    NodeRec(Coord(0, 0), [true, false, false, false, false, false], [1, 0, 0, 0, 0, 0]),
    NodeRec(Coord(1, 1), [false, false, false, true, false, false], [0, 0, 0, 0, 0, 0]),
    BlankNode]
  const Stage2 := [
    Stage1[0],
    NodeRec(Coord(1, 1), [false, false, true, true, false, false], [0, 0, 2, 0, 0, 0]),
    NodeRec(Coord(2, 0), [false, false, false, false, false, true], [0, 0, 0, 0, 0, 1])]

  lemma LinkStage1()
    ensures Linked(Stage0, 0, Zero, 1, UR) == Stage1
  {
    var r := Linked(Stage0, 0, Zero, 1, UR);
    assert Opposite(UR) == DL && Add(Zero, Delta(UR)) == Coord(1, 1);
    RecEqual(r[0], Stage1[0]);
    RecEqual(r[1], Stage1[1]);
    assert r[2] == Stage0[2] == Stage1[2];
    ThreeEqual(r, Stage1);
  }

  lemma LinkStage2()
    ensures Linked(Stage1, 1, Coord(1, 1), 2, DR) == Stage2
  {
    assert Opposite(DR) == UL;
    var r1 := Stage1[1];
    assert r1.hasNeighbor[DR := true] == Stage2[1].hasNeighbor;
    assert r1.neighbors[DR := 2] == Stage2[1].neighbors;
    assert NoFlags[UL := true] == Stage2[2].hasNeighbor;
    assert NoIds[UL := 1] == Stage2[2].neighbors;
    var st := Stage1[1 := r1.(hasNeighbor := r1.hasNeighbor[DR := true], neighbors := r1.neighbors[DR := 2])];
    assert Linked(Stage1, 1, Coord(1, 1), 2, DR) == st[2 := BlankNode.(coord := Add(Coord(1, 1), Delta(DR)), hasNeighbor := NoFlags[UL := true], neighbors := NoIds[UL := 1])];
  }

  lemma LinkStage3()
    ensures Linked(Stage2, 0, Zero, 2, R) == FirstTriangle.store
  {
    assert Opposite(R) == L;
    var r1 := Stage2[0];
    assert r1.hasNeighbor[R := true] == FirstTriangle.store[0].hasNeighbor;
    assert r1.neighbors[R := 2] == FirstTriangle.store[0].neighbors;
    assert Stage2[2].hasNeighbor[L := true] == FirstTriangle.store[2].hasNeighbor;
    assert Stage2[2].neighbors[L := 0] == FirstTriangle.store[2].neighbors;
    var st := Stage2[0 := r1.(hasNeighbor := r1.hasNeighbor[R := true], neighbors := r1.neighbors[R := 2])];
    var r2 := Stage2[2];
    assert Linked(Stage2, 0, Zero, 2, R) == st[2 := r2.(coord := Add(Zero, Delta(R)), hasNeighbor := r2.hasNeighbor[L := true], neighbors := r2.neighbors[L := 0])];
  }

  /** Two node records with the same coord and the same six flags and ids
      are equal. */
  lemma RecEqual(a: NodeRec, b: NodeRec)
    requires a.coord == b.coord
    requires |a.hasNeighbor| == 6 && |b.hasNeighbor| == 6 && |a.neighbors| == 6 && |b.neighbors| == 6
    requires forall i :: 0 <= i < 6 ==> a.hasNeighbor[i] == b.hasNeighbor[i] && a.neighbors[i] == b.neighbors[i]
    ensures a == b
  {
    assert a.hasNeighbor == b.hasNeighbor;
    assert a.neighbors == b.neighbors;
  }

  /** The candidate `HexPotentialNode` derives at c from the triangle's
      nodes. */
  function TriangleSite(c: Coord): Site
  {
    Hexed(FirstTriangle.nodes, FirstTriangle.store, BlankSite(c))
  }

  /** `FindNodeAtCoord` on the triangle. */
  lemma TriangleNodeAt(c: Coord)
    ensures NodeAt(FirstTriangle.nodes, FirstTriangle.store, c) ==
      if c == Coord(2, 0) then 2 else if c == Coord(1, 1) then 1 else if c == Coord(0, 0) then 0 else -1
  {
    var st := FirstTriangle.store;
    assert FirstTriangle.nodes[..2] == [0, 1] && [0, 1][..1] == [0] && [0][..0] == [];
  }

  lemma HexedSite0()
    ensures TriangleSite(Coord(-1, 1)) == FirstTriangle.sites[0]
  {
    var c := Coord(-1, 1);
    var p := TriangleSite(c);
    assert Add(c, Delta(UR)) == Coord(0, 2);
    TriangleNodeAt(Coord(0, 2));
    assert p.hasNeighbor[0] == FirstTriangle.sites[0].hasNeighbor[0] && p.neighbors[0] == FirstTriangle.sites[0].neighbors[0];
    assert Add(c, Delta(R)) == Coord(1, 1);
    TriangleNodeAt(Coord(1, 1));
    assert p.hasNeighbor[1] == FirstTriangle.sites[0].hasNeighbor[1] && p.neighbors[1] == FirstTriangle.sites[0].neighbors[1];
    assert Add(c, Delta(DR)) == Coord(0, 0);
    TriangleNodeAt(Coord(0, 0));
    assert p.hasNeighbor[2] == FirstTriangle.sites[0].hasNeighbor[2] && p.neighbors[2] == FirstTriangle.sites[0].neighbors[2];
    assert Add(c, Delta(DL)) == Coord(-2, 0);
    TriangleNodeAt(Coord(-2, 0));
    assert p.hasNeighbor[3] == FirstTriangle.sites[0].hasNeighbor[3] && p.neighbors[3] == FirstTriangle.sites[0].neighbors[3];
    assert Add(c, Delta(L)) == Coord(-3, 1);
    TriangleNodeAt(Coord(-3, 1));
    assert p.hasNeighbor[4] == FirstTriangle.sites[0].hasNeighbor[4] && p.neighbors[4] == FirstTriangle.sites[0].neighbors[4];
    assert Add(c, Delta(UL)) == Coord(-2, 2);
    TriangleNodeAt(Coord(-2, 2));
    assert p.hasNeighbor[5] == FirstTriangle.sites[0].hasNeighbor[5] && p.neighbors[5] == FirstTriangle.sites[0].neighbors[5];
    SixEqual(p.hasNeighbor, FirstTriangle.sites[0].hasNeighbor);
    SixEqual(p.neighbors, FirstTriangle.sites[0].neighbors);
  }

  lemma HexedSite1()
    ensures TriangleSite(Coord(3, 1)) == FirstTriangle.sites[1]
  {
    var c := Coord(3, 1);
    var p := TriangleSite(c);
    assert Add(c, Delta(UR)) == Coord(4, 2);
    TriangleNodeAt(Coord(4, 2));
    assert p.hasNeighbor[0] == FirstTriangle.sites[1].hasNeighbor[0] && p.neighbors[0] == FirstTriangle.sites[1].neighbors[0];
    assert Add(c, Delta(R)) == Coord(5, 1);
    TriangleNodeAt(Coord(5, 1));
    assert p.hasNeighbor[1] == FirstTriangle.sites[1].hasNeighbor[1] && p.neighbors[1] == FirstTriangle.sites[1].neighbors[1];
    assert Add(c, Delta(DR)) == Coord(4, 0);
    TriangleNodeAt(Coord(4, 0));
    assert p.hasNeighbor[2] == FirstTriangle.sites[1].hasNeighbor[2] && p.neighbors[2] == FirstTriangle.sites[1].neighbors[2];
    assert Add(c, Delta(DL)) == Coord(2, 0);
    TriangleNodeAt(Coord(2, 0));
    assert p.hasNeighbor[3] == FirstTriangle.sites[1].hasNeighbor[3] && p.neighbors[3] == FirstTriangle.sites[1].neighbors[3];
    assert Add(c, Delta(L)) == Coord(1, 1);
    TriangleNodeAt(Coord(1, 1));
    assert p.hasNeighbor[4] == FirstTriangle.sites[1].hasNeighbor[4] && p.neighbors[4] == FirstTriangle.sites[1].neighbors[4];
    assert Add(c, Delta(UL)) == Coord(2, 2);
    TriangleNodeAt(Coord(2, 2));
    assert p.hasNeighbor[5] == FirstTriangle.sites[1].hasNeighbor[5] && p.neighbors[5] == FirstTriangle.sites[1].neighbors[5];
    SixEqual(p.hasNeighbor, FirstTriangle.sites[1].hasNeighbor);
    SixEqual(p.neighbors, FirstTriangle.sites[1].neighbors);
  }

  lemma HexedSite2()
    ensures TriangleSite(Coord(1, -1)) == FirstTriangle.sites[2]
  {
    var c := Coord(1, -1);
    var p := TriangleSite(c);
    assert Add(c, Delta(UR)) == Coord(2, 0);
    TriangleNodeAt(Coord(2, 0));
    assert p.hasNeighbor[0] == FirstTriangle.sites[2].hasNeighbor[0] && p.neighbors[0] == FirstTriangle.sites[2].neighbors[0];
    assert Add(c, Delta(R)) == Coord(3, -1);
    TriangleNodeAt(Coord(3, -1));
    assert p.hasNeighbor[1] == FirstTriangle.sites[2].hasNeighbor[1] && p.neighbors[1] == FirstTriangle.sites[2].neighbors[1];
    assert Add(c, Delta(DR)) == Coord(2, -2);
    TriangleNodeAt(Coord(2, -2));
    assert p.hasNeighbor[2] == FirstTriangle.sites[2].hasNeighbor[2] && p.neighbors[2] == FirstTriangle.sites[2].neighbors[2];
    assert Add(c, Delta(DL)) == Coord(0, -2);
    TriangleNodeAt(Coord(0, -2));
    assert p.hasNeighbor[3] == FirstTriangle.sites[2].hasNeighbor[3] && p.neighbors[3] == FirstTriangle.sites[2].neighbors[3];
    assert Add(c, Delta(L)) == Coord(-1, -1);
    TriangleNodeAt(Coord(-1, -1));
    assert p.hasNeighbor[4] == FirstTriangle.sites[2].hasNeighbor[4] && p.neighbors[4] == FirstTriangle.sites[2].neighbors[4];
    assert Add(c, Delta(UL)) == Coord(0, 0);
    TriangleNodeAt(Coord(0, 0));
    assert p.hasNeighbor[5] == FirstTriangle.sites[2].hasNeighbor[5] && p.neighbors[5] == FirstTriangle.sites[2].neighbors[5];
    SixEqual(p.hasNeighbor, FirstTriangle.sites[2].hasNeighbor);
    SixEqual(p.neighbors, FirstTriangle.sites[2].neighbors);
  }

  /** The triangle's nodes with its first k candidates. */
  function TriangleUpTo(k: nat): (t: State)
    requires k <= 3
    ensures WellFormed(t) && (k == 3 ==> t == FirstTriangle)
  {
    var t := FirstTriangle.(sites := FirstTriangle.sites[..k]);
    assert FirstTriangle.sites[..3] == FirstTriangle.sites;
    assert forall id | 0 <= id < 3 :: RecShape(t.store[id], 3);
    t
  }

  /** `AddPotentialNode(k, dir)` for the k-th of the three calls adds the
      k-th candidate. */
  lemma SiteStep0()
    ensures WithSite(TriangleUpTo(0), 0, UL) == TriangleUpTo(1)
  {
    HexedSite0();
    var t := TriangleUpTo(0);
    assert Add(Coord(0, 0), Delta(UL)) == Coord(-1, 1);
    assert t.sites == [];
    assert t.sites + [FirstTriangle.sites[0]] == FirstTriangle.sites[..1];
  }

  lemma SiteStep1()
    ensures WithSite(TriangleUpTo(1), 1, R) == TriangleUpTo(2)
  {
    HexedSite1();
    var t := TriangleUpTo(1);
    assert Add(Coord(1, 1), Delta(R)) == Coord(3, 1);
    assert SiteIndex(t.sites, Coord(3, 1)) == -1;
    assert t.sites + [FirstTriangle.sites[1]] == FirstTriangle.sites[..2];
  }

  lemma SiteStep2()
    ensures WithSite(TriangleUpTo(2), 2, DL) == TriangleUpTo(3)
  {
    HexedSite2();
    var t := TriangleUpTo(2);
    assert Add(Coord(2, 0), Delta(DL)) == Coord(1, -1);
    assert SiteIndex(t.sites, Coord(1, -1)) == -1;
    assert t.sites + [FirstTriangle.sites[2]] == FirstTriangle.sites[..3];
  }

  /** The graph after `AddNodes(3)` on a fresh graph (k = 0) and after
      each of the three `LinkNodes` calls (k = 1, 2, 3). */
  function AtStage(k: nat): (t: State)
    requires k <= 3
    ensures WellFormed(t)
  {
    var t := State([0, 1, 2], [Stage0, Stage1, Stage2, FirstTriangle.store][k], [], 3);
    assert forall id | 0 <= id < 3 :: RecShape(t.store[id], 3);
    t
  }

  lemma ThreeNodes()
    ensures WithNodes(EmptyGraph, 3) == AtStage(0)
  {
    assert WithNodes(EmptyGraph, 1) == State([0], [BlankNode], [], 1);
    assert WithNodes(EmptyGraph, 2) == State([0, 1], [BlankNode, BlankNode], [], 2);
  }

  lemma LinkedAtStage1()
    ensures LinkedAt(AtStage(0), 0, 1, UR) == AtStage(1)
  {
    LinkStage1();
  }

  lemma LinkedAtStage2()
    ensures LinkedAt(AtStage(1), 1, 2, DR) == AtStage(2)
  {
    LinkStage2();
  }

  /** The third link applied to the staged graph only rewrites its store. */
  lemma ThirdLinkStore()
    ensures LinkedAt(AtStage(2), 0, 2, R) == State([0, 1, 2], Linked(Stage2, 0, Zero, 2, R), [], 3)
  {
    var s := AtStage(2);
    assert s.store == Stage2 && s.nodes[0] == 0 && s.nodes[2] == 2 && s.store[0].coord == Zero;
  }

  /** The triangle before any candidate is registered. */
  lemma TriangleNoSites()
    ensures TriangleUpTo(0) == State([0, 1, 2], FirstTriangle.store, [], 3)
  {
    assert FirstTriangle.sites[..0] == [];
  }

  lemma LinkedAtStage3()
    ensures LinkedAt(AtStage(2), 0, 2, R) == TriangleUpTo(0)
  {
    ThirdLinkStore();
    LinkStage3();
    TriangleNoSites();
  }

  /** `GenerateFirstTriangle` on a fresh graph builds exactly that. */
  lemma TriangleValue()
    ensures WithTriangle(EmptyGraph) == FirstTriangle
  {
    ThreeNodes();
    LinkedAtStage1();
    LinkedAtStage2();
    LinkedAtStage3();
    SiteStep0();
    SiteStep1();
    SiteStep2();
  }

  // ------------------------------------------------- the triangle, by rule

  /** Node k's coord. */
  function TriCoord(k: int): Coord
  {
    if k == 0 then Coord(0, 0) else if k == 1 then Coord(1, 1) else Coord(2, 0)
  }

  /** The node node k is linked to in direction d, or -1. */
  function TriLink(k: int, d: Dir): (n: int)
    ensures -1 <= n < 3
  {
    if k == 0 && d == UR then 1 else if k == 0 && d == R then 2
    else if k == 1 && d == DR then 2 else if k == 1 && d == DL then 0
    else if k == 2 && d == L then 0 else if k == 2 && d == UL then 1
    else -1
  }

  /** The candidates' coords. */
  function TriSiteCoord(k: int): Coord
  {
    if k == 0 then Coord(-1, 1) else if k == 1 then Coord(3, 1) else Coord(1, -1)
  }

  /** The node candidate k flags in direction d, or -1. */
  function TriSiteLink(k: int, d: Dir): (n: int)
    ensures -1 <= n < 3
  {
    if k == 0 && d == R then 1 else if k == 0 && d == DR then 0
    else if k == 1 && d == DL then 2 else if k == 1 && d == L then 1
    else if k == 2 && d == UR then 2 else if k == 2 && d == UL then 0
    else -1
  }

  /** Node k's record by the rule: flagged exactly where TriLink names a
      node (unflagged slots hold 0). */
  function TriRec(k: int): (r: NodeRec)
    ensures r.coord == TriCoord(k) && RecShape(r, 3)
    ensures forall d: Dir :: (r.hasNeighbor[d] <==> TriLink(k, d) != -1) && (r.hasNeighbor[d] ==> r.neighbors[d] == TriLink(k, d))
  {
    NodeRec(TriCoord(k),
            seq(6, i requires 0 <= i < 6 => TriLink(k, i as Dir) != -1),
            seq(6, i requires 0 <= i < 6 => if TriLink(k, i as Dir) == -1 then 0 else TriLink(k, i as Dir)))
  }

  /** Candidate k's record by the rule. */
  function TriSite(k: int): (p: Site)
    ensures p.coord == TriSiteCoord(k) && SiteShape(p, 3)
    ensures forall d: Dir :: (p.hasNeighbor[d] <==> TriSiteLink(k, d) != -1) && (p.hasNeighbor[d] ==> p.neighbors[d] == TriSiteLink(k, d))
  {
    Site(TriSiteCoord(k),
         seq(6, i requires 0 <= i < 6 => TriSiteLink(k, i as Dir) != -1),
         seq(6, i requires 0 <= i < 6 => if TriSiteLink(k, i as Dir) == -1 then 0 else TriSiteLink(k, i as Dir)))
  }

  /** `FirstTriangle`, stated by the rules above. */
  function Triangle(): (t: State)
    ensures WellFormed(t)
  {
    State(seq(3, k => k), seq(3, k => TriRec(k)), seq(3, k => TriSite(k)), 3)
  }

  lemma SixEqual<T>(a: seq<T>, b: seq<T>)
    requires |a| == 6 && |b| == 6
    requires a[0] == b[0] && a[1] == b[1] && a[2] == b[2] && a[3] == b[3] && a[4] == b[4] && a[5] == b[5]
    ensures a == b
  {
    forall i | 0 <= i < 6 ensures a[i] == b[i] {
      if i == 0 {} else if i == 1 {} else if i == 2 {} else if i == 3 {} else if i == 4 {} else {}
    }
  }

  lemma ThreeEqual<T>(a: seq<T>, b: seq<T>)
    requires |a| == 3 && |b| == 3
    requires a[0] == b[0] && a[1] == b[1] && a[2] == b[2]
    ensures a == b
  {
    forall i | 0 <= i < 3 ensures a[i] == b[i] {
      if i == 0 {} else if i == 1 {} else {}
    }
  }

  lemma TriRecRule(k: nat)
    requires k < 3
    ensures TriRec(k) == FirstTriangle.store[k]
  {
    var r, u := TriRec(k), FirstTriangle.store[k];
    if k == 0 {
      SixEqual(r.hasNeighbor, u.hasNeighbor);
      SixEqual(r.neighbors, u.neighbors);
    } else if k == 1 {
      SixEqual(r.hasNeighbor, u.hasNeighbor);
      SixEqual(r.neighbors, u.neighbors);
    } else {
      SixEqual(r.hasNeighbor, u.hasNeighbor);
      SixEqual(r.neighbors, u.neighbors);
    }
  }

  lemma TriSiteRule(k: nat)
    requires k < 3
    ensures TriSite(k) == FirstTriangle.sites[k]
  {
    var p, u := TriSite(k), FirstTriangle.sites[k];
    if k == 0 {
      SixEqual(p.hasNeighbor, u.hasNeighbor);
      SixEqual(p.neighbors, u.neighbors);
    } else if k == 1 {
      SixEqual(p.hasNeighbor, u.hasNeighbor);
      SixEqual(p.neighbors, u.neighbors);
    } else {
      SixEqual(p.hasNeighbor, u.hasNeighbor);
      SixEqual(p.neighbors, u.neighbors);
    }
  }

  lemma TriangleRule()
    ensures Triangle() == FirstTriangle
  {
    var t := Triangle();
    TriRecRule(0);
    TriRecRule(1);
    TriRecRule(2);
    TriSiteRule(0);
    TriSiteRule(1);
    TriSiteRule(2);
    ThreeEqual(t.nodes, FirstTriangle.nodes);
    ThreeEqual(t.store, FirstTriangle.store);
    ThreeEqual(t.sites, FirstTriangle.sites);
  }

  /** The triangle node at c, or -1. */
  function TriIndex(c: Coord): (k: int)
    ensures -1 <= k < 3 && (k != -1 ==> TriCoord(k) == c)
  {
    if c == Coord(0, 0) then 0 else if c == Coord(1, 1) then 1 else if c == Coord(2, 0) then 2 else -1
  }

  /** Node k is linked in direction d exactly to the triangle node one step
      away that way. */
  lemma TriLinkStep(k: int, d: Dir)
    requires 0 <= k < 3
    ensures TriLink(k, d) == TriIndex(Add(TriCoord(k), Delta(d)))
  {
    if k == 0 {
      TriLinkStep0(d);
    } else if k == 1 {
      TriLinkStep1(d);
    } else {
      TriLinkStep2(d);
    }
  }

  /** `TriLinkStep` for node 0, 1 and 2 in turn. */
  lemma TriLinkStep0(d: Dir)
    ensures TriLink(0, d) == TriIndex(Add(Coord(0, 0), Delta(d)))
  {
    if d == 0 {
      assert Delta(d) == Coord(1, 1);
      assert Add(Coord(0, 0), Delta(d)) == Coord(1, 1);
      assert TriLink(0, d) == 1 && TriIndex(Coord(1, 1)) == 1;
    } else if d == 1 {
      assert Delta(d) == Coord(2, 0);
      assert Add(Coord(0, 0), Delta(d)) == Coord(2, 0);
      assert TriLink(0, d) == 2 && TriIndex(Coord(2, 0)) == 2;
    } else if d == 2 {
      assert Delta(d) == Coord(1, -1);
      assert Add(Coord(0, 0), Delta(d)) == Coord(1, -1);
      assert TriLink(0, d) == -1 && TriIndex(Coord(1, -1)) == -1;
    } else if d == 3 {
      assert Delta(d) == Coord(-1, -1);
      assert Add(Coord(0, 0), Delta(d)) == Coord(-1, -1);
      assert TriLink(0, d) == -1 && TriIndex(Coord(-1, -1)) == -1;
    } else if d == 4 {
      assert Delta(d) == Coord(-2, 0);
      assert Add(Coord(0, 0), Delta(d)) == Coord(-2, 0);
      assert TriLink(0, d) == -1 && TriIndex(Coord(-2, 0)) == -1;
    } else {
      assert Delta(d) == Coord(-1, 1);
      assert Add(Coord(0, 0), Delta(d)) == Coord(-1, 1);
      assert TriLink(0, d) == -1 && TriIndex(Coord(-1, 1)) == -1;
    }
  }

  lemma TriLinkStep1(d: Dir)
    ensures TriLink(1, d) == TriIndex(Add(Coord(1, 1), Delta(d)))
  {
    if d == 0 {
      assert Delta(d) == Coord(1, 1);
      assert Add(Coord(1, 1), Delta(d)) == Coord(2, 2);
      assert TriLink(1, d) == -1 && TriIndex(Coord(2, 2)) == -1;
    } else if d == 1 {
      assert Delta(d) == Coord(2, 0);
      assert Add(Coord(1, 1), Delta(d)) == Coord(3, 1);
      assert TriLink(1, d) == -1 && TriIndex(Coord(3, 1)) == -1;
    } else if d == 2 {
      assert Delta(d) == Coord(1, -1);
      assert Add(Coord(1, 1), Delta(d)) == Coord(2, 0);
      assert TriLink(1, d) == 2 && TriIndex(Coord(2, 0)) == 2;
    } else if d == 3 {
      assert Delta(d) == Coord(-1, -1);
      assert Add(Coord(1, 1), Delta(d)) == Coord(0, 0);
      assert TriLink(1, d) == 0 && TriIndex(Coord(0, 0)) == 0;
    } else if d == 4 {
      assert Delta(d) == Coord(-2, 0);
      assert Add(Coord(1, 1), Delta(d)) == Coord(-1, 1);
      assert TriLink(1, d) == -1 && TriIndex(Coord(-1, 1)) == -1;
    } else {
      assert Delta(d) == Coord(-1, 1);
      assert Add(Coord(1, 1), Delta(d)) == Coord(0, 2);
      assert TriLink(1, d) == -1 && TriIndex(Coord(0, 2)) == -1;
    }
  }

  lemma TriLinkStep2(d: Dir)
    ensures TriLink(2, d) == TriIndex(Add(Coord(2, 0), Delta(d)))
  {
    if d == 0 {
      assert Delta(d) == Coord(1, 1);
      assert Add(Coord(2, 0), Delta(d)) == Coord(3, 1);
      assert TriLink(2, d) == -1 && TriIndex(Coord(3, 1)) == -1;
    } else if d == 1 {
      assert Delta(d) == Coord(2, 0);
      assert Add(Coord(2, 0), Delta(d)) == Coord(4, 0);
      assert TriLink(2, d) == -1 && TriIndex(Coord(4, 0)) == -1;
    } else if d == 2 {
      assert Delta(d) == Coord(1, -1);
      assert Add(Coord(2, 0), Delta(d)) == Coord(3, -1);
      assert TriLink(2, d) == -1 && TriIndex(Coord(3, -1)) == -1;
    } else if d == 3 {
      assert Delta(d) == Coord(-1, -1);
      assert Add(Coord(2, 0), Delta(d)) == Coord(1, -1);
      assert TriLink(2, d) == -1 && TriIndex(Coord(1, -1)) == -1;
    } else if d == 4 {
      assert Delta(d) == Coord(-2, 0);
      assert Add(Coord(2, 0), Delta(d)) == Coord(0, 0);
      assert TriLink(2, d) == 0 && TriIndex(Coord(0, 0)) == 0;
    } else {
      assert Delta(d) == Coord(-1, 1);
      assert Add(Coord(2, 0), Delta(d)) == Coord(1, 1);
      assert TriLink(2, d) == 1 && TriIndex(Coord(1, 1)) == 1;
    }
  }

  /** Candidate k is flagged in direction d exactly towards the triangle
      node one step away that way. */
  lemma TriSiteStep(k: int, d: Dir)
    requires 0 <= k < 3
    ensures TriSiteLink(k, d) == TriIndex(Add(TriSiteCoord(k), Delta(d)))
  {
    var c, e := TriSiteCoord(k), Delta(d);
    if k == 0 {
      assert c == Coord(-1, 1);
      match d
      case 0 => assert e == Coord(1, 1) && Add(c, e) == Coord(0, 2);
      case 1 => assert e == Coord(2, 0) && Add(c, e) == Coord(1, 1);
      case 2 => assert e == Coord(1, -1) && Add(c, e) == Coord(0, 0);
      case 3 => assert e == Coord(-1, -1) && Add(c, e) == Coord(-2, 0);
      case 4 => assert e == Coord(-2, 0) && Add(c, e) == Coord(-3, 1);
      case 5 => assert e == Coord(-1, 1) && Add(c, e) == Coord(-2, 2);
    } else if k == 1 {
      assert c == Coord(3, 1);
      match d
      case 0 => assert e == Coord(1, 1) && Add(c, e) == Coord(4, 2);
      case 1 => assert e == Coord(2, 0) && Add(c, e) == Coord(5, 1);
      case 2 => assert e == Coord(1, -1) && Add(c, e) == Coord(4, 0);
      case 3 => assert e == Coord(-1, -1) && Add(c, e) == Coord(2, 0);
      case 4 => assert e == Coord(-2, 0) && Add(c, e) == Coord(1, 1);
      case 5 => assert e == Coord(-1, 1) && Add(c, e) == Coord(2, 2);
    } else {
      assert c == Coord(1, -1);
      match d
      case 0 => assert e == Coord(1, 1) && Add(c, e) == Coord(2, 0);
      case 1 => assert e == Coord(2, 0) && Add(c, e) == Coord(3, -1);
      case 2 => assert e == Coord(1, -1) && Add(c, e) == Coord(2, -2);
      case 3 => assert e == Coord(-1, -1) && Add(c, e) == Coord(0, -2);
      case 4 => assert e == Coord(-2, 0) && Add(c, e) == Coord(-1, -1);
      case 5 => assert e == Coord(-1, 1) && Add(c, e) == Coord(0, 0);
    }
  }

  /** Each link is matched by the opposite one. */
  lemma TriLinkBack(k: int, d: Dir)
    requires 0 <= k < 3
    ensures TriLink(k, d) != -1 ==> TriLink(TriLink(k, d), Opposite(d)) == k
  {
    match d
    case 0 => {}
    case 1 => {}
    case 2 => {}
    case 3 => {}
    case 4 => {}
    case 5 => {}
  }

  /** The triangle's nodes sit at exactly three coords. */
  lemma TriangleOccupied(y: Coord)
    ensures Occupied(Triangle(), y) <==> TriIndex(y) != -1
  {
    var t := Triangle();
    var j := TriIndex(y);
    if j != -1 {
      assert t.store[t.nodes[j]].coord == y;
    }
  }

  lemma TriangleMutual(k: nat, d: Dir)
    requires k < 3
    ensures Mutual(Triangle(), k, d)
  {
    var t := Triangle();
    TriLinkStep(k, d);
    TriLinkBack(k, d);
    var b := TriLink(k, d);
    if b != -1 {
      assert t.nodes[b] == b;
    }
  }

  lemma TriangleComplete(k: nat, d: Dir)
    requires k < 3
    ensures Occupied(Triangle(), Add(TriCoord(k), Delta(d))) ==> Triangle().store[k].hasNeighbor[d]
  {
    TriangleOccupied(Add(TriCoord(k), Delta(d)));
    TriLinkStep(k, d);
  }

  lemma TriangleLinkage()
    ensures Linkage(Triangle())
  {
    var t := Triangle();
    forall j, k | 0 <= j < 3 && 0 <= k < 3 && t.store[t.nodes[j]].coord == t.store[t.nodes[k]].coord
      ensures t.nodes[j] == t.nodes[k]
    {
      assert TriIndex(TriCoord(j)) == j && TriIndex(TriCoord(k)) == k;
    }
    forall k, d: Dir | 0 <= k < 3 ensures Mutual(t, t.nodes[k], d) {
      TriangleMutual(k, d);
    }
  }

  lemma TriangleLattice()
    ensures Lattice(Triangle())
  {
    var t := Triangle();
    TriangleLinkage();
    forall k, d: Dir | 0 <= k < 3 && Occupied(t, Add(t.store[t.nodes[k]].coord, Delta(d)))
      ensures t.store[t.nodes[k]].hasNeighbor[d]
    {
      TriangleComplete(k, d);
    }
    forall k | 0 <= k < 3 ensures NeighborCount(t.store[t.nodes[k]].hasNeighbor) > 0 {
      assert t.store[k].hasNeighbor[DR] || t.store[k].hasNeighbor[L] || t.store[k].hasNeighbor[UR];
    }
  }

  /** Candidate k of the triangle is flagged exactly towards its
      neighbouring nodes. */
  lemma TriangleFlag(k: nat, d: Dir)
    requires k < 3
    ensures FlagExact(Triangle(), Triangle().sites[k], d)
  {
    var t := Triangle();
    TriangleOccupied(Add(TriSiteCoord(k), Delta(d)));
    TriSiteStep(k, d);
    var b := TriSiteLink(k, d);
    if b != -1 {
      assert t.nodes[b] == b;
    }
  }

  lemma TriangleSiteOk(k: nat)
    requires k < 3
    ensures SiteOk(Triangle(), Triangle().sites[k])
  {
    var t := Triangle();
    TriangleOccupied(TriSiteCoord(k));
    forall d: Dir ensures FlagExact(t, t.sites[k], d) {
      TriangleFlag(k, d);
    }
    assert t.sites[k].hasNeighbor[R] || t.sites[k].hasNeighbor[L] || t.sites[k].hasNeighbor[UL];
  }

  lemma TriangleGrowsRule()
    ensures Growth(Triangle())
  {
    var t := Triangle();
    TriangleLattice();
    forall k | 0 <= k < 3 ensures SiteOk(t, t.sites[k]) {
      TriangleSiteOk(k);
    }
    forall j, k | 0 <= j < k < 3 ensures t.sites[j].coord != t.sites[k].coord {
      if j == 0 && k == 1 {} else if j == 0 {} else {}
    }
  }

  /** `GenerateFirstTriangle` on a fresh graph builds the triangle of the
      rules above. */
  lemma TriangleIsRule()
    ensures WithTriangle(EmptyGraph) == Triangle()
  {
    TriangleValue();
    TriangleRule();
  }

  /** A fresh graph after `GenerateFirstTriangle` is a growing lattice. */
  lemma TriangleGrowth()
    ensures Growth(WithTriangle(EmptyGraph))
  {
    TriangleIsRule();
    TriangleGrowsRule();
  }
}
