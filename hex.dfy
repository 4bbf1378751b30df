/** Hexagonal lattice geometry of the Balthazar graph: the six directions of
    `nodeDir`, the doubled-coordinate `Coord`, the per-direction deltas and
    the mod-6 direction helpers shared by `Node`, `PotentialNode` and `Graph`. */
module Hex {

  /** A direction, as the integer value of the enum `nodeDir`
      (UR, R, DR, DL, L, UL in this cyclic order). */
  newtype Dir = d: int | 0 <= d < 6

  const UR: Dir := 0
  const R: Dir := 1
  const DR: Dir := 2
  const DL: Dir := 3
  const L: Dir := 4
  const UL: Dir := 5

  /** A lattice position; equality is structural, like the C# `==`. */
  datatype Coord = Coord(x: int, y: int)

  const Zero := Coord(0, 0)

  /** Component-wise addition (`Coord.operator +`). */
  function Add(a: Coord, b: Coord): Coord
  {
    Coord(a.x + b.x, a.y + b.y)
  }

  function Neg(a: Coord): Coord
  {
    Coord(-a.x, -a.y)
  }

  /** Coords under `+` form a commutative group with `Zero` as identity and
      `Neg` as inverse, so steps may be taken in any order and undone. */
  lemma AddLaws(a: Coord, b: Coord, c: Coord)
    ensures Add(a, b) == Add(b, a)
    ensures Add(Add(a, b), c) == Add(a, Add(b, c))
    ensures Add(a, Zero) == a && Add(a, Neg(a)) == Zero
  {
  }

  /** A coord of the lattice grown from the origin: x + y is even. */
  predicate Even(c: Coord)
  {
    (c.x + c.y) % 2 == 0
  }

  /** `CoordFromNodeDir`: one lattice step in direction d. Every step moves
      by two in the doubled-coordinate metric and keeps x + y's parity. */
  function Delta(d: Dir): (r: Coord)
    ensures (if r.x < 0 then -r.x else r.x) + (if r.y < 0 then -r.y else r.y) == 2
    ensures r.x != 0 && Even(r)
  {
    match d
    case 0 => Coord(1, 1)
    case 1 => Coord(2, 0)
    case 2 => Coord(1, -1)
    case 3 => Coord(-1, -1)
    case 4 => Coord(-2, 0)
    case 5 => Coord(-1, 1)
  }

  /** The direction pointing back. */
  function Opposite(d: Dir): (r: Dir)
    ensures r as int == (d as int + 3) % 6
  {
    if d < 3 then d + 3 else d - 3
  }

  /** The next direction around a hexagon (clockwise). */
  function Next(d: Dir): (r: Dir)
    ensures r as int == (d as int + 1) % 6
  {
    if d < 5 then d + 1 else d - 5
  }

  /** The previous direction around a hexagon (counter-clockwise). */
  function Prev(d: Dir): (r: Dir)
    ensures r as int == (d as int + 5) % 6
  {
    if d < 1 then d + 5 else d - 1
  }

  /** Turns an outward direction into the direction that walks the ring
      around it. */
  function OutToSideways(d: Dir): (r: Dir)
    ensures r as int == (d as int + 2) % 6
  {
    if d < 4 then d + 2 else d - 4
  }

  lemma OppositeInvolutive(d: Dir)
    ensures Opposite(Opposite(d)) == d && Opposite(d) != d
  {
  }

  lemma NextPrevInverse(d: Dir)
    ensures Prev(Next(d)) == d && Next(Prev(d)) == d
  {
  }

  lemma OutToSidewaysTwoSteps(d: Dir)
    ensures OutToSideways(d) == Next(Next(d))
  {
  }

  /** The delta of the opposite direction is the negated delta. */
  lemma DeltaOpposite(d: Dir)
    ensures Delta(Opposite(d)) == Neg(Delta(d))
  {
  }

  /** Stepping out and back again returns to the start. */
  lemma StepBack(c: Coord, d: Dir)
    ensures Add(Add(c, Delta(d)), Delta(Opposite(d))) == c
  {
    DeltaOpposite(d);
  }

  /** The six neighbours of a coord are pairwise distinct and differ from it. */
  lemma NeighboursDistinct(c: Coord, d: Dir, e: Dir)
    ensures Add(c, Delta(d)) != c
    ensures Add(c, Delta(d)) == Add(c, Delta(e)) ==> d == e
  {
  }

  /** The coord reached from `start` by following `path`. */
  function Walk(start: Coord, path: seq<Dir>): Coord
    decreases |path|
  {
    if path == [] then start else Walk(Add(start, Delta(path[0])), path[1..])
  }

  /** Every coord reachable from an even coord (the origin, say) is even. */
  lemma {:induction false} WalkKeepsParity(start: Coord, path: seq<Dir>)
    requires Even(start)
    ensures Even(Walk(start, path))
    decreases |path|
  {
    if path != [] {
      var next := Add(start, Delta(path[0]));
      assert Even(Delta(path[0]));
      assert Even(next);
      WalkKeepsParity(next, path[1..]);
    }
  }

  /** `NeighborCount` / `GetNeighborCount`: the number of set flags. */
  function NeighborCount(flags: seq<bool>): (n: nat)
    ensures n <= |flags|
    ensures n == 0 <==> forall i :: 0 <= i < |flags| ==> !flags[i]
    ensures n == |flags| <==> forall i :: 0 <= i < |flags| ==> flags[i]
    decreases |flags|
  {
    if flags == [] then 0
    else
      var rest := NeighborCount(flags[..|flags| - 1]);
      assert forall i :: 0 <= i < |flags| - 1 ==> flags[..|flags| - 1][i] == flags[i];
      rest + (if flags[|flags| - 1] then 1 else 0)
  }

  /** The counting loop shared by `Node.NeighborCount` and
      `PotentialNode.GetNeighborCount`. */
  method CountNeighbors(flags: seq<bool>) returns (nc: nat)
    requires |flags| == 6
    ensures nc == NeighborCount(flags)
  {
    nc := 0;
    for i := 0 to 6
      invariant nc == NeighborCount(flags[..i])
    {
      assert flags[..i + 1][..i] == flags[..i];
      if flags[i] {
        nc := nc + 1;
      }
    }
    assert flags[..6] == flags;
  }
}
