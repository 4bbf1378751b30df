/** The earlier adjacency-list graph (namespace `US3K_Graph`). A `Node` value
    shares its `neighbors` and `neighborCosts` lists with every copy of it,
    so a node is modelled as an object whose two list fields are updated in
    place; the graph keeps the list of nodes and the id counter. */
module US3KGraph {

  class Node {
    const nodeID: int
    var neighbors: seq<Node>
    var neighborCosts: seq<real>

    /** `Node(int)`: a node with no edges. */
    constructor (id: int)
      ensures nodeID == id && neighbors == [] && neighborCosts == []
    {
      nodeID := id;
      neighbors := [];
      neighborCosts := [];
    }

    /** `ConnectTo(n, weight)`: appends `n` to this node's list and this node
        to `n`'s, each with the same weight. Nothing is deduplicated, and a
        node connected to itself gets itself twice. */
    method ConnectTo(n: Node, weight: real)
      modifies this, n
      ensures n != this ==> neighbors == old(neighbors) + [n] && neighborCosts == old(neighborCosts) + [weight]
      ensures n != this ==> n.neighbors == old(n.neighbors) + [this] && n.neighborCosts == old(n.neighborCosts) + [weight]
      ensures n == this ==> neighbors == old(neighbors) + [this, this] && neighborCosts == old(neighborCosts) + [weight, weight]
    {
      neighbors := neighbors + [n];
      neighborCosts := neighborCosts + [weight];
      n.neighbors := n.neighbors + [this];
      n.neighborCosts := n.neighborCosts + [weight];
    }

    /** `ConnectTo(n)`: the same edge with weight 0. */
    method ConnectToUnweighted(n: Node)
      modifies this, n
      ensures n != this ==> neighbors == old(neighbors) + [n] && neighborCosts == old(neighborCosts) + [0.0]
      ensures n != this ==> n.neighbors == old(n.neighbors) + [this] && n.neighborCosts == old(n.neighborCosts) + [0.0]
      ensures n == this ==> neighbors == old(neighbors) + [this, this] && neighborCosts == old(neighborCosts) + [0.0, 0.0]
    {
      ConnectTo(n, 0.0);
    }
  }

  class Graph {
    var nodeCount: int
    var nodes: seq<Node>

    /** `Graph(_nodeCount, _nodes)`. */
    constructor (count: int, initial: seq<Node>)
      ensures nodeCount == count && nodes == initial
    {
      nodeCount := count;
      nodes := initial;
    }

    /** Every node's two lists have the same length. */
    ghost predicate Lockstep()
      reads this, nodes
    {
      forall k :: 0 <= k < |nodes| ==> |nodes[k].neighbors| == |nodes[k].neighborCosts|
    }

    /** Each listed node's neighbour list, position by position. */
    ghost function Lists(): (r: seq<seq<Node>>)
      reads this, nodes
      ensures |r| == |nodes| && forall k :: 0 <= k < |nodes| ==> r[k] == nodes[k].neighbors
    {
      seq(|nodes|, k requires 0 <= k < |nodes| reads this, nodes => nodes[k].neighbors)
    }

    /** Adjacency is symmetric: a lists b as often as b lists a. */
    ghost predicate Symmetric()
      reads this, nodes
    {
      SymmetricLists(nodes, Lists())
    }

    /** Node ns[i] with list ls[i] lists ns[j] as often as ns[j] lists ns[i]. */
    static ghost predicate SymmetricLists(ns: seq<Node>, ls: seq<seq<Node>>)
      requires |ls| == |ns|
    {
      forall i, j :: 0 <= i < |ns| && 0 <= j < |ns| ==> multiset(ls[i])[ns[j]] == multiset(ls[j])[ns[i]]
    }

    /** The node at list position k has id k, which `GetNode` relies on. */
    ghost predicate IdsAreIndices()
      reads this, nodes
    {
      nodeCount == |nodes| && forall k :: 0 <= k < |nodes| ==> nodes[k].nodeID == k
    }

    /** A node listed by no one joins with an empty list: still symmetric. */
    static lemma FreshKeepsSymmetry(ns: seq<Node>, ls: seq<seq<Node>>, n: Node)
      requires |ls| == |ns| && SymmetricLists(ns, ls)
      requires n !in ns && forall i :: 0 <= i < |ls| ==> n !in ls[i]
      ensures SymmetricLists(ns + [n], ls + [[]])
    {
      var ns', ls' := ns + [n], ls + [[]];
      forall i, j | 0 <= i < |ns'| && 0 <= j < |ns'|
        ensures multiset(ls'[i])[ns'[j]] == multiset(ls'[j])[ns'[i]]
      {
        if i < |ns| && j < |ns| {
          assert ls'[i] == ls[i] && ls'[j] == ls[j] && ns'[i] == ns[i] && ns'[j] == ns[j];
        } else if i < |ns| {
          assert ns'[j] == n && ls'[j] == [] && ls'[i] == ls[i];
        } else if j < |ns| {
          assert ns'[i] == n && ls'[i] == [] && ls'[j] == ls[j];
        }
      }
    }

    /** `AddNodes(nodesToAdd)`: appends that many new nodes with consecutive
        ids from the counter on, and advances the counter past them. */
    method AddNodes(nodesToAdd: int)
      modifies this
      ensures var added := if nodesToAdd < 0 then 0 else nodesToAdd;
        nodeCount == old(nodeCount) + added &&
        |nodes| == old(|nodes|) + added && nodes[..old(|nodes|)] == old(nodes) &&
        forall k :: old(|nodes|) <= k < |nodes| ==>
          fresh(nodes[k]) && nodes[k].nodeID == old(nodeCount) + k - old(|nodes|) &&
          nodes[k].neighbors == [] && nodes[k].neighborCosts == []
      ensures old(Lockstep()) ==> Lockstep()
      ensures old(Symmetric()) ==> Symmetric()
      ensures old(IdsAreIndices()) ==> IdsAreIndices()
    {
      var i := 0;
      while i < nodesToAdd
        invariant 0 <= i <= (if nodesToAdd < 0 then 0 else nodesToAdd)
        invariant nodeCount == old(nodeCount) + i
        invariant |nodes| == old(|nodes|) + i && nodes[..old(|nodes|)] == old(nodes)
        invariant forall k :: old(|nodes|) <= k < |nodes| ==>
          fresh(nodes[k]) && nodes[k].nodeID == old(nodeCount) + k - old(|nodes|) &&
          nodes[k].neighbors == [] && nodes[k].neighborCosts == []
        invariant old(Lockstep()) ==> Lockstep()
        invariant old(Symmetric()) ==> Symmetric()
        invariant old(IdsAreIndices()) ==> IdsAreIndices()
      {
        ghost var before := Lists();
        var n := new Node(nodeCount);
        nodeCount := nodeCount + 1;
        nodes := nodes + [n];
        i := i + 1;
        assert old(Symmetric()) ==> Symmetric() by {
          if old(Symmetric()) {
            assert Lists() == before + [[]];
            FreshKeepsSymmetry(nodes[..|nodes| - 1], before, n);
            assert nodes == nodes[..|nodes| - 1] + [n];
          }
        }
      }
    }

    /** `GetNode(nodeID)`: the node at list position `nodeID`, which is the
        node with that id while ids are list positions. */
    method GetNode(nodeID: int) returns (n: Node)
      requires 0 <= nodeID < |nodes|
      ensures n == nodes[nodeID]
      ensures IdsAreIndices() ==> n.nodeID == nodeID
      ensures forall k :: 0 <= k < |nodes| && nodes[k] == n && IdsAreIndices() ==> k == nodeID
    {
      n := nodes[nodeID];
    }

    /** What `ConnectTo` between a and b appends to x's list. */
    static ghost function Added(a: Node, b: Node, x: Node): seq<Node>
    {
      if x == a && x == b then [a, a] else if x == a then [b] else if x == b then [a] else []
    }

    /** The appended part lists y once for each end of the new edge that x
        and y sit on, in either order. */
    static lemma AddedCount(a: Node, b: Node, x: Node, y: Node)
      ensures multiset(Added(a, b, x))[y] == (if x == a && y == b then 1 else 0) + (if x == b && y == a then 1 else 0)
    {
    }

    /** Appending one edge's ends to the lists keeps them symmetric. */
    static lemma EdgeKeepsSymmetry(ns: seq<Node>, before: seq<seq<Node>>, after: seq<seq<Node>>, a: Node, b: Node)
      requires |before| == |ns| && |after| == |ns|
      requires forall k :: 0 <= k < |ns| ==> after[k] == before[k] + Added(a, b, ns[k])
      requires SymmetricLists(ns, before)
      ensures SymmetricLists(ns, after)
    {
      forall i, j | 0 <= i < |ns| && 0 <= j < |ns|
        ensures multiset(after[i])[ns[j]] == multiset(after[j])[ns[i]]
      {
        AddedCount(a, b, ns[i], ns[j]);
        AddedCount(a, b, ns[j], ns[i]);
      }
    }

    /** `LinkNodes(n1_ID, n2_ID, weight)`: connects the nodes at the two list
        positions; the list itself is unchanged. */
    method LinkNodes(n1ID: int, n2ID: int, weight: real)
      requires 0 <= n1ID < |nodes| && 0 <= n2ID < |nodes|
      modifies nodes[n1ID], nodes[n2ID]
      ensures nodes == old(nodes) && nodeCount == old(nodeCount)
      ensures nodes[n1ID] != nodes[n2ID] ==>
        nodes[n1ID].neighbors == old(nodes[n1ID].neighbors) + [nodes[n2ID]] &&
        nodes[n1ID].neighborCosts == old(nodes[n1ID].neighborCosts) + [weight] &&
        nodes[n2ID].neighbors == old(nodes[n2ID].neighbors) + [nodes[n1ID]] &&
        nodes[n2ID].neighborCosts == old(nodes[n2ID].neighborCosts) + [weight]
      ensures nodes[n1ID] == nodes[n2ID] ==>
        nodes[n1ID].neighbors == old(nodes[n1ID].neighbors) + [nodes[n1ID], nodes[n1ID]] &&
        nodes[n1ID].neighborCosts == old(nodes[n1ID].neighborCosts) + [weight, weight]
      ensures old(Lockstep()) ==> Lockstep()
      ensures old(Symmetric()) ==> Symmetric()
    {
      ghost var before := Lists();
      var a := GetNode(n1ID);
      var b := GetNode(n2ID);
      a.ConnectTo(b, weight);
      assert old(Lockstep()) ==> Lockstep() by {
        if old(Lockstep()) {
          forall k | 0 <= k < |nodes|
            ensures |nodes[k].neighbors| == |nodes[k].neighborCosts|
          {
            assert |old(nodes[k].neighbors)| == |old(nodes[k].neighborCosts)|;
          }
        }
      }
      assert old(Symmetric()) ==> Symmetric() by {
        forall k | 0 <= k < |nodes| ensures nodes[k].neighbors == before[k] + Added(a, b, nodes[k]) {
          if nodes[k] != a && nodes[k] != b {
            assert nodes[k].neighbors == old(nodes[k].neighbors);
          }
        }
        if old(Symmetric()) {
          EdgeKeepsSymmetry(nodes, before, Lists(), a, b);
        }
      }
    }

    /** `LinkNodes(n1_ID, n2_ID)`: the same with weight 0. */
    method LinkNodesUnweighted(n1ID: int, n2ID: int)
      requires 0 <= n1ID < |nodes| && 0 <= n2ID < |nodes|
      modifies nodes[n1ID], nodes[n2ID]
      ensures nodes == old(nodes) && nodeCount == old(nodeCount)
      ensures nodes[n1ID] != nodes[n2ID] ==>
        nodes[n1ID].neighbors == old(nodes[n1ID].neighbors) + [nodes[n2ID]] &&
        nodes[n1ID].neighborCosts == old(nodes[n1ID].neighborCosts) + [0.0] &&
        nodes[n2ID].neighbors == old(nodes[n2ID].neighbors) + [nodes[n1ID]] &&
        nodes[n2ID].neighborCosts == old(nodes[n2ID].neighborCosts) + [0.0]
      ensures nodes[n1ID] == nodes[n2ID] ==>
        nodes[n1ID].neighbors == old(nodes[n1ID].neighbors) + [nodes[n1ID], nodes[n1ID]] &&
        nodes[n1ID].neighborCosts == old(nodes[n1ID].neighborCosts) + [0.0, 0.0]
      ensures old(Lockstep()) ==> Lockstep()
      ensures old(Symmetric()) ==> Symmetric()
    {
      LinkNodes(n1ID, n2ID, 0.0);
    }
  }
}
