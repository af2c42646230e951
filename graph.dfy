/** The mutable graph of src/main.rs, kept in an arena: every node and every
    edge lives in one sequence of the `Graph` object and is referred to by its
    index there (its handle). A handle plays the part of an `Rc` pointer: two
    edges with the same weight and target are still two edges. */
module TGraph {

  datatype Option<T> = None | Some(value: T)

  type NodeHandle = nat
  type EdgeHandle = nat

  /** A node's `cost_to_start`. `Infinite` is the `usize::MAX` sentinel that
      `Node::new` stores; it lies above every finite cost. */
  datatype Cost = Infinite | Finite(d: nat)

  /** `cost > x`, the test of the relaxation step. */
  predicate Exceeds(c: Cost, x: nat) {
    c.Infinite? || c.d > x
  }

  /** `a <= b` on costs, with `Infinite` as the top element. */
  predicate CostLe(a: Cost, b: Cost) {
    b.Infinite? || (a.Finite? && a.d <= b.d)
  }

  /** An edge: a weight and the handle of the node it points to. */
  datatype Edge = Edge(weight: nat, target: NodeHandle)

  /** A node: its id, its ordered outgoing edge handles, and the two fields
      the shortest-path routine writes. */
  datatype Node = Node(id: nat, edges: seq<EdgeHandle>, costToStart: Cost, prev: Option<NodeHandle>)

  /** Edge equality (`PartialEq for Edge`): same weight and same target. */
  function EdgeEq(a: Edge, b: Edge): (r: bool)
    ensures r <==> a.weight == b.weight && a.target == b.target
  {
    a == b
  }

  /** Every handle stored in the arena refers to an element of the arena. */
  predicate WellFormed(nodes: seq<Node>, edges: seq<Edge>) {
    && (forall h :: 0 <= h < |edges| ==> edges[h].target < |nodes|)
    && (forall v, k :: 0 <= v < |nodes| && 0 <= k < |nodes[v].edges| ==> nodes[v].edges[k] < |edges|)
    && (forall v :: 0 <= v < |nodes| && nodes[v].prev.Some? ==> nodes[v].prev.value < |nodes|)
  }

  /** The edge list with every occurrence of handle `h` dropped, the others
      kept in their order: the filter `!Rc::ptr_eq(list_edge, &edge)`. */
  function Without(hs: seq<EdgeHandle>, h: EdgeHandle): (r: seq<EdgeHandle>)
    ensures forall x :: x in r <==> x in hs && x != h
    ensures |r| <= |hs|
  {
    if hs == [] then [] else (if hs[0] == h then [] else [hs[0]]) + Without(hs[1..], h)
  }

  /** Removal keeps order: it distributes over concatenation. */
  lemma {:induction false} WithoutAppend(a: seq<EdgeHandle>, b: seq<EdgeHandle>, h: EdgeHandle)
    ensures Without(a + b, h) == Without(a, h) + Without(b, h)
  {
    if a == [] {
      assert a + b == b;
    } else {
      assert (a + b)[0] == a[0];
      assert (a + b)[1..] == a[1..] + b;
      WithoutAppend(a[1..], b, h);
    }
  }

  /** Removing a handle that is not in the list leaves the list as it was. */
  lemma {:induction false} WithoutAbsent(hs: seq<EdgeHandle>, h: EdgeHandle)
    requires h !in hs
    ensures Without(hs, h) == hs
  {
    if hs != [] {
      assert hs[0] != h;
      assert hs == [hs[0]] + hs[1..];
      WithoutAbsent(hs[1..], h);
    }
  }

  /** Adding an edge and then removing it by handle restores the list. */
  lemma AddThenRemove(hs: seq<EdgeHandle>, h: EdgeHandle)
    requires h !in hs
    ensures Without(hs + [h], h) == hs
  {
    WithoutAppend(hs, [h], h);
    WithoutAbsent(hs, h);
    assert Without([h], h) == [];
  }

  /** Removal is by handle: another edge equal to the removed one (same
      weight, same target) stays in the list. */
  lemma RemoveKeepsEqualEdge(edges: seq<Edge>, hs: seq<EdgeHandle>, h: EdgeHandle, h': EdgeHandle)
    requires h < |edges| && h' < |edges| && h' != h && h' in hs
    requires EdgeEq(edges[h], edges[h'])
    ensures h' in Without(hs, h) && h !in Without(hs, h)
  {
  }

  /** `remove_edge` as written: the filtered iterator is built and then
      dropped, so the edge list is returned as it was. */
  function RemoveEdgeAsWritten(hs: seq<EdgeHandle>, h: EdgeHandle): (r: seq<EdgeHandle>)
    ensures r == hs
  {
    var discarded := Without(hs, h);
    hs
  }

  /** The as-written removal leaves the edge it was asked to remove in the
      list, which is not what the filter computes. */
  lemma RemoveEdgeAsWrittenKeepsEdge(hs: seq<EdgeHandle>, h: EdgeHandle)
    requires h in hs
    ensures h in RemoveEdgeAsWritten(hs, h)
    ensures RemoveEdgeAsWritten(hs, h) != Without(hs, h)
  {
  }

  /** The graph: an arena of nodes and edges, both updated in place. */
  class Graph {
    var nodes: seq<Node>
    var edges: seq<Edge>

    ghost predicate Valid()
      reads this
    {
      WellFormed(nodes, edges)
    }

    /** An empty arena. */
    constructor ()
      ensures Valid() && nodes == [] && edges == []
    {
      nodes := [];
      edges := [];
    }

    /** `Node::new(id)`: no edges, cost the infinity sentinel, no predecessor. */
    method NewNode(id: nat) returns (n: NodeHandle)
      requires Valid()
      modifies this
      ensures Valid()
      ensures n == |old(nodes)| && nodes == old(nodes) + [Node(id, [], Infinite, None)]
      ensures edges == old(edges)
    {
      n := |nodes|;
      nodes := nodes + [Node(id, [], Infinite, None)];
    }

    /** `Edge::new(weight, node)`: a fresh edge, not yet attached to any node. */
    method NewEdge(weight: nat, target: NodeHandle) returns (h: EdgeHandle)
      requires Valid() && target < |nodes|
      modifies this
      ensures Valid()
      ensures h == |old(edges)| && edges == old(edges) + [Edge(weight, target)]
      ensures nodes == old(nodes)
    {
      h := |edges|;
      edges := edges + [Edge(weight, target)];
    }

    /** `Edge::change_weight`: only the weight of edge `h` changes. */
    method ChangeWeight(h: EdgeHandle, newWeight: nat)
      requires Valid() && h < |edges|
      modifies this
      ensures Valid()
      ensures edges == old(edges)[h := Edge(newWeight, old(edges)[h].target)]
      ensures nodes == old(nodes)
    {
      edges := edges[h := edges[h].(weight := newWeight)];
    }

    /** `Edge::change_node_ptr`: only the target of edge `h` changes. */
    method ChangeTarget(h: EdgeHandle, newTarget: NodeHandle)
      requires Valid() && h < |edges| && newTarget < |nodes|
      modifies this
      ensures Valid()
      ensures edges == old(edges)[h := Edge(old(edges)[h].weight, newTarget)]
      ensures nodes == old(nodes)
    {
      edges := edges[h := edges[h].(target := newTarget)];
    }

    /** `Node::add_edge`: appends, duplicates allowed, earlier edges untouched. */
    method AddEdge(n: NodeHandle, h: EdgeHandle)
      requires Valid() && n < |nodes| && h < |edges|
      modifies this
      ensures Valid()
      ensures nodes == old(nodes)[n := old(nodes)[n].(edges := old(nodes)[n].edges + [h])]
      ensures edges == old(edges)
    {
      nodes := nodes[n := nodes[n].(edges := nodes[n].edges + [h])];
    }

    /** `Node::remove_edge` with its filter stored back: node `n` keeps exactly
        the edges whose handle differs from `h`, in their order. */
    method RemoveEdge(n: NodeHandle, h: EdgeHandle)
      requires Valid() && n < |nodes|
      modifies this
      ensures Valid()
      ensures nodes == old(nodes)[n := old(nodes)[n].(edges := Without(old(nodes)[n].edges, h))]
      ensures edges == old(edges)
    {
      var kept := Without(nodes[n].edges, h);
      assert forall k :: 0 <= k < |kept| ==> kept[k] in nodes[n].edges;
      nodes := nodes[n := nodes[n].(edges := kept)];
    }

    /** `NodeValue::set_cost_to_start`. */
    method SetCostToStart(n: NodeHandle, newCost: nat)
      requires Valid() && n < |nodes|
      modifies this
      ensures Valid()
      ensures nodes == old(nodes)[n := old(nodes)[n].(costToStart := Finite(newCost))]
      ensures edges == old(edges)
    {
      nodes := nodes[n := nodes[n].(costToStart := Finite(newCost))];
    }

    /** `NodeValue::set_prev_node`. */
    method SetPrevNode(n: NodeHandle, prevNode: NodeHandle)
      requires Valid() && n < |nodes| && prevNode < |nodes|
      modifies this
      ensures Valid()
      ensures nodes == old(nodes)[n := old(nodes)[n].(prev := Some(prevNode))]
      ensures edges == old(edges)
    {
      nodes := nodes[n := nodes[n].(prev := Some(prevNode))];
    }

    /** `NodeValue::is_empty`: the node has no outgoing edges. */
    function IsEmpty(n: NodeHandle): (b: bool)
      reads this
      requires n < |nodes|
      ensures b <==> nodes[n].edges == []
    {
      |nodes[n].edges| == 0
    }
  }
}
