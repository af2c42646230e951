# TGraph in Dafny

A model of the graph toy in `src/main.rs`. The program has a mutable directed
weighted graph: edges whose weight and target can be changed in place, and
nodes with an ordered edge list plus the fields `cost_to_start` and
`spf_prev`. Over this graph `djiktstra` runs a single-source shortest-path
search with a priority queue and a settled set (`shortest_path_table`).

The model has three modules, one per part of the program:

- `TGraph` (graph.dfy) holds the data model and the mutation operations. The
  `Rc<RefCell<…>>` sharing becomes an arena: the class `Graph` keeps every
  node in `nodes: seq<Node>` and every edge in `edges: seq<Edge>`, and the
  two refer to each other by index (a *handle*). A handle stands for an `Rc`
  pointer, so two edges with equal weight and target are still two edges. The
  methods of `Graph` update the arena in place, as the `RefCell` setters do.
- `ShortestPath` (shortest_path.dfy) holds one run of `djiktstra` described
  on values (`RelaxEdge`, `RelaxAll`, `Visit`, `Run`) and the in-place
  methods `VisitNode` and `Dijkstra`. Each method is proved to end in the
  state that the functions describe. The properties of a run are lemmas about
  `Run` and `Visit`.
- `Demo` (demo.dfy) holds the graph that `main` builds and the run from
  node1, computed both by the lemmas and by the class's own methods.

Behaviour as the code has it, where it differs from a textbook Dijkstra:

- The start node is queued with priority 0, but its own `cost_to_start` is
  never set to 0 (src/main.rs:62). In the demo, node1 keeps the sentinel.
- The candidate cost is the popped priority plus the edge weight, not the
  node's cost field (src/main.rs:73).
- A popped node with no edges is skipped by the `continue` at line 69 and is
  never settled. The settled insert at line 92 sits inside the edge loop, and
  the `continue` at line 75 jumps over it. So a popped node is settled exactly
  when one of its edges points at a node that is not yet settled
  (`VisitSettles`).
- `remove_edge` builds a filtered iterator and drops it, so it removes
  nothing. See "## Findings".

A textbook Dijkstra sets the start's distance to 0 and counts every popped
node as visited; the code does neither, and `remove_edge` is a finding. The
model follows the code.

Costs are `Cost = Infinite | Finite(d: nat)`; `Infinite` stands for the
`usize::MAX` sentinel. Weights are `nat`.

## Model

| member | source | states |
|---|---|---|
| TGraph.EdgeEq | src/main.rs:17-21 | two edges are equal exactly when their weights are equal and their targets are the same node |
| TGraph.Graph.NewEdge | src/main.rs:31-36 | a new edge with the given weight and target is appended to the arena under a fresh handle; no node's edge list changes |
| TGraph.Graph.ChangeWeight | src/main.rs:38-40 | only the weight of that edge changes; its target and every other edge and node stay as they were |
| TGraph.Graph.ChangeTarget | src/main.rs:42-44 | only the target of that edge changes; its weight and every other edge and node stay as they were |
| TGraph.Graph.NewNode | src/main.rs:146-155 | a new node with the given id, no edges, cost at the infinity sentinel and no predecessor is appended; nothing else changes |
| TGraph.Graph.AddEdge | src/main.rs:142-144 | the handle is appended to the end of the node's edge list; earlier edges and their order stay; a duplicate is accepted |
| TGraph.Graph.RemoveEdge | src/main.rs:157-163 | the node's edge list becomes `Without(list, h)`: the filter's result stored back; nothing else changes |
| TGraph.Without | src/main.rs:158-162 | the result holds exactly the handles of the list that differ from `h` |
| TGraph.WithoutAppend | src/main.rs:158-162 | the filter keeps order: it distributes over concatenation of edge lists |
| TGraph.WithoutAbsent | src/main.rs:158-162 | removing a handle that is not in the list returns the list unchanged |
| TGraph.AddThenRemove | src/main.rs:142-163 | adding an edge not yet in the list and then removing it by handle restores the list |
| TGraph.RemoveKeepsEqualEdge | src/main.rs:162 | removal compares handles (`Rc::ptr_eq`): a different edge with the same weight and target stays, the removed handle does not |
| TGraph.RemoveEdgeAsWritten | src/main.rs:157-163 | as coded, the filtered iterator is discarded and the edge list is returned unchanged |
| TGraph.RemoveEdgeAsWrittenKeepsEdge | src/main.rs:157-163 | the as-written removal leaves the edge in the list, which differs from the filter's result |
| TGraph.Graph.SetCostToStart | src/main.rs:112-114 | only the cost of that node changes, to the given finite value |
| TGraph.Graph.SetPrevNode | src/main.rs:116-118 | only the predecessor of that node changes, to the given node |
| TGraph.Graph.IsEmpty | src/main.rs:122-124 | true exactly when the node has no outgoing edges |
| ShortestPath.Start | src/main.rs:59-62 | a run begins with only the start queued, at priority 0, an empty settled set, and the nodes as they were (the start keeps its cost) |
| ShortestPath.RelaxEdge | src/main.rs:73-92 | defines one pass of the edge loop and keeps every handle inside the arena; what a pass guarantees is stated by VisitLowers, VisitSettles and VisitFrame |
| ShortestPath.RelaxAll | src/main.rs:72-93 | defines the edge loop over a list of handles, in order, and keeps every handle inside the arena |
| ShortestPath.Visit | src/main.rs:66-93 | a popped node without edges changes nothing, else the edge loop runs over its edges; the result stays in the arena |
| ShortestPath.MinKey | src/main.rs:65 | the node popped next has the least priority in the frontier, and the least handle among equal priorities |
| ShortestPath.MinKeyUnique | src/main.rs:65 | the node popped next is determined: at most one entry satisfies the pop rule |
| ShortestPath.LoweringIsBelow | src/main.rs:77-82 | strictly lowering one node's cost moves the arena strictly down the measure (number of infinite costs, then sum of finite costs) |
| ShortestPath.RelaxAllProgress | src/main.rs:72-93 | a visit either leaves nodes and frontier as they were or moves the arena strictly down the measure, which is why the loop terminates |
| ShortestPath.Run | src/main.rs:64-94 | the `while` loop terminates on every finite graph (its decreases clause) and ends with an empty frontier |
| ShortestPath.VisitSettles | src/main.rs:68-92 | only the popped node can join the settled set; it joins exactly when one of its edges points at a node not yet settled, so a node without edges is never settled |
| ShortestPath.VisitLowers | src/main.rs:73-90 | (the converse is VisitRelaxes) a node's cost changes in a visit only if the node is not settled and popped priority plus an edge's weight is strictly below its cost and then the cost becomes that sum, the predecessor becomes the popped node, and the node is queued with its new cost |
| ShortestPath.VisitRelaxes | src/main.rs:73-90 | after a visit of `u` popped with priority `p`, the target of each edge of `u` that was not settled (and is not `u`) costs at most `p` plus the edge's weight: the relaxation does fire |
| ShortestPath.VisitFrontier | src/main.rs:77-90 | a visit drops no frontier entry, and a node whose cost stays keeps its entry (or its absence) and its priority; with VisitLowers this fixes the whole frontier |
| ShortestPath.VisitFrame | src/main.rs:72-93 | a visit changes no id or edge list, never raises a cost, leaves the predecessor of a node whose cost stays, and leaves settled nodes untouched |
| ShortestPath.RunOnlyLowers | src/main.rs:64-94 | over a whole run, costs never rise, and ids and edge lists are unchanged |
| ShortestPath.RunPredecessors | src/main.rs:83-92 | after a run, a node whose cost changed has a settled predecessor with an edge to it; a node whose cost stayed kept its predecessor |
| ShortestPath.RunUnreached | src/main.rs:64-94 | a node that no settled node points at keeps its cost and predecessor (a fresh one: the sentinel and no predecessor) |
| ShortestPath.RunSettledHaveEdges | src/main.rs:68-92 | the returned set holds only nodes with at least one outgoing edge |
| ShortestPath.RelaxEdgeInPlace | src/main.rs:73-92 | one in-place pass of the edge loop, through the graph's setters, ends in the state `RelaxEdge` describes |
| ShortestPath.VisitNode | src/main.rs:66-93 | the in-place edge loop on the graph ends in the state `Visit` describes and leaves the edges unchanged |
| ShortestPath.Dijkstra | src/main.rs:58-97 | the in-place routine ends with the nodes and returned set that `Run` gives from the start state, and leaves the edges unchanged |
| Demo.BuildDemoArena | src/main.rs:179-188 | the four nodes with ids 1..4, fresh (no edges, sentinel cost, no predecessor), and the five edges 1→2 w1, 1→3 w1, 2→3 w3, 2→1 w5, 2→1 w2 |
| Demo.BuildDemo | src/main.rs:179-195 | the class operations build the demo graph: 1→2 w1, 1→3 w1, 2→3 w3, 2→1 w5, with edge5 made but not attached |
| Demo.DemoRun | src/main.rs:179-195 | what the model computes from node1, nodes identified by handle: cost(2)=1 and cost(3)=1 with predecessor node1, node1 keeps the sentinel, node4 untouched, settled set {node1, node2} |
| Demo.DemoScenario | src/main.rs:179-195 | the same result read back from the nodes after building the graph and calling `Dijkstra` in place |

## Left out

- The `Display` impls for `Edge` and `Node` (src/main.rs:47-56, 166-176) and the stray `println!`: presentation only.
- The rest of `main` and its commented-out experiments (src/main.rs:198-213): the graph building is `Demo.BuildDemo`.
- The derived and custom `Hash`/`Eq` on `Node` and `NodeValue` (src/main.rs:99-103, 127-139). They compare through edges into target nodes, so on a cyclic graph such as the demo's (1→2→1) they recurse without end. The model identifies a node by its handle; the settled set is a set of handles.
- The `priority_queue` crate (src/main.rs:1) is a foreign library. The frontier is a map from node to priority, and pushing a node already present updates its priority, as the crate's `push` does. The model pops the least priority, as Dijkstra intends, with ties broken by the least handle. The crate's `pop` returns the greatest priority, so the source's pop order differs. On the demo graph both orders give the same final state.
- The `expect` on an empty pop (src/main.rs:65) cannot fire under the loop guard; the model has no such path.
- `Rc`/`RefCell` ownership and borrow checks: replaced by the arena of handles.
- `usize` overflow in `current_node.1 + weight` (src/main.rs:73) and a cost of exactly `usize::MAX`; the model has unbounded `nat` costs and a separate `Infinite`.
- The unused `end_Node` parameter (src/main.rs:58).
- Least path weights: the code does not compute them, even on acyclic graphs, so the model does not claim them. With the crate's greatest-priority pop and the graph s→a w10, s→b w1, b→a w1, a→c w1, the run pops a at 10 and settles it; when b is popped later, b→a is skipped by the `continue` at src/main.rs:75, so a keeps 10 although s→b→a weighs 2. Under the model's least-priority pop no optimality proof is attempted either.
- Re-running on a reset graph: the source has no reset operation, so idempotence is not stated.

## Findings

| source | as written | input that shows it | evidently intended | confidence | as-written member | corrected member |
|---|---|---|---|---|---|---|
| src/main.rs:157-163 | `remove_edge` builds `iter().filter(...)` and drops it, so the edge list never changes | a node with edge list `[e]` and `remove_edge(e)`: the list stays `[e]` | the node keeps exactly the edges that are not the given `Rc`, in order | not executed; high, the lazy iterator is never consumed | TGraph.RemoveEdgeAsWritten, shown by TGraph.RemoveEdgeAsWrittenKeepsEdge | TGraph.Graph.RemoveEdge, with TGraph.Without, TGraph.AddThenRemove and TGraph.RemoveKeepsEqualEdge |
