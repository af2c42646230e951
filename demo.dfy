/** The graph that `main` in src/main.rs builds (src/main.rs:179-195), and
    what the model of `djiktstra` computes from its first node, with nodes
    identified by handle. (In the program itself, pushing node1 hashes it
    through the derived `Hash`, which follows the cycle 1->2->1 without end.)
    Handles 0..3 are the nodes with ids 1..4; edge handles 0..4 are
    `edge1`..`edge5` (`edge5` is made but never attached). */
module Demo {
  import opened TGraph
  import opened ShortestPath

  const DemoEdges: seq<Edge> := [Edge(1, 1), Edge(1, 2), Edge(3, 2), Edge(5, 0), Edge(2, 0)]

  const DemoNodes: seq<Node> :=
    [Node(1, [0, 1], Infinite, None), Node(2, [2, 3], Infinite, None),
     Node(3, [], Infinite, None), Node(4, [], Infinite, None)]

  /** The nodes after the run: node2 and node3 at cost 1 with predecessor
      node1; node1 keeps the sentinel (only its queue priority was 0);
      node4 is untouched. */
  const DemoResult: seq<Node> :=
    [Node(1, [0, 1], Infinite, None), Node(2, [2, 3], Finite(1), Some(0)),
     Node(3, [], Finite(1), Some(0)), Node(4, [], Infinite, None)]

  /** The state after the first pop: node1, popped with priority 0, lowered
      node2 and node3 to 1 and was settled. */
  const AfterFirst: Search := Search(DemoResult, map[1 := 1, 2 := 1], {0})

  /** The state after the second pop: node2, popped with priority 1, lowered
      nothing (2->3 would cost 4; node1 is settled) and was settled. */
  const AfterSecond: Search := Search(DemoResult, map[2 := 1], {0, 1})

  /** Visiting node1 with priority 0 from the start state, frontier emptied. */
  lemma DemoFirstVisit()
    ensures WellFormed(DemoNodes, DemoEdges)
    ensures Visit(DemoEdges, Search(DemoNodes, map[], {}), 0, 0) == AfterFirst
  {
    var E := DemoEdges;
    var s1 := Search(DemoNodes, map[], {});
    var n1 := DemoNodes[1 := Node(2, [2, 3], Finite(1), Some(0))];
    var a := RelaxEdge(E, s1, 0, 0, 0);
    assert a == Search(n1, map[1 := 1], {0});
    assert n1[2 := Node(3, [], Finite(1), Some(0))] == DemoResult;
    assert RelaxEdge(E, a, 0, 0, 1) == AfterFirst;
    assert [0][..0] == [] && [0, 1][..1] == [0];
    assert RelaxAll(E, s1, 0, 0, [0]) == a;
  }

  lemma DemoFirstPop()
    ensures WellFormed(DemoNodes, DemoEdges) && Fits(DemoEdges, AfterFirst)
    ensures Run(DemoEdges, Start(DemoNodes, 0)) == Run(DemoEdges, AfterFirst)
  {
    var s0 := Start(DemoNodes, 0);
    assert IsMinKey(s0.frontier, 0);
    MinKeyUnique(s0.frontier, 0, MinKey(s0.frontier));
    assert s0.frontier - {0} == map[];
    DemoFirstVisit();
  }

  /** Visiting node2 with priority 1 after the first pop. */
  lemma DemoSecondVisit()
    ensures Fits(DemoEdges, AfterFirst.(frontier := map[2 := 1]))
    ensures Visit(DemoEdges, AfterFirst.(frontier := map[2 := 1]), 1, 1) == AfterSecond
  {
    var E := DemoEdges;
    var b := AfterFirst.(frontier := map[2 := 1]);
    var c := RelaxEdge(E, b, 1, 1, 2);
    assert c == AfterSecond;
    assert RelaxEdge(E, c, 1, 1, 3) == c;
    assert [2][..0] == [] && [2, 3][..1] == [2];
    assert RelaxAll(E, b, 1, 1, [2]) == c;
  }

  lemma DemoSecondPop()
    ensures Fits(DemoEdges, AfterFirst) && Fits(DemoEdges, AfterSecond)
    ensures Run(DemoEdges, AfterFirst) == Run(DemoEdges, AfterSecond)
  {
    var b := AfterFirst;
    assert IsMinKey(b.frontier, 1);
    MinKeyUnique(b.frontier, 1, MinKey(b.frontier));
    assert b.frontier - {1} == map[2 := 1];
    DemoSecondVisit();
  }

  lemma DemoThirdPop()
    ensures Fits(DemoEdges, AfterSecond)
    ensures Run(DemoEdges, AfterSecond) == Search(DemoResult, map[], {0, 1})
  {
  }

  /** The run from node1: node1 and node2 are settled; node3, which has no
      edges, is popped but not settled. */
  lemma DemoRun()
    ensures WellFormed(DemoNodes, DemoEdges)
    ensures Run(DemoEdges, Start(DemoNodes, 0)) == Search(DemoResult, map[], {0, 1})
  {
    DemoFirstPop();
    DemoSecondPop();
    DemoThirdPop();
  }

  /** The nodes and edges of `main` (src/main.rs:179-188), before any edge
      is attached. */
  method BuildDemoArena() returns (g: Graph)
    ensures fresh(g) && g.Valid()
    ensures g.edges == DemoEdges
    ensures g.nodes == [Node(1, [], Infinite, None), Node(2, [], Infinite, None),
                        Node(3, [], Infinite, None), Node(4, [], Infinite, None)]
  {
    g := new Graph();
    var node1 := g.NewNode(1);
    var node2 := g.NewNode(2);
    var node3 := g.NewNode(3);
    var node4 := g.NewNode(4);
    assert node1 == 0 && node2 == 1 && node3 == 2 && node4 == 3;
    var edge1 := g.NewEdge(1, node2);
    var edge2 := g.NewEdge(1, node3);
    var edge3 := g.NewEdge(3, node3);
    var edge4 := g.NewEdge(5, node1);
    var edge5 := g.NewEdge(2, node1);
  }

  /** The graph-building part of `main` (src/main.rs:179-195), with the
      class's own operations. */
  method BuildDemo() returns (g: Graph, node1: NodeHandle)
    ensures fresh(g) && g.Valid()
    ensures g.nodes == DemoNodes && g.edges == DemoEdges && node1 == 0
  {
    g := BuildDemoArena();
    node1 := 0;
    g.AddEdge(0, 0);
    g.AddEdge(0, 1);
    assert g.nodes[0] == DemoNodes[0];
    g.AddEdge(1, 2);
    g.AddEdge(1, 3);
    assert |g.nodes| == 4 && g.nodes[0] == DemoNodes[0] && g.nodes[1] == DemoNodes[1];
    assert g.nodes[2] == DemoNodes[2] && g.nodes[3] == DemoNodes[3];
  }

  /** `main` followed by the modelled routine run from node1 (nodes
      identified by handle), read back through the nodes' own fields. */
  method DemoScenario() returns (costs: seq<Cost>, prevs: seq<Option<NodeHandle>>, settled: set<NodeHandle>)
    ensures costs == [Infinite, Finite(1), Finite(1), Infinite]
    ensures prevs == [None, Some(0), Some(0), None]
    ensures settled == {0, 1}
  {
    var g, node1 := BuildDemo();
    DemoRun();
    settled := Dijkstra(g, node1);
    costs := [g.nodes[0].costToStart, g.nodes[1].costToStart, g.nodes[2].costToStart, g.nodes[3].costToStart];
    prevs := [g.nodes[0].prev, g.nodes[1].prev, g.nodes[2].prev, g.nodes[3].prev];
  }
}
