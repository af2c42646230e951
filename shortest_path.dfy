/** The shortest-path routine `djiktstra` of src/main.rs over the arena of
    module TGraph. The functions below describe one run on values (the state
    is the node arena, the frontier and the settled set); the method
    `Dijkstra` performs the run in place on a `Graph` and is proved to end in
    the state the function `Run` describes. */
module ShortestPath {
  import opened TGraph

  /** The state of a run: the nodes (whose cost and predecessor fields the
      run writes), the frontier (node handle to queue priority) and the
      settled set `shortest_path_table`. */
  datatype Search = Search(nodes: seq<Node>, frontier: map<NodeHandle, nat>, settled: set<NodeHandle>)

  /** Every handle in the state refers to a node of the arena. */
  predicate Fits(edges: seq<Edge>, s: Search) {
    && WellFormed(s.nodes, edges)
    && (forall v :: v in s.frontier ==> v < |s.nodes|)
    && (forall v :: v in s.settled ==> v < |s.nodes|)
  }

  /** The state in which `djiktstra(start)` begins: only `start` is queued,
      with priority 0; its own cost field is left as it was. */
  function Start(nodes: seq<Node>, start: NodeHandle): (r: Search)
    ensures r.frontier.Keys == {start} && r.frontier[start] == 0 && r.settled == {}
    ensures r.nodes == nodes
  {
    Search(nodes, map[start := 0], {})
  }

  // ---------------------------------------------------------------------
  // One pass of the edge loop (src/main.rs:72-93)

  /** The body of the edge loop for edge `h` of the popped node `u`, popped
      with priority `p`. */
  function RelaxEdge(edges: seq<Edge>, s: Search, u: NodeHandle, p: nat, h: EdgeHandle): (r: Search)
    requires Fits(edges, s) && u < |s.nodes| && h < |edges|
    ensures Fits(edges, r) && |r.nodes| == |s.nodes|
  {
    var t := edges[h].target;
    var cand := p + edges[h].weight;
    if t in s.settled then s
    else if Exceeds(s.nodes[t].costToStart, cand) then
      Search(s.nodes[t := s.nodes[t].(costToStart := Finite(cand), prev := Some(u))],
             s.frontier[t := cand],
             s.settled + {u})
    else
      s.(settled := s.settled + {u})
  }

  /** The edge loop run over the edge handles `hs`, in order. */
  function RelaxAll(edges: seq<Edge>, s: Search, u: NodeHandle, p: nat, hs: seq<EdgeHandle>): (r: Search)
    requires Fits(edges, s) && u < |s.nodes|
    requires forall k :: 0 <= k < |hs| ==> hs[k] < |edges|
    ensures Fits(edges, r) && |r.nodes| == |s.nodes|
    decreases |hs|
  {
    if hs == [] then s
    else RelaxEdge(edges, RelaxAll(edges, s, u, p, hs[..|hs| - 1]), u, p, hs[|hs| - 1])
  }

  /** What happens to a popped node `u`: nothing when it has no edges (the
      `continue` at src/main.rs:69), otherwise the edge loop over its edges. */
  function Visit(edges: seq<Edge>, s: Search, u: NodeHandle, p: nat): (r: Search)
    requires Fits(edges, s) && u < |s.nodes|
    ensures Fits(edges, r) && |r.nodes| == |s.nodes|
  {
    if s.nodes[u].edges == [] then s
    else RelaxAll(edges, s, u, p, s.nodes[u].edges)
  }

  // ---------------------------------------------------------------------
  // The frontier

  /** `k` is the entry the frontier hands out next: least priority, and
      among equal priorities the least handle. */
  predicate IsMinKey(f: map<NodeHandle, nat>, k: NodeHandle) {
    k in f && forall j :: j in f ==> f[k] < f[j] || (f[k] == f[j] && k <= j)
  }

  /** The entry a non-empty frontier hands out next. */
  ghost function MinKey(f: map<NodeHandle, nat>): (k: NodeHandle)
    requires f != map[]
    ensures IsMinKey(f, k)
    decreases |f.Keys|
  {
    var j :| j in f;
    var rest := f - {j};
    assert rest.Keys == f.Keys - {j};
    assert forall i :: i in f ==> i == j || i in rest;
    if rest == map[] then j
    else
      var k := MinKey(rest);
      if f[j] < f[k] || (f[j] == f[k] && j <= k) then j else k
  }

  /** At most one entry is the next one. */
  lemma MinKeyUnique(f: map<NodeHandle, nat>, a: NodeHandle, b: NodeHandle)
    requires IsMinKey(f, a) && IsMinKey(f, b)
    ensures a == b
  {
  }

  // ---------------------------------------------------------------------
  // Termination measure

  /** The number of nodes still at the infinity sentinel. */
  function InfCount(nodes: seq<Node>): nat {
    if nodes == [] then 0
    else (if nodes[0].costToStart.Infinite? then 1 else 0) + InfCount(nodes[1..])
  }

  /** The sum of all finite costs. */
  function FinSum(nodes: seq<Node>): nat {
    if nodes == [] then 0
    else (if nodes[0].costToStart.Finite? then nodes[0].costToStart.d else 0) + FinSum(nodes[1..])
  }

  /** `a` is lexicographically below `b` in (InfCount, FinSum). */
  predicate Below(a: seq<Node>, b: seq<Node>) {
    InfCount(a) < InfCount(b) || (InfCount(a) == InfCount(b) && FinSum(a) < FinSum(b))
  }

  /** Lowering one node's cost strictly moves the arena down the measure. */
  lemma {:induction false} LoweringIsBelow(nodes: seq<Node>, t: nat, n: Node)
    requires t < |nodes| && n.costToStart.Finite?
    requires Exceeds(nodes[t].costToStart, n.costToStart.d)
    ensures Below(nodes[t := n], nodes)
  {
    var nodes' := nodes[t := n];
    if t == 0 {
      assert nodes'[1..] == nodes[1..];
    } else {
      assert nodes'[1..] == nodes[1..][t - 1 := n];
      assert nodes'[0] == nodes[0];
      LoweringIsBelow(nodes[1..], t - 1, n);
    }
  }

  /** The edge loop either changes neither the nodes nor the frontier, or it
      moves the arena down the measure. */
  lemma {:induction false} RelaxAllProgress(edges: seq<Edge>, s: Search, u: NodeHandle, p: nat, hs: seq<EdgeHandle>)
    requires Fits(edges, s) && u < |s.nodes|
    requires forall k :: 0 <= k < |hs| ==> hs[k] < |edges|
    ensures var r := RelaxAll(edges, s, u, p, hs);
            (r.nodes == s.nodes && r.frontier == s.frontier) || Below(r.nodes, s.nodes)
    decreases |hs|
  {
    if hs != [] {
      var hs' := hs[..|hs| - 1];
      RelaxAllProgress(edges, s, u, p, hs');
      var r' := RelaxAll(edges, s, u, p, hs');
      var h := hs[|hs| - 1];
      var t := edges[h].target;
      var cand := p + edges[h].weight;
      if t !in r'.settled && Exceeds(r'.nodes[t].costToStart, cand) {
        LoweringIsBelow(r'.nodes, t, r'.nodes[t].(costToStart := Finite(cand), prev := Some(u)));
      }
    }
  }

  // ---------------------------------------------------------------------
  // The outer loop (src/main.rs:64-94)

  /** The `while !prio_queue.is_empty()` loop from state `s` to its end. */
  ghost function Run(edges: seq<Edge>, s: Search): (r: Search)
    requires Fits(edges, s)
    ensures Fits(edges, r) && |r.nodes| == |s.nodes|
    ensures r.frontier == map[]
    decreases InfCount(s.nodes), FinSum(s.nodes), |s.frontier.Keys|
  {
    if s.frontier == map[] then s
    else
      var u := MinKey(s.frontier);
      var s1 := s.(frontier := s.frontier - {u});
      assert s1.frontier.Keys == s.frontier.Keys - {u};
      var s2 := Visit(edges, s1, u, s.frontier[u]);
      if s1.nodes[u].edges != [] then
        RelaxAllProgress(edges, s1, u, s.frontier[u], s1.nodes[u].edges);
        Run(edges, s2)
      else
        Run(edges, s2)
  }

  // ---------------------------------------------------------------------
  // What a run keeps

  /** Node `v` of `s` got its predecessor `u` along an edge: `u` is settled
      and one of `u`'s edges points at `v`. */
  predicate ReachedAlongEdge(edges: seq<Edge>, s: Search, v: NodeHandle) {
    && v < |s.nodes|
    && s.nodes[v].prev.Some?
    && var u := s.nodes[v].prev.value;
       && u < |s.nodes|
       && u in s.settled
       && exists k :: 0 <= k < |s.nodes[u].edges| && s.nodes[u].edges[k] < |edges|
                      && edges[s.nodes[u].edges[k]].target == v
  }

  /** How a later state `b` of a run relates to an earlier state `a`. */
  ghost predicate Consistent(edges: seq<Edge>, a: Search, b: Search) {
    && |b.nodes| == |a.nodes|
    && a.settled <= b.settled
    && (forall v :: 0 <= v < |a.nodes| ==>
          b.nodes[v].id == a.nodes[v].id && b.nodes[v].edges == a.nodes[v].edges)
    && (forall v :: 0 <= v < |a.nodes| ==> CostLe(b.nodes[v].costToStart, a.nodes[v].costToStart))
    && (forall v :: 0 <= v < |a.nodes| && b.nodes[v].costToStart == a.nodes[v].costToStart ==>
          b.nodes[v].prev == a.nodes[v].prev)
    && (forall v :: 0 <= v < |a.nodes| && b.nodes[v].costToStart != a.nodes[v].costToStart ==>
          ReachedAlongEdge(edges, b, v))
    && (forall v :: v in a.settled ==> v < |a.nodes| && b.nodes[v] == a.nodes[v])
    && (forall v :: v in b.settled && v !in a.settled ==> v < |b.nodes| && b.nodes[v].edges != [])
  }

  lemma ConsistentRefl(edges: seq<Edge>, s: Search)
    requires Fits(edges, s)
    ensures Consistent(edges, s, s)
  {
  }

  lemma ConsistentTrans(edges: seq<Edge>, a: Search, b: Search, c: Search)
    requires Consistent(edges, a, b) && Consistent(edges, b, c)
    ensures Consistent(edges, a, c)
  {
  }

  /** One pass of the edge loop, over the `j`-th edge of `u`, is consistent. */
  lemma RelaxEdgeConsistent(edges: seq<Edge>, s: Search, u: NodeHandle, p: nat, j: nat)
    requires Fits(edges, s) && u < |s.nodes| && j < |s.nodes[u].edges|
    ensures Consistent(edges, s, RelaxEdge(edges, s, u, p, s.nodes[u].edges[j]))
  {
  }

  /** The edge loop over the first `n` edges of `u` is consistent. */
  lemma {:induction false} RelaxAllConsistent(edges: seq<Edge>, s: Search, u: NodeHandle, p: nat, n: nat)
    requires Fits(edges, s) && u < |s.nodes| && n <= |s.nodes[u].edges|
    ensures Consistent(edges, s, RelaxAll(edges, s, u, p, s.nodes[u].edges[..n]))
  {
    var hs := s.nodes[u].edges;
    if n == 0 {
      ConsistentRefl(edges, s);
    } else {
      assert hs[..n][..n - 1] == hs[..n - 1];
      RelaxAllConsistent(edges, s, u, p, n - 1);
      var r' := RelaxAll(edges, s, u, p, hs[..n - 1]);
      assert r'.nodes[u].edges == hs;
      RelaxEdgeConsistent(edges, r', u, p, n - 1);
      ConsistentTrans(edges, s, r', RelaxAll(edges, s, u, p, hs[..n]));
    }
  }

  lemma VisitConsistent(edges: seq<Edge>, s: Search, u: NodeHandle, p: nat)
    requires Fits(edges, s) && u < |s.nodes|
    ensures Consistent(edges, s, Visit(edges, s, u, p))
  {
    var hs := s.nodes[u].edges;
    if hs == [] {
      ConsistentRefl(edges, s);
    } else {
      assert hs[..|hs|] == hs;
      RelaxAllConsistent(edges, s, u, p, |hs|);
    }
  }

  lemma {:induction false} RunConsistent(edges: seq<Edge>, s: Search)
    requires Fits(edges, s)
    ensures Consistent(edges, s, Run(edges, s))
    decreases InfCount(s.nodes), FinSum(s.nodes), |s.frontier.Keys|
  {
    if s.frontier == map[] {
      ConsistentRefl(edges, s);
    } else {
      var u := MinKey(s.frontier);
      var s1 := s.(frontier := s.frontier - {u});
      assert s1.frontier.Keys == s.frontier.Keys - {u};
      var s2 := Visit(edges, s1, u, s.frontier[u]);
      if s1.nodes[u].edges != [] {
        RelaxAllProgress(edges, s1, u, s.frontier[u], s1.nodes[u].edges);
      }
      VisitConsistent(edges, s1, u, s.frontier[u]);
      RunConsistent(edges, s2);
      ConsistentTrans(edges, s1, s2, Run(edges, s2));
    }
  }

  // ---------------------------------------------------------------------
  // Visiting one popped node

  /** Edge `k` of node `u` points at a node outside `settled`. */
  predicate EdgeLeaves(edges: seq<Edge>, s: Search, u: NodeHandle, k: nat)
    requires u < |s.nodes|
  {
    k < |s.nodes[u].edges| && s.nodes[u].edges[k] < |edges|
    && edges[s.nodes[u].edges[k]].target !in s.settled
  }

  lemma {:induction false} RelaxAllSettles(edges: seq<Edge>, s: Search, u: NodeHandle, p: nat, n: nat)
    requires Fits(edges, s) && u < |s.nodes| && n <= |s.nodes[u].edges|
    ensures var r := RelaxAll(edges, s, u, p, s.nodes[u].edges[..n]);
            && s.settled <= r.settled <= s.settled + {u}
            && (u in r.settled <==> u in s.settled || exists k: nat :: k < n && EdgeLeaves(edges, s, u, k))
  {
    var hs := s.nodes[u].edges;
    if n > 0 {
      assert hs[..n][..n - 1] == hs[..n - 1];
      RelaxAllSettles(edges, s, u, p, n - 1);
      var r' := RelaxAll(edges, s, u, p, hs[..n - 1]);
      var r := RelaxAll(edges, s, u, p, hs[..n]);
      assert r == RelaxEdge(edges, r', u, p, hs[n - 1]);
      var t := edges[hs[n - 1]].target;
      assert r.settled == if t in r'.settled then r'.settled else r'.settled + {u};
      if u in r.settled && u !in s.settled {
        if u !in r'.settled {
          assert EdgeLeaves(edges, s, u, n - 1);
        } else {
          var k: nat :| k < n - 1 && EdgeLeaves(edges, s, u, k);
          assert k < n && EdgeLeaves(edges, s, u, k);
        }
      }
      if exists k: nat :: k < n && EdgeLeaves(edges, s, u, k) {
        var k: nat :| k < n && EdgeLeaves(edges, s, u, k);
        if k < n - 1 {
          assert u in r'.settled;
        } else if t in r'.settled {
          assert t == u;
        }
      }
    }
  }

  /** A popped node joins the settled set exactly when one of its edges
      points at a node that was not yet settled; nothing else joins. In
      particular a node without edges is never settled when visited. */
  lemma VisitSettles(edges: seq<Edge>, s: Search, u: NodeHandle, p: nat)
    requires Fits(edges, s) && u < |s.nodes|
    ensures var r := Visit(edges, s, u, p);
            && s.settled <= r.settled <= s.settled + {u}
            && (u in r.settled <==> u in s.settled || exists k: nat :: EdgeLeaves(edges, s, u, k))
  {
    var hs := s.nodes[u].edges;
    if hs != [] {
      assert hs[..|hs|] == hs;
      RelaxAllSettles(edges, s, u, p, |hs|);
    }
  }

  /** Node `v`, lowered during the visit of `u` (popped with priority `p`),
      was not settled, now has `u` as predecessor, is queued with its new
      cost, that cost is strictly below its old one, and it equals `p` plus
      the weight of an edge of `u` that points at `v`. */
  predicate LoweredBy(edges: seq<Edge>, s: Search, r: Search, u: NodeHandle, p: nat, v: NodeHandle)
    requires u < |s.nodes| && v < |s.nodes| && v < |r.nodes|
  {
    && v !in s.settled
    && r.nodes[v].prev == Some(u)
    && v in r.frontier
    && r.nodes[v].costToStart == Finite(r.frontier[v])
    && Exceeds(s.nodes[v].costToStart, r.frontier[v])
    && exists k :: 0 <= k < |s.nodes[u].edges| && s.nodes[u].edges[k] < |edges|
                   && edges[s.nodes[u].edges[k]].target == v
                   && r.frontier[v] == p + edges[s.nodes[u].edges[k]].weight
  }

  /** One pass of the edge loop, over the `j`-th edge of `u`, keeps the
      description `LoweredBy` of node `v` relative to the visit's start `s`. */
  lemma RelaxEdgeLowersAt(edges: seq<Edge>, s: Search, r': Search, u: NodeHandle, p: nat, j: nat, v: NodeHandle)
    requires Fits(edges, s) && Fits(edges, r') && u < |s.nodes| && |r'.nodes| == |s.nodes| && v < |s.nodes|
    requires j < |s.nodes[u].edges| && r'.nodes[u].edges == s.nodes[u].edges
    requires s.settled <= r'.settled
    requires CostLe(r'.nodes[v].costToStart, s.nodes[v].costToStart)
    requires r'.nodes[v].costToStart != s.nodes[v].costToStart ==> LoweredBy(edges, s, r', u, p, v)
    ensures var r := RelaxEdge(edges, r', u, p, s.nodes[u].edges[j]);
            r.nodes[v].costToStart != s.nodes[v].costToStart ==> LoweredBy(edges, s, r, u, p, v)
  {
  }

  lemma {:induction false} RelaxAllLowers(edges: seq<Edge>, s: Search, u: NodeHandle, p: nat, n: nat)
    requires Fits(edges, s) && u < |s.nodes| && n <= |s.nodes[u].edges|
    ensures var r := RelaxAll(edges, s, u, p, s.nodes[u].edges[..n]);
            forall v :: 0 <= v < |s.nodes| && r.nodes[v].costToStart != s.nodes[v].costToStart ==>
              LoweredBy(edges, s, r, u, p, v)
  {
    var hs := s.nodes[u].edges;
    if n > 0 {
      assert hs[..n][..n - 1] == hs[..n - 1];
      RelaxAllLowers(edges, s, u, p, n - 1);
      RelaxAllConsistent(edges, s, u, p, n - 1);
      var r' := RelaxAll(edges, s, u, p, hs[..n - 1]);
      assert RelaxAll(edges, s, u, p, hs[..n]) == RelaxEdge(edges, r', u, p, hs[n - 1]);
      forall v | 0 <= v < |s.nodes|
        ensures var r := RelaxEdge(edges, r', u, p, hs[n - 1]);
                r.nodes[v].costToStart != s.nodes[v].costToStart ==> LoweredBy(edges, s, r, u, p, v)
      {
        RelaxEdgeLowersAt(edges, s, r', u, p, n - 1, v);
      }
    }
  }

  /** Relaxation (src/main.rs:73-90): visiting `u` lowers a node's cost only
      if that node is not settled and `p + weight` of an edge of `u` to it is
      strictly below its cost; the cost becomes that sum, the predecessor
      becomes `u`, and the node is queued with the new cost. */
  lemma VisitLowers(edges: seq<Edge>, s: Search, u: NodeHandle, p: nat)
    requires Fits(edges, s) && u < |s.nodes|
    ensures var r := Visit(edges, s, u, p);
            forall v :: 0 <= v < |s.nodes| && r.nodes[v].costToStart != s.nodes[v].costToStart ==>
              LoweredBy(edges, s, r, u, p, v)
  {
    var hs := s.nodes[u].edges;
    if hs != [] {
      assert hs[..|hs|] == hs;
      RelaxAllLowers(edges, s, u, p, |hs|);
    }
  }

  /** One pass of the edge loop raises no cost, and leaves the target of
      its edge, when that target is not settled, at most `p` plus the weight. */
  lemma RelaxEdgeStep(edges: seq<Edge>, s: Search, u: NodeHandle, p: nat, h: EdgeHandle)
    requires Fits(edges, s) && u < |s.nodes| && h < |edges|
    ensures var r := RelaxEdge(edges, s, u, p, h);
            && (forall v :: 0 <= v < |s.nodes| ==> CostLe(r.nodes[v].costToStart, s.nodes[v].costToStart))
            && (edges[h].target !in s.settled ==>
                  CostLe(r.nodes[edges[h].target].costToStart, Finite(p + edges[h].weight)))
  {
  }

  /** The edge loop over the first `n` edges of `u` raises no cost and
      settles nothing but `u`. */
  lemma RelaxAllNoRise(edges: seq<Edge>, s: Search, u: NodeHandle, p: nat, n: nat)
    requires Fits(edges, s) && u < |s.nodes| && n <= |s.nodes[u].edges|
    ensures var r := RelaxAll(edges, s, u, p, s.nodes[u].edges[..n]);
            && r.nodes[u].edges == s.nodes[u].edges
            && r.settled <= s.settled + {u}
            && forall v :: 0 <= v < |s.nodes| ==> CostLe(r.nodes[v].costToStart, s.nodes[v].costToStart)
  {
    RelaxAllConsistent(edges, s, u, p, n);
    RelaxAllSettles(edges, s, u, p, n);
  }

  /** The converse of `RelaxAllLowers`: after the edge loop over the first
      `n` edges of `u`, every target of one of them that was neither settled
      nor `u` itself costs at most `p` plus that edge's weight. */
  lemma {:induction false} RelaxAllRelaxes(edges: seq<Edge>, s: Search, u: NodeHandle, p: nat, n: nat)
    requires Fits(edges, s) && u < |s.nodes| && n <= |s.nodes[u].edges|
    ensures var r := RelaxAll(edges, s, u, p, s.nodes[u].edges[..n]);
            forall k :: 0 <= k < n ==>
              var e := edges[s.nodes[u].edges[k]];
              e.target !in s.settled && e.target != u ==> CostLe(r.nodes[e.target].costToStart, Finite(p + e.weight))
  {
    var hs := s.nodes[u].edges;
    if n > 0 {
      assert hs[..n][..n - 1] == hs[..n - 1];
      RelaxAllRelaxes(edges, s, u, p, n - 1);
      RelaxAllNoRise(edges, s, u, p, n - 1);
      var r' := RelaxAll(edges, s, u, p, hs[..n - 1]);
      RelaxEdgeStep(edges, r', u, p, hs[n - 1]);
      var r := RelaxAll(edges, s, u, p, hs[..n]);
      assert r == RelaxEdge(edges, r', u, p, hs[n - 1]);
      forall k | 0 <= k < n
        ensures var e := edges[hs[k]];
                e.target !in s.settled && e.target != u ==> CostLe(r.nodes[e.target].costToStart, Finite(p + e.weight))
      {
        var e := edges[hs[k]];
        if k < n - 1 && e.target !in s.settled && e.target != u {
          assert CostLe(r.nodes[e.target].costToStart, r'.nodes[e.target].costToStart);
        }
      }
    }
  }

  /** Relaxation, the converse of `VisitLowers`: after visiting `u` with
      priority `p`, the target of each edge of `u` that was not settled (and
      is not `u`) costs at most `p` plus the edge's weight. */
  lemma VisitRelaxes(edges: seq<Edge>, s: Search, u: NodeHandle, p: nat)
    requires Fits(edges, s) && u < |s.nodes|
    ensures var r := Visit(edges, s, u, p);
            forall k :: 0 <= k < |s.nodes[u].edges| ==>
              var e := edges[s.nodes[u].edges[k]];
              e.target !in s.settled && e.target != u ==> CostLe(r.nodes[e.target].costToStart, Finite(p + e.weight))
  {
    var hs := s.nodes[u].edges;
    if hs != [] {
      assert hs[..|hs|] == hs;
      RelaxAllRelaxes(edges, s, u, p, |hs|);
    }
  }

  /** One pass of the edge loop drops no frontier entry, and a node whose
      cost it does not change keeps its entry (or its absence) and priority. */
  lemma RelaxEdgeFrontier(edges: seq<Edge>, s: Search, u: NodeHandle, p: nat, h: EdgeHandle)
    requires Fits(edges, s) && u < |s.nodes| && h < |edges|
    ensures var r := RelaxEdge(edges, s, u, p, h);
            && s.frontier.Keys <= r.frontier.Keys
            && forall v :: 0 <= v < |s.nodes| && r.nodes[v].costToStart == s.nodes[v].costToStart ==>
                 (v in r.frontier <==> v in s.frontier) && (v in s.frontier ==> r.frontier[v] == s.frontier[v])
  {
  }

  /** The frontier after the edge loop over the first `n` edges of `u`:
      no entry is dropped, and a node whose cost did not change keeps its
      entry (or its absence) and its priority. */
  lemma {:induction false} RelaxAllFrontier(edges: seq<Edge>, s: Search, u: NodeHandle, p: nat, n: nat)
    requires Fits(edges, s) && u < |s.nodes| && n <= |s.nodes[u].edges|
    ensures var r := RelaxAll(edges, s, u, p, s.nodes[u].edges[..n]);
            && s.frontier.Keys <= r.frontier.Keys
            && forall v :: 0 <= v < |s.nodes| && r.nodes[v].costToStart == s.nodes[v].costToStart ==>
                 (v in r.frontier <==> v in s.frontier) && (v in s.frontier ==> r.frontier[v] == s.frontier[v])
  {
    var hs := s.nodes[u].edges;
    if n > 0 {
      assert hs[..n][..n - 1] == hs[..n - 1];
      RelaxAllFrontier(edges, s, u, p, n - 1);
      RelaxAllNoRise(edges, s, u, p, n - 1);
      var r' := RelaxAll(edges, s, u, p, hs[..n - 1]);
      RelaxEdgeStep(edges, r', u, p, hs[n - 1]);
      RelaxEdgeFrontier(edges, r', u, p, hs[n - 1]);
      var r := RelaxAll(edges, s, u, p, hs[..n]);
      assert r == RelaxEdge(edges, r', u, p, hs[n - 1]);
      forall v | 0 <= v < |s.nodes| && r.nodes[v].costToStart == s.nodes[v].costToStart
        ensures (v in r.frontier <==> v in s.frontier) && (v in s.frontier ==> r.frontier[v] == s.frontier[v])
      {
        assert CostLe(r.nodes[v].costToStart, r'.nodes[v].costToStart);
        assert CostLe(r'.nodes[v].costToStart, s.nodes[v].costToStart);
        assert r'.nodes[v].costToStart == s.nodes[v].costToStart;
      }
    }
  }

  /** Visiting `u` drops no frontier entry, and a node whose cost stays keeps
      its entry (or its absence) and its priority. With `VisitLowers` this
      fixes the whole frontier after the visit. */
  lemma VisitFrontier(edges: seq<Edge>, s: Search, u: NodeHandle, p: nat)
    requires Fits(edges, s) && u < |s.nodes|
    ensures var r := Visit(edges, s, u, p);
            && s.frontier.Keys <= r.frontier.Keys
            && forall v :: 0 <= v < |s.nodes| && r.nodes[v].costToStart == s.nodes[v].costToStart ==>
                 (v in r.frontier <==> v in s.frontier) && (v in s.frontier ==> r.frontier[v] == s.frontier[v])
  {
    var hs := s.nodes[u].edges;
    if hs != [] {
      assert hs[..|hs|] == hs;
      RelaxAllFrontier(edges, s, u, p, |hs|);
    }
  }

  /** Visiting `u` writes no other field: ids and edge lists stay, costs never
      rise, a node whose cost stays keeps its predecessor, and settled nodes
      are not touched at all. */
  lemma VisitFrame(edges: seq<Edge>, s: Search, u: NodeHandle, p: nat)
    requires Fits(edges, s) && u < |s.nodes|
    ensures var r := Visit(edges, s, u, p);
            && |r.nodes| == |s.nodes|
            && (forall v :: 0 <= v < |s.nodes| ==>
                  && r.nodes[v].id == s.nodes[v].id && r.nodes[v].edges == s.nodes[v].edges
                  && CostLe(r.nodes[v].costToStart, s.nodes[v].costToStart)
                  && (r.nodes[v].costToStart == s.nodes[v].costToStart ==> r.nodes[v].prev == s.nodes[v].prev))
            && (forall v :: v in s.settled ==> r.nodes[v] == s.nodes[v])
  {
    VisitConsistent(edges, s, u, p);
  }

  // ---------------------------------------------------------------------
  // What a whole run guarantees

  /** Some settled node has an edge that points at `v`. */
  predicate TargetOfSettled(edges: seq<Edge>, s: Search, v: NodeHandle) {
    exists u, k :: u in s.settled && u < |s.nodes| && 0 <= k < |s.nodes[u].edges|
                   && s.nodes[u].edges[k] < |edges| && edges[s.nodes[u].edges[k]].target == v
  }

  /** A run only lowers costs, and never changes ids or edge lists. */
  lemma RunOnlyLowers(edges: seq<Edge>, nodes: seq<Node>, start: NodeHandle)
    requires WellFormed(nodes, edges) && start < |nodes|
    ensures var r := Run(edges, Start(nodes, start));
            && |r.nodes| == |nodes|
            && forall v :: 0 <= v < |nodes| ==>
                 && r.nodes[v].id == nodes[v].id && r.nodes[v].edges == nodes[v].edges
                 && CostLe(r.nodes[v].costToStart, nodes[v].costToStart)
  {
    RunConsistent(edges, Start(nodes, start));
  }

  /** After a run, a node whose cost changed has as predecessor a settled
      node with an edge to it; a node whose cost did not change kept its
      predecessor. */
  lemma RunPredecessors(edges: seq<Edge>, nodes: seq<Node>, start: NodeHandle)
    requires WellFormed(nodes, edges) && start < |nodes|
    ensures var r := Run(edges, Start(nodes, start));
            forall v :: 0 <= v < |nodes| ==>
              && (r.nodes[v].costToStart == nodes[v].costToStart ==> r.nodes[v].prev == nodes[v].prev)
              && (r.nodes[v].costToStart != nodes[v].costToStart ==> ReachedAlongEdge(edges, r, v))
  {
    RunConsistent(edges, Start(nodes, start));
  }

  /** A node that no settled node points at keeps its cost and predecessor
      (for a fresh node: the infinity sentinel and no predecessor). */
  lemma RunUnreached(edges: seq<Edge>, nodes: seq<Node>, start: NodeHandle)
    requires WellFormed(nodes, edges) && start < |nodes|
    ensures var r := Run(edges, Start(nodes, start));
            forall v :: 0 <= v < |nodes| && !TargetOfSettled(edges, r, v) ==> r.nodes[v] == nodes[v]
  {
    RunConsistent(edges, Start(nodes, start));
  }

  /** The returned set holds only nodes with at least one outgoing edge. */
  lemma RunSettledHaveEdges(edges: seq<Edge>, nodes: seq<Node>, start: NodeHandle)
    requires WellFormed(nodes, edges) && start < |nodes|
    ensures var r := Run(edges, Start(nodes, start));
            forall v :: v in r.settled ==> v < |nodes| && nodes[v].edges != []
  {
    RunConsistent(edges, Start(nodes, start));
  }

  // ---------------------------------------------------------------------
  // The routine itself

  /** One pass of the edge loop (src/main.rs:73-92) for edge `h` of the
      popped node `u` with priority `p`, in place on `g`. */
  method RelaxEdgeInPlace(g: Graph, u: NodeHandle, p: nat, h: EdgeHandle,
                          frontier0: map<NodeHandle, nat>, settled0: set<NodeHandle>)
    returns (frontier: map<NodeHandle, nat>, settled: set<NodeHandle>)
    requires g.Valid() && u < |g.nodes| && h < |g.edges| && Fits(g.edges, Search(g.nodes, frontier0, settled0))
    modifies g
    ensures g.edges == old(g.edges)
    ensures Search(g.nodes, frontier, settled) == RelaxEdge(g.edges, Search(old(g.nodes), frontier0, settled0), u, p, h)
  {
    frontier, settled := frontier0, settled0;
    var connected := g.edges[h];
    var pathToNode := p + connected.weight;
    if connected.target in settled {
      return;
    }
    if Exceeds(g.nodes[connected.target].costToStart, pathToNode) {
      g.SetCostToStart(connected.target, pathToNode);
      g.SetPrevNode(connected.target, u);
      frontier := frontier[connected.target := g.nodes[connected.target].costToStart.d];
    }
    settled := settled + {u};
  }

  /** The `continue` at src/main.rs:69 and the edge loop at src/main.rs:72-93
      for the popped node `u` with priority `p`, in place on `g`. */
  method VisitNode(g: Graph, u: NodeHandle, p: nat, frontier0: map<NodeHandle, nat>, settled0: set<NodeHandle>)
    returns (frontier: map<NodeHandle, nat>, settled: set<NodeHandle>)
    requires g.Valid() && u < |g.nodes| && Fits(g.edges, Search(g.nodes, frontier0, settled0))
    modifies g
    ensures g.edges == old(g.edges)
    ensures Search(g.nodes, frontier, settled) == Visit(g.edges, Search(old(g.nodes), frontier0, settled0), u, p)
  {
    frontier, settled := frontier0, settled0;
    ghost var s1 := Search(g.nodes, frontier, settled);
    if g.IsEmpty(u) {
      return;
    }
    var hs := g.nodes[u].edges;
    for i := 0 to |hs|
      invariant g.edges == old(g.edges) && g.Valid() && u < |g.nodes|
      invariant Search(g.nodes, frontier, settled) == RelaxAll(g.edges, s1, u, p, hs[..i])
    {
      assert hs[..i + 1][..i] == hs[..i];
      frontier, settled := RelaxEdgeInPlace(g, u, p, hs[i], frontier, settled);
    }
    assert hs[..|hs|] == hs;
  }

  /** `djiktstra(start_node, _)`: runs the frontier loop in place on `g`
      and returns the settled set. */
  method Dijkstra(g: Graph, start: NodeHandle) returns (settled: set<NodeHandle>)
    requires g.Valid() && start < |g.nodes|
    modifies g
    ensures g.Valid() && g.edges == old(g.edges)
    ensures var r := Run(old(g.edges), Start(old(g.nodes), start));
            g.nodes == r.nodes && settled == r.settled
  {
    ghost var s0 := Start(g.nodes, start);
    var frontier: map<NodeHandle, nat> := map[start := 0];
    settled := {};
    while frontier != map[]
      invariant g.edges == old(g.edges) && g.Valid()
      invariant Fits(g.edges, Search(g.nodes, frontier, settled))
      invariant Run(g.edges, Search(g.nodes, frontier, settled)) == Run(g.edges, s0)
      decreases InfCount(g.nodes), FinSum(g.nodes), |frontier.Keys|
    {
      ghost var cur := Search(g.nodes, frontier, settled);
      ghost var m := MinKey(frontier);
      var u: NodeHandle :| IsMinKey(frontier, u);
      MinKeyUnique(frontier, u, m);
      var p := frontier[u];
      frontier := frontier - {u};
      assert frontier.Keys == cur.frontier.Keys - {u};
      ghost var s1 := Search(g.nodes, frontier, settled);
      assert Run(g.edges, cur) == Run(g.edges, Visit(g.edges, s1, u, p));
      if g.nodes[u].edges != [] {
        RelaxAllProgress(g.edges, s1, u, p, g.nodes[u].edges);
      }
      frontier, settled := VisitNode(g, u, p, frontier, settled);
    }
  }
}
