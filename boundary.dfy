/** get_starting_nodes and get_sink_nodes: the nodes without predecessors, and without successors. */
module Boundary {
  import opened Seqs
  import opened Graphs

  /** The nodes of ns with no incoming edge, in the order of ns. */
  function StartsIn(G: Graph, ns: seq<string>): (r: seq<string>)
    requires Valid(G)
    ensures forall x :: x in r <==> x in ns && forall u :: (u, x) !in G.weight
    ensures Distinct(ns) ==> Distinct(r)
  {
    if ns == [] then []
    else
      var front, x := ns[..|ns| - 1], ns[|ns| - 1];
      assert ns == front + [x];
      DistinctConcat(front, [x]);
      NoPreds(G, x);
      var r := StartsIn(G, front) + (if Preds(G, x) == [] then [x] else []);
      DistinctConcat(StartsIn(G, front), if Preds(G, x) == [] then [x] else []);
      r
  }

  /** The nodes of ns with no outgoing edge, in the order of ns. */
  function SinksIn(G: Graph, ns: seq<string>): (r: seq<string>)
    requires Valid(G)
    ensures forall x :: x in r <==> x in ns && forall v :: (x, v) !in G.weight
    ensures Distinct(ns) ==> Distinct(r)
  {
    if ns == [] then []
    else
      var front, x := ns[..|ns| - 1], ns[|ns| - 1];
      assert ns == front + [x];
      DistinctConcat(front, [x]);
      NoSuccs(G, x);
      var r := SinksIn(G, front) + (if Succs(G, x) == [] then [x] else []);
      DistinctConcat(SinksIn(G, front), if Succs(G, x) == [] then [x] else []);
      r
  }

  /** The nodes StartsIn keeps stay in the order of ns. */
  lemma {:induction false} StartsInOrder(G: Graph, ns: seq<string>)
    requires Valid(G)
    ensures IsSubsequence(StartsIn(G, ns), ns)
  {
    if ns != [] {
      var front, x := ns[..|ns| - 1], ns[|ns| - 1];
      StartsInOrder(G, front);
      var r := StartsIn(G, ns);
      if Preds(G, x) == [] {
        assert r == StartsIn(G, front) + [x];
        assert r[..|r| - 1] == StartsIn(G, front);
      } else {
        assert r == StartsIn(G, front);
      }
    }
  }

  /** The nodes SinksIn keeps stay in the order of ns. */
  lemma {:induction false} SinksInOrder(G: Graph, ns: seq<string>)
    requires Valid(G)
    ensures IsSubsequence(SinksIn(G, ns), ns)
  {
    if ns != [] {
      var front, x := ns[..|ns| - 1], ns[|ns| - 1];
      SinksInOrder(G, front);
      var r := SinksIn(G, ns);
      if Succs(G, x) == [] {
        assert r == SinksIn(G, front) + [x];
        assert r[..|r| - 1] == SinksIn(G, front);
      } else {
        assert r == SinksIn(G, front);
      }
    }
  }

  /** The entry nodes of the graph: its nodes of in-degree zero, in node order, each once. */
  function Starting(G: Graph): (r: seq<string>)
    requires Valid(G)
    ensures forall x :: x in r <==> x in G.nodes && forall u :: (u, x) !in G.weight
    ensures Distinct(r)
    ensures IsSubsequence(r, G.nodes)
  {
    StartsInOrder(G, G.nodes);
    StartsIn(G, G.nodes)
  }

  /** The exit nodes of the graph: its nodes of out-degree zero, in node order, each once. */
  function Sinks(G: Graph): (r: seq<string>)
    requires Valid(G)
    ensures forall x :: x in r <==> x in G.nodes && forall v :: (x, v) !in G.weight
    ensures Distinct(r)
    ensures IsSubsequence(r, G.nodes)
  {
    SinksInOrder(G, G.nodes);
    SinksIn(G, G.nodes)
  }

  /** Reversing every edge swaps entry nodes and exit nodes. */
  function Reverse(G: Graph): (H: Graph)
    ensures H.nodes == G.nodes
    ensures forall e :: e in H.weight <==> (e.1, e.0) in G.weight
  {
    Graph(G.nodes, RevEdges(G.edges), map f | f in G.weight :: (f.1, f.0) := G.weight[f])
  }

  function RevEdges(es: seq<Edge>): (r: seq<Edge>)
    ensures |r| == |es|
    ensures forall i :: 0 <= i < |es| ==> r[i] == (es[i].1, es[i].0)
  {
    if es == [] then [] else [(es[0].1, es[0].0)] + RevEdges(es[1..])
  }

  lemma ReverseValid(G: Graph)
    requires Valid(G)
    ensures Valid(Reverse(G))
  {
    RevEdgesDistinct(G.edges);
    RevEdgesHas(G.edges);
  }

  lemma RevEdgesDistinct(es: seq<Edge>)
    requires Distinct(es)
    ensures Distinct(RevEdges(es))
  {
    var rs := RevEdges(es);
    DistinctIndex(es);
    forall i, j | 0 <= i < j < |rs| ensures rs[i] != rs[j] {
      assert es[i] != es[j];
    }
    DistinctIndex(rs);
  }

  lemma RevEdgesHas(es: seq<Edge>)
    ensures forall e :: e in RevEdges(es) <==> (e.1, e.0) in es
  {
    var rs := RevEdges(es);
    forall e: Edge | (e.1, e.0) in es ensures e in rs {
      var i :| 0 <= i < |es| && es[i] == (e.1, e.0);
      assert rs[i] == e;
    }
  }

  lemma NoPreds(G: Graph, x: string)
    requires Valid(G)
    ensures Preds(G, x) == [] <==> forall u :: (u, x) !in G.weight
  {
    if Preds(G, x) != [] {
      assert Preds(G, x)[0] in Preds(G, x);
    }
  }

  lemma NoSuccs(G: Graph, x: string)
    requires Valid(G)
    ensures Succs(G, x) == [] <==> forall v :: (x, v) !in G.weight
  {
    if Succs(G, x) != [] {
      assert Succs(G, x)[0] in Succs(G, x);
    }
  }

  /** get_sink_nodes is get_starting_nodes of the reversed graph. */
  lemma {:induction false} SinksAreReversedStarts(G: Graph, ns: seq<string>)
    requires Valid(G)
    ensures Valid(Reverse(G))
    ensures SinksIn(G, ns) == StartsIn(Reverse(G), ns)
  {
    ReverseValid(G);
    if ns != [] {
      var x := ns[|ns| - 1];
      SinksAreReversedStarts(G, ns[..|ns| - 1]);
      NoSuccs(G, x);
      NoPreds(Reverse(G), x);
    }
  }

  /** get_starting_nodes */
  method GetStartingNodes(g: DiGraph) returns (starts: seq<string>)
    requires Valid(g.View())
    ensures starts == Starting(g.View())
  {
    starts := [];
    for i := 0 to |g.nodes|
      invariant starts == StartsIn(g.View(), g.nodes[..i])
    {
      var node := g.nodes[i];
      assert g.nodes[..i + 1] == g.nodes[..i] + [node];
      if |Preds(g.View(), node)| == 0 {
        starts := starts + [node];
      }
    }
    assert g.nodes[..|g.nodes|] == g.nodes;
  }

  /** get_sink_nodes */
  method GetSinkNodes(g: DiGraph) returns (ends: seq<string>)
    requires Valid(g.View())
    ensures ends == Sinks(g.View())
  {
    ends := [];
    for i := 0 to |g.nodes|
      invariant ends == SinksIn(g.View(), g.nodes[..i])
    {
      var node := g.nodes[i];
      assert g.nodes[..i + 1] == g.nodes[..i] + [node];
      if |Succs(g.View(), node)| == 0 {
        ends := ends + [node];
      }
    }
    assert g.nodes[..|g.nodes|] == g.nodes;
  }
}
