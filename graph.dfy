/**
 * The weighted directed graph the assembler builds and simplifies.
 *
 * Nodes are kept in insertion order and edges in insertion order, because the
 * source scans "the first qualifying node" and lists predecessors and successors
 * in the order their edges were added. The weight map holds the `weight`
 * attribute of every edge.
 */
module Graphs {
  import opened Seqs

  type Edge = (string, string)

  datatype Graph = Graph(nodes: seq<string>, edges: seq<Edge>, weight: map<Edge, int>)

  const Empty := Graph([], [], map[])

  function NodeSet(G: Graph): set<string>
  {
    set x | x in G.nodes
  }

  /** Nodes and edges listed once each, the weight map keyed by exactly the edges, edges between nodes. */
  ghost predicate Valid(G: Graph)
  {
    && Distinct(G.nodes)
    && Distinct(G.edges)
    && (forall e :: e in G.weight <==> e in G.edges)
    && (forall e :: e in G.weight ==> e.0 in G.nodes && e.1 in G.nodes)
  }

  /** The sources of the edges into v, in edge order. */
  function PredsIn(es: seq<Edge>, v: string): (r: seq<string>)
    ensures forall u :: u in r <==> (u, v) in es
    ensures Distinct(es) ==> Distinct(r)
  {
    if es == [] then []
    else
      var head := if es[0].1 == v then [es[0].0] else [];
      assert Distinct(es) ==> es[0] !in es[1..];
      DistinctConcat(head, PredsIn(es[1..], v));
      head + PredsIn(es[1..], v)
  }

  /** The targets of the edges out of u, in edge order. */
  function SuccsIn(es: seq<Edge>, u: string): (r: seq<string>)
    ensures forall v :: v in r <==> (u, v) in es
    ensures Distinct(es) ==> Distinct(r)
  {
    if es == [] then []
    else
      var head := if es[0].0 == u then [es[0].1] else [];
      assert Distinct(es) ==> es[0] !in es[1..];
      DistinctConcat(head, SuccsIn(es[1..], u));
      head + SuccsIn(es[1..], u)
  }

  /** graph.predecessors(v) */
  function Preds(G: Graph, v: string): (r: seq<string>)
    requires Valid(G)
    ensures forall u :: u in r <==> (u, v) in G.weight
    ensures forall u :: u in r ==> u in G.nodes
    ensures Distinct(r)
  {
    PredsIn(G.edges, v)
  }

  /** graph.successors(u) */
  function Succs(G: Graph, u: string): (r: seq<string>)
    requires Valid(G)
    ensures forall v :: v in r <==> (u, v) in G.weight
    ensures forall v :: v in r ==> v in G.nodes
    ensures Distinct(r)
  {
    SuccsIn(G.edges, u)
  }

  function AddNode(ns: seq<string>, x: string): (r: seq<string>)
    ensures forall y :: y in r <==> y in ns || y == x
    ensures Distinct(ns) ==> Distinct(r)
  {
    if x in ns then ns
    else
      DistinctAppend(ns, x);
      ns + [x]
  }

  /** graph.add_edge(u, v, weight=w): new endpoints are appended, an existing edge keeps its place. */
  function WithEdge(G: Graph, u: string, v: string, w: int): (H: Graph)
    ensures forall x :: x in H.nodes <==> x in G.nodes || x == u || x == v
    ensures (u, v) in H.weight && H.weight[(u, v)] == w
    ensures forall e :: e != (u, v) ==> (e in H.weight <==> e in G.weight)
    ensures forall e :: e != (u, v) && e in G.weight ==> H.weight[e] == G.weight[e]
    ensures H.edges == if (u, v) in G.weight then G.edges else G.edges + [(u, v)]
    ensures Valid(G) ==> Valid(H)
  {
    var e := (u, v);
    if e in G.weight then
      Graph(AddNode(AddNode(G.nodes, u), v), G.edges, G.weight[e := w])
    else
      assert Valid(G) ==> e !in G.edges;
      DistinctAppend(G.edges, e);
      Graph(AddNode(AddNode(G.nodes, u), v),
            G.edges + [e],
            G.weight[e := w])
  }

  /** The nodes of ns outside S, in order. */
  function FilterOut(ns: seq<string>, S: set<string>): (r: seq<string>)
    ensures forall x :: x in r <==> x in ns && x !in S
    ensures Distinct(ns) ==> Distinct(r)
  {
    if ns == [] then []
    else
      var rest := FilterOut(ns[1..], S);
      if ns[0] in S then rest
      else
        assert Distinct(ns) ==> ns[0] !in ns[1..];
        [ns[0]] + rest
  }

  /** The edges of es with neither endpoint in S, in order. */
  function FilterEdgesOut(es: seq<Edge>, S: set<string>): (r: seq<Edge>)
    ensures forall e :: e in r <==> e in es && e.0 !in S && e.1 !in S
    ensures Distinct(es) ==> Distinct(r)
  {
    if es == [] then []
    else
      var rest := FilterEdgesOut(es[1..], S);
      if es[0].0 in S || es[0].1 in S then rest
      else
        assert Distinct(es) ==> es[0] !in es[1..];
        [es[0]] + rest
  }

  /** FilterOut keeps the surviving nodes in their order. */
  lemma {:induction false} FilterOutInOrder(ns: seq<string>, S: set<string>)
    ensures IsSubsequence(FilterOut(ns, S), ns)
  {
    if ns != [] {
      FilterOutInOrder(ns[1..], S);
      assert ns == [ns[0]] + ns[1..];
      if ns[0] in S {
        SubDrop(FilterOut(ns[1..], S), ns[1..], ns[0]);
      } else {
        SubKeep(FilterOut(ns[1..], S), ns[1..], ns[0]);
      }
    }
  }

  /** FilterEdgesOut keeps the surviving edges in their order. */
  lemma {:induction false} FilterEdgesOutInOrder(es: seq<Edge>, S: set<string>)
    ensures IsSubsequence(FilterEdgesOut(es, S), es)
  {
    if es != [] {
      FilterEdgesOutInOrder(es[1..], S);
      assert es == [es[0]] + es[1..];
      if es[0].0 in S || es[0].1 in S {
        SubDrop(FilterEdgesOut(es[1..], S), es[1..], es[0]);
      } else {
        SubKeep(FilterEdgesOut(es[1..], S), es[1..], es[0]);
      }
    }
  }

  /**
   * The graph with the nodes of S deleted together with their incident edges
   * (graph.remove_nodes_from, and graph.remove_node for one present node).
   * Every other node keeps its place and every edge between two surviving
   * nodes keeps its place and its weight.
   */
  function RemoveSet(G: Graph, S: set<string>): (H: Graph)
    ensures forall x :: x in H.nodes <==> x in G.nodes && x !in S
    ensures forall e :: e in H.weight <==> e in G.weight && e.0 !in S && e.1 !in S
    ensures forall e :: e in H.weight ==> H.weight[e] == G.weight[e]
    ensures NodeSet(H) == NodeSet(G) - S
    ensures IsSubsequence(H.nodes, G.nodes) && IsSubsequence(H.edges, G.edges)
    ensures Valid(G) ==> Valid(H)
  {
    FilterOutInOrder(G.nodes, S);
    FilterEdgesOutInOrder(G.edges, S);
    Graph(FilterOut(G.nodes, S),
          FilterEdgesOut(G.edges, S),
          map e | e in G.weight && e.0 !in S && e.1 !in S :: G.weight[e])
  }

  lemma {:induction false} FilterOutTwice(ns: seq<string>, A: set<string>, B: set<string>)
    ensures FilterOut(FilterOut(ns, A), B) == FilterOut(ns, A + B)
  {
    if ns != [] {
      FilterOutTwice(ns[1..], A, B);
    }
  }

  lemma {:induction false} FilterEdgesOutTwice(es: seq<Edge>, A: set<string>, B: set<string>)
    ensures FilterEdgesOut(FilterEdgesOut(es, A), B) == FilterEdgesOut(es, A + B)
  {
    if es != [] {
      FilterEdgesOutTwice(es[1..], A, B);
    }
  }

  /** Removing A and then B is removing A + B at once. */
  lemma RemoveSetTwice(G: Graph, A: set<string>, B: set<string>)
    ensures RemoveSet(RemoveSet(G, A), B) == RemoveSet(G, A + B)
  {
    FilterOutTwice(G.nodes, A, B);
    FilterEdgesOutTwice(G.edges, A, B);
  }

  lemma {:induction false} FilterOutSame(ns: seq<string>, A: set<string>, B: set<string>)
    requires forall x :: x in ns ==> (x in A <==> x in B)
    ensures FilterOut(ns, A) == FilterOut(ns, B)
  {
    if ns != [] {
      FilterOutSame(ns[1..], A, B);
    }
  }

  lemma {:induction false} FilterEdgesOutSame(es: seq<Edge>, A: set<string>, B: set<string>)
    requires forall e :: e in es ==> (e.0 in A <==> e.0 in B) && (e.1 in A <==> e.1 in B)
    ensures FilterEdgesOut(es, A) == FilterEdgesOut(es, B)
  {
    if es != [] {
      FilterEdgesOutSame(es[1..], A, B);
    }
  }

  /** Only the nodes of S that are in the graph matter to the removal. */
  lemma RemoveSetPresent(G: Graph, S: set<string>)
    requires Valid(G)
    ensures RemoveSet(G, S) == RemoveSet(G, S * NodeSet(G))
  {
    FilterOutSame(G.nodes, S, S * NodeSet(G));
    FilterEdgesOutSame(G.edges, S, S * NodeSet(G));
  }

  /**
   * H is the subgraph of G induced by H's nodes: what is left after deleting
   * the other nodes of G, with G's order and G's weights.
   */
  ghost predicate Induced(G: Graph, H: Graph)
  {
    H == RemoveSet(G, NodeSet(G) - NodeSet(H))
  }

  lemma InducedByRemoval(G: Graph, S: set<string>)
    requires Valid(G)
    ensures Induced(G, RemoveSet(G, S))
  {
    RemoveSetPresent(G, S);
    assert NodeSet(G) - NodeSet(RemoveSet(G, S)) == S * NodeSet(G);
  }

  lemma {:induction false} FilterOutNone(ns: seq<string>)
    ensures FilterOut(ns, {}) == ns
  {
    if ns != [] {
      FilterOutNone(ns[1..]);
    }
  }

  lemma {:induction false} FilterEdgesOutNone(es: seq<Edge>)
    ensures FilterEdgesOut(es, {}) == es
  {
    if es != [] {
      FilterEdgesOutNone(es[1..]);
    }
  }

  lemma InducedRefl(G: Graph)
    ensures Induced(G, G)
  {
    FilterOutNone(G.nodes);
    FilterEdgesOutNone(G.edges);
    assert NodeSet(G) - NodeSet(G) == {};
  }

  lemma InducedTrans(G: Graph, H: Graph, K: Graph)
    requires Valid(G) && Induced(G, H) && Induced(H, K)
    ensures Induced(G, K)
  {
    var A, B := NodeSet(G) - NodeSet(H), NodeSet(H) - NodeSet(K);
    RemoveSetTwice(G, A, B);
    InducedByRemoval(G, A + B);
  }

  /** The networkx DiGraph object that the source mutates in place. */
  class DiGraph {
    var nodes: seq<string>
    var edges: seq<Edge>
    var weight: map<Edge, int>

    function View(): Graph
      reads this
    {
      Graph(nodes, edges, weight)
    }

    constructor ()
      ensures View() == Empty
    {
      nodes, edges, weight := [], [], map[];
    }

    method AddEdge(u: string, v: string, w: int)
      modifies this
      ensures View() == WithEdge(old(View()), u, v, w)
    {
      var e := (u, v);
      nodes := AddNode(AddNode(nodes, u), v);
      if e !in weight {
        edges := edges + [e];
      }
      weight := weight[e := w];
    }

    /** graph.remove_node(x): fails, changing nothing, when x is not a node. */
    method RemoveNode(x: string) returns (ok: bool)
      modifies this
      ensures ok <==> x in old(nodes)
      ensures View() == if ok then RemoveSet(old(View()), {x}) else old(View())
    {
      ok := x in nodes;
      if ok {
        var H := RemoveSet(View(), {x});
        nodes, edges, weight := H.nodes, H.edges, H.weight;
      }
    }

    /** graph.remove_nodes_from(xs): absent nodes are ignored. */
    method RemoveNodesFrom(xs: seq<string>)
      modifies this
      ensures View() == RemoveSet(old(View()), Elems(xs))
    {
      var H := RemoveSet(View(), Elems(xs));
      nodes, edges, weight := H.nodes, H.edges, H.weight;
    }
  }
}
