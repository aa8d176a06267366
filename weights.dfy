/**
 * path_average_weight: the mean weight of the edges of the subgraph induced
 * by a path's nodes. The induced subgraph holds every edge of the graph whose
 * two endpoints lie on the path, so a chord between two path nodes counts too.
 */
module Weights {
  import opened Seqs
  import opened Outcomes
  import opened Graphs
  import opened Paths

  /** The edges of es with both endpoints on p, in order. */
  function InducedFrom(es: seq<Edge>, p: seq<string>): seq<Edge>
  {
    if es == [] then []
    else (if es[0].0 in p && es[0].1 in p then [es[0]] else []) + InducedFrom(es[1..], p)
  }

  lemma {:induction false} InducedFromSpec(es: seq<Edge>, p: seq<string>)
    ensures forall e :: e in InducedFrom(es, p) <==> e in es && e.0 in p && e.1 in p
  {
    if es != [] {
      InducedFromSpec(es[1..], p);
    }
  }

  /** The edges of graph.subgraph(p). */
  function InducedEdges(G: Graph, p: seq<string>): seq<Edge>
    requires Valid(G)
  {
    InducedFrom(G.edges, p)
  }

  /** The subgraph keeps exactly the graph's edges with both endpoints on the path. */
  lemma InducedEdgesSpec(G: Graph, p: seq<string>)
    requires Valid(G)
    ensures forall e :: e in InducedEdges(G, p) <==> e in G.weight && e.0 in p && e.1 in p
  {
    InducedFromSpec(G.edges, p);
  }

  function WeightSum(es: seq<Edge>, w: map<Edge, int>): int
    requires forall e :: e in es ==> e in w
  {
    if es == [] then 0 else w[es[0]] + WeightSum(es[1..], w)
  }

  /** statistics.mean of the induced edge weights; the mean of no value is a StatisticsError. */
  function AverageWeight(G: Graph, p: seq<string>): (r: Result<real>)
    requires Valid(G)
    ensures r.Err? ==> r.fault == StatisticsError
  {
    var es := InducedEdges(G, p);
    if es == [] then Err(StatisticsError)
    else
      InducedEdgesSpec(G, p);
      Ok(WeightSum(es, G.weight) as real / |es| as real)
  }

  /** The mean fails exactly when no edge of the graph joins two nodes of the path. */
  lemma AverageWeightSpec(G: Graph, p: seq<string>)
    requires Valid(G)
    ensures AverageWeight(G, p).Err? <==> forall e :: e in G.weight ==> !(e.0 in p && e.1 in p)
  {
    var es := InducedEdges(G, p);
    InducedEdgesSpec(G, p);
    if es != [] {
      assert es[0] in es;
    }
  }

  lemma {:induction false} WeightSumBounds(es: seq<Edge>, w: map<Edge, int>, lo: int, hi: int)
    requires forall e :: e in es ==> e in w && lo <= w[e] <= hi
    ensures lo * |es| <= WeightSum(es, w) <= hi * |es|
  {
    if es != [] {
      WeightSumBounds(es[1..], w, lo, hi);
      assert lo * |es| == lo * |es[1..]| + lo;
      assert hi * |es| == hi * |es[1..]| + hi;
    }
  }

  lemma MeanBounds(s: int, n: int, lo: int, hi: int)
    requires n > 0 && lo * n <= s <= hi * n
    ensures lo as real <= s as real / n as real <= hi as real
  {
    var m := s as real / n as real;
    assert m * n as real == s as real;
    assert (lo * n) as real == lo as real * n as real;
    assert (hi * n) as real == hi as real * n as real;
    assert (m - lo as real) * n as real >= 0.0;
    assert (hi as real - m) * n as real >= 0.0;
  }

  /** The average lies between the smallest and the largest weight of the induced subgraph. */
  lemma AverageBetween(G: Graph, p: seq<string>, lo: int, hi: int)
    requires Valid(G)
    requires forall e :: e in G.weight && e.0 in p && e.1 in p ==> lo <= G.weight[e] <= hi
    ensures AverageWeight(G, p).Ok? ==> lo as real <= AverageWeight(G, p).value <= hi as real
  {
    var es := InducedEdges(G, p);
    InducedEdgesSpec(G, p);
    if es != [] {
      WeightSumBounds(es, G.weight, lo, hi);
      MeanBounds(WeightSum(es, G.weight), |es|, lo, hi);
    }
  }

  /** A path of two or more nodes joined by edges always has an average. */
  lemma AverageDefined(G: Graph, p: seq<string>)
    requires Valid(G) && IsWalk(G, p) && |p| >= 2
    ensures AverageWeight(G, p).Ok?
  {
    AverageWeightSpec(G, p);
    assert (p[0], p[1]) in G.weight;
  }

  /** [path_average_weight(graph, p) for p in paths]; the first failure is raised. */
  function Averages(G: Graph, paths: seq<seq<string>>): (r: Result<seq<real>>)
    requires Valid(G)
    ensures r.Ok? ==> |r.value| == |paths|
    ensures r.Err? ==> r.fault == StatisticsError
  {
    if paths == [] then Ok([])
    else
      match AverageWeight(G, paths[0])
      case Err(f) => Err(f)
      case Ok(a) =>
        match Averages(G, paths[1..])
        case Err(f) => Err(f)
        case Ok(rest) => Ok([a] + rest)
  }

  /** The list succeeds exactly when every path has a mean, and then holds those means in order. */
  lemma {:induction false} AveragesSpec(G: Graph, paths: seq<seq<string>>)
    requires Valid(G)
    ensures Averages(G, paths).Ok? <==> forall i :: 0 <= i < |paths| ==> AverageWeight(G, paths[i]).Ok?
    ensures Averages(G, paths).Ok? ==>
              forall i :: 0 <= i < |paths| ==> Averages(G, paths).value[i] == AverageWeight(G, paths[i]).value
  {
    if paths != [] {
      AveragesSpec(G, paths[1..]);
      assert forall i :: 1 <= i < |paths| ==> paths[1..][i - 1] == paths[i];
    }
  }

  /** Every path of the list is a walk of two or more nodes: all averages exist. */
  lemma AveragesDefined(G: Graph, paths: seq<seq<string>>)
    requires Valid(G)
    requires forall p :: p in paths ==> IsWalk(G, p) && |p| >= 2
    ensures Averages(G, paths).Ok?
  {
    forall i | 0 <= i < |paths| ensures AverageWeight(G, paths[i]).Ok? {
      AverageDefined(G, paths[i]);
    }
    AveragesSpec(G, paths);
  }

  /** [len(p) for p in paths] */
  function Lengths(paths: seq<seq<string>>): (r: seq<int>)
    ensures |r| == |paths|
    ensures forall i :: 0 <= i < |paths| ==> r[i] == |paths[i]|
  {
    if paths == [] then [] else [|paths[0]|] + Lengths(paths[1..])
  }
}
