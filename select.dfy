/**
 * remove_paths and select_best_path: deleting the nodes of discarded paths,
 * and choosing the path to keep by average weight, then length, then a
 * random draw.
 */
module Select {
  import opened Seqs
  import opened Outcomes
  import opened Graphs

  /** path[:-1] */
  function DropLast(p: seq<string>): seq<string>
  {
    if p == [] then [] else p[..|p| - 1]
  }

  /** path[1:] */
  function DropFirst(p: seq<string>): seq<string>
  {
    if p == [] then [] else p[1..]
  }

  /** path[1:-1] */
  function Interior(p: seq<string>): seq<string>
  {
    if |p| <= 2 then [] else p[1..|p| - 1]
  }

  /** The nodes of one path that remove_paths deletes under the two flags. */
  function Doomed(p: seq<string>, deleteEntry: bool, deleteSink: bool): seq<string>
  {
    if deleteEntry && deleteSink then p
    else if deleteEntry then DropLast(p)
    else if deleteSink then DropFirst(p)
    else Interior(p)
  }

  /** The doomed nodes of every path, path after path. */
  function AllDoomed(paths: seq<seq<string>>, deleteEntry: bool, deleteSink: bool): seq<string>
  {
    if paths == [] then [] else Doomed(paths[0], deleteEntry, deleteSink) + AllDoomed(paths[1..], deleteEntry, deleteSink)
  }

  /** graph.remove_node(x) for each x of xs in turn; the first x no longer in the graph raises. */
  function RemoveEach(G: Graph, xs: seq<string>): (r: Result<Graph>)
    ensures r.Err? ==> r.fault.NodeMissing? && r.fault.missing in xs
    ensures Valid(G) && r.Ok? ==> Valid(r.value)
    decreases |xs|
  {
    if xs == [] then Ok(G)
    else if xs[0] !in G.nodes then Err(NodeMissing(xs[0]))
    else RemoveEach(RemoveSet(G, {xs[0]}), xs[1..])
  }

  lemma RemoveNothing(G: Graph)
    ensures RemoveSet(G, {}) == G
  {
    InducedRefl(G);
    assert NodeSet(G) - NodeSet(G) == {};
  }

  /**
   * Deleting xs one by one succeeds exactly when xs lists distinct nodes of
   * the graph, and then it deletes the set of them at once.
   */
  lemma {:induction false} RemoveEachExact(G: Graph, xs: seq<string>)
    ensures RemoveEach(G, xs).Ok? <==> Distinct(xs) && Elems(xs) <= NodeSet(G)
    ensures RemoveEach(G, xs).Ok? ==> RemoveEach(G, xs).value == RemoveSet(G, Elems(xs))
    decreases |xs|
  {
    if xs == [] {
      RemoveNothing(G);
      assert Elems(xs) == {};
    } else {
      var x, rest := xs[0], xs[1..];
      assert xs == [x] + rest;
      DistinctConcat([x], rest);
      ElemsConcat([x], rest);
      assert x in Elems(xs);
      if x in G.nodes {
        var H := RemoveSet(G, {x});
        RemoveEachExact(H, rest);
        RemoveSetTwice(G, {x}, Elems(rest));
        assert NodeSet(H) == NodeSet(G) - {x};
        assert Elems([x]) == {x};
      }
    }
  }

  /** The removal one path causes. */
  function RemoveOne(G: Graph, p: seq<string>, deleteEntry: bool, deleteSink: bool): (r: Result<Graph>)
    ensures r.Err? ==> r.fault.NodeMissing?
    ensures Valid(G) && r.Ok? ==> Valid(r.value)
  {
    if deleteEntry && deleteSink then Ok(RemoveSet(G, Elems(p)))
    else RemoveEach(G, Doomed(p, deleteEntry, deleteSink))
  }

  /** remove_paths on the value of the graph. */
  function RemovePathsF(G: Graph, paths: seq<seq<string>>, deleteEntry: bool, deleteSink: bool): (r: Result<Graph>)
    ensures r.Err? ==> r.fault.NodeMissing?
    ensures Valid(G) && r.Ok? ==> Valid(r.value)
    decreases |paths|
  {
    if paths == [] then Ok(G)
    else
      match RemoveOne(G, paths[0], deleteEntry, deleteSink)
      case Err(f) => Err(f)
      case Ok(H) => RemovePathsF(H, paths[1..], deleteEntry, deleteSink)
  }

  /**
   * remove_paths deletes exactly the doomed nodes of all the paths. With both
   * flags set it never fails (remove_nodes_from skips absent nodes); otherwise
   * it fails exactly when a doomed node is listed twice or is not in the graph.
   */
  lemma {:induction false} RemovePathsExact(G: Graph, paths: seq<seq<string>>, deleteEntry: bool, deleteSink: bool)
    ensures RemovePathsF(G, paths, deleteEntry, deleteSink).Ok? <==>
              (deleteEntry && deleteSink) ||
              (Distinct(AllDoomed(paths, deleteEntry, deleteSink)) && Elems(AllDoomed(paths, deleteEntry, deleteSink)) <= NodeSet(G))
    ensures RemovePathsF(G, paths, deleteEntry, deleteSink).Ok? ==>
              RemovePathsF(G, paths, deleteEntry, deleteSink).value == RemoveSet(G, Elems(AllDoomed(paths, deleteEntry, deleteSink)))
    decreases |paths|
  {
    if paths == [] {
      RemoveNothing(G);
      assert Elems(AllDoomed(paths, deleteEntry, deleteSink)) == {};
    } else if deleteEntry && deleteSink {
      var H := RemoveSet(G, Elems(paths[0]));
      RemovePathsExact(H, paths[1..], deleteEntry, deleteSink);
      RemoveAllStep(G, paths, deleteEntry, deleteSink);
    } else {
      var d := Doomed(paths[0], deleteEntry, deleteSink);
      RemoveEachExact(G, d);
      if RemoveEach(G, d).Ok? {
        RemovePathsExact(RemoveSet(G, Elems(d)), paths[1..], deleteEntry, deleteSink);
      }
      RemoveEachStep(G, paths, deleteEntry, deleteSink);
    }
  }

  /** One step of RemovePathsExact with both flags set. */
  lemma RemoveAllStep(G: Graph, paths: seq<seq<string>>, deleteEntry: bool, deleteSink: bool)
    requires paths != [] && deleteEntry && deleteSink
    requires RemovePathsF(RemoveSet(G, Elems(paths[0])), paths[1..], deleteEntry, deleteSink) ==
             Ok(RemoveSet(RemoveSet(G, Elems(paths[0])), Elems(AllDoomed(paths[1..], deleteEntry, deleteSink))))
    ensures RemovePathsF(G, paths, deleteEntry, deleteSink) == Ok(RemoveSet(G, Elems(AllDoomed(paths, deleteEntry, deleteSink))))
  {
    var rest := AllDoomed(paths[1..], deleteEntry, deleteSink);
    ElemsConcat(paths[0], rest);
    RemoveSetTwice(G, Elems(paths[0]), Elems(rest));
  }

  /** One step of RemovePathsExact when the nodes are deleted one by one. */
  lemma RemoveEachStep(G: Graph, paths: seq<seq<string>>, deleteEntry: bool, deleteSink: bool)
    requires paths != [] && !(deleteEntry && deleteSink)
    requires var d := Doomed(paths[0], deleteEntry, deleteSink);
             (RemoveEach(G, d).Ok? <==> Distinct(d) && Elems(d) <= NodeSet(G)) &&
             (RemoveEach(G, d).Ok? ==> RemoveEach(G, d).value == RemoveSet(G, Elems(d)))
    requires var d := Doomed(paths[0], deleteEntry, deleteSink);
             var rest := AllDoomed(paths[1..], deleteEntry, deleteSink);
             var H := RemoveSet(G, Elems(d));
             RemoveEach(G, d).Ok? ==>
               (RemovePathsF(H, paths[1..], deleteEntry, deleteSink).Ok? <==> Distinct(rest) && Elems(rest) <= NodeSet(H)) &&
               (RemovePathsF(H, paths[1..], deleteEntry, deleteSink).Ok? ==>
                  RemovePathsF(H, paths[1..], deleteEntry, deleteSink).value == RemoveSet(H, Elems(rest)))
    ensures RemovePathsF(G, paths, deleteEntry, deleteSink).Ok? <==>
              Distinct(AllDoomed(paths, deleteEntry, deleteSink)) && Elems(AllDoomed(paths, deleteEntry, deleteSink)) <= NodeSet(G)
    ensures RemovePathsF(G, paths, deleteEntry, deleteSink).Ok? ==>
              RemovePathsF(G, paths, deleteEntry, deleteSink).value == RemoveSet(G, Elems(AllDoomed(paths, deleteEntry, deleteSink)))
  {
    var d := Doomed(paths[0], deleteEntry, deleteSink);
    var rest := AllDoomed(paths[1..], deleteEntry, deleteSink);
    DistinctConcat(d, rest);
    ElemsConcat(d, rest);
    RemoveSetTwice(G, Elems(d), Elems(rest));
  }

  /** The outcome of a method on the graph object agrees with the outcome of its function. */
  ghost predicate Matches(fault: Option<Fault>, H: Graph, R: Result<Graph>)
  {
    if R.Ok? then fault.None? && H == R.value else fault == Some(R.fault)
  }

  /** remove_paths: mutates the graph; a raised error is returned as a fault. */
  method RemovePaths(g: DiGraph, paths: seq<seq<string>>, deleteEntry: bool, deleteSink: bool)
    returns (fault: Option<Fault>)
    modifies g
    ensures Matches(fault, g.View(), RemovePathsF(old(g.View()), paths, deleteEntry, deleteSink))
  {
    ghost var G0 := g.View();
    for i := 0 to |paths|
      invariant RemovePathsF(G0, paths, deleteEntry, deleteSink) == RemovePathsF(g.View(), paths[i..], deleteEntry, deleteSink)
    {
      var p := paths[i];
      assert paths[i..][1..] == paths[i + 1..];
      if deleteEntry && deleteSink {
        g.RemoveNodesFrom(p);
      } else {
        var doomed := Doomed(p, deleteEntry, deleteSink);
        ghost var H0 := g.View();
        for j := 0 to |doomed|
          invariant RemoveEach(H0, doomed) == RemoveEach(g.View(), doomed[j..])
        {
          assert doomed[j..][1..] == doomed[j + 1..];
          var ok := g.RemoveNode(doomed[j]);
          if !ok {
            return Some(NodeMissing(doomed[j]));
          }
        }
      }
    }
    fault := None;
  }

  function AsReals(xs: seq<int>): (r: seq<real>)
    ensures |r| == |xs|
    ensures forall i :: 0 <= i < |xs| ==> r[i] == xs[i] as real
  {
    if xs == [] then [] else [xs[0] as real] + AsReals(xs[1..])
  }

  /** Every value equals the first: the sample standard deviation is zero. */
  predicate AllSame<T(==)>(xs: seq<T>)
  {
    forall i :: 0 <= i < |xs| ==> xs[i] == xs[0]
  }

  /** xs.index(max(xs)) */
  function FirstMax(xs: seq<real>): (i: nat)
    requires |xs| >= 1
    ensures i < |xs|
    ensures forall j :: 0 <= j < |xs| ==> xs[j] <= xs[i]
    ensures forall j :: 0 <= j < i ==> xs[j] < xs[i]
  {
    if |xs| == 1 then 0
    else
      var j := FirstMax(xs[1..]);
      if xs[0] >= xs[1 + j] then 0 else 1 + j
  }

  /**
   * The index select_best_path keeps: the first maximal average when the
   * averages differ, else the first maximal length when the lengths differ,
   * else random.randint(0, n - 1), modelled by the draw modulo n.
   * statistics.stdev raises on fewer than two values.
   */
  function BestIndex(avgs: seq<real>, lengths: seq<int>, draw: nat): (r: Result<nat>)
    requires |avgs| == |lengths|
    ensures r.Err? <==> |avgs| < 2
    ensures r.Err? ==> r.fault == StatisticsError
    ensures r.Ok? ==> r.value < |avgs|
  {
    if |avgs| < 2 then Err(StatisticsError)
    else if !AllSame(avgs) then Ok(FirstMax(avgs))
    else if !AllSame(lengths) then Ok(FirstMax(AsReals(lengths)))
    else Ok(draw % |lengths|)
  }

  /**
   * The kept path has the largest average, the first such; on equal averages
   * the largest length, the first such; on equal lengths too, the drawn index.
   */
  lemma BestIndexChoice(avgs: seq<real>, lengths: seq<int>, draw: nat)
    requires |avgs| == |lengths| >= 2
    ensures var b := BestIndex(avgs, lengths, draw).value;
            !AllSame(avgs) ==>
              (forall j :: 0 <= j < |avgs| ==> avgs[j] <= avgs[b]) &&
              (forall j :: 0 <= j < b ==> avgs[j] < avgs[b])
    ensures var b := BestIndex(avgs, lengths, draw).value;
            AllSame(avgs) && !AllSame(lengths) ==>
              (forall j :: 0 <= j < |lengths| ==> lengths[j] <= lengths[b]) &&
              (forall j :: 0 <= j < b ==> lengths[j] < lengths[b])
    ensures AllSame(avgs) && AllSame(lengths) ==> BestIndex(avgs, lengths, draw).value == draw % |avgs|
  {
  }

  /** The draw random.randint consumes in the current round (0 once the draws run out). */
  function Draw(draws: seq<nat>): nat
  {
    if draws == [] then 0 else draws[0]
  }

  /** The draws left for later rounds. */
  function Later(draws: seq<nat>): seq<nat>
  {
    if draws == [] then [] else draws[1..]
  }

  /** [path for i, path in enumerate(paths) if i != b] */
  function Without(paths: seq<seq<string>>, b: nat): (r: seq<seq<string>>)
    requires b < |paths|
    ensures |r| == |paths| - 1
  {
    paths[..b] + paths[b + 1..]
  }

  /** Every path but the b-th, in their order. */
  lemma WithoutSpec(paths: seq<seq<string>>, b: nat)
    requires b < |paths|
    ensures forall i :: 0 <= i < b ==> Without(paths, b)[i] == paths[i]
    ensures forall i :: b <= i < |paths| - 1 ==> Without(paths, b)[i] == paths[i + 1]
    ensures forall p :: p in Without(paths, b) <==> exists i :: 0 <= i < |paths| && i != b && paths[i] == p
  {
    var r := Without(paths, b);
    forall p | p in r ensures exists i :: 0 <= i < |paths| && i != b && paths[i] == p {
      var k :| 0 <= k < |r| && r[k] == p;
      if k < b {
        assert paths[k] == p;
      } else {
        assert paths[k + 1] == p;
      }
    }
    forall i | 0 <= i < |paths| && i != b ensures paths[i] in r {
      if i < b {
        assert r[i] == paths[i];
      } else {
        assert r[i - 1] == paths[i];
      }
    }
  }

  lemma WithoutSubset(paths: seq<seq<string>>, b: nat)
    requires b < |paths|
    ensures forall p :: p in Without(paths, b) ==> p in paths
  {
  }

  /** select_best_path on the value of the graph. */
  function SelectBestF(G: Graph, paths: seq<seq<string>>, lengths: seq<int>, avgs: seq<real>,
                       deleteEntry: bool, deleteSink: bool, draw: nat): (r: Result<Graph>)
    requires |paths| == |lengths| == |avgs|
    ensures Valid(G) && r.Ok? ==> Valid(r.value)
  {
    match BestIndex(avgs, lengths, draw)
    case Err(f) => Err(f)
    case Ok(b) => RemovePathsF(G, Without(paths, b), deleteEntry, deleteSink)
  }

  /**
   * select_best_path succeeds exactly when there are two paths or more and the
   * removal of every path but the chosen one succeeds; it then deletes the
   * doomed nodes of the other paths and nothing else.
   */
  lemma SelectBestExact(G: Graph, paths: seq<seq<string>>, lengths: seq<int>, avgs: seq<real>,
                        deleteEntry: bool, deleteSink: bool, draw: nat)
    requires |paths| == |lengths| == |avgs|
    ensures SelectBestF(G, paths, lengths, avgs, deleteEntry, deleteSink, draw).Err? ==>
              |paths| < 2 || SelectBestF(G, paths, lengths, avgs, deleteEntry, deleteSink, draw).fault.NodeMissing?
    ensures SelectBestF(G, paths, lengths, avgs, deleteEntry, deleteSink, draw).Ok? <==>
              |paths| >= 2 &&
              var others := Without(paths, BestIndex(avgs, lengths, draw).value);
              (deleteEntry && deleteSink) ||
              (Distinct(AllDoomed(others, deleteEntry, deleteSink)) && Elems(AllDoomed(others, deleteEntry, deleteSink)) <= NodeSet(G))
    ensures SelectBestF(G, paths, lengths, avgs, deleteEntry, deleteSink, draw).Ok? ==>
              SelectBestF(G, paths, lengths, avgs, deleteEntry, deleteSink, draw).value ==
              RemoveSet(G, Elems(AllDoomed(Without(paths, BestIndex(avgs, lengths, draw).value), deleteEntry, deleteSink)))
  {
    if |paths| >= 2 {
      RemovePathsExact(G, Without(paths, BestIndex(avgs, lengths, draw).value), deleteEntry, deleteSink);
    }
  }

  /** select_best_path: mutates the graph; a raised error is returned as a fault. */
  method SelectBestPath(g: DiGraph, paths: seq<seq<string>>, lengths: seq<int>, avgs: seq<real>,
                        deleteEntry: bool, deleteSink: bool, draw: nat)
    returns (fault: Option<Fault>)
    requires |paths| == |lengths| == |avgs|
    modifies g
    ensures Matches(fault, g.View(), SelectBestF(old(g.View()), paths, lengths, avgs, deleteEntry, deleteSink, draw))
  {
    var best := BestIndex(avgs, lengths, draw);
    if best.Err? {
      return Some(best.fault);
    }
    fault := RemovePaths(g, Without(paths, best.value), deleteEntry, deleteSink);
  }
}
