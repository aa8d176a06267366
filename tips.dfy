/**
 * solve_entry_tips and solve_out_tips: find the first node, outside the
 * given ends, where two branches meet; collect the simple paths between the
 * ends and that node; keep the best and delete the others together with
 * their tip end; start again with the new ends. The two functions of the
 * source differ only in direction, so one model serves both: `entry` picks
 * predecessors, paths from each end to the node and delete_entry_node;
 * otherwise successors, paths from the node to each end and delete_sink_node.
 */
module Tips {
  import opened Seqs
  import opened Outcomes
  import opened Graphs
  import opened Paths
  import opened Weights
  import opened Select
  import opened Boundary

  /** The branches the search counts at x: its predecessors for entry tips, its successors for out tips. */
  function Branches(G: Graph, x: string, entry: bool): seq<string>
    requires Valid(G)
  {
    if entry then Preds(G, x) else Succs(G, x)
  }

  /** get_starting_nodes for entry tips, get_sink_nodes for out tips. */
  function Ends(G: Graph, entry: bool): seq<string>
    requires Valid(G)
  {
    if entry then Starting(G) else Sinks(G)
  }

  /** The first node of ns, not among ends, with two branches or more: where the scan breaks. */
  function FirstTip(G: Graph, ns: seq<string>, ends: seq<string>, entry: bool): Option<string>
    requires Valid(G)
  {
    if ns == [] then None
    else if ns[0] !in ends && |Branches(G, ns[0], entry)| > 1 then Some(ns[0])
    else FirstTip(G, ns[1..], ends, entry)
  }

  lemma {:induction false} FirstTipSpec(G: Graph, ns: seq<string>, ends: seq<string>, entry: bool)
    requires Valid(G)
    ensures FirstTip(G, ns, ends, entry).Some? ==>
              var x := FirstTip(G, ns, ends, entry).value;
              x in ns && x !in ends && |Branches(G, x, entry)| > 1
    ensures FirstTip(G, ns, ends, entry).None? <==> forall x :: x in ns && x !in ends ==> |Branches(G, x, entry)| <= 1
    ensures FirstTip(G, ns, ends, entry).Some? ==>
              exists i :: 0 <= i < |ns| && ns[i] == FirstTip(G, ns, ends, entry).value &&
                          forall j :: 0 <= j < i ==> ns[j] in ends || |Branches(G, ns[j], entry)| <= 1
  {
    if ns != [] {
      FirstTipSpec(G, ns[1..], ends, entry);
      if ns[0] in ends || |Branches(G, ns[0], entry)| <= 1 {
        if FirstTip(G, ns, ends, entry).Some? {
          var i :| 0 <= i < |ns[1..]| && ns[1..][i] == FirstTip(G, ns[1..], ends, entry).value &&
                   forall j :: 0 <= j < i ==> ns[1..][j] in ends || |Branches(G, ns[1..][j], entry)| <= 1;
          assert ns[i + 1] == FirstTip(G, ns, ends, entry).value;
          forall j | 1 <= j < i + 1 ensures ns[j] in ends || |Branches(G, ns[j], entry)| <= 1 {
            assert ns[j] == ns[1..][j - 1];
          }
        }
      }
    }
  }

  /** A simple path between the end e and the node, in the direction of the search. */
  ghost predicate IsTipPath(G: Graph, p: seq<string>, e: string, node: string, entry: bool)
  {
    if entry then IsSimplePath(G, p, e, node) else IsSimplePath(G, p, node, e)
  }

  /** all_simple_paths between the end e and the node. */
  function TipPaths(G: Graph, e: string, node: string, entry: bool): seq<seq<string>>
    requires Valid(G) && e in G.nodes && node in G.nodes
  {
    if entry then SimplePaths(G, e, node) else SimplePaths(G, node, e)
  }

  /**
   * path_list, extended end after end; has_path raises NodeNotFound on an
   * end that is not in the graph, and the has_path guard itself adds
   * nothing, since there are no simple paths when it is false.
   */
  function Gather(G: Graph, node: string, ends: seq<string>, entry: bool): Result<seq<seq<string>>>
    requires Valid(G) && node in G.nodes
    decreases |ends|
  {
    if ends == [] then Ok([])
    else
      match Gather(G, node, ends[..|ends| - 1], entry)
      case Err(f) => Err(f)
      case Ok(acc) =>
        var e := ends[|ends| - 1];
        if e !in G.nodes then Err(NodeNotFound(Some(e)))
        else Ok(acc + TipPaths(G, e, node, entry))
  }

  /** The paths are gathered exactly when every end is a node; the failure names a missing end. */
  lemma {:induction false} GatherFails(G: Graph, node: string, ends: seq<string>, entry: bool)
    requires Valid(G) && node in G.nodes
    ensures Gather(G, node, ends, entry).Ok? <==> forall e :: e in ends ==> e in G.nodes
    ensures Gather(G, node, ends, entry).Err? ==>
              Gather(G, node, ends, entry).fault.NodeNotFound? &&
              Gather(G, node, ends, entry).fault.node.Some? &&
              Gather(G, node, ends, entry).fault.node.value in ends &&
              Gather(G, node, ends, entry).fault.node.value !in G.nodes
    decreases |ends|
  {
    if ends != [] {
      var init := ends[..|ends| - 1];
      GatherFails(G, node, init, entry);
      assert ends == init + [ends[|ends| - 1]];
    }
  }

  /** Once an end is missing, the later ends change nothing: the error stands. */
  lemma {:induction false} GatherErrSticks(G: Graph, node: string, ends: seq<string>, i: nat, entry: bool)
    requires Valid(G) && node in G.nodes && i <= |ends|
    requires Gather(G, node, ends[..i], entry).Err?
    ensures Gather(G, node, ends, entry) == Gather(G, node, ends[..i], entry)
    decreases |ends| - i
  {
    if i < |ends| {
      assert ends[..i + 1][..i] == ends[..i];
      GatherErrSticks(G, node, ends, i + 1, entry);
    } else {
      assert ends[..i] == ends;
    }
  }

  /**
   * Soundness and completeness of path_list: when no end is the node
   * itself, p is gathered exactly when it is a simple path between one of
   * the ends and the node.
   */
  lemma {:induction false} GatherExact(G: Graph, node: string, ends: seq<string>, entry: bool, p: seq<string>)
    requires Valid(G) && node in G.nodes && node !in ends
    requires Gather(G, node, ends, entry).Ok?
    ensures p in Gather(G, node, ends, entry).value <==> exists e :: e in ends && IsTipPath(G, p, e, node, entry)
    decreases |ends|
  {
    if ends != [] {
      var init := ends[..|ends| - 1];
      var e := ends[|ends| - 1];
      assert ends == init + [e];
      GatherExact(G, node, init, entry, p);
      var acc := Gather(G, node, init, entry).value;
      assert Gather(G, node, ends, entry).value == acc + TipPaths(G, e, node, entry);
      if entry {
        SimplePathsExact(G, e, node, p);
      } else {
        SimplePathsExact(G, node, e, p);
      }
      if p in acc {
        var e0 :| e0 in init && IsTipPath(G, p, e0, node, entry);
        assert e0 in ends;
      } else if p in TipPaths(G, e, node, entry) {
        assert e in ends && IsTipPath(G, p, e, node, entry);
      }
      if exists e' :: e' in ends && IsTipPath(G, p, e', node, entry) {
        var e' :| e' in ends && IsTipPath(G, p, e', node, entry);
        if e' == e {
          assert p in TipPaths(G, e, node, entry);
        } else {
          assert e' in init;
          assert p in acc;
        }
      }
    }
  }

  /** The node sits at the end of a gathered path opposite its tip end. */
  ghost predicate TipShaped(G: Graph, p: seq<string>, node: string, entry: bool)
  {
    |p| >= 2 && Distinct(p) && Elems(p) <= NodeSet(G) &&
    (if entry then p[|p| - 1] == node else p[0] == node)
  }

  lemma {:induction false} GatherShape(G: Graph, node: string, ends: seq<string>, entry: bool)
    requires Valid(G) && node in G.nodes
    requires Gather(G, node, ends, entry).Ok?
    ensures forall p :: p in Gather(G, node, ends, entry).value ==> TipShaped(G, p, node, entry)
    decreases |ends|
  {
    if ends != [] {
      var init := ends[..|ends| - 1];
      var e := ends[|ends| - 1];
      GatherShape(G, node, init, entry);
      if entry {
        SimplePathsShape(G, e, node);
      } else {
        SimplePathsShape(G, node, e);
      }
    }
  }

  /** The tip end of a path: the node deleted with it besides its interior. */
  function TipEnd(p: seq<string>, entry: bool): string
    requires |p| >= 1
  {
    if entry then p[0] else p[|p| - 1]
  }

  /** The node opposite the tip end is deleted by no path. */
  lemma {:induction false} NodeNotDoomed(G: Graph, paths: seq<seq<string>>, node: string, entry: bool)
    requires forall p :: p in paths ==> TipShaped(G, p, node, entry)
    ensures node !in AllDoomed(paths, entry, !entry)
  {
    if paths != [] {
      var p := paths[0];
      assert p in paths;
      NodeNotDoomed(G, paths[1..], node, entry);
      DistinctIndex(p);
      if entry {
        assert forall i :: 0 <= i < |p| - 1 ==> p[i] != p[|p| - 1];
      } else {
        assert forall i :: 1 <= i < |p| ==> p[0] != p[i];
      }
    }
  }

  /** The tip end of every path is among the deleted nodes. */
  lemma {:induction false} TipEndsDoomed(G: Graph, paths: seq<seq<string>>, node: string, entry: bool)
    requires forall p :: p in paths ==> TipShaped(G, p, node, entry)
    ensures forall p :: p in paths ==> |p| >= 1 && TipEnd(p, entry) in AllDoomed(paths, entry, !entry)
  {
    if paths != [] {
      var p := paths[0];
      assert p in paths;
      TipEndsDoomed(G, paths[1..], node, entry);
      assert TipEnd(p, entry) in Doomed(p, entry, !entry);
      forall q | q in paths ensures |q| >= 1 && TipEnd(q, entry) in AllDoomed(paths, entry, !entry) {
        if q != p {
          assert q in paths[1..];
        }
      }
    }
  }

  /** What one round of the search does: nothing more to do, or the graph select_best_path leaves. */
  datatype Round = Stop | Next(node: string, paths: seq<seq<string>>, avgs: seq<real>, H: Graph)

  /** One pass of the scan, path_list and, when there are two paths or more, select_best_path. */
  function TipRound(G: Graph, ends: seq<string>, entry: bool, draw: nat): Result<Round>
    requires Valid(G)
  {
    match FirstTip(G, G.nodes, ends, entry)
    case None => Ok(Stop)
    case Some(node) =>
      FirstTipSpec(G, G.nodes, ends, entry);
      match Gather(G, node, ends, entry)
      case Err(f) => Err(f)
      case Ok(paths) =>
        if |paths| <= 1 then Ok(Stop)
        else
          match Averages(G, paths)
          case Err(f) => Err(f)
          case Ok(avgs) =>
            match SelectBestF(G, paths, Lengths(paths), avgs, entry, !entry, draw)
            case Err(f) => Err(f)
            case Ok(H) => Ok(Next(node, paths, avgs, H))
  }

  /**
   * A round that goes on deletes the tip end of every path it discards,
   * keeps the node where the branches meet, and leaves the subgraph induced
   * by strictly fewer nodes: the recursion of the source terminates.
   */
  lemma TipRoundShrinks(G: Graph, ends: seq<string>, entry: bool, draw: nat)
    requires Valid(G) && TipRound(G, ends, entry, draw).Ok? && TipRound(G, ends, entry, draw).value.Next?
    ensures var R := TipRound(G, ends, entry, draw).value;
            Valid(R.H) && Induced(G, R.H) && R.node in G.nodes && R.node in R.H.nodes &&
            |NodeSet(R.H)| < |NodeSet(G)|
    ensures var R := TipRound(G, ends, entry, draw).value;
            |R.paths| == |R.avgs| >= 2 &&
            forall p :: p in Without(R.paths, BestIndex(R.avgs, Lengths(R.paths), draw).value) ==>
              |p| >= 1 && TipEnd(p, entry) in NodeSet(G) - NodeSet(R.H)
  {
    var R := TipRound(G, ends, entry, draw).value;
    FirstTipSpec(G, G.nodes, ends, entry);
    var node, paths, avgs := R.node, R.paths, R.avgs;
    RoundDeletes(G, node, ends, entry, paths, avgs, draw);
  }

  lemma RoundDeletes(G: Graph, node: string, ends: seq<string>, entry: bool,
                     paths: seq<seq<string>>, avgs: seq<real>, draw: nat)
    requires Valid(G) && node in G.nodes && Gather(G, node, ends, entry) == Ok(paths)
    requires |paths| == |avgs| >= 2
    requires SelectBestF(G, paths, Lengths(paths), avgs, entry, !entry, draw).Ok?
    ensures var H := SelectBestF(G, paths, Lengths(paths), avgs, entry, !entry, draw).value;
            Valid(H) && Induced(G, H) && node in H.nodes && |NodeSet(H)| < |NodeSet(G)|
    ensures var H := SelectBestF(G, paths, Lengths(paths), avgs, entry, !entry, draw).value;
            forall p :: p in Without(paths, BestIndex(avgs, Lengths(paths), draw).value) ==>
              |p| >= 1 && TipEnd(p, entry) in NodeSet(G) - NodeSet(H)
  {
    SelectBestExact(G, paths, Lengths(paths), avgs, entry, !entry, draw);
    var b := BestIndex(avgs, Lengths(paths), draw).value;
    GatherShape(G, node, ends, entry);
    WithoutSubset(paths, b);
    RemovalShrinks(G, Without(paths, b), node, entry);
  }

  /** Deleting the doomed nodes of tip-shaped paths: the graph shrinks, the node stays, the tip ends go. */
  lemma RemovalShrinks(G: Graph, others: seq<seq<string>>, node: string, entry: bool)
    requires Valid(G) && node in G.nodes && others != []
    requires forall p :: p in others ==> TipShaped(G, p, node, entry)
    requires Elems(AllDoomed(others, entry, !entry)) <= NodeSet(G)
    ensures var H := RemoveSet(G, Elems(AllDoomed(others, entry, !entry)));
            Induced(G, H) && node in H.nodes && |NodeSet(H)| < |NodeSet(G)|
    ensures var H := RemoveSet(G, Elems(AllDoomed(others, entry, !entry)));
            forall p :: p in others ==> |p| >= 1 && TipEnd(p, entry) in NodeSet(G) - NodeSet(H)
  {
    var D := Elems(AllDoomed(others, entry, !entry));
    var H := RemoveSet(G, D);
    NodeNotDoomed(G, others, node, entry);
    assert node !in D;
    TipEndsDoomed(G, others, node, entry);
    InducedByRemoval(G, D);
    assert others[0] in others;
    assert TipEnd(others[0], entry) in NodeSet(G) - NodeSet(H);
    SubsetSmaller(NodeSet(H), NodeSet(G));
  }

  /**
   * solve_entry_tips (entry) and solve_out_tips (not entry) on the value of
   * the graph: rounds go on, with the ends recomputed on the smaller graph,
   * until a round finds nothing to do or raises.
   */
  function TipsF(G: Graph, ends: seq<string>, entry: bool, draws: seq<nat>): Result<Graph>
    requires Valid(G)
    decreases |NodeSet(G)|
  {
    match TipRound(G, ends, entry, Draw(draws))
    case Err(f) => Err(f)
    case Ok(Stop) => Ok(G)
    case Ok(Next(_, _, _, H)) =>
      TipRoundShrinks(G, ends, entry, Draw(draws));
      TipsF(H, Ends(H, entry), entry, Later(draws))
  }

  /** A successful search leaves a valid subgraph induced by the surviving nodes. */
  lemma TipsSound(G: Graph, ends: seq<string>, entry: bool, draws: seq<nat>)
    requires Valid(G)
    ensures TipsF(G, ends, entry, draws).Ok? ==>
              Valid(TipsF(G, ends, entry, draws).value) && Induced(G, TipsF(G, ends, entry, draws).value)
    decreases |NodeSet(G)|
  {
    match TipRound(G, ends, entry, Draw(draws))
    case Err(_) =>
    case Ok(Stop) =>
      InducedRefl(G);
    case Ok(Next(_, _, _, H)) =>
      TipRoundShrinks(G, ends, entry, Draw(draws));
      TipsSound(H, Ends(H, entry), entry, Later(draws));
      if TipsF(H, Ends(H, entry), entry, Later(draws)).Ok? {
        InducedTrans(G, H, TipsF(H, Ends(H, entry), entry, Later(draws)).value);
      }
  }

  /** A graph where every node outside the ends has at most one branch is left as it is. */
  /**
   * Where the trimming stops: a successful run, started from the graph's own
   * ends, returns a graph on which a fresh round finds nothing to do, with
   * any draw: no node outside the ends branches, or the first one that does
   * is reached by at most one path.
   */
  lemma TipsDone(G: Graph, entry: bool, draws: seq<nat>, d: nat)
    requires Valid(G)
    ensures TipsF(G, Ends(G, entry), entry, draws).Ok? ==>
              Valid(TipsF(G, Ends(G, entry), entry, draws).value) &&
              TipRound(TipsF(G, Ends(G, entry), entry, draws).value,
                       Ends(TipsF(G, Ends(G, entry), entry, draws).value, entry), entry, d) == Ok(Stop)
    decreases |NodeSet(G)|
  {
    var ends, d0 := Ends(G, entry), Draw(draws);
    match TipRound(G, ends, entry, d0)
    case Err(_) =>
    case Ok(Stop) =>
      StopAnyDraw(G, ends, entry, d0, d);
    case Ok(Next(_, _, _, H)) =>
      TipRoundShrinks(G, ends, entry, d0);
      TipsDone(H, entry, Later(draws), d);
  }

  /** Whether a round stops does not depend on the draw: it is decided before any path is selected. */
  lemma StopAnyDraw(G: Graph, ends: seq<string>, entry: bool, d0: nat, d: nat)
    requires Valid(G) && TipRound(G, ends, entry, d0) == Ok(Stop)
    ensures TipRound(G, ends, entry, d) == Ok(Stop)
  {
  }

  lemma TipsStable(G: Graph, ends: seq<string>, entry: bool, draws: seq<nat>)
    requires Valid(G)
    requires forall x :: x in G.nodes && x !in ends ==> |Branches(G, x, entry)| <= 1
    ensures TipsF(G, ends, entry, draws) == Ok(G)
  {
    FirstTipSpec(G, G.nodes, ends, entry);
  }

  /** The scan of the nodes, stopping at the first node outside the ends with two branches or more. */
  method FindTip(G: Graph, ends: seq<string>, entry: bool) returns (found: bool, node: string)
    requires Valid(G)
    ensures found <==> FirstTip(G, G.nodes, ends, entry).Some?
    ensures found ==> FirstTip(G, G.nodes, ends, entry) == Some(node)
  {
    found, node := false, "";
    for k := 0 to |G.nodes|
      invariant FirstTip(G, G.nodes, ends, entry) == FirstTip(G, G.nodes[k..], ends, entry)
    {
      assert G.nodes[k..][1..] == G.nodes[k + 1..];
      var x := G.nodes[k];
      if x !in ends {
        var branches := if entry then Preds(G, x) else Succs(G, x);
        if |branches| > 1 {
          return true, x;
        }
      }
    }
  }

  /** The loop that builds path_list, end after end. */
  method GatherPaths(G: Graph, node: string, ends: seq<string>, entry: bool) returns (r: Result<seq<seq<string>>>)
    requires Valid(G) && node in G.nodes
    ensures r == Gather(G, node, ends, entry)
  {
    var acc: seq<seq<string>> := [];
    for i := 0 to |ends|
      invariant Gather(G, node, ends[..i], entry) == Ok(acc)
    {
      var e := ends[i];
      assert ends[..i + 1][..i] == ends[..i];
      if e !in G.nodes {
        GatherErrSticks(G, node, ends, i + 1, entry);
        return Err(NodeNotFound(Some(e)));
      }
      var found := if entry then SimplePaths(G, e, node) else SimplePaths(G, node, e);
      acc := acc + found;
    }
    assert ends[..|ends|] == ends;
    return Ok(acc);
  }

  /** One search: a bare method over the graph value, up to the call of select_best_path. */
  method SolveTips(g: DiGraph, ends: seq<string>, entry: bool, draws: seq<nat>) returns (fault: Option<Fault>)
    requires Valid(g.View())
    modifies g
    ensures Matches(fault, g.View(), TipsF(old(g.View()), ends, entry, draws))
    decreases |NodeSet(g.View())|, 1
  {
    var G := g.View();
    var found, node := FindTip(G, ends, entry);
    if !found {
      return None;
    }
    FirstTipSpec(G, G.nodes, ends, entry);
    var paths := GatherPaths(G, node, ends, entry);
    if paths.Err? {
      return Some(paths.fault);
    }
    if |paths.value| <= 1 {
      return None;
    }
    var avgs := Averages(G, paths.value);
    if avgs.Err? {
      return Some(avgs.fault);
    }
    fault := TipsRound(g, entry, paths.value, avgs.value, draws, ends, node);
  }

  /** A round that reaches select_best_path: its failure is the search's, its success hands over to the next search. */
  lemma TipsUnfold(G: Graph, ends: seq<string>, entry: bool, draws: seq<nat>,
                   node: string, paths: seq<seq<string>>, avgs: seq<real>)
    requires Valid(G) && FirstTip(G, G.nodes, ends, entry) == Some(node)
    requires node in G.nodes && Gather(G, node, ends, entry) == Ok(paths)
    requires |paths| >= 2 && Averages(G, paths) == Ok(avgs)
    ensures |avgs| == |paths|
    ensures var R := SelectBestF(G, paths, Lengths(paths), avgs, entry, !entry, Draw(draws));
            R.Err? ==> TipsF(G, ends, entry, draws) == Err(R.fault)
    ensures var R := SelectBestF(G, paths, Lengths(paths), avgs, entry, !entry, Draw(draws));
            R.Ok? ==> Valid(R.value) && |NodeSet(R.value)| < |NodeSet(G)| &&
                      TipsF(G, ends, entry, draws) == TipsF(R.value, Ends(R.value, entry), entry, Later(draws))
  {
    var R := SelectBestF(G, paths, Lengths(paths), avgs, entry, !entry, Draw(draws));
    if R.Ok? {
      TipRoundShrinks(G, ends, entry, Draw(draws));
    }
  }

  /** select_best_path on the gathered paths, then the search again on the new ends. */
  method TipsRound(g: DiGraph, entry: bool, paths: seq<seq<string>>, avgs: seq<real>, draws: seq<nat>,
                   ghost ends: seq<string>, ghost node: string)
    returns (fault: Option<Fault>)
    requires Valid(g.View()) && FirstTip(g.View(), g.View().nodes, ends, entry) == Some(node)
    requires node in g.nodes && Gather(g.View(), node, ends, entry) == Ok(paths)
    requires |paths| >= 2 && Averages(g.View(), paths) == Ok(avgs)
    modifies g
    ensures Matches(fault, g.View(), TipsF(old(g.View()), ends, entry, draws))
    decreases |NodeSet(g.View())|, 0
  {
    ghost var G := g.View();
    TipsUnfold(G, ends, entry, draws, node, paths, avgs);
    fault := SelectBestPath(g, paths, Lengths(paths), avgs, entry, !entry, Draw(draws));
    if fault.Some? {
      return;
    }
    fault := TipsAgain(g, entry, Later(draws));
  }

  /** The recursive call, on the ends of the graph as it now is. */
  method TipsAgain(g: DiGraph, entry: bool, draws: seq<nat>) returns (fault: Option<Fault>)
    requires Valid(g.View())
    modifies g
    ensures Matches(fault, g.View(), TipsF(old(g.View()), Ends(old(g.View()), entry), entry, draws))
    decreases |NodeSet(g.View())|, 2
  {
    var next;
    if entry {
      next := GetStartingNodes(g);
    } else {
      next := GetSinkNodes(g);
    }
    fault := SolveTips(g, next, entry, draws);
  }

  /** solve_entry_tips */
  method SolveEntryTips(g: DiGraph, starts: seq<string>, draws: seq<nat>) returns (fault: Option<Fault>)
    requires Valid(g.View())
    modifies g
    ensures Matches(fault, g.View(), TipsF(old(g.View()), starts, true, draws))
  {
    fault := SolveTips(g, starts, true, draws);
  }

  /** solve_out_tips */
  method SolveOutTips(g: DiGraph, ends: seq<string>, draws: seq<nat>) returns (fault: Option<Fault>)
    requires Valid(g.View())
    modifies g
    ensures Matches(fault, g.View(), TipsF(old(g.View()), ends, false, draws))
  {
    fault := SolveTips(g, ends, false, draws);
  }
}
