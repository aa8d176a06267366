/**
 * simplify_bubbles and solve_bubble: find a node two of whose predecessors
 * share an ancestor, keep the best of the simple paths from that ancestor to
 * the node, delete the interior nodes of the others, and start again.
 */
module Bubbles {
  import opened Seqs
  import opened Outcomes
  import opened Graphs
  import opened Paths
  import opened Weights
  import opened Select

  /** ps[a] and ps[b] have a lowest common ancestor. */
  predicate Joins(G: Graph, ps: seq<string>, a: nat, b: nat)
    requires Valid(G) && (forall x :: x in ps ==> x in G.nodes) && a < |ps| && b < |ps|
  {
    LCA(G, ps[a], ps[b]).Some?
  }

  /** Some ps[b] with a < b < j has a lowest common ancestor with ps[a]: the inner loop of simplify_bubbles up to j. */
  predicate RowHas(G: Graph, ps: seq<string>, a: nat, j: nat)
    requires Valid(G) && (forall x :: x in ps ==> x in G.nodes) && a < |ps| && j <= |ps|
    decreases j
  {
    j > a + 1 && (RowHas(G, ps, a, j - 1) || Joins(G, ps, a, j - 1))
  }

  /** Some row a < rows of the scan finds a pair with a lowest common ancestor. */
  predicate CommonIn(G: Graph, ps: seq<string>, rows: nat)
    requires Valid(G) && (forall x :: x in ps ==> x in G.nodes) && rows <= |ps|
    decreases rows
  {
    rows > 0 && (CommonIn(G, ps, rows - 1) || RowHas(G, ps, rows - 1, |ps|))
  }

  lemma {:induction false} RowHasSpec(G: Graph, ps: seq<string>, a: nat, j: nat)
    requires Valid(G) && (forall x :: x in ps ==> x in G.nodes) && a < |ps| && j <= |ps|
    ensures RowHas(G, ps, a, j) <==> exists b :: a < b < j && Joins(G, ps, a, b)
    decreases j
  {
    if j > a + 1 {
      RowHasSpec(G, ps, a, j - 1);
    }
  }

  /** The scan of the first rows finds a bubble exactly when some pair ps[a], ps[b], a < b, a among the rows, has a lowest common ancestor (LCA is not None). */
  lemma CommonInSpec(G: Graph, ps: seq<string>, rows: nat)
    requires Valid(G) && (forall x :: x in ps ==> x in G.nodes) && rows <= |ps|
    ensures CommonIn(G, ps, rows) <==> exists a, b :: 0 <= a < rows && a < b < |ps| && Joins(G, ps, a, b)
  {
    CommonInSound(G, ps, rows);
    if exists a, b :: 0 <= a < rows && a < b < |ps| && Joins(G, ps, a, b) {
      var a, b :| 0 <= a < rows && a < b < |ps| && Joins(G, ps, a, b);
      PairInCommon(G, ps, rows, a, b);
    }
  }

  lemma {:induction false} CommonInSound(G: Graph, ps: seq<string>, rows: nat)
    requires Valid(G) && (forall x :: x in ps ==> x in G.nodes) && rows <= |ps|
    ensures CommonIn(G, ps, rows) ==> exists a, b :: 0 <= a < rows && a < b < |ps| && Joins(G, ps, a, b)
    decreases rows
  {
    if rows > 0 {
      if CommonIn(G, ps, rows - 1) {
        CommonInSound(G, ps, rows - 1);
        var a, b :| 0 <= a < rows - 1 && a < b < |ps| && Joins(G, ps, a, b);
        assert 0 <= a < rows && a < b < |ps|;
      } else if CommonIn(G, ps, rows) {
        LastRowPair(G, ps, rows - 1);
      }
    }
  }

  /** A pair with a lowest common ancestor in row a is found once the scan has passed row a. */
  lemma {:induction false} PairInCommon(G: Graph, ps: seq<string>, rows: nat, a: nat, b: nat)
    requires Valid(G) && (forall x :: x in ps ==> x in G.nodes) && rows <= |ps|
    requires a < rows && a < b < |ps| && Joins(G, ps, a, b)
    ensures CommonIn(G, ps, rows)
    decreases rows
  {
    if a == rows - 1 {
      PairInRow(G, ps, a, b);
    } else {
      PairInCommon(G, ps, rows - 1, a, b);
    }
  }

  lemma PairInRow(G: Graph, ps: seq<string>, a: nat, b: nat)
    requires Valid(G) && (forall x :: x in ps ==> x in G.nodes) && a < b < |ps|
    requires Joins(G, ps, a, b)
    ensures RowHas(G, ps, a, |ps|)
  {
    RowHasSpec(G, ps, a, |ps|);
  }

  lemma LastRowPair(G: Graph, ps: seq<string>, a: nat)
    requires Valid(G) && (forall x :: x in ps ==> x in G.nodes) && a < |ps|
    requires RowHas(G, ps, a, |ps|)
    ensures exists a', b :: 0 <= a' < a + 1 && a' < b < |ps| && Joins(G, ps, a', b)
  {
    RowHasSpec(G, ps, a, |ps|);
    var b :| a < b < |ps| && Joins(G, ps, a, b);
    assert 0 <= a < a + 1 && a < b < |ps|;
  }

  lemma {:induction false} RowHasMono(G: Graph, ps: seq<string>, a: nat, j: nat, k: nat)
    requires Valid(G) && (forall x :: x in ps ==> x in G.nodes) && a < |ps| && j <= k <= |ps|
    requires RowHas(G, ps, a, j)
    ensures RowHas(G, ps, a, k)
    decreases k
  {
    if k > j {
      RowHasMono(G, ps, a, j, k - 1);
    }
  }

  /** x has two predecessors or more, and two of them have a lowest common ancestor. */
  predicate Forks(G: Graph, x: string)
    requires Valid(G)
  {
    var ps := Preds(G, x);
    |ps| > 1 && CommonIn(G, ps, |ps|)
  }

  /** The first node of ns that Forks. */
  function FirstBubble(G: Graph, ns: seq<string>): Option<string>
    requires Valid(G)
  {
    if ns == [] then None
    else if Forks(G, ns[0]) then Some(ns[0])
    else FirstBubble(G, ns[1..])
  }

  lemma {:induction false} FirstBubbleSpec(G: Graph, ns: seq<string>)
    requires Valid(G)
    ensures FirstBubble(G, ns).Some? ==> FirstBubble(G, ns).value in ns && Forks(G, FirstBubble(G, ns).value)
    ensures FirstBubble(G, ns).None? ==> forall x :: x in ns ==> !Forks(G, x)
    ensures FirstBubble(G, ns).Some? ==>
              exists i :: 0 <= i < |ns| && ns[i] == FirstBubble(G, ns).value &&
                          forall j :: 0 <= j < i ==> !Forks(G, ns[j])
  {
    if ns != [] {
      if Forks(G, ns[0]) {
        assert ns[0] == FirstBubble(G, ns).value;
      } else {
        FirstBubbleSpec(G, ns[1..]);
        if FirstBubble(G, ns).Some? {
          var i :| 0 <= i < |ns[1..]| && ns[1..][i] == FirstBubble(G, ns[1..]).value &&
                   forall j :: 0 <= j < i ==> !Forks(G, ns[1..][j]);
          assert ns[i + 1] == FirstBubble(G, ns).value;
          assert forall j :: 0 <= j < i + 1 ==> !Forks(G, ns[j]) by {
            forall j | 1 <= j < i + 1 ensures !Forks(G, ns[j]) {
              assert ns[j] == ns[1..][j - 1];
            }
          }
        }
      }
    }
  }

  /**
   * The ancestor simplify_bubbles holds once it has scanned the predecessors
   * of x: its `break` leaves only the innermost loop, so the last pair it
   * tries is always the last two predecessors, whichever pair found the bubble.
   */
  function LastPairAncestor(G: Graph, x: string): Option<string>
    requires Valid(G) && |Preds(G, x)| > 1
  {
    var ps := Preds(G, x);
    LCA(G, ps[|ps| - 2], ps[|ps| - 1])
  }

  datatype Site = Site(ancestor: Option<string>, node: string)

  /** Where simplify_bubbles acts: the first forking node, and the ancestor it ends up with. */
  function BubbleSite(G: Graph): Option<Site>
    requires Valid(G)
  {
    match FirstBubble(G, G.nodes)
    case None => None
    case Some(x) =>
      FirstBubbleSpec(G, G.nodes);
      Some(Site(LastPairAncestor(G, x), x))
  }

  lemma BubbleSiteSpec(G: Graph)
    requires Valid(G)
    ensures BubbleSite(G).None? <==> forall x :: x in G.nodes ==> !Forks(G, x)
    ensures BubbleSite(G).Some? ==> BubbleSite(G).value.node in G.nodes && Forks(G, BubbleSite(G).value.node)
    ensures BubbleSite(G).Some? && BubbleSite(G).value.ancestor.Some? ==> BubbleSite(G).value.ancestor.value in G.nodes
    ensures BubbleSite(G).Some? ==>
              exists i :: 0 <= i < |G.nodes| && G.nodes[i] == BubbleSite(G).value.node &&
                          forall j :: 0 <= j < i ==> !Forks(G, G.nodes[j])
  {
    FirstBubbleSpec(G, G.nodes);
    if BubbleSite(G).Some? {
      BubbleSiteNodes(G);
    }
  }

  /** The node and the ancestor of a bubble site are nodes of the graph. */
  lemma BubbleSiteNodes(G: Graph)
    requires Valid(G)
    ensures BubbleSite(G).Some? ==> BubbleSite(G).value.node in G.nodes
    ensures BubbleSite(G).Some? && BubbleSite(G).value.ancestor.Some? ==> BubbleSite(G).value.ancestor.value in G.nodes
  {
    FirstBubbleSpec(G, G.nodes);
    match FirstBubble(G, G.nodes)
    case None =>
    case Some(x) => LastPairNode(G, x);
  }

  lemma LastPairNode(G: Graph, x: string)
    requires Valid(G) && |Preds(G, x)| > 1
    ensures LastPairAncestor(G, x).Some? ==> LastPairAncestor(G, x).value in G.nodes
  {
    var ps := Preds(G, x);
    LCAIsNode(G, ps[|ps| - 2], ps[|ps| - 1]);
  }

  /** solve_bubble on the value of the graph; the ancestor None makes all_simple_paths raise. */
  function SolveBubbleF(G: Graph, ancestor: Option<string>, node: string, draw: nat): (r: Result<Graph>)
    requires Valid(G) && node in G.nodes && (ancestor.Some? ==> ancestor.value in G.nodes)
    ensures r.Ok? ==> Valid(r.value)
  {
    if ancestor.None? then Err(NodeNotFound(None))
    else
      var paths := SimplePaths(G, ancestor.value, node);
      match Averages(G, paths)
      case Err(f) => Err(f)
      case Ok(avgs) => SelectBestF(G, paths, Lengths(paths), avgs, false, false, draw)
  }

  /** No interior node of a simple path from a to t is a or t. */
  lemma {:induction false} InteriorAvoidsEnds(G: Graph, paths: seq<seq<string>>, a: string, t: string)
    requires forall p :: p in paths ==> IsSimplePath(G, p, a, t)
    ensures a !in AllDoomed(paths, false, false) && t !in AllDoomed(paths, false, false)
  {
    if paths != [] {
      var p := paths[0];
      assert p in paths;
      InteriorAvoidsEnds(G, paths[1..], a, t);
      if |p| > 2 {
        DistinctIndex(p);
        forall i | 1 <= i < |p| - 1 ensures p[i] != a && p[i] != t {
          assert p[0] != p[i] && p[i] != p[|p| - 1];
        }
        assert forall x :: x in Interior(p) ==> exists i :: 1 <= i < |p| - 1 && x == p[i];
      }
    }
  }

  /**
   * solve_bubble deletes only interior nodes of the paths it discards: the
   * ancestor and the node survive, and the graph left is induced by the rest.
   */
  lemma SolveBubbleKeepsEnds(G: Graph, a: string, node: string, draw: nat)
    requires Valid(G) && a in G.nodes && node in G.nodes
    ensures SolveBubbleF(G, Some(a), node, draw).Ok? ==>
              a in SolveBubbleF(G, Some(a), node, draw).value.nodes &&
              node in SolveBubbleF(G, Some(a), node, draw).value.nodes &&
              Induced(G, SolveBubbleF(G, Some(a), node, draw).value)
  {
    var paths := SimplePaths(G, a, node);
    if SolveBubbleF(G, Some(a), node, draw).Ok? {
      var avgs := Averages(G, paths).value;
      SelectBestExact(G, paths, Lengths(paths), avgs, false, false, draw);
      var b := BestIndex(avgs, Lengths(paths), draw).value;
      var others := Without(paths, b);
      SimplePathsShape(G, a, node);
      WithoutSubset(paths, b);
      InteriorAvoidsEnds(G, others, a, node);
      InducedByRemoval(G, Elems(AllDoomed(others, false, false)));
    }
  }

  /** The result of solve_bubble is induced by its nodes, whatever the ancestor. */
  lemma SolveBubbleInduced(G: Graph, ancestor: Option<string>, node: string, draw: nat)
    requires Valid(G) && node in G.nodes && (ancestor.Some? ==> ancestor.value in G.nodes)
    ensures SolveBubbleF(G, ancestor, node, draw).Ok? ==> Induced(G, SolveBubbleF(G, ancestor, node, draw).value)
  {
    if ancestor.Some? {
      SolveBubbleKeepsEnds(G, ancestor.value, node, draw);
    }
  }

  /**
   * simplify_bubbles: one bubble per round, recursing on the simplified graph.
   * The source recurses without bound; fuel counts the rounds the model allows.
   */
  function BubblesF(G: Graph, fuel: nat, draws: seq<nat>): Result<Graph>
    requires Valid(G)
    decreases fuel
  {
    match BubbleSite(G)
    case None => Ok(G)
    case Some(site) =>
      BubbleSiteNodes(G);
      if fuel == 0 then Err(FuelExhausted)
      else
        match SolveBubbleF(G, site.ancestor, site.node, Draw(draws))
        case Err(f) => Err(f)
        case Ok(H) => BubblesF(H, fuel - 1, Later(draws))
  }

  /**
   * A successful simplify_bubbles leaves a subgraph induced by the surviving
   * nodes in which BubbleSite finds nothing: no node has two predecessors
   * whose lowest common ancestor exists.
   */
  lemma BubblesSound(G: Graph, fuel: nat, draws: seq<nat>)
    requires Valid(G)
    ensures BubblesF(G, fuel, draws).Ok? ==>
              Induced(G, BubblesF(G, fuel, draws).value) && BubbleSite(BubblesF(G, fuel, draws).value).None?
    decreases fuel
  {
    match BubbleSite(G)
    case None =>
      InducedRefl(G);
    case Some(site) =>
      BubbleSiteNodes(G);
      if fuel > 0 {
        var R := SolveBubbleF(G, site.ancestor, site.node, Draw(draws));
        if R.Ok? {
          SolveBubbleInduced(G, site.ancestor, site.node, Draw(draws));
          BubblesSound(R.value, fuel - 1, Later(draws));
          if BubblesF(R.value, fuel - 1, Later(draws)).Ok? {
            InducedTrans(G, R.value, BubblesF(R.value, fuel - 1, Later(draws)).value);
          }
        }
      }
  }

  lemma BubblesDone(G: Graph, fuel: nat, draws: seq<nat>)
    requires Valid(G) && BubbleSite(G).None?
    ensures BubblesF(G, fuel, draws) == Ok(G)
  {
  }

  lemma BubblesFail(G: Graph, site: Site, fuel: nat, draws: seq<nat>)
    requires Valid(G) && fuel > 0 && BubbleSite(G) == Some(site)
    requires site.node in G.nodes && (site.ancestor.Some? ==> site.ancestor.value in G.nodes)
    requires SolveBubbleF(G, site.ancestor, site.node, Draw(draws)).Err?
    ensures BubblesF(G, fuel, draws) == Err(SolveBubbleF(G, site.ancestor, site.node, Draw(draws)).fault)
  {
  }

  /** A graph where no node has two predecessors is left as it is. */
  lemma BubblesNoMerge(G: Graph, fuel: nat, draws: seq<nat>)
    requires Valid(G)
    requires forall x :: x in G.nodes ==> |Preds(G, x)| <= 1
    ensures BubblesF(G, fuel, draws) == Ok(G)
  {
    BubbleSiteSpec(G);
    BubblesDone(G, fuel, draws);
  }

  /** When the last two predecessors have lowest common ancestor None, the source calls all_simple_paths on None and fails. */
  lemma BubbleWithoutAncestorFails(G: Graph, fuel: nat, draws: seq<nat>)
    requires Valid(G) && fuel > 0
    requires BubbleSite(G).Some? && BubbleSite(G).value.ancestor.None?
    ensures BubblesF(G, fuel, draws) == Err(NodeNotFound(None))
  {
  }

  /**
   * When every path but the kept one has two nodes, the paths have no
   * interior, select_best_path deletes nothing and the graph is unchanged.
   */
  lemma SelectBestStalls(G: Graph, paths: seq<seq<string>>, lengths: seq<int>, avgs: seq<real>, draw: nat)
    requires |paths| == |lengths| == |avgs| >= 2
    requires forall i :: 0 <= i < |paths| && i != BestIndex(avgs, lengths, draw).value ==> |paths[i]| <= 2
    ensures SelectBestF(G, paths, lengths, avgs, false, false, draw) == Ok(G)
  {
    var others := Without(paths, BestIndex(avgs, lengths, draw).value);
    NoInterior(others);
    SelectBestExact(G, paths, lengths, avgs, false, false, draw);
    RemoveNothing(G);
    assert Elems(AllDoomed(others, false, false)) == {};
  }

  lemma {:induction false} NoInterior(paths: seq<seq<string>>)
    requires forall p :: p in paths ==> |p| <= 2
    ensures AllDoomed(paths, false, false) == []
  {
    if paths != [] {
      assert paths[0] in paths;
      NoInterior(paths[1..]);
    }
  }

  /** One round of simplify_bubbles that succeeds hands the rest of the work to the next round. */
  lemma BubblesStep(G: Graph, site: Site, rest: nat, draws: seq<nat>, H: Graph)
    requires Valid(G) && BubbleSite(G) == Some(site)
    requires site.node in G.nodes && (site.ancestor.Some? ==> site.ancestor.value in G.nodes)
    requires SolveBubbleF(G, site.ancestor, site.node, Draw(draws)) == Ok(H)
    ensures Valid(H)
    ensures BubblesF(G, rest + 1, draws) == BubblesF(H, rest, Later(draws))
  {
  }

  /** A bubble left when the rounds run out is reported as such. */
  lemma BubblesOutOfFuel(G: Graph, draws: seq<nat>)
    requires Valid(G) && BubbleSite(G).Some?
    ensures BubblesF(G, 0, draws) == Err(FuelExhausted)
  {
  }

  /**
   * A round that gives the graph back unchanged, whatever the draw, leaves the
   * same bubble site for the recursive call: the recursion never ends, and
   * every bound on the number of rounds runs out.
   */
  lemma {:induction false} BubblesStall(G: Graph, fuel: nat, draws: seq<nat>)
    requires Valid(G) && BubbleSite(G).Some?
    requires BubbleSite(G).value.node in G.nodes
    requires BubbleSite(G).value.ancestor.Some? ==> BubbleSite(G).value.ancestor.value in G.nodes
    requires forall d :: SolveBubbleF(G, BubbleSite(G).value.ancestor, BubbleSite(G).value.node, d) == Ok(G)
    ensures BubblesF(G, fuel, draws) == Err(FuelExhausted)
    decreases fuel
  {
    if fuel > 0 {
      var rest: nat := fuel - 1;
      BubblesStep(G, BubbleSite(G).value, rest, draws, G);
      BubblesStall(G, rest, Later(draws));
    }
  }

  /**
   * The inner loop of simplify_bubbles for row i: try ps[i] against each
   * later predecessor, stopping at the first pair with a lowest common ancestor.
   */
  method ScanRow(G: Graph, ps: seq<string>, i: nat, ancestor0: Option<string>) returns (found: bool, ancestor: Option<string>)
    requires Valid(G) && (forall x :: x in ps ==> x in G.nodes) && i < |ps|
    ensures found <==> RowHas(G, ps, i, |ps|)
    ensures i + 1 == |ps| ==> ancestor == ancestor0
    ensures i + 1 < |ps| ==> (found <==> ancestor.Some?)
    ensures i + 2 == |ps| ==> ancestor == LCA(G, ps[i], ps[i + 1])
  {
    found, ancestor := false, ancestor0;
    for j := i + 1 to |ps|
      invariant !found && !RowHas(G, ps, i, j)
      invariant j == i + 1 ==> ancestor == ancestor0
      invariant j > i + 1 ==> ancestor == LCA(G, ps[i], ps[j - 1]) && ancestor.None?
    {
      ancestor := LCA(G, ps[i], ps[j]);
      if ancestor != None {
        found := true;
        RowHasMono(G, ps, i, j + 1, |ps|);
        return;
      }
    }
  }

  /**
   * The two loops of simplify_bubbles over the pairs of predecessors of one
   * node; the `break` leaves only the inner loop.
   */
  method ScanPairs(G: Graph, ps: seq<string>) returns (bubble: bool, ancestor: Option<string>)
    requires Valid(G) && |ps| > 1 && forall x :: x in ps ==> x in G.nodes
    ensures bubble <==> CommonIn(G, ps, |ps|)
    ensures ancestor == LCA(G, ps[|ps| - 2], ps[|ps| - 1])
  {
    bubble, ancestor := false, None;
    for i := 0 to |ps|
      invariant bubble <==> CommonIn(G, ps, i)
      invariant i >= |ps| - 1 ==> ancestor == LCA(G, ps[|ps| - 2], ps[|ps| - 1])
    {
      var found;
      found, ancestor := ScanRow(G, ps, i, ancestor);
      bubble := bubble || found;
    }
  }

  /** The scan of simplify_bubbles over the nodes, stopping at the first bubble. */
  method FindBubble(g: DiGraph) returns (bubble: bool, ancestor: Option<string>, node: string)
    requires Valid(g.View())
    ensures bubble <==> BubbleSite(g.View()).Some?
    ensures bubble ==> BubbleSite(g.View()) == Some(Site(ancestor, node))
  {
    var G := g.View();
    bubble, ancestor, node := false, None, "";
    for k := 0 to |G.nodes|
      invariant !bubble
      invariant FirstBubble(G, G.nodes) == FirstBubble(G, G.nodes[k..])
    {
      node := G.nodes[k];
      var ps := Preds(G, node);
      if |ps| > 1 {
        bubble, ancestor := ScanPairs(G, ps);
      }
      assert G.nodes[k..][1..] == G.nodes[k + 1..];
      if bubble {
        return;
      }
    }
  }

  /** solve_bubble */
  method SolveBubble(g: DiGraph, ancestor: Option<string>, node: string, draw: nat) returns (fault: Option<Fault>)
    requires Valid(g.View()) && node in g.nodes && (ancestor.Some? ==> ancestor.value in g.nodes)
    modifies g
    ensures Matches(fault, g.View(), SolveBubbleF(old(g.View()), ancestor, node, draw))
  {
    if ancestor.None? {
      return Some(NodeNotFound(None));
    }
    var G := g.View();
    var paths := SimplePaths(G, ancestor.value, node);
    var avgs := Averages(G, paths);
    if avgs.Err? {
      return Some(avgs.fault);
    }
    fault := SelectBestPath(g, paths, Lengths(paths), avgs.value, false, false, draw);
  }

  /** simplify_bubbles */
  method SimplifyBubbles(g: DiGraph, fuel: nat, draws: seq<nat>) returns (fault: Option<Fault>)
    requires Valid(g.View())
    modifies g
    ensures Matches(fault, g.View(), BubblesF(old(g.View()), fuel, draws))
    decreases fuel, 1
  {
    var bubble, ancestor, node := FindBubble(g);
    if !bubble {
      return None;
    }
    if fuel == 0 {
      return Some(FuelExhausted);
    }
    fault := BubbleRound(g, Site(ancestor, node), fuel, draws);
  }

  /** One round of simplify_bubbles once a bubble is found: solve it, then start again. */
  method BubbleRound(g: DiGraph, site: Site, fuel: nat, draws: seq<nat>) returns (fault: Option<Fault>)
    requires Valid(g.View()) && fuel > 0 && BubbleSite(g.View()) == Some(site)
    modifies g
    ensures Matches(fault, g.View(), BubblesF(old(g.View()), fuel, draws))
    decreases fuel, 0
  {
    ghost var G := g.View();
    BubbleSiteNodes(G);
    fault := SolveBubble(g, site.ancestor, site.node, Draw(draws));
    if fault.Some? {
      BubblesFail(G, site, fuel, draws);
      return;
    }
    var rest: nat := fuel - 1;
    BubblesStep(G, site, rest, draws, g.View());
    fault := SimplifyBubbles(g, rest, Later(draws));
  }
}
