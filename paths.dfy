/**
 * The graph queries the source takes from networkx: all_simple_paths (a
 * depth-first enumeration, specified by IsSimplePath) and
 * lowest_common_ancestor (ancestor sets and their lowest common members).
 */
module Paths {
  import opened Seqs
  import opened Outcomes
  import opened Graphs

  /** Consecutive nodes are joined by an edge. */
  ghost predicate IsWalk(G: Graph, p: seq<string>)
  {
    |p| >= 1 && forall i :: 0 <= i < |p| - 1 ==> (p[i], p[i + 1]) in G.weight
  }

  /** A walk from s to t that visits no node twice. */
  ghost predicate IsSimplePath(G: Graph, p: seq<string>, s: string, t: string)
  {
    IsWalk(G, p) && Distinct(p) && p[0] == s && p[|p| - 1] == t
  }

  /** A non-empty sequence of distinct nodes of G: the state of the search. */
  ghost predicate Partial(G: Graph, path: seq<string>)
  {
    |path| >= 1 && Distinct(path) && Elems(path) <= NodeSet(G)
  }

  lemma ExtendShrinks(G: Graph, path: seq<string>, c: string)
    requires Partial(G, path) && c in G.nodes && c !in path
    ensures Partial(G, path + [c])
    ensures |NodeSet(G) - Elems(path + [c])| < |NodeSet(G) - Elems(path)|
  {
    DistinctConcat(path, [c]);
    assert Elems(path + [c]) == Elems(path) + {c};
    assert c in NodeSet(G) - Elems(path);
    assert NodeSet(G) - Elems(path + [c]) < NodeSet(G) - Elems(path);
  }

  /** The simple paths to t that extend path, successors taken in edge order. */
  function Dfs(G: Graph, path: seq<string>, t: string): seq<seq<string>>
    requires Valid(G) && Partial(G, path)
    decreases |NodeSet(G) - Elems(path)|, 1
  {
    var last := path[|path| - 1];
    if last == t then [path] else DfsEach(G, path, t, Succs(G, last))
  }

  /** The simple paths to t that extend path by one of cs, in the order of cs. */
  function DfsEach(G: Graph, path: seq<string>, t: string, cs: seq<string>): seq<seq<string>>
    requires Valid(G) && Partial(G, path)
    requires forall c :: c in cs ==> c in G.nodes
    decreases |NodeSet(G) - Elems(path)|, 0, |cs|
  {
    if cs == [] then []
    else
      var rest := DfsEach(G, path, t, cs[1..]);
      if cs[0] in path then rest
      else
        ExtendShrinks(G, path, cs[0]);
        Dfs(G, path + [cs[0]], t) + rest
  }

  /** all_simple_paths(graph, s, t); a source equal to its target yields no path. */
  function SimplePaths(G: Graph, s: string, t: string): seq<seq<string>>
    requires Valid(G) && s in G.nodes && t in G.nodes
  {
    if s == t then []
    else
      PartialStart(G, s);
      Dfs(G, [s], t)
  }

  /** The search starts from the one-node path [s]. */
  lemma PartialStart(G: Graph, s: string)
    requires s in G.nodes
    ensures Partial(G, [s])
  {
    assert [s][1..] == [];
  }

  /** r continues path to t through distinct nodes of G, and is a walk when path is. */
  ghost predicate Extends(G: Graph, path: seq<string>, t: string, r: seq<string>)
  {
    && 1 <= |path| <= |r|
    && r[..|path|] == path
    && Distinct(r)
    && Elems(r) <= NodeSet(G)
    && r[|r| - 1] == t
    && (IsWalk(G, path) ==> IsWalk(G, r))
  }

  lemma DfsSound(G: Graph, path: seq<string>, t: string)
    requires Valid(G) && Partial(G, path)
    ensures forall r :: r in Dfs(G, path, t) ==> Extends(G, path, t, r)
    decreases |NodeSet(G) - Elems(path)|, 1
  {
    var last := path[|path| - 1];
    if last != t {
      DfsEachSound(G, path, t, Succs(G, last));
    }
  }

  /** A continuation of path + [c] continues path, when c follows path's last node. */
  lemma ExtendsBack(G: Graph, path: seq<string>, c: string, t: string, r: seq<string>)
    requires |path| >= 1 && (path[|path| - 1], c) in G.weight
    requires Extends(G, path + [c], t, r)
    ensures Extends(G, path, t, r)
  {
    var q := path + [c];
    assert r[..|path|] == r[..|q|][..|path|] == path;
    if IsWalk(G, path) {
      assert IsWalk(G, q);
    }
  }

  lemma DfsEachSound(G: Graph, path: seq<string>, t: string, cs: seq<string>)
    requires Valid(G) && Partial(G, path)
    requires forall c :: c in cs ==> c in G.nodes && (path[|path| - 1], c) in G.weight
    ensures forall r :: r in DfsEach(G, path, t, cs) ==> Extends(G, path, t, r)
    decreases |NodeSet(G) - Elems(path)|, 0, |cs|
  {
    if cs != [] {
      DfsEachSound(G, path, t, cs[1..]);
      var c := cs[0];
      if c !in path {
        ExtendShrinks(G, path, c);
        var q := path + [c];
        DfsSound(G, q, t);
        forall r | r in Dfs(G, q, t) ensures Extends(G, path, t, r) {
          ExtendsBack(G, path, c, t, r);
        }
      }
    }
  }

  lemma {:induction false} DfsEachHas(G: Graph, path: seq<string>, t: string, cs: seq<string>, c: string, r: seq<string>)
    requires Valid(G) && Partial(G, path)
    requires forall x :: x in cs ==> x in G.nodes
    requires c in cs && c !in path && c in G.nodes
    requires Partial(G, path + [c]) && r in Dfs(G, path + [c], t)
    ensures r in DfsEach(G, path, t, cs)
    decreases |cs|
  {
    if cs[0] != c {
      DfsEachHas(G, path, t, cs[1..], c, r);
    }
  }

  lemma {:induction false} DfsComplete(G: Graph, path: seq<string>, t: string, p: seq<string>)
    requires Valid(G) && Partial(G, path)
    requires IsWalk(G, p) && Distinct(p) && p[|p| - 1] == t
    requires |path| <= |p| && p[..|path|] == path
    ensures p in Dfs(G, path, t)
    decreases |p| - |path|
  {
    var last := path[|path| - 1];
    assert last == p[|path| - 1];
    if last == t {
      LastOnlyAtEnd(p, |path| - 1);
      assert p == p[..|path|];
    } else {
      var c := NextStep(G, path, t, p);
      ExtendShrinks(G, path, c);
      DfsComplete(G, path + [c], t, p);
      DfsEachHas(G, path, t, Succs(G, last), c, p);
    }
  }

  /** The node p takes after path: a fresh successor of path's last node. */
  lemma NextStep(G: Graph, path: seq<string>, t: string, p: seq<string>) returns (c: string)
    requires Valid(G) && Partial(G, path)
    requires IsWalk(G, p) && Distinct(p) && p[|p| - 1] == t
    requires |path| <= |p| && p[..|path|] == path && path[|path| - 1] != t
    ensures |path| < |p| && c == p[|path|]
    ensures c in Succs(G, path[|path| - 1]) && c in G.nodes && c !in path
    ensures p[..|path| + 1] == path + [c]
  {
    assert path[|path| - 1] == p[|path| - 1];
    c := p[|path|];
    assert (p[|path| - 1], c) in G.weight;
    assert p[..|path| + 1] == p[..|path|] + [c];
    NextIsFresh(path, p);
  }

  lemma LastOnlyAtEnd(p: seq<string>, i: nat)
    requires Distinct(p) && i < |p| && p[i] == p[|p| - 1]
    ensures i == |p| - 1
  {
    DistinctIndex(p);
  }

  lemma NextIsFresh(path: seq<string>, p: seq<string>)
    requires Distinct(p) && |path| < |p| && p[..|path|] == path
    ensures p[|path|] !in path
  {
    DistinctIndex(p);
    forall i | 0 <= i < |path| ensures path[i] != p[|path|] {
      assert path[i] == p[i];
    }
  }

  /** The enumeration yields exactly the simple paths from s to t. */
  lemma SimplePathsExact(G: Graph, s: string, t: string, p: seq<string>)
    requires Valid(G) && s in G.nodes && t in G.nodes && s != t
    ensures p in SimplePaths(G, s, t) <==> IsSimplePath(G, p, s, t)
  {
    PartialStart(G, s);
    if p in SimplePaths(G, s, t) {
      DfsSound(G, [s], t);
      assert p[..1] == [s];
    }
    if IsSimplePath(G, p, s, t) {
      assert p[..1] == [s];
      DfsComplete(G, [s], t, p);
    }
  }

  /** Every enumerated path is a simple path of at least two nodes of G. */
  lemma SimplePathsShape(G: Graph, s: string, t: string)
    requires Valid(G) && s in G.nodes && t in G.nodes
    ensures forall p :: p in SimplePaths(G, s, t) ==>
              IsSimplePath(G, p, s, t) && |p| >= 2 && Elems(p) <= NodeSet(G)
  {
    if s != t {
      PartialStart(G, s);
      DfsSound(G, [s], t);
      forall p | p in SimplePaths(G, s, t) ensures IsSimplePath(G, p, s, t) && |p| >= 2 {
        assert p[..1] == [s];
        assert p[0] == s;
      }
    }
  }

  /**
   * The search yields every path once: the continuations through different
   * successors differ at the position after path.
   */
  lemma DfsDistinct(G: Graph, path: seq<string>, t: string)
    requires Valid(G) && Partial(G, path)
    ensures Distinct(Dfs(G, path, t))
    decreases |NodeSet(G) - Elems(path)|, 1
  {
    var last := path[|path| - 1];
    if last == t {
      assert [path][1..] == [];
    } else {
      DfsEachDistinct(G, path, t, Succs(G, last));
    }
  }

  lemma DfsEachDistinct(G: Graph, path: seq<string>, t: string, cs: seq<string>)
    requires Valid(G) && Partial(G, path) && Distinct(cs)
    requires forall c :: c in cs ==> c in G.nodes
    ensures Distinct(DfsEach(G, path, t, cs))
    ensures forall r :: r in DfsEach(G, path, t, cs) ==> |path| < |r| && r[|path|] in cs
    decreases |NodeSet(G) - Elems(path)|, 0, |cs|
  {
    if cs != [] {
      var c := cs[0];
      var rest := DfsEach(G, path, t, cs[1..]);
      DfsEachDistinct(G, path, t, cs[1..]);
      if c !in path {
        ExtendShrinks(G, path, c);
        var q := path + [c];
        var here := Dfs(G, q, t);
        DfsDistinct(G, q, t);
        DfsSound(G, q, t);
        forall r | r in here ensures |path| < |r| && r[|path|] == c {
          assert r[..|q|][|path|] == c;
        }
        assert Elems(here) !! Elems(rest);
        DistinctConcat(here, rest);
      }
    }
  }

  /** all_simple_paths yields no path twice. */
  lemma SimplePathsDistinct(G: Graph, s: string, t: string)
    requires Valid(G) && s in G.nodes && t in G.nodes
    ensures Distinct(SimplePaths(G, s, t))
  {
    if s != t {
      PartialStart(G, s);
      DfsDistinct(G, [s], t);
    }
  }

  /** The nodes with an edge into S. */
  function PredsOfSet(G: Graph, S: set<string>): set<string>
  {
    set u | u in G.nodes && exists w :: w in S && (u, w) in G.weight
  }

  ghost predicate ClosedUnderPreds(G: Graph, T: set<string>)
  {
    forall u, w :: w in T && (u, w) in G.weight ==> u in T
  }

  lemma PredsOfSetFacts(G: Graph, S: set<string>)
    requires Valid(G)
    ensures PredsOfSet(G, S) <= NodeSet(G)
    ensures forall u, w :: w in S && (u, w) in G.weight ==> u in PredsOfSet(G, S)
  {
    forall u, w | w in S && (u, w) in G.weight ensures u in PredsOfSet(G, S) {
      assert u in G.nodes;
    }
  }

  /** S together with everything that reaches S. */
  function Closure(G: Graph, S: set<string>): set<string>
    requires Valid(G) && S <= NodeSet(G)
    decreases |NodeSet(G) - S|
  {
    PredsOfSetFacts(G, S);
    var grown := S + PredsOfSet(G, S);
    if grown <= S then S
    else
      GrowShrinks(NodeSet(G), S, grown);
      Closure(G, grown)
  }

  /** The closure contains S, lies within the nodes and is closed under taking predecessors. */
  lemma {:induction false} ClosureSpec(G: Graph, S: set<string>)
    requires Valid(G) && S <= NodeSet(G)
    ensures S <= Closure(G, S) <= NodeSet(G)
    ensures ClosedUnderPreds(G, Closure(G, S))
    decreases |NodeSet(G) - S|
  {
    PredsOfSetFacts(G, S);
    var grown := S + PredsOfSet(G, S);
    if !(grown <= S) {
      GrowShrinks(NodeSet(G), S, grown);
      ClosureSpec(G, grown);
    }
  }

  lemma GrowShrinks(N: set<string>, S: set<string>, grown: set<string>)
    requires S <= grown <= N && !(grown <= S)
    ensures |N - grown| < |N - S|
  {
    var x :| x in grown && x !in S;
    assert x in (N - S) - (N - grown);
    SubsetSmaller(N - grown, N - S);
  }

  /** The closure is the least predecessor-closed set containing S. */
  lemma {:induction false} ClosureLeast(G: Graph, S: set<string>, T: set<string>)
    requires Valid(G) && S <= NodeSet(G) && S <= T && ClosedUnderPreds(G, T)
    ensures Closure(G, S) <= T
    decreases |NodeSet(G) - S|
  {
    PredsOfSetFacts(G, S);
    var grown := S + PredsOfSet(G, S);
    if !(grown <= S) {
      GrowShrinks(NodeSet(G), S, grown);
      assert PredsOfSet(G, S) <= T;
      ClosureLeast(G, grown, T);
    }
  }

  /** nx.ancestors(graph, v) | {v} */
  function Ancestors(G: Graph, v: string): set<string>
    requires Valid(G) && v in G.nodes
  {
    Closure(G, {v})
  }

  /** a has no successor in common: the point where networkx's descent through the common ancestors stops. */
  predicate Lowest(G: Graph, common: set<string>, a: string)
    requires Valid(G)
  {
    forall c :: c in Succs(G, a) ==> c !in common
  }

  /** The first node of ns that is a lowest member of common. */
  function FirstLowest(G: Graph, ns: seq<string>, common: set<string>): Option<string>
    requires Valid(G)
  {
    if ns == [] then None
    else if ns[0] in common && Lowest(G, common, ns[0]) then Some(ns[0])
    else FirstLowest(G, ns[1..], common)
  }

  lemma {:induction false} FirstLowestSpec(G: Graph, ns: seq<string>, common: set<string>)
    requires Valid(G)
    ensures FirstLowest(G, ns, common).Some? ==>
              FirstLowest(G, ns, common).value in ns && FirstLowest(G, ns, common).value in common &&
              Lowest(G, common, FirstLowest(G, ns, common).value)
    ensures FirstLowest(G, ns, common).None? ==> forall x :: x in ns && x in common ==> !Lowest(G, common, x)
  {
    if ns != [] {
      FirstLowestSpec(G, ns[1..], common);
    }
  }

  /**
   * lowest_common_ancestor(graph, u, v) with default None: the first node, in
   * node order, that is a common ancestor of u and v (each node counting as
   * its own ancestor) and has no successor that is one.
   */
  function LCA(G: Graph, u: string, v: string): Option<string>
    requires Valid(G) && u in G.nodes && v in G.nodes
  {
    FirstLowest(G, G.nodes, Ancestors(G, u) * Ancestors(G, v))
  }

  lemma LCAIsNode(G: Graph, u: string, v: string)
    requires Valid(G) && u in G.nodes && v in G.nodes
    ensures LCA(G, u, v).Some? ==> LCA(G, u, v).value in G.nodes
  {
    FirstLowestSpec(G, G.nodes, Ancestors(G, u) * Ancestors(G, v));
  }

  /**
   * The ancestor found is a node of the graph that reaches both u and v and
   * none of whose successors reaches both; with no common ancestor there is
   * none.
   */
  lemma LCASound(G: Graph, u: string, v: string)
    requires Valid(G) && u in G.nodes && v in G.nodes
    ensures LCA(G, u, v).Some? ==> LCA(G, u, v).value in G.nodes
    ensures LCA(G, u, v).Some? ==> LCA(G, u, v).value in Ancestors(G, u) && LCA(G, u, v).value in Ancestors(G, v)
    ensures LCA(G, u, v).Some? ==> forall c :: (LCA(G, u, v).value, c) in G.weight ==> !(c in Ancestors(G, u) && c in Ancestors(G, v))
    ensures Ancestors(G, u) * Ancestors(G, v) == {} ==> LCA(G, u, v).None?
  {
    ClosureSpec(G, {u});
    FirstLowestSpec(G, G.nodes, Ancestors(G, u) * Ancestors(G, v));
  }

  /** No edge (x, y) leads back to an ancestor of x: the graph has no cycle. */
  ghost predicate Acyclic(G: Graph)
    requires Valid(G)
  {
    forall x, y :: (x, y) in G.weight ==> y !in Ancestors(G, x)
  }

  /** Along an edge the ancestor sets grow. */
  lemma AncestorsAlongEdge(G: Graph, x: string, y: string)
    requires Valid(G) && (x, y) in G.weight
    ensures x in Ancestors(G, y) && Ancestors(G, x) <= Ancestors(G, y)
  {
    ClosureSpec(G, {y});
    ClosureLeast(G, {x}, Ancestors(G, y));
  }

  /** A member of a non-empty set of nodes with the most ancestors. */
  lemma MostAncestors(G: Graph, S: set<string>) returns (x: string)
    requires Valid(G) && S != {} && S <= NodeSet(G)
    ensures x in S && forall y :: y in S ==> |Ancestors(G, y)| <= |Ancestors(G, x)|
    decreases S
  {
    var z :| z in S;
    if S == {z} {
      x := z;
    } else {
      var m := MostAncestors(G, S - {z});
      x := if |Ancestors(G, z)| <= |Ancestors(G, m)| then m else z;
    }
  }

  /** In an acyclic graph every non-empty set of nodes has a member with no successor in it. */
  lemma LowestExists(G: Graph, S: set<string>) returns (x: string)
    requires Valid(G) && Acyclic(G) && S != {} && S <= NodeSet(G)
    ensures x in S && Lowest(G, S, x)
  {
    x := MostAncestors(G, S);
    forall c | c in Succs(G, x) ensures c !in S {
      if c in S {
        AncestorsAlongEdge(G, x, c);
        ClosureSpec(G, {c});
        assert c in Ancestors(G, c) && c !in Ancestors(G, x);
        SubsetSmaller(Ancestors(G, x), Ancestors(G, c));
      }
    }
  }

  /** In an acyclic graph, two nodes with a common ancestor have a lowest one. */
  lemma LCAComplete(G: Graph, u: string, v: string)
    requires Valid(G) && Acyclic(G) && u in G.nodes && v in G.nodes
    requires Ancestors(G, u) * Ancestors(G, v) != {}
    ensures LCA(G, u, v).Some?
  {
    var common := Ancestors(G, u) * Ancestors(G, v);
    ClosureSpec(G, {u});
    var x := LowestExists(G, common);
    FirstLowestSpec(G, G.nodes, common);
  }
}
