/**
 * get_contigs: for every starting node and every sink node in turn, spell
 * each simple path between them into a contig: its first node, then the
 * last character of each later node.
 */
module Contigs {
  import opened Seqs
  import opened Outcomes
  import opened Graphs
  import opened Paths
  import opened Kmers
  import opened Build

  /** One entry of the list get_contigs returns: [contig, len(contig)]. */
  datatype Contig = Contig(sequence: string, length: nat)

  /** contig_i: a_path[0], then node[-1] for each later node; both raise IndexError on an empty sequence. */
  function Spell(p: seq<string>): Result<string>
    decreases |p|
  {
    if |p| <= 1 then
      if p == [] then Err(IndexError) else Ok(p[0])
    else
      match Spell(p[..|p| - 1])
      case Err(f) => Err(f)
      case Ok(c) =>
        var last := p[|p| - 1];
        if last == [] then Err(IndexError) else Ok(c + [last[|last| - 1]])
  }

  /** Spelling fails exactly on an empty path or an empty node after the first. */
  lemma {:induction false} SpellFails(p: seq<string>)
    ensures Spell(p).Err? <==> p == [] || exists i :: 1 <= i < |p| && p[i] == []
    ensures Spell(p).Err? ==> Spell(p).fault == IndexError
    decreases |p|
  {
    if |p| > 1 {
      var init := p[..|p| - 1];
      SpellFails(init);
      if exists i :: 1 <= i < |init| && init[i] == [] {
        var i :| 1 <= i < |init| && init[i] == [];
        assert p[i] == [];
      }
      if exists i :: 1 <= i < |p| && p[i] == [] {
        var i :| 1 <= i < |p| && p[i] == [];
        if i < |p| - 1 {
          assert init[i] == [];
        }
      }
    }
  }

  /** Two m-mers, the second shifted by one character from the first: a[1:] == b[:-1]. */
  ghost predicate Shifted(a: string, b: string, m: nat)
  {
    m >= 1 && |a| == m && |b| == m && a[1..] == b[..m - 1]
  }

  /** The nodes of p are m-mers and each is shifted by one character from the one before, as along the edges of the graph. */
  ghost predicate Chained(p: seq<string>, m: nat)
  {
    && m >= 1 && |p| >= 1
    && (forall i :: 0 <= i < |p| ==> |p[i]| == m)
    && (forall i :: 0 <= i < |p| - 1 ==> Shifted(p[i], p[i + 1], m))
  }

  /** The window of length m at i of a contig spelled from a chained path is the i-th node. */
  lemma {:induction false} SpellWindows(p: seq<string>, m: nat)
    requires Chained(p, m)
    ensures Spell(p).Ok? && |Spell(p).value| == m + |p| - 1
    ensures forall i :: 0 <= i < |p| ==> Spell(p).value[i..i + m] == p[i]
    decreases |p|
  {
    if |p| == 1 {
      assert p[0][0..m] == p[0];
    } else {
      var init, last := p[..|p| - 1], p[|p| - 1];
      assert Chained(init, m);
      SpellWindows(init, m);
      assert p == init + [last];
      WindowsStep(Spell(init).value, init, last, m);
    }
  }

  /** Appending the last character of the next node extends the windows by that node. */
  lemma WindowsStep(c: string, init: seq<string>, last: string, m: nat)
    requires m >= 1 && |init| >= 1 && |c| == m + |init| - 1 && |last| == m
    requires forall i :: 0 <= i < |init| ==> c[i..i + m] == init[i]
    requires Shifted(init[|init| - 1], last, m)
    ensures forall i :: 0 <= i < |init| + 1 ==> (c + [last[m - 1]])[i..i + m] == (init + [last])[i]
  {
    var n := |init|;
    forall i | 0 <= i < n + 1 ensures (c + [last[m - 1]])[i..i + m] == (init + [last])[i] {
      if i < n {
        AppendKeepsWindow(c, last[m - 1], i, m);
      } else {
        LastWindow(c, last[m - 1], m);
        assert c[n - 1..n - 1 + m] == init[n - 1];
        ShiftedNode(init[n - 1], last, m);
      }
    }
  }

  lemma AppendKeepsWindow(c: string, x: char, i: nat, m: nat)
    requires i + m <= |c|
    ensures (c + [x])[i..i + m] == c[i..i + m]
  {
  }

  lemma LastWindow(c: string, x: char, m: nat)
    requires 1 <= m <= |c|
    ensures (c + [x])[|c| + 1 - m..|c| + 1] == c[|c| - m..|c|][1..] + [x]
  {
  }

  /** A node shifted by one character into the next: b == a[1:] + b[-1]. */
  lemma ShiftedNode(a: string, b: string, m: nat)
    requires Shifted(a, b, m)
    ensures b == a[1..] + [b[m - 1]]
  {
  }

  /** Windows that match the nodes one by one cut back into the nodes. */
  lemma CutOfWindows(c: string, p: seq<string>, m: nat)
    requires m >= 1 && |p| >= 1 && |c| == m + |p| - 1
    requires forall i :: 0 <= i < |p| ==> c[i..i + m] == p[i]
    ensures CutKmer(c, m) == p
  {
  }

  /** Spelling a chained path and cutting the contig into m-mers gives the path back. */
  lemma SpellThenCut(p: seq<string>, m: nat)
    requires Chained(p, m)
    ensures Spell(p).Ok? && |Spell(p).value| == m + |p| - 1
    ensures CutKmer(Spell(p).value, m) == p
  {
    SpellWindows(p, m);
    CutOfWindows(Spell(p).value, p, m);
  }

  /** The m-mers of a contig overlap by m - 1 characters. */
  lemma CutChained(c: string, m: nat)
    requires m >= 1 && |c| >= m
    ensures Chained(CutKmer(c, m), m)
  {
    var r := CutKmer(c, m);
    forall i | 0 <= i < |r| - 1 ensures Shifted(r[i], r[i + 1], m) {
      NextWindow(c, i, m);
    }
  }

  lemma NextWindow(c: string, i: nat, m: nat)
    requires m >= 1 && i + m + 1 <= |c|
    ensures c[i..i + m][1..] == c[i + 1..i + 1 + m][..m - 1]
  {
  }

  /** Cutting a contig into m-mers and spelling them gives the contig back. */
  lemma {:induction false} CutThenSpell(c: string, m: nat)
    requires m >= 1 && |c| >= m
    ensures Spell(CutKmer(c, m)) == Ok(c)
    decreases |c|
  {
    var r := CutKmer(c, m);
    if |c| == m {
      assert r == [c[0..m]];
      assert c[0..m] == c;
    } else {
      var front := c[..|c| - 1];
      CutThenSpell(front, m);
      assert r == CutKmer(front, m) + [c[|c| - m..]];
      assert r[..|r| - 1] == CutKmer(front, m);
      assert c == front + [c[|c| - 1]];
    }
  }

  /** A walk of two nodes or more in a graph whose every edge joins overlapping (k-1)-mers is chained. */
  lemma WalkChained(G: Graph, p: seq<string>, k: nat)
    requires k >= 2 && IsWalk(G, p) && |p| >= 2
    requires forall e :: e in G.weight ==> Overlaps(e, k)
    ensures Chained(p, k - 1)
  {
    forall i | 0 <= i < |p| ensures |p[i]| == k - 1 {
      if i < |p| - 1 {
        assert Overlaps((p[i], p[i + 1]), k);
      } else {
        assert Overlaps((p[i - 1], p[i]), k);
      }
    }
    forall i | 0 <= i < |p| - 1 ensures Shifted(p[i], p[i + 1], k - 1) {
      assert Overlaps((p[i], p[i + 1]), k);
    }
  }

  /**
   * The contig of a path of the de Bruijn graph: its (k-1)-mers are the
   * nodes of the path, and its i-th k-mer is the one whose edge joins the
   * i-th node to the next.
   */
  lemma ContigOfWalk(G: Graph, p: seq<string>, k: nat)
    requires k >= 2 && IsWalk(G, p) && |p| >= 2
    requires forall e :: e in G.weight ==> Overlaps(e, k)
    ensures Spell(p).Ok? && |Spell(p).value| == k + |p| - 2
    ensures CutKmer(Spell(p).value, k - 1) == p
    ensures forall i :: 0 <= i < |p| - 1 ==> KmerEdge(CutKmer(Spell(p).value, k)[i]) == (p[i], p[i + 1])
  {
    var m := k - 1;
    WalkChained(G, p, k);
    SpellWindows(p, m);
    CutOfWindows(Spell(p).value, p, m);
    KmersOfWindows(Spell(p).value, p, m);
    assert m + 1 == k;
  }

  /** When the m-windows of c are the nodes of p, its (m+1)-mers are the edges between consecutive nodes. */
  lemma KmersOfWindows(c: string, p: seq<string>, m: nat)
    requires m >= 1 && |p| >= 2 && |c| == m + |p| - 1
    requires forall i :: 0 <= i < |p| ==> c[i..i + m] == p[i]
    ensures forall i :: 0 <= i < |p| - 1 ==> KmerEdge(CutKmer(c, m + 1)[i]) == (p[i], p[i + 1])
  {
    forall i | 0 <= i < |p| - 1 ensures KmerEdge(CutKmer(c, m + 1)[i]) == (p[i], p[i + 1]) {
      KmerWindow(c, i, m);
      assert c[i..i + m] == p[i];
      assert c[i + 1..i + 1 + m] == p[i + 1];
    }
  }

  /** The (m+1)-mer at i of c joins its m-mers at i and i + 1. */
  lemma KmerWindow(c: string, i: nat, m: nat)
    requires m >= 1 && i + m + 1 <= |c|
    ensures KmerEdge(c[i..i + m + 1]) == (c[i..i + m], c[i + 1..i + 1 + m])
  {
    var w := c[i..i + m + 1];
    assert Prefix(w) == w[..m] == c[i..i + m];
    assert Suffix(w) == w[1..] == c[i + 1..i + 1 + m];
  }

  /** The contigs of the paths, in order. */
  function SpellAll(paths: seq<seq<string>>): Result<seq<Contig>>
    decreases |paths|
  {
    if paths == [] then Ok([])
    else
      match SpellAll(paths[..|paths| - 1])
      case Err(f) => Err(f)
      case Ok(acc) =>
        match Spell(paths[|paths| - 1])
        case Err(f) => Err(f)
        case Ok(c) => Ok(acc + [Contig(c, |c|)])
  }

  /** Every path spelled, one contig per path, each with its length; the first failure otherwise. */
  lemma {:induction false} SpellAllSpec(paths: seq<seq<string>>)
    ensures SpellAll(paths).Ok? <==> forall i :: 0 <= i < |paths| ==> Spell(paths[i]).Ok?
    ensures SpellAll(paths).Err? ==> SpellAll(paths).fault == IndexError
    ensures SpellAll(paths).Ok? ==>
              |SpellAll(paths).value| == |paths| &&
              forall i :: 0 <= i < |paths| ==>
                SpellAll(paths).value[i] == Contig(Spell(paths[i]).value, |Spell(paths[i]).value|)
    decreases |paths|
  {
    if paths != [] {
      var init := paths[..|paths| - 1];
      SpellAllSpec(init);
      SpellFails(paths[|paths| - 1]);
      assert forall i :: 0 <= i < |init| ==> init[i] == paths[i];
    }
  }

  /** The loops of get_contigs for one starting node: each ending node in turn. */
  function ContigRow(G: Graph, s: string, ends: seq<string>): Result<seq<Contig>>
    requires Valid(G)
    decreases |ends|
  {
    if ends == [] then Ok([])
    else
      match ContigRow(G, s, ends[..|ends| - 1])
      case Err(f) => Err(f)
      case Ok(acc) =>
        var e := ends[|ends| - 1];
        if s !in G.nodes then Err(NodeNotFound(Some(s)))
        else if e !in G.nodes then Err(NodeNotFound(Some(e)))
        else
          match SpellAll(SimplePaths(G, s, e))
          case Err(f) => Err(f)
          case Ok(cs) => Ok(acc + cs)
  }

  /**
   * get_contigs on the value of the graph: the rows of the starting nodes
   * in turn; has_path raises NodeNotFound on a start or an end that is not
   * in the graph, and the has_path guard adds nothing else.
   */
  function ContigsF(G: Graph, starts: seq<string>, ends: seq<string>): Result<seq<Contig>>
    requires Valid(G)
    decreases |starts|
  {
    if starts == [] then Ok([])
    else
      match ContigsF(G, starts[..|starts| - 1], ends)
      case Err(f) => Err(f)
      case Ok(acc) =>
        match ContigRow(G, starts[|starts| - 1], ends)
        case Err(f) => Err(f)
        case Ok(cs) => Ok(acc + cs)
  }

  /** A contig spelled from a simple path from s to e. */
  ghost predicate SpelledFrom(G: Graph, c: Contig, s: string, e: string, p: seq<string>)
  {
    s != e && IsSimplePath(G, p, s, e) && Spell(p) == Ok(c.sequence) && c.length == |c.sequence|
  }

  lemma SpellAllHas(G: Graph, s: string, e: string, c: Contig, p: seq<string>)
    requires Valid(G) && s in G.nodes && e in G.nodes && s != e
    requires SpellAll(SimplePaths(G, s, e)).Ok?
    ensures c in SpellAll(SimplePaths(G, s, e)).value <==> exists p :: SpelledFrom(G, c, s, e, p)
  {
    var paths := SimplePaths(G, s, e);
    SpellAllSpec(paths);
    if c in SpellAll(paths).value {
      var i :| 0 <= i < |paths| && SpellAll(paths).value[i] == c;
      assert paths[i] in paths;
      SimplePathsExact(G, s, e, paths[i]);
      assert SpelledFrom(G, c, s, e, paths[i]);
    }
    if exists p :: SpelledFrom(G, c, s, e, p) {
      var q :| SpelledFrom(G, c, s, e, q);
      SimplePathsExact(G, s, e, q);
      var i :| 0 <= i < |paths| && paths[i] == q;
      assert SpellAll(paths).value[i] == c;
    }
  }

  /** The row of s holds exactly the contigs of the simple paths from s to one of the ends. */
  lemma {:induction false} ContigRowExact(G: Graph, s: string, ends: seq<string>, c: Contig)
    requires Valid(G) && ContigRow(G, s, ends).Ok?
    ensures c in ContigRow(G, s, ends).value <==> exists e, p :: e in ends && SpelledFrom(G, c, s, e, p)
    decreases |ends|
  {
    if ends != [] {
      var init := ends[..|ends| - 1];
      var e := ends[|ends| - 1];
      assert ends == init + [e];
      ContigRowExact(G, s, init, c);
      var acc := ContigRow(G, s, init).value;
      if s == e {
        assert SimplePaths(G, s, e) == [];
        assert ContigRow(G, s, ends).value == acc;
      } else {
        SpellAllHas(G, s, e, c, []);
        assert ContigRow(G, s, ends).value == acc + SpellAll(SimplePaths(G, s, e)).value;
      }
      if c in acc {
        var e0, p0 :| e0 in init && SpelledFrom(G, c, s, e0, p0);
        assert e0 in ends;
      } else if c in ContigRow(G, s, ends).value {
        var p0 :| SpelledFrom(G, c, s, e, p0);
        assert e in ends;
      }
      if exists e', p :: e' in ends && SpelledFrom(G, c, s, e', p) {
        var e', p :| e' in ends && SpelledFrom(G, c, s, e', p);
        if e' != e {
          assert e' in init;
        }
      }
    }
  }

  /**
   * The contigs get_contigs returns are exactly the spellings of the simple
   * paths from a starting node to an ending node, each with its length.
   */
  lemma {:induction false} ContigsExact(G: Graph, starts: seq<string>, ends: seq<string>, c: Contig)
    requires Valid(G) && ContigsF(G, starts, ends).Ok?
    ensures c in ContigsF(G, starts, ends).value <==>
              exists s, e, p :: s in starts && e in ends && SpelledFrom(G, c, s, e, p)
    decreases |starts|
  {
    if starts != [] {
      var init := starts[..|starts| - 1];
      var s := starts[|starts| - 1];
      assert starts == init + [s];
      ContigsExact(G, init, ends, c);
      ContigRowExact(G, s, ends, c);
      if c in ContigsF(G, starts, ends).value {
        if c in ContigsF(G, init, ends).value {
          var s0, e0, p0 :| s0 in init && e0 in ends && SpelledFrom(G, c, s0, e0, p0);
          assert s0 in starts;
        } else {
          var e0, p0 :| e0 in ends && SpelledFrom(G, c, s, e0, p0);
          assert s in starts;
        }
      }
      if exists s', e, p :: s' in starts && e in ends && SpelledFrom(G, c, s', e, p) {
        var s', e, p :| s' in starts && e in ends && SpelledFrom(G, c, s', e, p);
        if s' != s {
          assert s' in init;
        }
      }
    }
  }

  /** With every start and end a node and no empty node, get_contigs raises nothing. */
  lemma {:induction false} ContigsDefined(G: Graph, starts: seq<string>, ends: seq<string>)
    requires Valid(G)
    requires forall s :: s in starts ==> s in G.nodes
    requires forall e :: e in ends ==> e in G.nodes
    requires forall x :: x in G.nodes ==> x != []
    ensures ContigsF(G, starts, ends).Ok?
    decreases |starts|
  {
    if starts != [] {
      ContigsDefined(G, starts[..|starts| - 1], ends);
      RowDefined(G, starts[|starts| - 1], ends);
    }
  }

  lemma {:induction false} RowDefined(G: Graph, s: string, ends: seq<string>)
    requires Valid(G) && s in G.nodes
    requires forall e :: e in ends ==> e in G.nodes
    requires forall x :: x in G.nodes ==> x != []
    ensures ContigRow(G, s, ends).Ok?
    decreases |ends|
  {
    if ends != [] {
      var e := ends[|ends| - 1];
      RowDefined(G, s, ends[..|ends| - 1]);
      var paths := SimplePaths(G, s, e);
      SimplePathsShape(G, s, e);
      forall i | 0 <= i < |paths| ensures Spell(paths[i]).Ok? {
        assert paths[i] in paths;
        SpellFails(paths[i]);
        assert Elems(paths[i]) <= NodeSet(G);
        forall j | 1 <= j < |paths[i]| ensures paths[i][j] != [] {
          assert paths[i][j] in Elems(paths[i]);
        }
      }
      SpellAllSpec(paths);
    }
  }

  /** A missing start or end is reported as NodeNotFound, an empty node as IndexError. */
  lemma {:induction false} ContigsFails(G: Graph, starts: seq<string>, ends: seq<string>)
    requires Valid(G) && ContigsF(G, starts, ends).Err?
    ensures var f := ContigsF(G, starts, ends).fault;
            f == IndexError ||
            (f.NodeNotFound? && f.node.Some? && f.node.value !in G.nodes &&
             (f.node.value in starts || f.node.value in ends))
    decreases |starts|
  {
    var init := starts[..|starts| - 1];
    var s := starts[|starts| - 1];
    if ContigsF(G, init, ends).Err? {
      ContigsFails(G, init, ends);
    } else {
      RowFails(G, s, ends);
    }
  }

  lemma {:induction false} RowFails(G: Graph, s: string, ends: seq<string>)
    requires Valid(G) && ContigRow(G, s, ends).Err?
    ensures var f := ContigRow(G, s, ends).fault;
            f == IndexError ||
            (f.NodeNotFound? && f.node.Some? && f.node.value !in G.nodes && (f.node.value == s || f.node.value in ends))
    decreases |ends|
  {
    var init := ends[..|ends| - 1];
    if ContigRow(G, s, init).Err? {
      RowFails(G, s, init);
    } else if s in G.nodes && ends[|ends| - 1] in G.nodes {
      SpellAllSpec(SimplePaths(G, s, ends[|ends| - 1]));
    }
  }

  lemma {:induction false} SpellErrSticks(p: seq<string>, i: nat)
    requires 1 <= i <= |p| && Spell(p[..i]).Err?
    ensures Spell(p) == Spell(p[..i])
    decreases |p| - i
  {
    if i < |p| {
      assert p[..i + 1][..i] == p[..i];
      SpellErrSticks(p, i + 1);
    } else {
      assert p[..i] == p;
    }
  }

  lemma {:induction false} SpellAllErrSticks(paths: seq<seq<string>>, i: nat)
    requires i <= |paths| && SpellAll(paths[..i]).Err?
    ensures SpellAll(paths) == SpellAll(paths[..i])
    decreases |paths| - i
  {
    if i < |paths| {
      assert paths[..i + 1][..i] == paths[..i];
      SpellAllErrSticks(paths, i + 1);
    } else {
      assert paths[..i] == paths;
    }
  }

  lemma {:induction false} RowErrSticks(G: Graph, s: string, ends: seq<string>, i: nat)
    requires Valid(G) && i <= |ends| && ContigRow(G, s, ends[..i]).Err?
    ensures ContigRow(G, s, ends) == ContigRow(G, s, ends[..i])
    decreases |ends| - i
  {
    if i < |ends| {
      assert ends[..i + 1][..i] == ends[..i];
      RowErrSticks(G, s, ends, i + 1);
    } else {
      assert ends[..i] == ends;
    }
  }

  lemma {:induction false} ContigsErrSticks(G: Graph, starts: seq<string>, ends: seq<string>, i: nat)
    requires Valid(G) && i <= |starts| && ContigsF(G, starts[..i], ends).Err?
    ensures ContigsF(G, starts, ends) == ContigsF(G, starts[..i], ends)
    decreases |starts| - i
  {
    if i < |starts| {
      assert starts[..i + 1][..i] == starts[..i];
      ContigsErrSticks(G, starts, ends, i + 1);
    } else {
      assert starts[..i] == starts;
    }
  }

  /** The spelling loop of get_contigs for one path. */
  method SpellPath(p: seq<string>) returns (r: Result<string>)
    ensures r == Spell(p)
  {
    if p == [] {
      return Err(IndexError);
    }
    var contig := p[0];
    for i := 1 to |p|
      invariant Spell(p[..i]) == Ok(contig)
    {
      assert p[..i + 1][..i] == p[..i];
      var node := p[i];
      if node == [] {
        SpellErrSticks(p, i + 1);
        return Err(IndexError);
      }
      contig := contig + [node[|node| - 1]];
    }
    assert p[..|p|] == p;
    return Ok(contig);
  }

  /** The loop of get_contigs over the simple paths between one start and one end. */
  method SpellPaths(paths: seq<seq<string>>) returns (r: Result<seq<Contig>>)
    ensures r == SpellAll(paths)
  {
    var acc: seq<Contig> := [];
    for i := 0 to |paths|
      invariant SpellAll(paths[..i]) == Ok(acc)
    {
      assert paths[..i + 1][..i] == paths[..i];
      var c := SpellPath(paths[i]);
      if c.Err? {
        SpellAllErrSticks(paths, i + 1);
        return Err(c.fault);
      }
      acc := acc + [Contig(c.value, |c.value|)];
    }
    assert paths[..|paths|] == paths;
    return Ok(acc);
  }

  /** The loop of get_contigs over the ending nodes, for one starting node. */
  method ContigsFrom(G: Graph, s: string, ends: seq<string>) returns (r: Result<seq<Contig>>)
    requires Valid(G)
    ensures r == ContigRow(G, s, ends)
  {
    var acc: seq<Contig> := [];
    for i := 0 to |ends|
      invariant ContigRow(G, s, ends[..i]) == Ok(acc)
    {
      assert ends[..i + 1][..i] == ends[..i];
      var e := ends[i];
      if s !in G.nodes || e !in G.nodes {
        RowErrSticks(G, s, ends, i + 1);
        return Err(NodeNotFound(Some(if s !in G.nodes then s else e)));
      }
      var cs := SpellPaths(SimplePaths(G, s, e));
      if cs.Err? {
        RowErrSticks(G, s, ends, i + 1);
        return Err(cs.fault);
      }
      acc := acc + cs.value;
    }
    assert ends[..|ends|] == ends;
    return Ok(acc);
  }

  /** get_contigs */
  method GetContigs(g: DiGraph, starts: seq<string>, ends: seq<string>) returns (r: Result<seq<Contig>>)
    requires Valid(g.View())
    ensures r == ContigsF(g.View(), starts, ends)
  {
    var G := g.View();
    var acc: seq<Contig> := [];
    for i := 0 to |starts|
      invariant ContigsF(G, starts[..i], ends) == Ok(acc)
    {
      assert starts[..i + 1][..i] == starts[..i];
      var row := ContigsFrom(G, starts[i], ends);
      if row.Err? {
        ContigsErrSticks(G, starts, ends, i + 1);
        return Err(row.fault);
      }
      acc := acc + row.value;
    }
    assert starts[..|starts|] == starts;
    return Ok(acc);
  }
}
