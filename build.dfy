/** build_graph: one weighted edge kmer[:-1] -> kmer[1:] per k-mer of the dictionary. */
module Build {
  import opened Seqs
  import opened Graphs
  import opened Kmers

  /** kmer[:-1] */
  function Prefix(kmer: string): string
  {
    if kmer == [] then [] else kmer[..|kmer| - 1]
  }

  /** kmer[1:] */
  function Suffix(kmer: string): string
  {
    if kmer == [] then [] else kmer[1..]
  }

  function KmerEdge(kmer: string): Edge
  {
    (Prefix(kmer), Suffix(kmer))
  }

  /** Two k-mers of one length k >= 2 give the same edge only if they are equal. */
  lemma KmerEdgeInjective(a: string, b: string)
    requires |a| == |b| >= 2
    requires KmerEdge(a) == KmerEdge(b)
    ensures a == b
  {
    assert a == Prefix(a) + [Suffix(a)[|a| - 2]];
    assert b == Prefix(b) + [Suffix(b)[|b| - 2]];
  }

  /** The edges of the keys, in key order. */
  function KmerEdges(order: seq<string>): (r: seq<Edge>)
    ensures |r| == |order|
    ensures forall i :: 0 <= i < |order| ==> r[i] == KmerEdge(order[i])
  {
    if order == [] then [] else KmerEdges(order[..|order| - 1]) + [KmerEdge(order[|order| - 1])]
  }

  /** The graph after adding the edges of the keys one after the other. */
  function GraphOf(order: seq<string>, count: map<string, nat>): (G: Graph)
    requires forall x :: x in order ==> x in count
    ensures Valid(G)
  {
    if order == [] then Empty
    else
      var kmer := order[|order| - 1];
      WithEdge(GraphOf(order[..|order| - 1], count), Prefix(kmer), Suffix(kmer), count[kmer])
  }

  /** A node of length k - 1 shifted by one character into the next: A[1:] == B[:-1]. */
  ghost predicate Overlaps(e: Edge, k: nat)
  {
    k >= 2 && |e.0| == k - 1 && |e.1| == k - 1 && e.0[1..] == e.1[..k - 2]
  }

  /**
   * G holds exactly one edge per key of order, in key order, weighted by its
   * count; every edge joins two overlapping (k-1)-mers; every node is an
   * endpoint of some edge.
   */
  ghost predicate Shaped(G: Graph, order: seq<string>, count: map<string, nat>, k: nat)
    requires forall x :: x in order ==> x in count
  {
    && Valid(G)
    && G.edges == KmerEdges(order)
    && (forall x :: x in order ==> G.weight[KmerEdge(x)] == count[x])
    && (forall e :: e in G.weight ==> Overlaps(e, k))
    && (forall x :: x in G.nodes ==> exists e :: e in G.weight && (e.0 == x || e.1 == x))
  }

  /** A new k-mer of the same length gives an edge the graph does not hold yet. */
  lemma FreshEdge(G: Graph, front: seq<string>, kmer: string, count: map<string, nat>, k: nat)
    requires k >= 2 && kmer !in front
    requires forall x :: x in front + [kmer] ==> |x| == k && x in count
    requires Shaped(G, front, count, k)
    ensures KmerEdge(kmer) !in G.weight
    ensures forall x :: x in front ==> KmerEdge(x) != KmerEdge(kmer)
  {
    var e := KmerEdge(kmer);
    forall x | x in front ensures KmerEdge(x) != e {
      if KmerEdge(x) == e {
        KmerEdgeInjective(x, kmer);
      }
    }
  }

  lemma AppendEdge(G: Graph, kmer: string, w: int)
    requires KmerEdge(kmer) !in G.weight
    ensures WithEdge(G, Prefix(kmer), Suffix(kmer), w).edges == G.edges + [KmerEdge(kmer)]
    ensures WithEdge(G, Prefix(kmer), Suffix(kmer), w).weight == G.weight[KmerEdge(kmer) := w]
  {
  }

  lemma KmerOverlaps(kmer: string, k: nat)
    requires k >= 2 && |kmer| == k
    ensures Overlaps(KmerEdge(kmer), k)
  {
    var e := KmerEdge(kmer);
    assert e.0[1..] == kmer[1..k - 1] == e.1[..k - 2];
  }

  lemma StepWeights(G: Graph, front: seq<string>, kmer: string, count: map<string, nat>)
    requires kmer in count && KmerEdge(kmer) !in G.weight
    requires forall x :: x in front ==> x in count && KmerEdge(x) in G.weight && G.weight[KmerEdge(x)] == count[x]
    ensures forall x :: x in front + [kmer] ==>
              WithEdge(G, Prefix(kmer), Suffix(kmer), count[kmer]).weight[KmerEdge(x)] == count[x]
  {
    AppendEdge(G, kmer, count[kmer]);
  }

  lemma StepOverlaps(G: Graph, kmer: string, w: int, k: nat)
    requires k >= 2 && |kmer| == k
    requires forall e :: e in G.weight ==> Overlaps(e, k)
    ensures forall e :: e in WithEdge(G, Prefix(kmer), Suffix(kmer), w).weight ==> Overlaps(e, k)
  {
    KmerOverlaps(kmer, k);
  }

  lemma StepCovered(G: Graph, kmer: string, w: int)
    requires forall x :: x in G.nodes ==> exists e :: e in G.weight && (e.0 == x || e.1 == x)
    ensures var H := WithEdge(G, Prefix(kmer), Suffix(kmer), w);
            forall x :: x in H.nodes ==> exists f :: f in H.weight && (f.0 == x || f.1 == x)
  {
    var H := WithEdge(G, Prefix(kmer), Suffix(kmer), w);
    forall x | x in H.nodes ensures exists f :: f in H.weight && (f.0 == x || f.1 == x) {
      if x in G.nodes {
        var f :| f in G.weight && (f.0 == x || f.1 == x);
        assert f in H.weight;
      } else {
        assert KmerEdge(kmer) in H.weight;
      }
    }
  }

  lemma StepEdges(G: Graph, front: seq<string>, kmer: string, w: int)
    requires G.edges == KmerEdges(front) && KmerEdge(kmer) !in G.weight
    ensures WithEdge(G, Prefix(kmer), Suffix(kmer), w).edges == KmerEdges(front + [kmer])
  {
    var order := front + [kmer];
    assert order[..|order| - 1] == front;
    AppendEdge(G, kmer, w);
  }

  lemma ShapedKeys(G: Graph, front: seq<string>, count: map<string, nat>, k: nat)
    requires forall x :: x in front ==> x in count
    requires Shaped(G, front, count, k)
    ensures forall x :: x in front ==> KmerEdge(x) in G.weight
  {
    forall x | x in front ensures KmerEdge(x) in G.weight {
      var i :| 0 <= i < |front| && front[i] == x;
      assert G.edges[i] == KmerEdge(x);
    }
  }

  lemma ShapedStep(G: Graph, front: seq<string>, kmer: string, count: map<string, nat>, k: nat)
    requires k >= 2 && Distinct(front + [kmer])
    requires forall x :: x in front + [kmer] ==> |x| == k && x in count
    requires Shaped(G, front, count, k)
    ensures Shaped(WithEdge(G, Prefix(kmer), Suffix(kmer), count[kmer]), front + [kmer], count, k)
  {
    DistinctAppend(front, kmer);
    FreshEdge(G, front, kmer, count, k);
    ShapedKeys(G, front, count, k);
    StepEdges(G, front, kmer, count[kmer]);
    StepWeights(G, front, kmer, count);
    StepOverlaps(G, kmer, count[kmer], k);
    StepCovered(G, kmer, count[kmer]);
  }

  /**
   * For distinct k-mers of one length k >= 2 the graph built from them is
   * Shaped: one edge per k-mer, in key order, weighted by its count.
   */
  lemma {:induction false} GraphOfShape(order: seq<string>, count: map<string, nat>, k: nat)
    requires k >= 2 && Distinct(order)
    requires forall x :: x in order ==> |x| == k && x in count
    ensures Shaped(GraphOf(order, count), order, count, k)
  {
    if order != [] {
      var front, kmer := order[..|order| - 1], order[|order| - 1];
      assert order == front + [kmer];
      DistinctConcat(front, [kmer]);
      GraphOfShape(front, count, k);
      ShapedStep(GraphOf(front, count), front, kmer, count, k);
    }
  }

  lemma GraphOfStep(order: seq<string>, count: map<string, nat>, i: nat)
    requires i < |order| && forall x :: x in order ==> x in count
    ensures forall x :: x in order[..i + 1] ==> x in count
    ensures GraphOf(order[..i + 1], count)
         == WithEdge(GraphOf(order[..i], count), Prefix(order[i]), Suffix(order[i]), count[order[i]])
  {
    assert order[..i + 1][..i] == order[..i];
  }

  /** build_graph */
  method BuildGraph(t: KmerTable) returns (g: DiGraph)
    requires forall x :: x in t.order ==> x in t.count
    ensures fresh(g)
    ensures g.View() == GraphOf(t.order, t.count)
  {
    g := new DiGraph();
    for i := 0 to |t.order|
      invariant g.View() == GraphOf(t.order[..i], t.count)
    {
      var kmer := t.order[i];
      GraphOfStep(t.order, t.count, i);
      g.AddEdge(Prefix(kmer), Suffix(kmer), t.count[kmer]);
    }
    assert t.order[..|t.order|] == t.order;
  }

  /**
   * The graph built from the counted k-mers of the reads: every window w of
   * every read is the edge w[:-1] -> w[1:], weighted by its number of
   * occurrences, and every edge joins two overlapping (k-1)-mers.
   */
  lemma DeBruijnOfReads(rs: seq<string>, k: nat)
    requires k >= 2
    ensures forall x :: x in Tally(AllKmers(rs, k)).order ==> x in Tally(AllKmers(rs, k)).count
    ensures Valid(GraphOf(Tally(AllKmers(rs, k)).order, Tally(AllKmers(rs, k)).count))
    ensures forall w :: w in AllKmers(rs, k) ==>
              KmerEdge(w) in GraphOf(Tally(AllKmers(rs, k)).order, Tally(AllKmers(rs, k)).count).weight &&
              GraphOf(Tally(AllKmers(rs, k)).order, Tally(AllKmers(rs, k)).count).weight[KmerEdge(w)]
                == multiset(AllKmers(rs, k))[w]
    ensures forall e :: e in GraphOf(Tally(AllKmers(rs, k)).order, Tally(AllKmers(rs, k)).count).weight ==>
              Overlaps(e, k)
  {
    var s := AllKmers(rs, k);
    TallyCounts(s);
    AllKmersShape(rs, k);
    var t := Tally(s);
    GraphOfShape(t.order, t.count, k);
    var G := GraphOf(t.order, t.count);
    forall w | w in s ensures KmerEdge(w) in G.weight {
      var i :| 0 <= i < |t.order| && t.order[i] == w;
      assert G.edges[i] == KmerEdge(w);
    }
  }

  /** Every k-mer of the reads has length k. */
  lemma {:induction false} AllKmersShape(rs: seq<string>, k: nat)
    requires k >= 1
    ensures forall x :: x in AllKmers(rs, k) ==> |x| == k
  {
    if rs != [] {
      AllKmersShape(rs[..|rs| - 1], k);
    }
  }
}
