/** K-mer extraction and counting: cut_kmer and the counting loop of build_kmer_dict. */
module Kmers {
  import opened Seqs

  /** The sliding windows of length k over a read, stride one, in read order (cut_kmer). */
  function CutKmer(read: string, k: nat): (r: seq<string>)
    requires k >= 1
    ensures |r| == WindowCount(read, k)
    ensures forall i :: 0 <= i < |r| ==> |r[i]| == k && r[i] == read[i..i + k]
    decreases |read|
  {
    if |read| < k then []
    else
      var front := read[..|read| - 1];
      var r := CutKmer(front, k) + [read[|read| - k..]];
      assert forall i :: 0 <= i < |r| - 1 ==> r[i] == front[i..i + k] == read[i..i + k];
      r
  }

  /** max(0, |read| - k + 1), the number of windows a read yields. */
  function WindowCount(read: string, k: nat): nat
  {
    if |read| >= k then |read| - k + 1 else 0
  }

  /** The sum of WindowCount over all reads. */
  function WindowTotal(rs: seq<string>, k: nat): nat
  {
    if rs == [] then 0 else WindowTotal(rs[..|rs| - 1], k) + WindowCount(rs[|rs| - 1], k)
  }

  /** Every k-mer of every read, reads in order, windows in order. */
  function AllKmers(rs: seq<string>, k: nat): seq<string>
    requires k >= 1
  {
    if rs == [] then [] else AllKmers(rs[..|rs| - 1], k) + CutKmer(rs[|rs| - 1], k)
  }

  lemma {:induction false} AllKmersLength(rs: seq<string>, k: nat)
    requires k >= 1
    ensures |AllKmers(rs, k)| == WindowTotal(rs, k)
  {
    if rs != [] {
      AllKmersLength(rs[..|rs| - 1], k);
    }
  }

  /** The k-mer dictionary: keys in first-insertion order (a Python dict keeps it) and their counts. */
  datatype KmerTable = KmerTable(order: seq<string>, count: map<string, nat>)

  /** kmer_dict[kmer] = kmer_dict.get(kmer, 0) + 1 */
  function Bump(t: KmerTable, kmer: string): KmerTable
  {
    if kmer in t.count then t.(count := t.count[kmer := t.count[kmer] + 1])
    else KmerTable(t.order + [kmer], t.count[kmer := 1])
  }

  /** The dictionary after counting the k-mers of s one after the other. */
  function Tally(s: seq<string>): KmerTable
  {
    if s == [] then KmerTable([], map[]) else Bump(Tally(s[..|s| - 1]), s[|s| - 1])
  }

  lemma TallyAppend(s: seq<string>, x: string)
    ensures Tally(s + [x]) == Bump(Tally(s), x)
  {
    assert (s + [x])[..|s|] == s;
  }

  /** Each counted k-mer maps to its number of occurrences; the keys are listed once each. */
  lemma {:induction false} TallyCounts(s: seq<string>)
    ensures forall x :: x in Tally(s).count <==> x in s
    ensures forall x :: x in Tally(s).count ==> Tally(s).count[x] == multiset(s)[x]
    ensures Distinct(Tally(s).order)
    ensures forall x :: x in Tally(s).order <==> x in s
  {
    if s != [] {
      var front, last := s[..|s| - 1], s[|s| - 1];
      assert s == front + [last];
      TallyCounts(front);
      TallyAppend(front, last);
      var t := Tally(front);
      DistinctAppend(t.order, last);
      assert multiset(s) == multiset(front) + multiset{last};
      assert forall x :: x in s <==> x in front || x == last;
    }
  }

  /** The sum of the counts of the listed keys. */
  function SumCounts(order: seq<string>, count: map<string, nat>): nat
    requires forall x :: x in order ==> x in count
  {
    if order == [] then 0 else SumCounts(order[..|order| - 1], count) + count[order[|order| - 1]]
  }

  lemma {:induction false} SumCountsBump(order: seq<string>, count: map<string, nat>, x: string)
    requires forall y :: y in order ==> y in count
    requires x in count && Distinct(order)
    ensures SumCounts(order, count[x := count[x] + 1])
         == SumCounts(order, count) + (if x in order then 1 else 0)
  {
    if order != [] {
      var front := order[..|order| - 1];
      assert order == front + [order[|order| - 1]];
      DistinctAppend(front, order[|order| - 1]);
      SumCountsBump(front, count, x);
    }
  }

  lemma {:induction false} SumCountsFresh(order: seq<string>, count: map<string, nat>, x: string, n: nat)
    requires forall y :: y in order ==> y in count
    requires x !in order
    ensures SumCounts(order, count[x := n]) == SumCounts(order, count)
  {
    if order != [] {
      SumCountsFresh(order[..|order| - 1], count, x, n);
    }
  }

  lemma SumCountsAppend(order: seq<string>, count: map<string, nat>, x: string)
    requires forall y :: y in order ==> y in count
    requires x in count
    ensures forall y :: y in order + [x] ==> y in count
    ensures SumCounts(order + [x], count) == SumCounts(order, count) + count[x]
  {
    assert (order + [x])[..|order|] == order;
  }

  /** The counts add up to the number of k-mers observed. */
  lemma {:induction false} TallySum(s: seq<string>)
    ensures forall x :: x in Tally(s).order ==> x in Tally(s).count
    ensures SumCounts(Tally(s).order, Tally(s).count) == |s|
  {
    TallyCounts(s);
    if s != [] {
      var front, last := s[..|s| - 1], s[|s| - 1];
      assert s == front + [last];
      TallySum(front);
      TallyCounts(front);
      TallyAppend(front, last);
      var t := Tally(front);
      if last in t.count {
        SumCountsBump(t.order, t.count, last);
      } else {
        SumCountsFresh(t.order, t.count, last, 1);
        SumCountsAppend(t.order, t.count[last := 1], last);
      }
    }
  }

  /** The counts of the whole dictionary sum to the sum over reads of max(0, |read| - k + 1). */
  lemma KmerCountsSum(rs: seq<string>, k: nat)
    requires k >= 1
    ensures forall x :: x in Tally(AllKmers(rs, k)).order ==> x in Tally(AllKmers(rs, k)).count
    ensures SumCounts(Tally(AllKmers(rs, k)).order, Tally(AllKmers(rs, k)).count) == WindowTotal(rs, k)
  {
    TallySum(AllKmers(rs, k));
    AllKmersLength(rs, k);
  }

  /** The inner loop of build_kmer_dict: count the k-mers of one read into the dictionary. */
  method CountKmers(t0: KmerTable, ghost seen: seq<string>, windows: seq<string>) returns (t: KmerTable)
    requires t0 == Tally(seen)
    ensures t == Tally(seen + windows)
  {
    t := t0;
    assert seen + windows[..0] == seen;
    for i := 0 to |windows|
      invariant t == Tally(seen + windows[..i])
    {
      var kmer := windows[i];
      TallyAppend(seen + windows[..i], kmer);
      assert seen + windows[..i + 1] == (seen + windows[..i]) + [kmer];
      if kmer in t.count {
        t := t.(count := t.count[kmer := t.count[kmer] + 1]);
      } else {
        t := KmerTable(t.order + [kmer], t.count[kmer := 1]);
      }
    }
    assert windows[..|windows|] == windows;
  }

  /** build_kmer_dict without the file: count every k-mer of every read. */
  method BuildKmerDict(rs: seq<string>, k: nat) returns (t: KmerTable)
    requires k >= 1
    ensures t == Tally(AllKmers(rs, k))
    ensures forall x :: x in t.count <==> x in AllKmers(rs, k)
    ensures forall x :: x in t.count ==> t.count[x] == multiset(AllKmers(rs, k))[x]
  {
    t := KmerTable([], map[]);
    for r := 0 to |rs|
      invariant t == Tally(AllKmers(rs[..r], k))
    {
      t := CountKmers(t, AllKmers(rs[..r], k), CutKmer(rs[r], k));
      assert rs[..r + 1][..r] == rs[..r];
    }
    assert rs[..|rs|] == rs;
    TallyCounts(AllKmers(rs, k));
  }
}
