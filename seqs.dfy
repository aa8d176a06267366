/** Small facts about sequences of strings shared by the whole model. */
module Seqs {

  /** No element occurs twice. */
  ghost predicate Distinct<T>(s: seq<T>)
  {
    |s| == 0 || (s[0] !in s[1..] && Distinct(s[1..]))
  }

  /** Distinct in terms of positions: two different positions hold different elements. */
  lemma {:induction false} DistinctIndex<T>(s: seq<T>)
    ensures Distinct(s) <==> forall i, j :: 0 <= i < j < |s| ==> s[i] != s[j]
  {
    if |s| > 0 {
      DistinctIndex(s[1..]);
      if Distinct(s) {
        forall i, j | 0 <= i < j < |s| ensures s[i] != s[j] {
          if i == 0 {
            assert s[j] == s[1..][j - 1];
          } else {
            assert s[i] == s[1..][i - 1] && s[j] == s[1..][j - 1];
          }
        }
      }
      if forall i, j :: 0 <= i < j < |s| ==> s[i] != s[j] {
        forall i, j | 0 <= i < j < |s[1..]| ensures s[1..][i] != s[1..][j] {
          assert s[1..][i] == s[i + 1] && s[1..][j] == s[j + 1];
        }
      }
    }
  }

  /** a is b with some elements dropped and the others kept in their order. */
  ghost predicate IsSubsequence<T>(a: seq<T>, b: seq<T>)
    decreases |b|
  {
    || a == []
    || (&& b != []
        && ((a[|a| - 1] == b[|b| - 1] && IsSubsequence(a[..|a| - 1], b[..|b| - 1]))
            || IsSubsequence(a, b[..|b| - 1])))
  }

  /** Dropping an element in front of b keeps a a subsequence. */
  lemma {:induction false} SubDrop<T>(a: seq<T>, b: seq<T>, x: T)
    requires IsSubsequence(a, b)
    ensures IsSubsequence(a, [x] + b)
    decreases |b|
  {
    if a != [] {
      var xb := [x] + b;
      assert xb[|xb| - 1] == b[|b| - 1];
      assert xb[..|xb| - 1] == [x] + b[..|b| - 1];
      if a[|a| - 1] == b[|b| - 1] && IsSubsequence(a[..|a| - 1], b[..|b| - 1]) {
        SubDrop(a[..|a| - 1], b[..|b| - 1], x);
      } else {
        SubDrop(a, b[..|b| - 1], x);
      }
    }
  }

  /** Keeping the same element in front of both keeps a a subsequence. */
  lemma {:induction false} SubKeep<T>(a: seq<T>, b: seq<T>, x: T)
    requires IsSubsequence(a, b)
    ensures IsSubsequence([x] + a, [x] + b)
    decreases |b|
  {
    var xa, xb := [x] + a, [x] + b;
    if b == [] {
      assert xa == [x] && xb == [x];
      assert xa[..0] == [];
    } else if a == [] {
      assert xb[..|xb| - 1] == [x] + b[..|b| - 1];
      SubKeep(a, b[..|b| - 1], x);
    } else {
      assert xa[|xa| - 1] == a[|a| - 1] && xb[|xb| - 1] == b[|b| - 1];
      assert xa[..|xa| - 1] == [x] + a[..|a| - 1];
      assert xb[..|xb| - 1] == [x] + b[..|b| - 1];
      if a[|a| - 1] == b[|b| - 1] && IsSubsequence(a[..|a| - 1], b[..|b| - 1]) {
        SubKeep(a[..|a| - 1], b[..|b| - 1], x);
      } else {
        SubKeep(a, b[..|b| - 1], x);
      }
    }
  }

  /** The set of elements of a sequence. */
  function Elems<T>(s: seq<T>): set<T>
  {
    set x | x in s
  }

  lemma {:induction false} DistinctConcat<T>(a: seq<T>, b: seq<T>)
    ensures Distinct(a + b) <==> Distinct(a) && Distinct(b) && Elems(a) !! Elems(b)
  {
    if a == [] {
      assert a + b == b;
    } else {
      DistinctConcat(a[1..], b);
      assert (a + b)[1..] == a[1..] + b;
      assert Elems(a) == {a[0]} + Elems(a[1..]);
    }
  }

  /** Appending keeps a sequence free of repeats exactly when the element is new. */
  lemma DistinctAppend<T>(s: seq<T>, x: T)
    ensures Distinct(s + [x]) <==> Distinct(s) && x !in s
  {
    DistinctConcat(s, [x]);
    assert Elems([x]) == {x};
    assert x in s <==> x in Elems(s);
  }

  lemma ElemsConcat<T>(a: seq<T>, b: seq<T>)
    ensures Elems(a + b) == Elems(a) + Elems(b)
  {
  }

  /** A proper subset is strictly smaller. */
  lemma SubsetSmaller<T>(A: set<T>, B: set<T>)
    requires A <= B && !(B <= A)
    ensures |A| < |B|
  {
    var x :| x in B && x !in A;
    assert x in B - A;
    assert A - B == {} && B * A == A && B + A == B;
    assert |B - A| + |A - B| + |B * A| == |B + A|;
  }
}

/** The failures the source can raise, and a result type carrying them. */
module Outcomes {

  datatype Option<T> = None | Some(value: T)

  /** What goes wrong in the assembler's core, named after the exception the source raises. */
  datatype Fault =
    | NodeNotFound(node: Option<string>)  // has_path or all_simple_paths on a node that is not in the graph
    | NodeMissing(missing: string)         // remove_node on a node already removed
    | StatisticsError                     // mean of no values, stdev of fewer than two
    | FuelExhausted                       // the model's bound on rounds of simplification
    | IndexError                          // a_path[0] or node[-1] on an empty sequence

  datatype Result<T> = Ok(value: T) | Err(fault: Fault)
}
