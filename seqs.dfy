/** Sequence facts shared by the change detector and the dashboards. */
module Seqs {

  /** `idx` picks, in increasing positions of `b`, the elements of `a`. */
  ghost predicate Embeds<T>(idx: seq<int>, a: seq<T>, b: seq<T>) {
    && |idx| == |a|
    && (forall i :: 0 <= i < |a| ==> 0 <= idx[i] < |b| && a[i] == b[idx[i]])
    && (forall i, j :: 0 <= i < j < |a| ==> idx[i] < idx[j])
  }

  /** `a` can be obtained from `b` by deleting elements: what is kept stays in input order. */
  ghost predicate Subsequence<T>(a: seq<T>, b: seq<T>) {
    exists idx :: Embeds(idx, a, b)
  }

  lemma SubsequenceEmpty<T>(b: seq<T>)
    ensures Subsequence([], b)
  {
    assert Embeds([], [], b);
  }

  /** Appending to the source keeps an embedding; appending to both extends it. */
  lemma SubsequenceAppend<T>(a: seq<T>, b: seq<T>, x: T)
    requires Subsequence(a, b)
    ensures Subsequence(a, b + [x]) && Subsequence(a + [x], b + [x])
  {
    var idx :| Embeds(idx, a, b);
    assert Embeds(idx, a, b + [x]);
    assert Embeds(idx + [|b|], a + [x], b + [x]);
  }

  /** The same, with the source given whole and its last element split off. */
  lemma SubsequenceSnoc<T>(a: seq<T>, b: seq<T>)
    requires b != [] && Subsequence(a, b[..|b| - 1])
    ensures Subsequence(a, b) && Subsequence(a + [b[|b| - 1]], b)
  {
    SubsequenceAppend(a, b[..|b| - 1], b[|b| - 1]);
    assert b[..|b| - 1] + [b[|b| - 1]] == b;
  }

  /** No element occurs twice. */
  predicate Distinct<T(==)>(s: seq<T>) {
    forall i, j :: 0 <= i < j < |s| ==> s[i] != s[j]
  }

  /** The head of a sequence without repeats is not in its tail, which has no repeats either. */
  lemma DistinctTail<T>(s: seq<T>)
    requires s != [] && Distinct(s)
    ensures s[0] !in s[1..] && Distinct(s[1..])
  {
    forall j | 0 <= j < |s[1..]| ensures s[1..][j] != s[0] {
      assert s[1..][j] == s[j + 1];
    }
  }

  /** Deleting elements from a sequence without repeats leaves one without repeats. */
  lemma SubsequenceDistinct<T>(a: seq<T>, b: seq<T>)
    requires Subsequence(a, b) && Distinct(b)
    ensures Distinct(a)
  {
    var idx :| Embeds(idx, a, b);
    forall i, j | 0 <= i < j < |a| ensures a[i] != a[j] {
      assert idx[i] < idx[j];
    }
  }
}
