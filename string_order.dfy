/**
 * The order Python's `sorted` puts strings in: lexicographic by code point, a
 * proper prefix before any of its extensions. It is a strict total order, and
 * sorting a set under it gives the unique ascending sequence of its members.
 */
module StringOrder {

  predicate Less(a: string, b: string)
    decreases |a|
  {
    if |b| == 0 then false
    else if |a| == 0 then true
    else if a[0] != b[0] then a[0] < b[0]
    else Less(a[1..], b[1..])
  }

  lemma {:induction false} LessIrreflexive(a: string)
    ensures !Less(a, a)
    decreases |a|
  {
    if |a| > 0 {
      LessIrreflexive(a[1..]);
    }
  }

  lemma {:induction false} LessTransitive(a: string, b: string, c: string)
    requires Less(a, b) && Less(b, c)
    ensures Less(a, c)
    decreases |a|
  {
    if |a| > 0 && a[0] == b[0] && b[0] == c[0] {
      LessTransitive(a[1..], b[1..], c[1..]);
    }
  }

  lemma {:induction false} LessTotal(a: string, b: string)
    requires a != b
    ensures Less(a, b) || Less(b, a)
    decreases |a|
  {
    if |a| > 0 && |b| > 0 && a[0] == b[0] {
      assert a == [a[0]] + a[1..] && b == [b[0]] + b[1..];
      LessTotal(a[1..], b[1..]);
    }
  }

  lemma {:induction false} LessAsymmetric(a: string, b: string)
    requires Less(a, b)
    ensures !Less(b, a)
    decreases |a|
  {
    if |a| > 0 && a[0] == b[0] {
      LessAsymmetric(a[1..], b[1..]);
    }
  }

  /** Ascending without repeats. */
  predicate StrictlySorted(s: seq<string>) {
    forall i, j :: 0 <= i < j < |s| ==> Less(s[i], s[j])
  }

  /** Inserts `x` into an ascending list, unless it is already there. */
  function Insert(x: string, s: seq<string>): seq<string> {
    if s == [] then [x]
    else if x == s[0] then s
    else if Less(x, s[0]) then [x] + s
    else [s[0]] + Insert(x, s[1..])
  }

  /** Inserting into an ascending list keeps it ascending and adds exactly `x`. */
  lemma {:induction false} InsertSpec(x: string, s: seq<string>)
    requires StrictlySorted(s)
    ensures StrictlySorted(Insert(x, s))
    ensures forall y :: y in Insert(x, s) <==> y == x || y in s
  {
    if s == [] {
    } else if x == s[0] {
    } else if Less(x, s[0]) {
      forall j | 0 < j < |s| ensures Less(x, s[j]) {
        LessTransitive(x, s[0], s[j]);
      }
    } else {
      LessTotal(x, s[0]);
      InsertSpec(x, s[1..]);
      assert forall y :: y in s <==> y == s[0] || y in s[1..];
      var rest := Insert(x, s[1..]);
      assert forall y :: y in rest ==> Less(s[0], y);
      assert Insert(x, s) == [s[0]] + rest;
    }
  }

  /** A strictly sorted list holds as many strings as the set of its members. */
  lemma {:induction false} StrictlySortedCardinality(s: seq<string>)
    requires StrictlySorted(s)
    ensures |set y | y in s| == |s|
  {
    if s != [] {
      StrictlySortedCardinality(s[1..]);
      assert (set y | y in s) == {s[0]} + (set y | y in s[1..]);
      LessIrreflexive(s[0]);
      assert forall j :: 1 <= j < |s| ==> Less(s[0], s[j]);
      assert s[0] !in s[1..];
    }
  }

  /**
   * `sorted(set(a) - set(b))`: each string of `a` that is not in `b`, once,
   * in ascending order (proved in `SortedDifferenceSpec`).
   */
  function SortedDifference(a: seq<string>, b: seq<string>): seq<string> {
    if a == [] then []
    else
      var rest := SortedDifference(a[..|a| - 1], b);
      if a[|a| - 1] in b then rest else Insert(a[|a| - 1], rest)
  }

  lemma {:induction false} SortedDifferenceSpec(a: seq<string>, b: seq<string>)
    ensures StrictlySorted(SortedDifference(a, b))
    ensures forall y :: y in SortedDifference(a, b) <==> y in a && y !in b
  {
    if a != [] {
      SortedDifferenceSpec(a[..|a| - 1], b);
      if a[|a| - 1] !in b {
        InsertSpec(a[|a| - 1], SortedDifference(a[..|a| - 1], b));
      }
      assert forall y :: y in a <==> y in a[..|a| - 1] || y == a[|a| - 1];
    }
  }

  /** The length of `SortedDifference` is the size of the set difference. */
  lemma SortedDifferenceSize(a: seq<string>, b: seq<string>)
    ensures |SortedDifference(a, b)| == |(set y | y in a) - (set y | y in b)|
  {
    var r := SortedDifference(a, b);
    SortedDifferenceSpec(a, b);
    StrictlySortedCardinality(r);
    assert (set y | y in r) == (set y | y in a) - (set y | y in b);
  }

  /** Three-way comparison under `Less`: negative, zero or positive. */
  function Compare(a: string, b: string): (r: int)
    ensures r == 0 <==> a == b
    ensures r < 0 <==> Less(a, b)
    ensures r > 0 <==> Less(b, a)
  {
    LessIrreflexive(a);
    if a == b then 0
    else if Less(a, b) then
      LessAsymmetric(a, b);
      -1
    else
      LessTotal(a, b);
      1
  }
}
