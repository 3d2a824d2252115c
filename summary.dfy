/**
 * The summary generator of the service-tag watcher: totals over the latest
 * snapshot, the change list partitioned by record type, a per-region
 * histogram of the changes, and the ten services whose prefixes moved most.
 */
module Summary {
  import opened Wrappers
  import opened Seqs
  import opened Watcher

  /** One `key: count` pair of a Python dict built by counting. */
  datatype Tally<K> = Tally(key: K, count: nat)

  /** The dict's keys, in insertion order. */
  function Keys<K>(t: seq<Tally<K>>): seq<K> {
    if t == [] then [] else [t[0].key] + Keys(t[1..])
  }


  /**
   * `if k not in d: d[k] = 0` followed by `d[k] += n`: the count of an
   * existing key grows in place; a new key is inserted last.
   */
  function Add<K(==)>(t: seq<Tally<K>>, k: K, n: nat): seq<Tally<K>> {
    if t == [] then [Tally(k, n)]
    else if t[0].key == k then [Tally(k, t[0].count + n)] + t[1..]
    else [t[0]] + Add(t[1..], k, n)
  }

  /** `d.get(k, 0)` when the keys are distinct: the sum of the counts filed under `k`. */
  function CountOf<K(==)>(t: seq<Tally<K>>, k: K): nat {
    if t == [] then 0
    else (if t[0].key == k then t[0].count else 0) + CountOf(t[1..], k)
  }

  /** `sum(d.values())` */
  function Total<K>(t: seq<Tally<K>>): nat {
    if t == [] then 0 else t[0].count + Total(t[1..])
  }

  /** Adding under `k` keeps the insertion order of the existing keys and appends `k` when it is new. */
  lemma {:induction false} AddKeys<K>(t: seq<Tally<K>>, k: K, n: nat)
    ensures Keys(Add(t, k, n)) == if k in Keys(t) then Keys(t) else Keys(t) + [k]
  {
    if t != [] {
      assert Keys(t) == [t[0].key] + Keys(t[1..]);
      if t[0].key == k {
        assert Keys(Add(t, k, n)) == [k] + Keys(t[1..]);
      } else {
        AddKeys(t[1..], k, n);
        assert Keys(Add(t, k, n)) == [t[0].key] + Keys(Add(t[1..], k, n));
        assert k in Keys(t) <==> k in Keys(t[1..]);
        if k !in Keys(t[1..]) {
          assert [t[0].key] + (Keys(t[1..]) + [k]) == Keys(t) + [k];
        }
      }
    }
  }

  /** Adding `n` under `k` raises `k`'s count by `n` and leaves every other count alone. */
  lemma {:induction false} AddCount<K>(t: seq<Tally<K>>, k: K, n: nat, j: K)
    ensures CountOf(Add(t, k, n), j) == CountOf(t, j) + (if j == k then n else 0)
  {
    if t != [] && t[0].key != k {
      AddCount(t[1..], k, n, j);
    }
  }

  /** Adding `n` raises the total by `n`. */
  lemma {:induction false} AddTotal<K>(t: seq<Tally<K>>, k: K, n: nat)
    ensures Total(Add(t, k, n)) == Total(t) + n
  {
    if t != [] && t[0].key != k {
      AddTotal(t[1..], k, n);
    }
  }

  /** `len(data.get('values', []))`-weighted sum: the number of prefixes, duplicates included. */
  function TotalIpRanges(vs: seq<ServiceTag>): nat {
    if vs == [] then 0 else TotalIpRanges(vs[..|vs| - 1]) + |vs[|vs| - 1].addressPrefixes|
  }

  /** The total over two lists of entries is the sum of their totals. */
  lemma {:induction false} TotalIpRangesAppend(a: seq<ServiceTag>, b: seq<ServiceTag>)
    ensures TotalIpRanges(a + b) == TotalIpRanges(a) + TotalIpRanges(b)
    decreases |b|
  {
    if b != [] {
      assert (a + b)[..|a + b| - 1] == a + b[..|b| - 1];
      assert (a + b)[|a + b| - 1] == b[|b| - 1];
      TotalIpRangesAppend(a, b[..|b| - 1]);
    } else {
      assert a + b == a;
    }
  }

  /** `[c for c in changes if c['type'] == t]` */
  function OfType(changes: seq<Change>, t: string): seq<Change> {
    if changes == [] then []
    else OfType(changes[..|changes| - 1], t)
         + (if TypeName(changes[|changes| - 1]) == t then [changes[|changes| - 1]] else [])
  }

  /** Every record has exactly one of the three types, so the three partitions add up. */
  lemma {:induction false} TypePartition(changes: seq<Change>)
    ensures |OfType(changes, "ip_changes")| + |OfType(changes, "service_added")|
            + |OfType(changes, "service_removed")| == |changes|
  {
    if changes != [] {
      TypePartition(changes[..|changes| - 1]);
    }
  }

  /** The `ip_changes` partition holds exactly the `IpChanges` records, in order. */
  lemma {:induction false} IpChangesPartition(changes: seq<Change>)
    ensures forall c :: c in OfType(changes, "ip_changes") <==> c in changes && c.IpChanges?
    ensures Subsequence(OfType(changes, "ip_changes"), changes)
  {
    if changes == [] {
      SubsequenceEmpty<Change>([]);
    } else {
      var init := changes[..|changes| - 1];
      var last := changes[|changes| - 1];
      IpChangesPartition(init);
      assert changes == init + [last];
      assert forall c :: c in changes <==> c in init || c == last;
      SubsequenceAppend(OfType(init, "ip_changes"), init, last);
      if TypeName(last) == "ip_changes" {
        assert OfType(changes, "ip_changes") == OfType(init, "ip_changes") + [last];
      } else {
        assert OfType(changes, "ip_changes") == OfType(init, "ip_changes");
      }
    }
  }

  /** The `regional_changes` loop: one increment per record, under its region value. */
  function RegionalCounts(changes: seq<Change>): seq<Tally<Option<string>>> {
    if changes == [] then []
    else Add(RegionalCounts(changes[..|changes| - 1]), changes[|changes| - 1].region, 1)
  }

  /** How many records carry region `r`. */
  function RegionOccurrences(changes: seq<Change>, r: Option<string>): nat {
    if changes == [] then 0
    else RegionOccurrences(changes[..|changes| - 1], r) + (if changes[|changes| - 1].region == r then 1 else 0)
  }

  /**
   * The region histogram has one key per region value that occurs, listed
   * once each; its count for a region is the number of records carrying that
   * region; and the counts add up to the number of records.
   */
  lemma RegionalCountsSpec(changes: seq<Change>)
    ensures Distinct(Keys(RegionalCounts(changes)))
    ensures forall r :: r in Keys(RegionalCounts(changes)) <==> exists c :: c in changes && c.region == r
    ensures forall r :: CountOf(RegionalCounts(changes), r) == RegionOccurrences(changes, r)
    ensures Total(RegionalCounts(changes)) == |changes|
  {
    RegionalCountsKeys(changes);
    RegionalCountsTotal(changes);
    forall r ensures CountOf(RegionalCounts(changes), r) == RegionOccurrences(changes, r) {
      RegionalCountsCount(changes, r);
    }
  }

  lemma {:induction false} RegionalCountsKeys(changes: seq<Change>)
    ensures Distinct(Keys(RegionalCounts(changes)))
    ensures forall r :: r in Keys(RegionalCounts(changes)) <==> exists c :: c in changes && c.region == r
  {
    if changes != [] {
      var init := changes[..|changes| - 1];
      var last := changes[|changes| - 1];
      RegionalCountsKeys(init);
      AddKeys(RegionalCounts(init), last.region, 1);
      assert forall c :: c in changes <==> c in init || c == last;
    }
  }

  lemma {:induction false} RegionalCountsCount(changes: seq<Change>, r: Option<string>)
    ensures CountOf(RegionalCounts(changes), r) == RegionOccurrences(changes, r)
  {
    if changes != [] {
      var init := changes[..|changes| - 1];
      RegionalCountsCount(init, r);
      AddCount(RegionalCounts(init), changes[|changes| - 1].region, 1, r);
    }
  }

  lemma {:induction false} RegionalCountsTotal(changes: seq<Change>)
    ensures Total(RegionalCounts(changes)) == |changes|
  {
    if changes != [] {
      var init := changes[..|changes| - 1];
      RegionalCountsTotal(init);
      AddTotal(RegionalCounts(init), changes[|changes| - 1].region, 1);
    }
  }

  /** The `service_activity` loop over the `ip_changes` records. */
  function ServiceActivity(ipChanges: seq<Change>): seq<Tally<string>> {
    if ipChanges == [] then []
    else
      var c := ipChanges[|ipChanges| - 1];
      Add(ServiceActivity(ipChanges[..|ipChanges| - 1]), c.service, Activity(c))
  }

  /** `change['added_count'] + change['removed_count']` of an `ip_changes` record. */
  function Activity(c: Change): nat {
    if c.IpChanges? then c.addedCount + c.removedCount else 0
  }

  /** The activity of service `s` summed over its records. */
  function ActivityOf(ipChanges: seq<Change>, s: string): nat {
    if ipChanges == [] then 0
    else
      var c := ipChanges[|ipChanges| - 1];
      ActivityOf(ipChanges[..|ipChanges| - 1], s) + (if c.service == s then Activity(c) else 0)
  }

  /**
   * `service_activity` has one key per service of the records, listed once
   * each, and maps it to the sum of that service's added and removed counts.
   */
  lemma ServiceActivitySpec(ipChanges: seq<Change>)
    ensures Distinct(Keys(ServiceActivity(ipChanges)))
    ensures forall s :: s in Keys(ServiceActivity(ipChanges)) <==> s in Services(ipChanges)
    ensures forall s :: CountOf(ServiceActivity(ipChanges), s) == ActivityOf(ipChanges, s)
  {
    ServiceActivityKeys(ipChanges);
    forall s ensures CountOf(ServiceActivity(ipChanges), s) == ActivityOf(ipChanges, s) {
      ServiceActivityCount(ipChanges, s);
    }
  }

  lemma {:induction false} ServiceActivityKeys(ipChanges: seq<Change>)
    ensures Distinct(Keys(ServiceActivity(ipChanges)))
    ensures forall s :: s in Keys(ServiceActivity(ipChanges)) <==> s in Services(ipChanges)
  {
    if ipChanges != [] {
      var init := ipChanges[..|ipChanges| - 1];
      var c := ipChanges[|ipChanges| - 1];
      ServiceActivityKeys(init);
      AddKeys(ServiceActivity(init), c.service, Activity(c));
      assert Services(ipChanges) == Services(init) + [c.service];
    }
  }

  lemma {:induction false} ServiceActivityCount(ipChanges: seq<Change>, s: string)
    ensures CountOf(ServiceActivity(ipChanges), s) == ActivityOf(ipChanges, s)
  {
    if ipChanges != [] {
      var init := ipChanges[..|ipChanges| - 1];
      var c := ipChanges[|ipChanges| - 1];
      ServiceActivityCount(init, s);
      AddCount(ServiceActivity(init), c.service, Activity(c), s);
    }
  }

  /** Counts never increase from left to right. */
  ghost predicate NonIncreasing<K>(s: seq<Tally<K>>) {
    forall i, j :: 0 <= i < j < |s| ==> s[i].count >= s[j].count
  }

  /** The entries of `s` whose count is `n`, in order. */
  function WithCount<K>(s: seq<Tally<K>>, n: nat): seq<Tally<K>> {
    if s == [] then []
    else (if s[0].count == n then [s[0]] else []) + WithCount(s[1..], n)
  }

  lemma {:induction false} WithCountAppend<K>(a: seq<Tally<K>>, b: seq<Tally<K>>, n: nat)
    ensures WithCount(a + b, n) == WithCount(a, n) + WithCount(b, n)
  {
    if a != [] {
      assert (a + b)[1..] == a[1..] + b;
      assert (a + b)[0] == a[0];
      WithCountAppend(a[1..], b, n);
    } else {
      assert a + b == b;
    }
  }

  /** Places `x` after every entry whose count is at least its own. */
  function InsertByCount<K>(x: Tally<K>, s: seq<Tally<K>>): seq<Tally<K>> {
    if s == [] then [x]
    else if s[0].count >= x.count then [s[0]] + InsertByCount(x, s[1..])
    else [x] + s
  }

  lemma {:induction false} InsertByCountSpec<K>(x: Tally<K>, s: seq<Tally<K>>)
    requires NonIncreasing(s)
    ensures NonIncreasing(InsertByCount(x, s))
    ensures multiset(InsertByCount(x, s)) == multiset(s) + multiset{x}
    ensures forall n :: WithCount(InsertByCount(x, s), n) == WithCount(s, n) + (if x.count == n then [x] else [])
  {
    InsertByCountOrder(x, s);
    forall n ensures WithCount(InsertByCount(x, s), n) == WithCount(s, n) + (if x.count == n then [x] else []) {
      InsertByCountWithCount(x, s, n);
    }
  }

  lemma {:induction false} InsertByCountOrder<K>(x: Tally<K>, s: seq<Tally<K>>)
    requires NonIncreasing(s)
    ensures NonIncreasing(InsertByCount(x, s))
    ensures multiset(InsertByCount(x, s)) == multiset(s) + multiset{x}
  {
    InsertByCountMultiset(x, s);
    InsertByCountNonIncreasing(x, s);
  }

  lemma {:induction false} InsertByCountMultiset<K>(x: Tally<K>, s: seq<Tally<K>>)
    ensures multiset(InsertByCount(x, s)) == multiset(s) + multiset{x}
  {
    if s != [] && s[0].count >= x.count {
      InsertByCountMultiset(x, s[1..]);
      assert s == [s[0]] + s[1..];
      assert InsertByCount(x, s) == [s[0]] + InsertByCount(x, s[1..]);
    }
  }

  lemma {:induction false} InsertByCountNonIncreasing<K>(x: Tally<K>, s: seq<Tally<K>>)
    requires NonIncreasing(s)
    ensures NonIncreasing(InsertByCount(x, s))
  {
    if s == [] {
    } else if s[0].count >= x.count {
      assert NonIncreasing(s[1..]);
      InsertByCountNonIncreasing(x, s[1..]);
      var rest := InsertByCount(x, s[1..]);
      assert rest[0] == x || rest[0] == s[1];
      ConsNonIncreasing(s[0], rest);
    } else {
      ConsNonIncreasing(x, s);
    }
  }

  /** A list stays non-increasing when an entry at least as large as its head is put in front. */
  lemma ConsNonIncreasing<K>(y: Tally<K>, t: seq<Tally<K>>)
    requires NonIncreasing(t) && (t != [] ==> t[0].count <= y.count)
    ensures NonIncreasing([y] + t)
  {
    forall i, j | 0 <= i < j < |[y] + t| ensures ([y] + t)[i].count >= ([y] + t)[j].count {
      if i == 0 && j > 1 {
        assert t[0].count >= t[j - 1].count;
      }
    }
  }

  lemma {:induction false} InsertByCountWithCount<K>(x: Tally<K>, s: seq<Tally<K>>, n: nat)
    requires NonIncreasing(s)
    ensures WithCount(InsertByCount(x, s), n) == WithCount(s, n) + (if x.count == n then [x] else [])
  {
    if s == [] {
    } else if s[0].count >= x.count {
      var r := InsertByCount(x, s[1..]);
      var head := if s[0].count == n then [s[0]] else [];
      assert NonIncreasing(s[1..]) by {
        forall i, j | 0 <= i < j < |s[1..]| ensures s[1..][i].count >= s[1..][j].count {
          assert s[1..][i] == s[i + 1] && s[1..][j] == s[j + 1];
        }
      }
      InsertByCountWithCount(x, s[1..], n);
      assert ([s[0]] + r)[1..] == r && ([s[0]] + r)[0] == s[0];
      assert WithCount([s[0]] + r, n) == head + WithCount(r, n);
      assert WithCount(s, n) == head + WithCount(s[1..], n);
    } else {
      if x.count == n {
        WithCountBelow(s, n);
      }
      assert InsertByCount(x, s) == [x] + s;
      assert ([x] + s)[1..] == s;
    }
  }

  /** No entry of a non-increasing list reaches `n` when its head does not. */
  lemma {:induction false} WithCountBelow<K>(s: seq<Tally<K>>, n: nat)
    requires NonIncreasing(s) && s != [] && s[0].count < n
    ensures WithCount(s, n) == []
  {
    if |s| > 1 {
      WithCountBelow(s[1..], n);
    }
  }

  /**
   * `sorted(items, key=count, reverse=True)`: Python's sort is stable even in
   * reverse, so entries with equal counts keep their insertion order.
   */
  function SortByCountDesc<K>(s: seq<Tally<K>>): seq<Tally<K>> {
    if s == [] then [] else InsertByCount(s[|s| - 1], SortByCountDesc(s[..|s| - 1]))
  }

  /**
   * The sort returns a permutation of its input with non-increasing counts,
   * and keeps the input order among entries of equal count (stability).
   */
  lemma SortByCountDescSpec<K>(s: seq<Tally<K>>)
    ensures NonIncreasing(SortByCountDesc(s))
    ensures multiset(SortByCountDesc(s)) == multiset(s)
    ensures forall n :: WithCount(SortByCountDesc(s), n) == WithCount(s, n)
  {
    SortByCountDescOrder(s);
    forall n ensures WithCount(SortByCountDesc(s), n) == WithCount(s, n) {
      SortByCountDescStable(s, n);
    }
  }

  lemma SortByCountDescOrder<K>(s: seq<Tally<K>>)
    ensures NonIncreasing(SortByCountDesc(s))
    ensures multiset(SortByCountDesc(s)) == multiset(s)
  {
    SortByCountDescNonIncreasing(s);
    SortByCountDescPermutes(s);
  }

  lemma {:induction false} SortByCountDescNonIncreasing<K>(s: seq<Tally<K>>)
    ensures NonIncreasing(SortByCountDesc(s))
  {
    if s != [] {
      SortByCountDescNonIncreasing(s[..|s| - 1]);
      InsertByCountNonIncreasing(s[|s| - 1], SortByCountDesc(s[..|s| - 1]));
    }
  }

  lemma {:induction false} SortByCountDescPermutes<K>(s: seq<Tally<K>>)
    ensures multiset(SortByCountDesc(s)) == multiset(s)
  {
    if s != [] {
      var init := s[..|s| - 1];
      var x := s[|s| - 1];
      SortByCountDescPermutes(init);
      InsertByCountMultiset(x, SortByCountDesc(init));
      assert s == init + [x];
    }
  }

  lemma {:induction false} SortByCountDescStable<K>(s: seq<Tally<K>>, n: nat)
    ensures WithCount(SortByCountDesc(s), n) == WithCount(s, n)
  {
    if s != [] {
      var init := s[..|s| - 1];
      var x := s[|s| - 1];
      var extra := if x.count == n then [x] else [];
      SortByCountDescStable(init, n);
      SortByCountDescNonIncreasing(init);
      InsertByCountWithCount(x, SortByCountDesc(init), n);
      assert WithCount(SortByCountDesc(s), n) == WithCount(init, n) + extra;
      assert s == init + [x];
      WithCountAppend(init, [x], n);
      assert WithCount([x], n) == extra;
    }
  }

  /** `[:10]` */
  function Top10<T>(s: seq<T>): seq<T> {
    if |s| <= 10 then s else s[..10]
  }

  /** `top_active_services`: the ten most active services, most active first. */
  function TopActive(activity: seq<Tally<string>>): seq<Tally<string>> {
    Top10(SortByCountDesc(activity))
  }

  /**
   * The first `min(10, len)` entries of the ranking, non-increasing in
   * count, each an entry of the activity dict, and no entry left out is
   * more active than one kept.
   */
  lemma TopActiveSpec(activity: seq<Tally<string>>)
    ensures |TopActive(activity)| == if |activity| <= 10 then |activity| else 10
    ensures TopActive(activity) == SortByCountDesc(activity)[..|TopActive(activity)|]
    ensures NonIncreasing(TopActive(activity))
    ensures forall e :: e in TopActive(activity) ==> e in activity
    ensures forall e, t :: e in activity && e !in TopActive(activity) && t in TopActive(activity) ==> e.count <= t.count
  {
    TopActiveRanked(activity);
    forall e | e in TopActive(activity) ensures e in activity {
      TopActiveMember(activity, e);
    }
    forall e, t | e in activity && e !in TopActive(activity) && t in TopActive(activity) ensures e.count <= t.count {
      TopActiveDominates(activity, e, t);
    }
  }

  /**
   * The ranking keeps the first `min(10, len)` entries of the sorted
   * activity, most active first.
   */
  lemma TopActiveRanked(activity: seq<Tally<string>>)
    ensures |TopActive(activity)| == if |activity| <= 10 then |activity| else 10
    ensures TopActive(activity) == SortByCountDesc(activity)[..|TopActive(activity)|]
    ensures NonIncreasing(TopActive(activity))
  {
    var sorted := SortByCountDesc(activity);
    SortByCountDescNonIncreasing(activity);
    SortByCountDescPermutes(activity);
    assert |sorted| == |multiset(sorted)| == |multiset(activity)| == |activity|;
    forall i, j | 0 <= i < j < |TopActive(activity)|
      ensures TopActive(activity)[i].count >= TopActive(activity)[j].count
    {
      assert TopActive(activity)[i] == sorted[i] && TopActive(activity)[j] == sorted[j];
    }
  }

  lemma TopActiveMember(activity: seq<Tally<string>>, e: Tally<string>)
    requires e in TopActive(activity)
    ensures e in activity
  {
    SortByCountDescOrder(activity);
    assert e in SortByCountDesc(activity);
    assert e in multiset(SortByCountDesc(activity));
  }

  lemma TopActiveDominates(activity: seq<Tally<string>>, e: Tally<string>, t: Tally<string>)
    requires e in activity && e !in TopActive(activity) && t in TopActive(activity)
    ensures e.count <= t.count
  {
    var sorted := SortByCountDesc(activity);
    SortByCountDescOrder(activity);
    assert e in multiset(sorted);
    var j :| 0 <= j < |sorted| && sorted[j] == e;
    var i :| 0 <= i < |TopActive(activity)| && TopActive(activity)[i] == t;
    assert sorted[i] == t;
    assert j >= 10;
  }

  /** With distinct keys, `d[e.key]` is the count stored with `e`. */
  lemma {:induction false} CountOfDistinct<K>(t: seq<Tally<K>>, e: Tally<K>)
    requires Distinct(Keys(t)) && e in t
    ensures CountOf(t, e.key) == e.count
  {
    assert Keys(t)[1..] == Keys(t[1..]);
    DistinctTail(Keys(t));
    if t[0] == e {
      CountOfAbsent(t[1..], e.key);
    } else {
      KeysMember(t[1..], e);
      CountOfDistinct(t[1..], e);
    }
  }

  lemma {:induction false} CountOfAbsent<K>(t: seq<Tally<K>>, k: K)
    requires k !in Keys(t)
    ensures CountOf(t, k) == 0
  {
    if t != [] {
      CountOfAbsent(t[1..], k);
    }
  }

  lemma {:induction false} KeysMember<K>(t: seq<Tally<K>>, e: Tally<K>)
    requires e in t
    ensures e.key in Keys(t)
  {
    if t[0] != e {
      KeysMember(t[1..], e);
    }
  }

  /** A subsequence of records names a subsequence of services. */
  lemma ServicesSubsequence(a: seq<Change>, b: seq<Change>)
    requires Subsequence(a, b)
    ensures Subsequence(Services(a), Services(b))
  {
    var idx :| Embeds(idx, a, b);
    assert Embeds(idx, Services(a), Services(b));
  }

  /** When no two records share a service, a service's activity is its one record's. */
  lemma {:induction false} ActivityOfUnique(ipChanges: seq<Change>, c: Change)
    requires Distinct(Services(ipChanges)) && c in ipChanges
    ensures ActivityOf(ipChanges, c.service) == Activity(c)
  {
    var init := ipChanges[..|ipChanges| - 1];
    var last := ipChanges[|ipChanges| - 1];
    assert Services(init) == Services(ipChanges)[..|ipChanges| - 1];
    if last == c {
      ActivityOfAbsent(init, c.service);
    } else {
      assert c in init;
      ActivityOfUnique(init, c);
      var i :| 0 <= i < |init| && init[i] == c;
      assert Services(ipChanges)[i] != Services(ipChanges)[|ipChanges| - 1];
    }
  }

  lemma {:induction false} ActivityOfAbsent(ipChanges: seq<Change>, s: string)
    requires s !in Services(ipChanges)
    ensures ActivityOf(ipChanges, s) == 0
  {
    if ipChanges != [] {
      var init := ipChanges[..|ipChanges| - 1];
      assert Services(init) == Services(ipChanges)[..|ipChanges| - 1];
      ActivityOfAbsent(init, s);
    }
  }

  /** An entry of the activity dict of records with distinct services is one record's activity. */
  lemma ActivityEntry(ips: seq<Change>, t: Tally<string>)
    requires Distinct(Services(ips)) && t in ServiceActivity(ips)
    ensures exists c :: c in ips && c.service == t.key && t.count == Activity(c)
  {
    var activity := ServiceActivity(ips);
    ServiceActivityKeys(ips);
    ServiceActivityCount(ips, t.key);
    CountOfDistinct(activity, t);
    KeysMember(activity, t);
    assert t.key in Services(ips);
    var j :| 0 <= j < |ips| && Services(ips)[j] == t.key;
    ActivityOfUnique(ips, ips[j]);
  }

  /**
   * For a change list in which no service appears twice, every ranked entry
   * is the service of one `ip_changes` record of the list, and its activity
   * is that record's added count plus its removed count.
   */
  lemma TopActiveOfDistinct(changes: seq<Change>)
    requires Distinct(Services(changes))
    ensures forall t :: t in TopActive(ServiceActivity(OfType(changes, "ip_changes"))) ==>
              exists c :: c in changes && c.IpChanges? && c.service == t.key
                          && t.count == c.addedCount + c.removedCount
  {
    forall t | t in TopActive(ServiceActivity(OfType(changes, "ip_changes")))
      ensures exists c :: c in changes && c.IpChanges? && c.service == t.key
                          && t.count == c.addedCount + c.removedCount
    {
      TopActiveEntryOfDistinct(changes, t);
    }
  }

  lemma TopActiveEntryOfDistinct(changes: seq<Change>, t: Tally<string>)
    requires Distinct(Services(changes))
    requires t in TopActive(ServiceActivity(OfType(changes, "ip_changes")))
    ensures exists c :: c in changes && c.IpChanges? && c.service == t.key
                        && t.count == c.addedCount + c.removedCount
  {
    var ips := OfType(changes, "ip_changes");
    IpChangesPartition(changes);
    ServicesSubsequence(ips, changes);
    SubsequenceDistinct(Services(ips), Services(changes));
    TopActiveMember(ServiceActivity(ips), t);
    ActivityEntry(ips, t);
    var c :| c in ips && c.service == t.key && t.count == Activity(c);
    assert c in changes && c.IpChanges?;
    assert t.count == c.addedCount + c.removedCount;
  }

  /** The ranking of a detected change list reports each service's own record. */
  lemma DetectedTopActive(oldData: Option<Document>, newData: Document)
    ensures var changes := ChangesBetween(oldData, newData);
            forall t :: t in TopActive(ServiceActivity(OfType(changes, "ip_changes"))) ==>
              exists c :: c in changes && c.IpChanges? && c.service == t.key
                          && t.count == c.addedCount + c.removedCount
  {
    if HasPreviousData(oldData) {
      ChangesOrderedAndUnique(oldData, newData);
    }
    TopActiveOfDistinct(ChangesBetween(oldData, newData));
  }

  /** The summary document, without its `last_updated` timestamp. */
  datatype SummaryStats = SummaryStats(
    totalServices: nat,
    totalIpRanges: nat,
    changesThisWeek: nat,
    ipChanges: nat,
    serviceAdditions: nat,
    serviceRemovals: nat,
    regionalChanges: seq<Tally<Option<string>>>,
    topActiveServices: seq<Tally<string>>)

  /** The loop over the change list that fills `regional_changes`. */
  method CountByRegion(changes: seq<Change>) returns (regionalChanges: seq<Tally<Option<string>>>)
    ensures regionalChanges == RegionalCounts(changes)
  {
    regionalChanges := [];
    var i := 0;
    while i < |changes|
      invariant 0 <= i <= |changes|
      invariant regionalChanges == RegionalCounts(changes[..i])
    {
      assert changes[..i + 1][..i] == changes[..i];
      regionalChanges := Add(regionalChanges, changes[i].region, 1);
      i := i + 1;
    }
    assert changes[..i] == changes;
  }

  /** The loop over the `ip_changes` records that fills `service_activity`. */
  method CountServiceActivity(ipChanges: seq<Change>) returns (serviceActivity: seq<Tally<string>>)
    ensures serviceActivity == ServiceActivity(ipChanges)
  {
    serviceActivity := [];
    var j := 0;
    while j < |ipChanges|
      invariant 0 <= j <= |ipChanges|
      invariant serviceActivity == ServiceActivity(ipChanges[..j])
    {
      assert ipChanges[..j + 1][..j] == ipChanges[..j];
      var change := ipChanges[j];
      serviceActivity := Add(serviceActivity, change.service, Activity(change));
      j := j + 1;
    }
    assert ipChanges[..j] == ipChanges;
  }

  /** `generate_summary_stats(data, changes)` */
  method GenerateSummaryStats(data: Document, changes: seq<Change>) returns (s: SummaryStats)
    ensures s.totalServices == |Values(data)|
    ensures s.totalIpRanges == TotalIpRanges(Values(data))
    ensures s.changesThisWeek == |changes|
    ensures s.ipChanges == |OfType(changes, "ip_changes")|
    ensures s.serviceAdditions == |OfType(changes, "service_added")|
    ensures s.serviceRemovals == |OfType(changes, "service_removed")|
    ensures s.regionalChanges == RegionalCounts(changes)
    ensures s.topActiveServices == TopActive(ServiceActivity(OfType(changes, "ip_changes")))
    ensures s.ipChanges + s.serviceAdditions + s.serviceRemovals == s.changesThisWeek
    ensures Total(s.regionalChanges) == s.changesThisWeek
    ensures var activity := ServiceActivity(OfType(changes, "ip_changes"));
            && |s.topActiveServices| == (if |activity| <= 10 then |activity| else 10)
            && NonIncreasing(s.topActiveServices)
  {
    var values := Values(data);
    var totalServices := |values|;
    var totalIpRanges := TotalIpRanges(values);

    var ipChanges := OfType(changes, "ip_changes");
    var serviceAdditions := OfType(changes, "service_added");
    var serviceRemovals := OfType(changes, "service_removed");

    var regionalChanges := CountByRegion(changes);
    var serviceActivity := CountServiceActivity(ipChanges);

    var topActiveServices := TopActive(serviceActivity);
    TypePartition(changes);
    RegionalCountsTotal(changes);
    TopActiveRanked(serviceActivity);
    s := SummaryStats(totalServices, totalIpRanges, |changes|, |ipChanges|, |serviceAdditions|,
                      |serviceRemovals|, regionalChanges, topActiveServices);
  }
}
