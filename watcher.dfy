/**
 * The change detector of the service-tag watcher: two snapshots of the
 * published service-tag document are compared service by service, and one
 * change record is produced for every service that was added, removed, or
 * whose set of address prefixes changed.
 */
module Watcher {
  import opened Wrappers
  import opened Seqs
  import opened StringOrder

  /**
   * One element of the document's `values` array. A missing `properties`
   * block reads as no region, no system service and no prefixes.
   */
  datatype ServiceTag = ServiceTag(
    name: string,
    region: Option<string>,
    systemService: Option<string>,
    addressPrefixes: seq<string>)

  /**
   * The downloaded document, as far as the detector looks at it: the
   * `values` array, which may be missing, and whether any other top-level key
   * is present (which only matters for the document's truthiness).
   */
  datatype Document = Document(values: Option<seq<ServiceTag>>, hasOtherKeys: bool)

  /** `data.get('values', [])` */
  function Values(d: Document): seq<ServiceTag> {
    d.values.GetOr([])
  }

  /** Python truthiness of `old_data`: `None` and a dict without keys are false. */
  predicate HasPreviousData(oldData: Option<Document>) {
    oldData.Some? && (oldData.value.values.Some? || oldData.value.hasOtherKeys)
  }

  /** The three record shapes `detect_changes` builds. Every record carries a region key. */
  datatype Change =
    | ServiceAdded(service: string, ipCount: nat, region: Option<string>, systemService: Option<string>)
    | IpChanges(
        service: string,
        addedPrefixes: seq<string>,
        removedPrefixes: seq<string>,
        addedCount: nat,
        removedCount: nat,
        region: Option<string>,
        systemService: Option<string>)
    | ServiceRemoved(service: string, region: Option<string>, systemService: Option<string>)

  /** The record's `type` field. */
  function TypeName(c: Change): string {
    match c
    case ServiceAdded(_, _, _, _) => "service_added"
    case IpChanges(_, _, _, _, _, _, _) => "ip_changes"
    case ServiceRemoved(_, _, _) => "service_removed"
  }

  /** The `service` fields of a list of records, in order. */
  function Services(cs: seq<Change>): (names: seq<string>)
    ensures |names| == |cs|
    ensures forall i :: 0 <= i < |cs| ==> names[i] == cs[i].service
  {
    seq(|cs|, i requires 0 <= i < |cs| => cs[i].service)
  }

  /** A Python dict keyed by service name: its keys in insertion order, and its contents. */
  datatype ServiceIndex = ServiceIndex(order: seq<string>, byName: map<string, ServiceTag>)

  /** The names that occur in `vs`. */
  ghost function NameSet(vs: seq<ServiceTag>): set<string> {
    set i | 0 <= i < |vs| :: vs[i].name
  }

  /** No later entry of `vs` has the name of entry `i`. */
  ghost predicate LastWithName(vs: seq<ServiceTag>, i: int)
    requires 0 <= i < |vs|
  {
    forall j :: i < j < |vs| ==> vs[j].name != vs[i].name
  }

  /**
   * `{v['name']: v for v in values}`: one key per name, in order of first
   * occurrence, and for a repeated name the last entry wins.
   */
  function IndexByName(vs: seq<ServiceTag>): (r: ServiceIndex)
    ensures |r.order| <= |vs|
  {
    if vs == [] then ServiceIndex([], map[])
    else
      var prev := IndexByName(vs[..|vs| - 1]);
      var v := vs[|vs| - 1];
      ServiceIndex(
        if v.name in prev.byName then prev.order else prev.order + [v.name],
        prev.byName[v.name := v])
  }

  /** The dict has one key per name occurring in `vs`, each key listed once. */
  lemma {:induction false} IndexByNameKeys(vs: seq<ServiceTag>)
    ensures forall k :: k in IndexByName(vs).order <==> k in IndexByName(vs).byName
    ensures IndexByName(vs).byName.Keys == NameSet(vs)
    ensures Distinct(IndexByName(vs).order)
    ensures forall k :: k in IndexByName(vs).byName ==> IndexByName(vs).byName[k].name == k
  {
    if vs != [] {
      var prefix := vs[..|vs| - 1];
      IndexByNameKeys(prefix);
      assert NameSet(vs) == NameSet(prefix) + {vs[|vs| - 1].name} by {
        assert forall i :: 0 <= i < |prefix| ==> prefix[i] == vs[i];
      }
    }
  }

  /** Every key listed in the dict's order is a key of the dict. */
  lemma IndexByNameListed(vs: seq<ServiceTag>, i: int)
    requires 0 <= i < |IndexByName(vs).order|
    ensures IndexByName(vs).order[i] in IndexByName(vs).byName
  {
    IndexByNameKeys(vs);
  }

  /** Last write wins: the entry kept for a name is the last entry of `vs` with that name. */
  lemma {:induction false} IndexByNameLastWins(vs: seq<ServiceTag>, i: int)
    requires 0 <= i < |vs| && LastWithName(vs, i)
    ensures vs[i].name in IndexByName(vs).byName && IndexByName(vs).byName[vs[i].name] == vs[i]
  {
    var prefix := vs[..|vs| - 1];
    if i < |vs| - 1 {
      assert prefix[i] == vs[i];
      IndexByNameLastWins(prefix, i);
    }
  }

  /** `set(entry.get('properties', {}).get('addressPrefixes', []))` */
  function PrefixSet(t: ServiceTag): set<string> {
    set p | p in t.addressPrefixes
  }

  /** `dict.get(name)` */
  function Get(m: map<string, ServiceTag>, name: string): Option<ServiceTag> {
    if name in m then Some(m[name]) else None
  }

  /**
   * What the first loop appends for one service of the new snapshot, given
   * the entry of the same name in the old snapshot (if any).
   */
  function CompareService(name: string, oldTag: Option<ServiceTag>, newTag: ServiceTag): (r: Option<Change>)
    ensures oldTag.None? ==> r.Some? && r.value.ServiceAdded?
    ensures r.Some? ==> r.value.service == name && r.value.region == newTag.region
  {
    match oldTag
    case None => Some(ServiceAdded(name, |newTag.addressPrefixes|, newTag.region, newTag.systemService))
    case Some(oldT) =>
      var added := SortedDifference(newTag.addressPrefixes, oldT.addressPrefixes);
      var removed := SortedDifference(oldT.addressPrefixes, newTag.addressPrefixes);
      if added != [] || removed != [] then
        Some(IpChanges(name, added, removed, |added|, |removed|, newTag.region, newTag.systemService))
      else
        None
  }

  /**
   * A service missing from the old snapshot is reported as added with the
   * length of its new prefix list; a service present in both is reported
   * exactly when its prefix sets differ, as an `ip_changes` record.
   */
  lemma CompareServiceSpec(name: string, oldTag: Option<ServiceTag>, newTag: ServiceTag)
    ensures oldTag.None? ==>
      CompareService(name, oldTag, newTag)
        == Some(ServiceAdded(name, |newTag.addressPrefixes|, newTag.region, newTag.systemService))
    ensures oldTag.Some? ==>
      (CompareService(name, oldTag, newTag).Some? <==> PrefixSet(oldTag.value) != PrefixSet(newTag))
    ensures oldTag.Some? && CompareService(name, oldTag, newTag).Some? ==>
      var c := CompareService(name, oldTag, newTag).value;
      c.IpChanges? && IpChangesRecord(c, name, oldTag.value, newTag)
  {
    if oldTag.Some? {
      var oldT := oldTag.value;
      SortedDifferenceSpec(newTag.addressPrefixes, oldT.addressPrefixes);
      SortedDifferenceSpec(oldT.addressPrefixes, newTag.addressPrefixes);
      SortedDifferenceSize(newTag.addressPrefixes, oldT.addressPrefixes);
      SortedDifferenceSize(oldT.addressPrefixes, newTag.addressPrefixes);
      var added := SortedDifference(newTag.addressPrefixes, oldT.addressPrefixes);
      var removed := SortedDifference(oldT.addressPrefixes, newTag.addressPrefixes);
      if added == [] && removed == [] {
        assert forall p :: p in newTag.addressPrefixes ==> p in oldT.addressPrefixes;
        assert forall p :: p in oldT.addressPrefixes ==> p in newTag.addressPrefixes;
        assert PrefixSet(oldT) == PrefixSet(newTag);
      } else if added != [] {
        assert added[0] in PrefixSet(newTag) - PrefixSet(oldT);
      } else {
        assert removed[0] in PrefixSet(oldT) - PrefixSet(newTag);
      }
    }
  }

  /**
   * What an `ip_changes` record promises: the added and removed prefixes are
   * the two set differences, each sorted ascending without repeats, with
   * their sizes as counts, at least one of them non-empty, and the region and
   * system service of the new entry.
   */
  ghost predicate IpChangesRecord(c: Change, name: string, oldTag: ServiceTag, newTag: ServiceTag)
    requires c.IpChanges?
  {
    && c.service == name
    && StrictlySorted(c.addedPrefixes)
    && StrictlySorted(c.removedPrefixes)
    && (forall p :: p in c.addedPrefixes <==> p in PrefixSet(newTag) - PrefixSet(oldTag))
    && (forall p :: p in c.removedPrefixes <==> p in PrefixSet(oldTag) - PrefixSet(newTag))
    && c.addedCount == |c.addedPrefixes| == |PrefixSet(newTag) - PrefixSet(oldTag)|
    && c.removedCount == |c.removedPrefixes| == |PrefixSet(oldTag) - PrefixSet(newTag)|
    && (c.addedPrefixes != [] || c.removedPrefixes != [])
    && c.region == newTag.region
    && c.systemService == newTag.systemService
  }

  /** The records of the first loop, for the keys `names` of the new snapshot taken in order. */
  function AddedOrChanged(names: seq<string>, oldByName: map<string, ServiceTag>, newByName: map<string, ServiceTag>): seq<Change>
  {
    if names == [] then []
    else
      var prev := AddedOrChanged(names[..|names| - 1], oldByName, newByName);
      var name := names[|names| - 1];
      if name !in newByName then prev
      else
        match CompareService(name, Get(oldByName, name), newByName[name])
        case None => prev
        case Some(c) => prev + [c]
  }

  /** The records of the second loop, for the keys `names` of the old snapshot taken in order. */
  function Removed(names: seq<string>, oldByName: map<string, ServiceTag>, newByName: map<string, ServiceTag>): seq<Change>
  {
    if names == [] then []
    else
      var prev := Removed(names[..|names| - 1], oldByName, newByName);
      var name := names[|names| - 1];
      if name in newByName || name !in oldByName then prev
      else prev + [ServiceRemoved(name, oldByName[name].region, oldByName[name].systemService)]
  }

  lemma AddedOrChangedStep(names: seq<string>, i: int, oldByName: map<string, ServiceTag>, newByName: map<string, ServiceTag>)
    requires 0 <= i < |names| && names[i] in newByName
    ensures AddedOrChanged(names[..i + 1], oldByName, newByName)
         == AddedOrChanged(names[..i], oldByName, newByName)
            + match CompareService(names[i], Get(oldByName, names[i]), newByName[names[i]])
              case None => []
              case Some(c) => [c]
  {
    assert names[..i + 1][..i] == names[..i];
  }

  lemma RemovedStep(names: seq<string>, j: int, oldByName: map<string, ServiceTag>, newByName: map<string, ServiceTag>)
    requires 0 <= j < |names| && names[j] in oldByName
    ensures Removed(names[..j + 1], oldByName, newByName)
         == Removed(names[..j], oldByName, newByName)
            + if names[j] in newByName then []
              else [ServiceRemoved(names[j], oldByName[names[j]].region, oldByName[names[j]].systemService)]
  {
    assert names[..j + 1][..j] == names[..j];
  }

  /** The change list of `detect_changes(old_data, new_data)`. */
  function ChangesBetween(oldData: Option<Document>, newData: Document): seq<Change> {
    if !HasPreviousData(oldData) then []
    else
      var oldServices := IndexByName(Values(oldData.value));
      var newServices := IndexByName(Values(newData));
      AddedOrChanged(newServices.order, oldServices.byName, newServices.byName)
        + Removed(oldServices.order, oldServices.byName, newServices.byName)
  }

  /**
   * `detect_changes`: without previous data nothing is compared; otherwise
   * the records for the services of the new snapshot, then those of the
   * services that disappeared.
   */
  method DetectChanges(oldData: Option<Document>, newData: Document) returns (changes: seq<Change>)
    ensures !HasPreviousData(oldData) ==> changes == []
    ensures changes == ChangesBetween(oldData, newData)
  {
    if !HasPreviousData(oldData) {
      return [];
    }
    changes := [];
    var oldServices := IndexByName(Values(oldData.value));
    var newServices := IndexByName(Values(newData));

    var i := 0;
    while i < |newServices.order|
      invariant 0 <= i <= |newServices.order|
      invariant changes == AddedOrChanged(newServices.order[..i], oldServices.byName, newServices.byName)
    {
      IndexByNameListed(Values(newData), i);
      var serviceName := newServices.order[i];
      var newService := newServices.byName[serviceName];
      AddedOrChangedStep(newServices.order, i, oldServices.byName, newServices.byName);
      if serviceName !in oldServices.byName {
        changes := changes + [ServiceAdded(serviceName, |newService.addressPrefixes|, newService.region, newService.systemService)];
      } else {
        var oldService := oldServices.byName[serviceName];
        var addedPrefixes := SortedDifference(newService.addressPrefixes, oldService.addressPrefixes);
        var removedPrefixes := SortedDifference(oldService.addressPrefixes, newService.addressPrefixes);
        if addedPrefixes != [] || removedPrefixes != [] {
          changes := changes + [IpChanges(serviceName, addedPrefixes, removedPrefixes,
                                          |addedPrefixes|, |removedPrefixes|,
                                          newService.region, newService.systemService)];
        }
      }
      i := i + 1;
    }
    assert newServices.order[..i] == newServices.order;

    ghost var forward := changes;
    var j := 0;
    while j < |oldServices.order|
      invariant 0 <= j <= |oldServices.order|
      invariant changes == forward + Removed(oldServices.order[..j], oldServices.byName, newServices.byName)
    {
      IndexByNameListed(Values(oldData.value), j);
      var serviceName := oldServices.order[j];
      RemovedStep(oldServices.order, j, oldServices.byName, newServices.byName);
      if serviceName !in newServices.byName {
        var oldService := oldServices.byName[serviceName];
        changes := changes + [ServiceRemoved(serviceName, oldService.region, oldService.systemService)];
      }
      j := j + 1;
    }
    assert oldServices.order[..j] == oldServices.order;
  }

  /** What a single record of `detect_changes` asserts about the two name-keyed dicts. */
  ghost predicate Describes(c: Change, oldByName: map<string, ServiceTag>, newByName: map<string, ServiceTag>) {
    match c
    case ServiceAdded(s, n, r, sys) =>
      && s in newByName && s !in oldByName
      && n == |newByName[s].addressPrefixes|
      && r == newByName[s].region && sys == newByName[s].systemService
    case IpChanges(s, _, _, _, _, _, _) =>
      && s in newByName && s in oldByName
      && IpChangesRecord(c, s, oldByName[s], newByName[s])
    case ServiceRemoved(s, r, sys) =>
      && s in oldByName && s !in newByName
      && r == oldByName[s].region && sys == oldByName[s].systemService
  }

  lemma ServicesAppend(a: seq<Change>, b: seq<Change>)
    ensures Services(a + b) == Services(a) + Services(b)
  {
  }

  /**
   * The first loop: every record it appends describes its service, none is a
   * removal, the services appear in the order of `names`, and every service
   * of `names` that `CompareService` reports is reported.
   */
  lemma {:induction false} AddedOrChangedFacts(names: seq<string>, oldByName: map<string, ServiceTag>, newByName: map<string, ServiceTag>)
    ensures forall c :: c in AddedOrChanged(names, oldByName, newByName) ==>
      !c.ServiceRemoved? && Describes(c, oldByName, newByName)
    ensures Subsequence(Services(AddedOrChanged(names, oldByName, newByName)), names)
    ensures forall k :: k in names && k in newByName && CompareService(k, Get(oldByName, k), newByName[k]).Some? ==>
      CompareService(k, Get(oldByName, k), newByName[k]).value in AddedOrChanged(names, oldByName, newByName)
  {
    if names == [] {
      SubsequenceEmpty<string>([]);
    } else {
      var init := names[..|names| - 1];
      var name := names[|names| - 1];
      var prev := AddedOrChanged(init, oldByName, newByName);
      AddedOrChangedFacts(init, oldByName, newByName);
      assert names == init + [name];
      assert forall k :: k in names <==> k in init || k == name;
      if name in newByName {
        CompareServiceSpec(name, Get(oldByName, name), newByName[name]);
        match CompareService(name, Get(oldByName, name), newByName[name])
        case None =>
          SubsequenceAppend(Services(prev), init, name);
        case Some(c) =>
          ServicesAppend(prev, [c]);
          assert c.service == name;
          assert Services(prev + [c]) == Services(prev) + [name];
          SubsequenceAppend(Services(prev), init, name);
      } else {
        SubsequenceAppend(Services(prev), init, name);
      }
    }
  }

  /**
   * The second loop: every record it appends is a removal that describes its
   * service, the services appear in the order of `names`, and every name of
   * `names` that is a key of the old dict only is reported.
   */
  lemma {:induction false} RemovedFacts(names: seq<string>, oldByName: map<string, ServiceTag>, newByName: map<string, ServiceTag>)
    ensures forall c :: c in Removed(names, oldByName, newByName) ==>
      c.ServiceRemoved? && Describes(c, oldByName, newByName)
    ensures Subsequence(Services(Removed(names, oldByName, newByName)), names)
    ensures forall k :: k in names && k in oldByName && k !in newByName ==>
      ServiceRemoved(k, oldByName[k].region, oldByName[k].systemService) in Removed(names, oldByName, newByName)
  {
    if names == [] {
      SubsequenceEmpty<string>([]);
    } else {
      var init := names[..|names| - 1];
      var name := names[|names| - 1];
      var prev := Removed(init, oldByName, newByName);
      RemovedFacts(init, oldByName, newByName);
      assert names == init + [name];
      assert forall k :: k in names <==> k in init || k == name;
      SubsequenceAppend(Services(prev), init, name);
      if !(name in newByName || name !in oldByName) {
        var c := ServiceRemoved(name, oldByName[name].region, oldByName[name].systemService);
        ServicesAppend(prev, [c]);
        assert Services(prev + [c]) == Services(prev) + [name];
      }
    }
  }

  lemma {:induction false} AddedOrChangedSame(names: seq<string>, byName: map<string, ServiceTag>)
    ensures AddedOrChanged(names, byName, byName) == []
  {
    if names != [] {
      AddedOrChangedSame(names[..|names| - 1], byName);
      var name := names[|names| - 1];
      if name in byName {
        CompareServiceSpec(name, Get(byName, name), byName[name]);
      }
    }
  }

  lemma {:induction false} RemovedSame(names: seq<string>, byName: map<string, ServiceTag>)
    ensures Removed(names, byName, byName) == []
  {
    if names != [] {
      RemovedSame(names[..|names| - 1], byName);
    }
  }

  /** `detect_changes(A, A)` is empty: every service is present in both and no prefix set differs. */
  lemma NoChangesAgainstItself(d: Document)
    ensures ChangesBetween(Some(d), d) == []
  {
    var ix := IndexByName(Values(d));
    AddedOrChangedSame(ix.order, ix.byName);
    RemovedSame(ix.order, ix.byName);
  }

  /**
   * Soundness: every record of `detect_changes` is justified by the two
   * name-keyed dicts (an added service is new, a removed one is gone, an
   * `ip_changes` record carries the exact set differences).
   */
  lemma ChangesDescribeServices(oldData: Option<Document>, newData: Document)
    requires HasPreviousData(oldData)
    ensures var oldByName := IndexByName(Values(oldData.value)).byName;
            var newByName := IndexByName(Values(newData)).byName;
            forall c :: c in ChangesBetween(oldData, newData) ==> Describes(c, oldByName, newByName)
  {
    var oldIx := IndexByName(Values(oldData.value));
    var newIx := IndexByName(Values(newData));
    AddedOrChangedFacts(newIx.order, oldIx.byName, newIx.byName);
    RemovedFacts(oldIx.order, oldIx.byName, newIx.byName);
  }

  /**
   * Completeness: a service only in the new snapshot is reported as added with
   * its prefix-list length, one only in the old snapshot as removed with its
   * old region and system service, and one in both whose prefix sets differ
   * by an `ip_changes` record.
   */
  lemma ChangesCoverEveryDifference(oldData: Option<Document>, newData: Document)
    requires HasPreviousData(oldData)
    ensures var oldByName := IndexByName(Values(oldData.value)).byName;
            var newByName := IndexByName(Values(newData)).byName;
            var changes := ChangesBetween(oldData, newData);
            && (forall k :: k in newByName && k !in oldByName ==>
                  ServiceAdded(k, |newByName[k].addressPrefixes|, newByName[k].region, newByName[k].systemService) in changes)
            && (forall k :: k in oldByName && k !in newByName ==>
                  ServiceRemoved(k, oldByName[k].region, oldByName[k].systemService) in changes)
            && (forall k :: k in oldByName && k in newByName && PrefixSet(oldByName[k]) != PrefixSet(newByName[k]) ==>
                  exists c: Change :: c in changes && c.IpChanges? && c.service == k)
  {
    var oldIx := IndexByName(Values(oldData.value));
    var newIx := IndexByName(Values(newData));
    IndexByNameKeys(Values(oldData.value));
    IndexByNameKeys(Values(newData));
    var forward := AddedOrChanged(newIx.order, oldIx.byName, newIx.byName);
    var removed := Removed(oldIx.order, oldIx.byName, newIx.byName);
    AddedOrChangedFacts(newIx.order, oldIx.byName, newIx.byName);
    RemovedFacts(oldIx.order, oldIx.byName, newIx.byName);
    forall k | k in newIx.byName
      ensures CompareService(k, Get(oldIx.byName, k), newIx.byName[k]).Some? ==>
        CompareService(k, Get(oldIx.byName, k), newIx.byName[k]).value in forward + removed
    {
    }
    forall k | k in newIx.byName && k !in oldIx.byName
      ensures ServiceAdded(k, |newIx.byName[k].addressPrefixes|, newIx.byName[k].region, newIx.byName[k].systemService) in forward + removed
    {
      CompareServiceSpec(k, Get(oldIx.byName, k), newIx.byName[k]);
    }
    forall k | k in oldIx.byName && k in newIx.byName && PrefixSet(oldIx.byName[k]) != PrefixSet(newIx.byName[k])
      ensures exists c: Change :: c in forward + removed && c.IpChanges? && c.service == k
    {
      CompareServiceSpec(k, Get(oldIx.byName, k), newIx.byName[k]);
      var c := CompareService(k, Get(oldIx.byName, k), newIx.byName[k]).value;
      assert c in forward + removed && c.IpChanges? && c.service == k;
    }
  }

  /**
   * Order and uniqueness: the added and changed services come first, in the
   * new snapshot's order, then the removed ones in the old snapshot's order,
   * and no service name appears in two records.
   */
  lemma ChangesOrderedAndUnique(oldData: Option<Document>, newData: Document)
    requires HasPreviousData(oldData)
    ensures var oldIx := IndexByName(Values(oldData.value));
            var newIx := IndexByName(Values(newData));
            var changes := ChangesBetween(oldData, newData);
            var m := |AddedOrChanged(newIx.order, oldIx.byName, newIx.byName)|;
            && m <= |changes|
            && (forall i :: 0 <= i < m ==> !changes[i].ServiceRemoved?)
            && (forall i :: m <= i < |changes| ==> changes[i].ServiceRemoved?)
            && Subsequence(Services(changes[..m]), newIx.order)
            && Subsequence(Services(changes[m..]), oldIx.order)
            && Distinct(Services(changes))
  {
    var oldIx := IndexByName(Values(oldData.value));
    var newIx := IndexByName(Values(newData));
    IndexByNameKeys(Values(oldData.value));
    IndexByNameKeys(Values(newData));
    var forward := AddedOrChanged(newIx.order, oldIx.byName, newIx.byName);
    var removed := Removed(oldIx.order, oldIx.byName, newIx.byName);
    var changes := forward + removed;
    AddedOrChangedFacts(newIx.order, oldIx.byName, newIx.byName);
    RemovedFacts(oldIx.order, oldIx.byName, newIx.byName);
    assert changes[..|forward|] == forward && changes[|forward|..] == removed;
    forall i | 0 <= i < |forward| ensures !changes[i].ServiceRemoved? {
      assert forward[i] in forward;
    }
    forall i | |forward| <= i < |changes| ensures changes[i].ServiceRemoved? {
      assert removed[i - |forward|] in removed;
    }
    SubsequenceDistinct(Services(forward), newIx.order);
    SubsequenceDistinct(Services(removed), oldIx.order);
    ServicesAppend(forward, removed);
    forall i, j | 0 <= i < j < |changes| ensures changes[i].service != changes[j].service {
      if j >= |forward| && i < |forward| {
        assert forward[i] in forward && removed[j - |forward|] in removed;
        assert changes[i].service in newIx.byName;
        assert changes[j].service !in newIx.byName;
      } else if i >= |forward| {
        assert Services(removed)[i - |forward|] == changes[i].service;
        assert Services(removed)[j - |forward|] == changes[j].service;
      } else {
        assert Services(forward)[i] == changes[i].service;
        assert Services(forward)[j] == changes[j].service;
      }
    }
  }
}
