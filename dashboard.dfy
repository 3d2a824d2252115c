/**
 * Helpers of the interactive dashboard: the pagination window, CSV and
 * data-attribute escaping, grouping of change records by region, the
 * de-duplication of the update timeline, the two-week compare selection,
 * and the per-service activity accumulated over the weekly change files.
 */
module Dashboard {
  import opened Wrappers
  import opened Seqs
  import opened Watcher
  import opened StringOrder

  // ---------------------------------------------------------------------
  // Pagination
  // ---------------------------------------------------------------------

  /** How many pages are shown around the current one before the list is elided. */
  const MaxVisible := 4

  /** A numbered page button (marked `active` for the current page) or an ellipsis. */
  datatype PageItem = Page(number: int, active: bool) | Ellipsis

  function Max(a: int, b: int): int { if a >= b then a else b }
  function Min(a: int, b: int): int { if a <= b then a else b }

  /** The buttons for pages `lo` to `hi` in order, the one for `cur` marked active. */
  function PageRun(lo: int, hi: int, cur: int): seq<PageItem>
    decreases hi - lo
  {
    if hi < lo then [] else PageRun(lo, hi - 1, cur) + [Page(hi, hi == cur)]
  }

  lemma {:induction false} PageRunSpec(lo: int, hi: int, cur: int)
    ensures |PageRun(lo, hi, cur)| == if hi < lo then 0 else hi - lo + 1
    ensures forall k :: 0 <= k < |PageRun(lo, hi, cur)| ==> PageRun(lo, hi, cur)[k] == Page(lo + k, lo + k == cur)
    decreases hi - lo
  {
    if lo <= hi {
      PageRunSpec(lo, hi - 1, cur);
    }
  }

  /** The page list `generatePageNumbers` renders. */
  function PageWindow(cur: int, total: int): seq<PageItem> {
    if total <= MaxVisible + 2 then PageRun(1, total, cur)
    else
      var start := Max(2, cur - 1);
      var end := Min(total - 1, cur + 1);
      [Page(1, 1 == cur)]
      + (if start > 2 then [Ellipsis] else [])
      + PageRun(start, end, cur)
      + (if end < total - 1 then [Ellipsis] else [])
      + [Page(total, total == cur)]
  }

  /**
   * The pages that get a button: all of them when there are few, otherwise
   * the first, the last, and the current page with its two neighbours.
   */
  predicate Shown(n: int, cur: int, total: int) {
    && 1 <= n <= total
    && (total <= MaxVisible + 2 || n == 1 || n == total || cur - 1 <= n <= cur + 1)
  }

  /** Position by position, the long form of the page list. */
  lemma PageWindowAt(cur: int, total: int, k: int)
    requires total > MaxVisible + 2
    requires 0 <= k < |PageWindow(cur, total)|
    ensures var start := Max(2, cur - 1);
            var end := Min(total - 1, cur + 1);
            var a := if start > 2 then 1 else 0;
            var m := if end < start then 0 else end - start + 1;
            var r := PageWindow(cur, total);
            && |r| == 2 + a + m + (if end < total - 1 then 1 else 0)
            && r[k] == if k == 0 then Page(1, 1 == cur)
                       else if k < 1 + a then Ellipsis
                       else if k < 1 + a + m then Page(start + k - 1 - a, start + k - 1 - a == cur)
                       else if k < |r| - 1 then Ellipsis
                       else Page(total, total == cur)
  {
    var start := Max(2, cur - 1);
    var end := Min(total - 1, cur + 1);
    PageRunSpec(start, end, cur);
  }

  /** At most seven buttons; each numbered one is a shown page, active exactly when current. */
  lemma PageWindowSound(cur: int, total: int)
    ensures |PageWindow(cur, total)| <= MaxVisible + 3
    ensures forall k :: 0 <= k < |PageWindow(cur, total)| && PageWindow(cur, total)[k].Page? ==>
              var p := PageWindow(cur, total)[k];
              Shown(p.number, cur, total) && p.active == (p.number == cur)
  {
    var r := PageWindow(cur, total);
    if total <= MaxVisible + 2 {
      PageRunSpec(1, total, cur);
    } else {
      PageWindowAt(cur, total, 0);
      forall k | 0 <= k < |r| && r[k].Page?
        ensures Shown(r[k].number, cur, total) && r[k].active == (r[k].number == cur)
      {
        PageWindowAt(cur, total, k);
      }
    }
  }

  /** Every page that should be shown gets its button. */
  lemma PageWindowComplete(cur: int, total: int, n: int)
    requires Shown(n, cur, total)
    ensures Page(n, n == cur) in PageWindow(cur, total)
  {
    var r := PageWindow(cur, total);
    if total <= MaxVisible + 2 {
      PageRunSpec(1, total, cur);
      assert r[n - 1] == Page(n, n == cur);
    } else {
      var start := Max(2, cur - 1);
      var end := Min(total - 1, cur + 1);
      var a := if start > 2 then 1 else 0;
      PageWindowAt(cur, total, 0);
      if n == 1 {
        assert r[0] == Page(n, n == cur);
      } else if n == total {
        PageWindowAt(cur, total, |r| - 1);
        assert r[|r| - 1] == Page(n, n == cur);
      } else {
        PageWindowAt(cur, total, 1 + a + n - start);
        assert r[1 + a + n - start] == Page(n, n == cur);
      }
    }
  }

  /** Page numbers rise from left to right. */
  lemma PageWindowIncreasing(cur: int, total: int)
    ensures var r := PageWindow(cur, total);
            forall i, j :: 0 <= i < j < |r| && r[i].Page? && r[j].Page? ==> r[i].number < r[j].number
  {
    var r := PageWindow(cur, total);
    if total <= MaxVisible + 2 {
      PageRunSpec(1, total, cur);
    } else {
      forall i, j | 0 <= i < j < |r| && r[i].Page? && r[j].Page? ensures r[i].number < r[j].number {
        PageWindowAt(cur, total, i);
        PageWindowAt(cur, total, j);
      }
    }
  }

  /**
   * Two adjacent buttons are adjacent pages, and an ellipsis always stands
   * between two buttons whose pages are not adjacent.
   */
  lemma PageWindowGaps(cur: int, total: int)
    ensures var r := PageWindow(cur, total);
            && (forall k :: 0 <= k < |r| - 1 && r[k].Page? && r[k + 1].Page? ==> r[k + 1].number == r[k].number + 1)
            && (forall k :: 0 <= k < |r| && r[k].Ellipsis? ==>
                  && 0 < k < |r| - 1 && r[k - 1].Page? && r[k + 1].Page?
                  && r[k + 1].number > r[k - 1].number + 1)
  {
    var r := PageWindow(cur, total);
    if total <= MaxVisible + 2 {
      PageRunSpec(1, total, cur);
    } else {
      forall k | 0 <= k < |r| - 1 && r[k].Page? && r[k + 1].Page? ensures r[k + 1].number == r[k].number + 1 {
        PageWindowAt(cur, total, k);
        PageWindowAt(cur, total, k + 1);
      }
      forall k | 0 <= k < |r| && r[k].Ellipsis?
        ensures && 0 < k < |r| - 1 && r[k - 1].Page? && r[k + 1].Page?
                && r[k + 1].number > r[k - 1].number + 1
      {
        PageWindowAt(cur, total, k);
        if 0 < k < |r| - 1 {
          PageWindowAt(cur, total, k - 1);
          PageWindowAt(cur, total, k + 1);
        }
      }
    }
  }

  /** `generatePageNumbers(currentPage, totalPages)`, before the buttons are rendered to HTML. */
  method GeneratePageNumbers(currentPage: int, totalPages: int) returns (pages: seq<PageItem>)
    ensures pages == PageWindow(currentPage, totalPages)
  {
    pages := [];
    if totalPages <= MaxVisible + 2 {
      var i := 1;
      while i <= totalPages
        invariant 1 <= i <= Max(1, totalPages + 1)
        invariant pages == PageRun(1, i - 1, currentPage)
      {
        pages := pages + [Page(i, i == currentPage)];
        i := i + 1;
      }
      assert i - 1 == totalPages || totalPages < 1;
    } else {
      var start := Max(2, currentPage - 1);
      var end := Min(totalPages - 1, currentPage + 1);
      pages := [Page(1, 1 == currentPage)];
      if start > 2 {
        pages := pages + [Ellipsis];
      }
      ghost var head := pages;
      assert head == [Page(1, 1 == currentPage)] + (if start > 2 then [Ellipsis] else []);
      var i := start;
      while i <= end
        invariant start <= i <= Max(start, end + 1)
        invariant pages == head + PageRun(start, i - 1, currentPage)
      {
        assert PageRun(start, i, currentPage) == PageRun(start, i - 1, currentPage) + [Page(i, i == currentPage)];
        pages := pages + [Page(i, i == currentPage)];
        i := i + 1;
      }
      assert pages == head + PageRun(start, end, currentPage);
      ghost var body := pages;
      if end < totalPages - 1 {
        pages := pages + [Ellipsis];
      }
      assert pages == body + (if end < totalPages - 1 then [Ellipsis] else []);
      pages := pages + [Page(totalPages, totalPages == currentPage)];
    }
  }

  // ---------------------------------------------------------------------
  // Escaping for CSV export and HTML data attributes
  // ---------------------------------------------------------------------

  /** A field must be quoted when it holds a comma, a double quote or a newline. */
  predicate NeedsQuoting(s: string) {
    ',' in s || '"' in s || '\n' in s
  }

  /** Every double quote written twice (`str.replace(/"/g, '""')`). */
  function DoubleQuotes(s: string): string {
    if s == [] then []
    else (if s[0] == '"' then "\"\"" else [s[0]]) + DoubleQuotes(s[1..])
  }

  /**
   * `escapeCSV(field)`; `None` stands for `null` and `undefined`. Every
   * caller passes a string, so `String(field)` of other values is not modelled.
   */
  function EscapeCsv(field: Option<string>): (r: string)
    ensures r == "" <==> field.None? || field.value == ""
    ensures field.Some? && NeedsQuoting(field.value) ==> |r| >= 2 && r[0] == '"' && r[|r| - 1] == '"'
  {
    match field
    case None => ""
    case Some(str) => if NeedsQuoting(str) then "\"" + DoubleQuotes(str) + "\"" else str
  }

  /** Reads the inside of a quoted CSV field back: `""` is one quote, a lone quote is malformed. */
  function UndoubleQuotes(t: string): Option<string> {
    if t == [] then Some([])
    else if t[0] != '"' then
      match UndoubleQuotes(t[1..])
      case None => None
      case Some(r) => Some([t[0]] + r)
    else if |t| >= 2 && t[1] == '"' then
      match UndoubleQuotes(t[2..])
      case None => None
      case Some(r) => Some(['"'] + r)
    else None
  }

  /**
   * How a reader following RFC 4180 takes one field back: a quoted field
   * holds anything, with each quote doubled; an unquoted one holds no
   * comma, double quote, carriage return or line feed.
   */
  function ParseCsvField(t: string): Option<string> {
    if |t| >= 2 && t[0] == '"' && t[|t| - 1] == '"' then UndoubleQuotes(t[1..|t| - 1])
    else if NeedsQuoting(t) || '\r' in t then None
    else Some(t)
  }

  lemma {:induction false} UndoubleDoubleQuotes(s: string)
    ensures UndoubleQuotes(DoubleQuotes(s)) == Some(s)
    ensures |DoubleQuotes(s)| >= |s|
  {
    if s != [] {
      UndoubleDoubleQuotes(s[1..]);
      var rest := DoubleQuotes(s[1..]);
      if s[0] == '"' {
        assert DoubleQuotes(s) == "\"\"" + rest;
        assert (DoubleQuotes(s))[2..] == rest;
      } else {
        assert DoubleQuotes(s) == [s[0]] + rest;
        assert (DoubleQuotes(s))[1..] == rest;
      }
      assert s == [s[0]] + s[1..];
    }
  }

  /**
   * An escaped field reads back as the original string, except when it
   * holds a carriage return but nothing that makes it quoted: that field is
   * written bare and is not a valid field. A string is written unchanged
   * exactly when it needs no quoting.
   */
  lemma EscapeCsvRoundTrip(s: string)
    ensures NeedsQuoting(s) || '\r' !in s ==> ParseCsvField(EscapeCsv(Some(s))) == Some(s)
    ensures !NeedsQuoting(s) && '\r' in s ==> ParseCsvField(EscapeCsv(Some(s))) == None
    ensures EscapeCsv(Some(s)) == s <==> !NeedsQuoting(s)
  {
    UndoubleDoubleQuotes(s);
    if NeedsQuoting(s) {
      var t := "\"" + DoubleQuotes(s) + "\"";
      assert t[1..|t| - 1] == DoubleQuotes(s);
      assert |t| > |s|;
    } else if |s| >= 2 {
      assert s[0] != '"';
    }
  }

  /** `s.replace(/c/g, rep)` for one character `c`. */
  function ReplaceChar(s: string, c: char, rep: string): string {
    if s == [] then [] else (if s[0] == c then rep else [s[0]]) + ReplaceChar(s[1..], c, rep)
  }

  /** A replacement by a non-empty string never shortens the text. */
  lemma {:induction false} ReplaceCharLength(s: string, c: char, rep: string)
    requires rep != ""
    ensures |ReplaceChar(s, c, rep)| >= |s|
  {
    if s != [] {
      ReplaceCharLength(s[1..], c, rep);
    }
  }

  /** `escapeForDataAttr(str)`: double quotes become `&quot;`, then single quotes become `&#39;`. */
  function EscapeForDataAttr(str: string): (r: string)
    ensures |r| >= |str|
  {
    ReplaceCharLength(str, '"', "&quot;");
    ReplaceCharLength(ReplaceChar(str, '"', "&quot;"), '\'', "&#39;");
    ReplaceChar(ReplaceChar(str, '"', "&quot;"), '\'', "&#39;")
  }

  /** The character reference one character stands for in the escaped attribute value. */
  function AttrPiece(c: char): string {
    if c == '"' then "&quot;" else if c == '\'' then "&#39;" else [c]
  }

  /** The browser's decoding of the two references when it reads the attribute back. */
  function DecodeAttr(t: string): string {
    if t == [] then []
    else if |t| >= 6 && t[..6] == "&quot;" then ['"'] + DecodeAttr(t[6..])
    else if |t| >= 5 && t[..5] == "&#39;" then ['\''] + DecodeAttr(t[5..])
    else [t[0]] + DecodeAttr(t[1..])
  }

  lemma {:induction false} ReplaceCharAppend(a: string, b: string, c: char, rep: string)
    ensures ReplaceChar(a + b, c, rep) == ReplaceChar(a, c, rep) + ReplaceChar(b, c, rep)
  {
    if a == [] {
      assert a + b == b;
    } else {
      assert (a + b)[1..] == a[1..] + b;
      assert (a + b)[0] == a[0];
      ReplaceCharAppend(a[1..], b, c, rep);
    }
  }

  /** The two passes amount to replacing each character by its piece. */
  lemma {:induction false} EscapeForDataAttrPieces(s: string)
    ensures s != [] ==> EscapeForDataAttr(s) == AttrPiece(s[0]) + EscapeForDataAttr(s[1..])
  {
    if s != [] {
      var first := ReplaceChar(s, '"', "&quot;");
      assert first == (if s[0] == '"' then "&quot;" else [s[0]]) + ReplaceChar(s[1..], '"', "&quot;");
      ReplaceCharAppend(if s[0] == '"' then "&quot;" else [s[0]], ReplaceChar(s[1..], '"', "&quot;"), '\'', "&#39;");
      if s[0] == '"' {
        assert ReplaceChar("&quot;", '\'', "&#39;") == "&quot;";
      } else {
        assert ReplaceChar([s[0]], '\'', "&#39;") == AttrPiece(s[0]);
      }
    }
  }

  /** The escaped value holds no quote of either kind. */
  lemma {:induction false} EscapeForDataAttrNoQuotes(s: string)
    ensures '"' !in EscapeForDataAttr(s) && '\'' !in EscapeForDataAttr(s)
  {
    if s != [] {
      EscapeForDataAttrNoQuotes(s[1..]);
      EscapeForDataAttrPieces(s);
    }
  }

  /** A string is left as it is exactly when it holds no quote. */
  lemma EscapeForDataAttrUnchanged(s: string)
    ensures EscapeForDataAttr(s) == s <==> '"' !in s && '\'' !in s
  {
    EscapeForDataAttrNoQuotes(s);
    if '"' !in s && '\'' !in s {
      EscapeForDataAttrPlain(s);
    }
  }

  lemma {:induction false} EscapeForDataAttrPlain(s: string)
    requires '"' !in s && '\'' !in s
    ensures EscapeForDataAttr(s) == s
  {
    if s != [] {
      EscapeForDataAttrPieces(s);
      EscapeForDataAttrPlain(s[1..]);
      assert s == [s[0]] + s[1..];
    }
  }

  /** Without `&` in the input, the browser decodes the attribute back to the input. */
  lemma {:induction false} EscapeForDataAttrDecodes(s: string)
    requires '&' !in s
    ensures DecodeAttr(EscapeForDataAttr(s)) == s
  {
    if s != [] {
      EscapeForDataAttrDecodes(s[1..]);
      EscapeForDataAttrPieces(s);
      var rest := EscapeForDataAttr(s[1..]);
      var t := EscapeForDataAttr(s);
      assert s == [s[0]] + s[1..];
      if s[0] == '"' {
        assert t[..6] == "&quot;" && t[6..] == rest;
        assert DecodeAttr(t) == ['"'] + DecodeAttr(rest);
      } else if s[0] == '\'' {
        assert t[..5] == "&#39;" && t[5..] == rest;
        assert t[1] == '#' && "&quot;"[1] == 'q';
        assert DecodeAttr(t) == ['\''] + DecodeAttr(rest);
      } else {
        assert t[0] == s[0] && t[1..] == rest;
        assert DecodeAttr(t) == [s[0]] + DecodeAttr(rest);
      }
    }
  }

  // ---------------------------------------------------------------------
  // Grouping change records by region
  // ---------------------------------------------------------------------

  /** `change.region || 'Global'`: a missing or empty region files under `Global`. */
  function RegionKey(c: Change): string {
    if c.region.None? || c.region.value == "" then "Global" else c.region.value
  }

  /** One key of the `groups` object and the records pushed under it. */
  datatype RegionGroup = RegionGroup(region: string, changes: seq<Change>)

  function GroupRegions(gs: seq<RegionGroup>): seq<string> {
    if gs == [] then [] else [gs[0].region] + GroupRegions(gs[1..])
  }

  /** `if (!groups[region]) groups[region] = []; groups[region].push(change)` */
  function AddToGroups(gs: seq<RegionGroup>, region: string, c: Change): seq<RegionGroup> {
    if gs == [] then [RegionGroup(region, [c])]
    else if gs[0].region == region then [RegionGroup(region, gs[0].changes + [c])] + gs[1..]
    else [gs[0]] + AddToGroups(gs[1..], region, c)
  }

  /** `groups[region] || []` */
  function GroupOf(gs: seq<RegionGroup>, region: string): seq<Change> {
    if gs == [] then []
    else if gs[0].region == region then gs[0].changes
    else GroupOf(gs[1..], region)
  }

  /** The number of records over all groups. */
  function GroupedCount(gs: seq<RegionGroup>): nat {
    if gs == [] then 0 else |gs[0].changes| + GroupedCount(gs[1..])
  }

  /** Pushing under `region` keeps the order of the existing keys and appends `region` when it is new. */
  lemma {:induction false} AddToGroupsKeys(gs: seq<RegionGroup>, region: string, c: Change)
    ensures GroupRegions(AddToGroups(gs, region, c))
            == if region in GroupRegions(gs) then GroupRegions(gs) else GroupRegions(gs) + [region]
  {
    if gs != [] {
      assert GroupRegions(gs) == [gs[0].region] + GroupRegions(gs[1..]);
      if gs[0].region == region {
        assert GroupRegions(AddToGroups(gs, region, c)) == [region] + GroupRegions(gs[1..]);
      } else {
        AddToGroupsKeys(gs[1..], region, c);
        assert GroupRegions(AddToGroups(gs, region, c)) == [gs[0].region] + GroupRegions(AddToGroups(gs[1..], region, c));
        assert region in GroupRegions(gs) <==> region in GroupRegions(gs[1..]);
        if region !in GroupRegions(gs[1..]) {
          assert [gs[0].region] + (GroupRegions(gs[1..]) + [region]) == GroupRegions(gs) + [region];
        }
      }
    }
  }

  /** Pushing under `region` appends the record to that group and to no other. */
  lemma {:induction false} AddToGroupsOf(gs: seq<RegionGroup>, region: string, c: Change, k: string)
    ensures GroupOf(AddToGroups(gs, region, c), k) == GroupOf(gs, k) + (if k == region then [c] else [])
  {
    if gs != [] && gs[0].region != region {
      AddToGroupsOf(gs[1..], region, c, k);
    }
  }

  lemma {:induction false} AddToGroupsCount(gs: seq<RegionGroup>, region: string, c: Change)
    ensures GroupedCount(AddToGroups(gs, region, c)) == GroupedCount(gs) + 1
  {
    if gs != [] && gs[0].region != region {
      AddToGroupsCount(gs[1..], region, c);
    }
  }

  /** The groups `groupChangesByRegion` builds, in the order their regions first occur. */
  function GroupsByRegion(changes: seq<Change>): seq<RegionGroup> {
    if changes == [] then []
    else
      var c := changes[|changes| - 1];
      AddToGroups(GroupsByRegion(changes[..|changes| - 1]), RegionKey(c), c)
  }

  /** The records whose region key is `region`, in input order. */
  function InRegion(changes: seq<Change>, region: string): seq<Change> {
    if changes == [] then []
    else
      var c := changes[|changes| - 1];
      InRegion(changes[..|changes| - 1], region) + (if RegionKey(c) == region then [c] else [])
  }

  /**
   * One group per region key that occurs, each listed once; each region's
   * group holds exactly its records in input order; and no record is lost
   * or counted twice.
   */
  lemma GroupsByRegionSpec(changes: seq<Change>)
    ensures Distinct(GroupRegions(GroupsByRegion(changes)))
    ensures forall k :: k in GroupRegions(GroupsByRegion(changes)) <==> exists c :: c in changes && RegionKey(c) == k
    ensures forall k :: GroupOf(GroupsByRegion(changes), k) == InRegion(changes, k)
    ensures GroupedCount(GroupsByRegion(changes)) == |changes|
  {
    GroupsByRegionKeys(changes);
    GroupsByRegionCount(changes);
    forall k ensures GroupOf(GroupsByRegion(changes), k) == InRegion(changes, k) {
      GroupsByRegionOf(changes, k);
    }
  }

  lemma {:induction false} GroupsByRegionKeys(changes: seq<Change>)
    ensures Distinct(GroupRegions(GroupsByRegion(changes)))
    ensures forall k :: k in GroupRegions(GroupsByRegion(changes)) <==> exists c :: c in changes && RegionKey(c) == k
  {
    if changes != [] {
      var init := changes[..|changes| - 1];
      var c := changes[|changes| - 1];
      GroupsByRegionKeys(init);
      AddToGroupsKeys(GroupsByRegion(init), RegionKey(c), c);
      assert forall d :: d in changes <==> d in init || d == c;
    }
  }

  lemma {:induction false} GroupsByRegionOf(changes: seq<Change>, k: string)
    ensures GroupOf(GroupsByRegion(changes), k) == InRegion(changes, k)
  {
    if changes != [] {
      var init := changes[..|changes| - 1];
      var c := changes[|changes| - 1];
      GroupsByRegionOf(init, k);
      AddToGroupsOf(GroupsByRegion(init), RegionKey(c), c, k);
    }
  }

  lemma {:induction false} GroupsByRegionCount(changes: seq<Change>)
    ensures GroupedCount(GroupsByRegion(changes)) == |changes|
  {
    if changes != [] {
      var init := changes[..|changes| - 1];
      var c := changes[|changes| - 1];
      GroupsByRegionCount(init);
      AddToGroupsCount(GroupsByRegion(init), RegionKey(c), c);
    }
  }

  /** With distinct keys, a group's records are those `GroupOf` returns for its key. */
  lemma {:induction false} GroupOfDistinct(gs: seq<RegionGroup>, g: RegionGroup)
    requires Distinct(GroupRegions(gs)) && g in gs
    ensures GroupOf(gs, g.region) == g.changes
  {
    if gs[0] != g {
      assert GroupRegions(gs)[1..] == GroupRegions(gs[1..]);
      DistinctTail(GroupRegions(gs));
      GroupRegionsMember(gs[1..], g);
      GroupOfDistinct(gs[1..], g);
    }
  }

  lemma {:induction false} GroupRegionsMember(gs: seq<RegionGroup>, g: RegionGroup)
    requires g in gs
    ensures g.region in GroupRegions(gs)
  {
    if gs[0] != g {
      GroupRegionsMember(gs[1..], g);
    }
  }

  /** Every group is exactly the records of its region. */
  lemma GroupsAreRegions(changes: seq<Change>, g: RegionGroup)
    requires g in GroupsByRegion(changes)
    ensures g.changes == InRegion(changes, g.region)
  {
    GroupsByRegionKeys(changes);
    GroupsByRegionOf(changes, g.region);
    GroupOfDistinct(GroupsByRegion(changes), g);
  }

  /** `groupChangesByRegion(changes)` */
  method GroupChangesByRegion(changes: seq<Change>) returns (groups: seq<RegionGroup>)
    ensures groups == GroupsByRegion(changes)
  {
    groups := [];
    var i := 0;
    while i < |changes|
      invariant 0 <= i <= |changes|
      invariant groups == GroupsByRegion(changes[..i])
    {
      assert changes[..i + 1][..i] == changes[..i];
      var change := changes[i];
      groups := AddToGroups(groups, RegionKey(change), change);
      i := i + 1;
    }
    assert changes[..i] == changes;
  }

  // ---------------------------------------------------------------------
  // Update timeline
  // ---------------------------------------------------------------------

  /** The result of `parseInt` on a snapshot's change number. */
  datatype ChangeNumber = Num(value: int) | NaN

  /** `===` on numbers: `NaN` equals nothing, itself included. */
  predicate StrictEq(a: ChangeNumber, b: ChangeNumber) {
    a.Num? && b.Num? && a.value == b.value
  }

  /** One snapshot on the update timeline. */
  datatype TimelineItem = TimelineItem(date: string, changeNumber: ChangeNumber)

  /** The first snapshot, then every snapshot whose change number is not `===` its predecessor's. */
  function ChangedFromPrevious(items: seq<TimelineItem>): seq<TimelineItem> {
    if |items| <= 1 then items
    else
      var n := |items|;
      ChangedFromPrevious(items[..n - 1])
      + (if StrictEq(items[n - 1].changeNumber, items[n - 2].changeNumber) then [] else [items[n - 1]])
  }

  /** The loop that keeps only the snapshots where the change number moved. */
  method FilterUpdates(timeline: seq<TimelineItem>) returns (filtered: seq<TimelineItem>)
    ensures filtered == ChangedFromPrevious(timeline)
  {
    filtered := [];
    var lastChangeNumber: Option<ChangeNumber> := None;
    var i := 0;
    while i < |timeline|
      invariant 0 <= i <= |timeline|
      invariant filtered == ChangedFromPrevious(timeline[..i])
      invariant lastChangeNumber == if i == 0 then None else Some(timeline[i - 1].changeNumber)
    {
      assert timeline[..i + 1][..i] == timeline[..i];
      var item := timeline[i];
      if lastChangeNumber.None? || !StrictEq(item.changeNumber, lastChangeNumber.value) {
        filtered := filtered + [item];
        lastChangeNumber := Some(item.changeNumber);
      }
      i := i + 1;
    }
    assert timeline[..i] == timeline;
  }

  /** The first snapshot is kept, and the last kept one carries the latest change number. */
  lemma {:induction false} ChangedFromPreviousEnds(items: seq<TimelineItem>)
    requires items != []
    ensures var r := ChangedFromPrevious(items);
            r != [] && r[0] == items[0] && r[|r| - 1].changeNumber == items[|items| - 1].changeNumber
  {
    if |items| > 1 {
      ChangedFromPreviousEnds(items[..|items| - 1]);
    }
  }

  /** No two consecutive kept snapshots have `===` change numbers. */
  lemma {:induction false} ChangedFromPreviousNoRepeats(items: seq<TimelineItem>)
    ensures var r := ChangedFromPrevious(items);
            forall k :: 0 <= k < |r| - 1 ==> !StrictEq(r[k].changeNumber, r[k + 1].changeNumber)
  {
    var n := |items|;
    if n > 1 {
      var init := items[..n - 1];
      ChangedFromPreviousNoRepeats(init);
      ChangedFromPreviousEnds(init);
      var prev := ChangedFromPrevious(init);
      var r := ChangedFromPrevious(items);
      if !StrictEq(items[n - 1].changeNumber, items[n - 2].changeNumber) {
        assert r == prev + [items[n - 1]];
        assert prev[|prev| - 1].changeNumber == items[n - 2].changeNumber;
        forall k | 0 <= k < |r| - 1 ensures !StrictEq(r[k].changeNumber, r[k + 1].changeNumber) {
          if k < |prev| - 1 {
            assert r[k] == prev[k] && r[k + 1] == prev[k + 1];
          }
        }
      }
    }
  }

  /** What is kept is a subsequence of the timeline: nothing is invented or reordered. */
  lemma {:induction false} ChangedFromPreviousSubsequence(items: seq<TimelineItem>)
    ensures Subsequence(ChangedFromPrevious(items), items)
  {
    var n := |items|;
    if n == 0 {
      SubsequenceEmpty(items);
    } else if n == 1 {
      assert Embeds([0], items, items);
    } else {
      var prev := ChangedFromPrevious(items[..n - 1]);
      ChangedFromPreviousSubsequence(items[..n - 1]);
      SubsequenceSnoc(prev, items);
      if StrictEq(items[n - 1].changeNumber, items[n - 2].changeNumber) {
        assert ChangedFromPrevious(items) == prev;
      } else {
        assert ChangedFromPrevious(items) == prev + [items[n - 1]];
      }
    }
  }

  /** Every snapshot whose change number moved is kept; so is every one whose number did not parse. */
  lemma {:induction false} ChangedFromPreviousKeeps(items: seq<TimelineItem>, i: int)
    requires 0 <= i < |items|
    requires i == 0 || !StrictEq(items[i].changeNumber, items[i - 1].changeNumber) || items[i].changeNumber.NaN?
    ensures items[i] in ChangedFromPrevious(items)
    decreases |items|
  {
    var n := |items|;
    if n > 1 {
      if i < n - 1 {
        assert items[..n - 1][i] == items[i];
        assert i == 0 || items[..n - 1][i - 1] == items[i - 1];
        ChangedFromPreviousKeeps(items[..n - 1], i);
      }
    }
  }

  // ---------------------------------------------------------------------
  // Compare mode on the history page
  // ---------------------------------------------------------------------

  /** `list.filter(d => d !== date)` */
  function Without(s: seq<string>, x: string): seq<string> {
    if s == [] then [] else Without(s[..|s| - 1], x) + (if s[|s| - 1] == x then [] else [s[|s| - 1]])
  }

  /** Removing a date keeps every other entry, in order, and drops that date. */
  lemma {:induction false} WithoutSpec(s: seq<string>, x: string)
    ensures forall y :: y in Without(s, x) <==> y in s && y != x
    ensures Subsequence(Without(s, x), s)
  {
    if s == [] {
      SubsequenceEmpty<string>([]);
    } else {
      var init := s[..|s| - 1];
      var last := s[|s| - 1];
      WithoutSpec(init, x);
      assert s == init + [last];
      SubsequenceAppend(Without(init, x), init, last);
      if last == x {
        assert Without(s, x) == Without(init, x);
      } else {
        assert Without(s, x) == Without(init, x) + [last];
      }
    }
  }

  /** The compare-mode state of the history page. */
  class CompareSelection {
    var compareMode: bool
    /** The dates picked for comparison, in the order they were picked. */
    var selectedCompareItems: seq<string>
    /** The dates of the timeline items that carry the `compare-selected` highlight. */
    var highlighted: set<string>

    /**
     * At most two picks, every highlighted item among them, and no highlight
     * outside compare mode. A re-render of the timeline drops the highlights
     * but keeps the picks, so a pick need not be highlighted, and a date can
     * be picked twice.
     */
    ghost predicate Valid()
      reads this
    {
      && |selectedCompareItems| <= 2
      && (forall d :: d in highlighted ==> d in selectedCompareItems)
      && (!compareMode ==> highlighted == {})
    }

    constructor()
      ensures Valid()
      ensures !compareMode && selectedCompareItems == [] && highlighted == {}
    {
      compareMode := false;
      selectedCompareItems := [];
      highlighted := {};
    }

    /** `toggleCompareMode()`: flips the mode and forgets the picks; leaving the mode clears the highlights. */
    method ToggleCompareMode()
      requires Valid()
      modifies this
      ensures Valid()
      ensures compareMode == !old(compareMode)
      ensures selectedCompareItems == [] && highlighted == {}
    {
      compareMode := !compareMode;
      selectedCompareItems := [];
      if !compareMode {
        highlighted := {};
      }
    }

    /**
     * `renderFilteredTimeline()`, run by every change of the history filters:
     * the timeline's HTML is rebuilt, so no item carries `compare-selected`
     * any more. `applyCompareMode` installs the click handlers again but
     * restores no highlight, and the picks are kept.
     */
    method RenderFilteredTimeline()
      requires Valid()
      modifies this
      ensures Valid()
      ensures compareMode == old(compareMode) && selectedCompareItems == old(selectedCompareItems)
      ensures highlighted == {}
    {
      highlighted := {};
    }

    /**
     * `toggleCompareSelection(item)` for the timeline item of `date`, whose
     * click handler exists only in compare mode: a highlighted item is
     * deselected, otherwise it is picked while fewer than two are, even when
     * its date is picked already.
     */
    method ToggleCompareSelection(date: string)
      requires Valid() && compareMode
      modifies this
      ensures Valid()
      ensures compareMode
      ensures old(date in highlighted) ==>
                && selectedCompareItems == Without(old(selectedCompareItems), date)
                && highlighted == old(highlighted) - {date}
      ensures old(date !in highlighted) && old(|selectedCompareItems|) < 2 ==>
                && selectedCompareItems == old(selectedCompareItems) + [date]
                && highlighted == old(highlighted) + {date}
      ensures old(date !in highlighted) && old(|selectedCompareItems|) >= 2 ==>
                && selectedCompareItems == old(selectedCompareItems)
                && highlighted == old(highlighted)
    {
      if date in highlighted {
        highlighted := highlighted - {date};
        WithoutSpec(selectedCompareItems, date);
        WithoutLength(selectedCompareItems, date);
        selectedCompareItems := Without(selectedCompareItems, date);
      } else if |selectedCompareItems| < 2 {
        highlighted := highlighted + {date};
        selectedCompareItems := selectedCompareItems + [date];
      }
    }

    /**
     * The selection as evidently intended: whether `date` is already picked
     * decides, not whether its item still carries the highlight. A date is
     * then never picked twice.
     */
    method ToggleCompareSelectionByPicks(date: string)
      requires Valid() && compareMode
      modifies this
      ensures Valid()
      ensures compareMode
      ensures Distinct(old(selectedCompareItems)) ==> Distinct(selectedCompareItems)
      ensures old(date in selectedCompareItems) ==>
                && selectedCompareItems == Without(old(selectedCompareItems), date)
                && highlighted == old(highlighted) - {date}
      ensures old(date !in selectedCompareItems) && old(|selectedCompareItems|) < 2 ==>
                && selectedCompareItems == old(selectedCompareItems) + [date]
                && highlighted == old(highlighted) + {date}
      ensures old(date !in selectedCompareItems) && old(|selectedCompareItems|) >= 2 ==>
                && selectedCompareItems == old(selectedCompareItems)
                && highlighted == old(highlighted)
    {
      if date in selectedCompareItems {
        highlighted := highlighted - {date};
        WithoutSpec(selectedCompareItems, date);
        if Distinct(selectedCompareItems) {
          SubsequenceDistinct(Without(selectedCompareItems, date), selectedCompareItems);
        }
        WithoutLength(selectedCompareItems, date);
        selectedCompareItems := Without(selectedCompareItems, date);
      } else if |selectedCompareItems| < 2 {
        highlighted := highlighted + {date};
        selectedCompareItems := selectedCompareItems + [date];
      }
    }

    /**
     * `performComparison()`: without exactly two picks nothing is compared
     * (an alert). Otherwise the picks are sorted in place, earlier date
     * first, and those two dates are compared. The mode stays on.
     */
    method PerformComparison() returns (compared: Option<(string, string)>)
      requires Valid()
      modifies this
      ensures Valid()
      ensures compareMode == old(compareMode) && highlighted == old(highlighted)
      ensures |selectedCompareItems| == |old(selectedCompareItems)|
      ensures multiset(selectedCompareItems) == multiset(old(selectedCompareItems))
      ensures |old(selectedCompareItems)| != 2 ==> compared.None? && selectedCompareItems == old(selectedCompareItems)
      ensures |old(selectedCompareItems)| == 2 ==>
                && compared == Some((selectedCompareItems[0], selectedCompareItems[1]))
                && !Less(selectedCompareItems[1], selectedCompareItems[0])
    {
      if |selectedCompareItems| != 2 {
        return None;
      }
      var a, b := selectedCompareItems[0], selectedCompareItems[1];
      assert selectedCompareItems == [a, b];
      if Less(b, a) {
        LessAsymmetric(b, a);
        selectedCompareItems := [b, a];
      }
      compared := Some((selectedCompareItems[0], selectedCompareItems[1]));
    }
  }

  /**
   * As written: pick the week `d`, change a history filter, click `d` again.
   * The re-render dropped the highlight of `d`, so the click picks `d` a
   * second time, and the comparison is of `d` with itself.
   */
  method DuplicatePickAsWritten(d: string) returns (picks: seq<string>, compared: Option<(string, string)>)
    ensures picks == [d, d]
    ensures compared == Some((d, d))
  {
    var selection := new CompareSelection();
    selection.ToggleCompareMode();
    selection.ToggleCompareSelection(d);
    selection.RenderFilteredTimeline();
    selection.ToggleCompareSelection(d);
    compared := selection.PerformComparison();
    picks := selection.selectedCompareItems;
    assert picks[0] in multiset(picks) && picks[1] in multiset(picks);
  }

  /** Corrected: the same clicks pick `d` and then unpick it. */
  method DuplicatePickCorrected(d: string) returns (picks: seq<string>)
    ensures picks == []
  {
    var selection := new CompareSelection();
    selection.ToggleCompareMode();
    selection.ToggleCompareSelectionByPicks(d);
    selection.RenderFilteredTimeline();
    selection.ToggleCompareSelectionByPicks(d);
    picks := selection.selectedCompareItems;
    assert Without([d], d) == Without([], d);
  }

  lemma {:induction false} WithoutLength(s: seq<string>, x: string)
    ensures |Without(s, x)| <= |s|
  {
    if s != [] {
      WithoutLength(s[..|s| - 1], x);
    }
  }

  // ---------------------------------------------------------------------
  // Historical activity per service
  // ---------------------------------------------------------------------

  /** The counters kept for one service. */
  datatype ServiceStats = ServiceStats(changeCount: nat, totalIPsAdded: nat, totalIPsRemoved: nat, totalIPChange: nat)

  /** One key of `historicalActivity` and its counters. */
  datatype ActivityEntry = ActivityEntry(service: string, stats: ServiceStats)

  const NoActivity := ServiceStats(0, 0, 0, 0)

  predicate StartsWith(s: string, prefix: string) {
    |prefix| <= |s| && s[..|prefix|] == prefix
  }

  /** Services that are counted: a non-empty name that is not an `AzureCloud` tag. */
  predicate Tracked(service: string) {
    service != "" && !StartsWith(service, "AzureCloud")
  }

  /** `change.added_count || 0`: only `ip_changes` records carry the field. */
  function AddedOf(c: Change): nat { if c.IpChanges? then c.addedCount else 0 }

  /** `change.removed_count || 0` */
  function RemovedOf(c: Change): nat { if c.IpChanges? then c.removedCount else 0 }

  /** The four increments one record contributes. */
  function Bump(st: ServiceStats, c: Change): ServiceStats {
    ServiceStats(st.changeCount + 1, st.totalIPsAdded + AddedOf(c), st.totalIPsRemoved + RemovedOf(c),
                 st.totalIPChange + AddedOf(c) + RemovedOf(c))
  }

  function ActivityKeys(es: seq<ActivityEntry>): seq<string> {
    if es == [] then [] else [es[0].service] + ActivityKeys(es[1..])
  }

  function Record(es: seq<ActivityEntry>, c: Change): seq<ActivityEntry> {
    if es == [] then [ActivityEntry(c.service, Bump(NoActivity, c))]
    else if es[0].service == c.service then [ActivityEntry(c.service, Bump(es[0].stats, c))] + es[1..]
    else [es[0]] + Record(es[1..], c)
  }

  /** The counters of `service`, zero when it has none. */
  function StatsOf(es: seq<ActivityEntry>, service: string): ServiceStats {
    if es == [] then NoActivity
    else if es[0].service == service then es[0].stats
    else StatsOf(es[1..], service)
  }

  lemma {:induction false} RecordKeys(es: seq<ActivityEntry>, c: Change)
    ensures ActivityKeys(Record(es, c))
            == if c.service in ActivityKeys(es) then ActivityKeys(es) else ActivityKeys(es) + [c.service]
  {
    if es != [] {
      assert ActivityKeys(es) == [es[0].service] + ActivityKeys(es[1..]);
      if es[0].service == c.service {
        assert ActivityKeys(Record(es, c)) == [c.service] + ActivityKeys(es[1..]);
      } else {
        RecordKeys(es[1..], c);
        assert ActivityKeys(Record(es, c)) == [es[0].service] + ActivityKeys(Record(es[1..], c));
        assert c.service in ActivityKeys(es) <==> c.service in ActivityKeys(es[1..]);
        if c.service !in ActivityKeys(es[1..]) {
          assert [es[0].service] + (ActivityKeys(es[1..]) + [c.service]) == ActivityKeys(es) + [c.service];
        }
      }
    }
  }

  lemma {:induction false} RecordStats(es: seq<ActivityEntry>, c: Change, s: string)
    ensures StatsOf(Record(es, c), s) == if s == c.service then Bump(StatsOf(es, s), c) else StatsOf(es, s)
  {
    if es != [] && es[0].service != c.service {
      RecordStats(es[1..], c, s);
    }
  }

  /** `historicalActivity` after the records of every loaded change file, in order. */
  function HistoricalActivity(changes: seq<Change>): seq<ActivityEntry> {
    if changes == [] then []
    else
      var c := changes[|changes| - 1];
      var before := HistoricalActivity(changes[..|changes| - 1]);
      if Tracked(c.service) then Record(before, c) else before
  }

  /** The records of `service`, in order. */
  function RecordsOf(changes: seq<Change>, service: string): seq<Change> {
    if changes == [] then []
    else
      var c := changes[|changes| - 1];
      RecordsOf(changes[..|changes| - 1], service) + (if c.service == service then [c] else [])
  }

  function SumAdded(cs: seq<Change>): nat {
    if cs == [] then 0 else SumAdded(cs[..|cs| - 1]) + AddedOf(cs[|cs| - 1])
  }

  function SumRemoved(cs: seq<Change>): nat {
    if cs == [] then 0 else SumRemoved(cs[..|cs| - 1]) + RemovedOf(cs[|cs| - 1])
  }

  /** What a service's counters should read: its record count, its sums, and their total. */
  function ExpectedStats(changes: seq<Change>, service: string): ServiceStats {
    var rs := RecordsOf(changes, service);
    ServiceStats(|rs|, SumAdded(rs), SumRemoved(rs), SumAdded(rs) + SumRemoved(rs))
  }

  /**
   * Each tracked service that occurs has one entry, listed once, and nothing
   * else has one; a tracked service's counters hold the number of its
   * records, the sums of their added and removed counts, and the two sums
   * together.
   */
  lemma {:induction false} HistoricalActivitySpec(changes: seq<Change>)
    ensures Distinct(ActivityKeys(HistoricalActivity(changes)))
    ensures forall s :: s in ActivityKeys(HistoricalActivity(changes)) <==>
              Tracked(s) && exists c :: c in changes && c.service == s
    ensures forall s :: Tracked(s) ==> StatsOf(HistoricalActivity(changes), s) == ExpectedStats(changes, s)
  {
    HistoricalActivityKeys(changes);
    forall s | Tracked(s) ensures StatsOf(HistoricalActivity(changes), s) == ExpectedStats(changes, s) {
      HistoricalActivityStats(changes, s);
    }
  }

  lemma {:induction false} HistoricalActivityKeys(changes: seq<Change>)
    ensures Distinct(ActivityKeys(HistoricalActivity(changes)))
    ensures forall s :: s in ActivityKeys(HistoricalActivity(changes)) <==>
              Tracked(s) && exists c :: c in changes && c.service == s
  {
    if changes != [] {
      var init := changes[..|changes| - 1];
      var c := changes[|changes| - 1];
      HistoricalActivityKeys(init);
      if Tracked(c.service) {
        RecordKeys(HistoricalActivity(init), c);
      }
      assert forall d :: d in changes <==> d in init || d == c;
    }
  }

  lemma {:induction false} HistoricalActivityStats(changes: seq<Change>, s: string)
    requires Tracked(s)
    ensures StatsOf(HistoricalActivity(changes), s) == ExpectedStats(changes, s)
  {
    if changes != [] {
      var init := changes[..|changes| - 1];
      var c := changes[|changes| - 1];
      HistoricalActivityStats(init, s);
      if Tracked(c.service) {
        RecordStats(HistoricalActivity(init), c, s);
      }
      var rs := RecordsOf(init, s);
      if c.service == s {
        assert RecordsOf(changes, s) == rs + [c];
        assert (rs + [c])[..|rs|] == rs;
        assert SumAdded(rs + [c]) == SumAdded(rs) + AddedOf(c);
        assert SumRemoved(rs + [c]) == SumRemoved(rs) + RemovedOf(c);
      } else {
        assert RecordsOf(changes, s) == rs;
      }
    }
  }

  /** No `AzureCloud` tag and no unnamed service shows up in the activity. */
  lemma HistoricalActivityTracked(changes: seq<Change>, e: ActivityEntry)
    requires e in HistoricalActivity(changes)
    ensures Tracked(e.service)
    ensures e.stats == ExpectedStats(changes, e.service)
    ensures e.stats.totalIPChange == e.stats.totalIPsAdded + e.stats.totalIPsRemoved
  {
    var es := HistoricalActivity(changes);
    HistoricalActivitySpec(changes);
    ActivityKeysMember(es, e);
    StatsOfDistinct(es, e);
  }

  lemma {:induction false} StatsOfDistinct(es: seq<ActivityEntry>, e: ActivityEntry)
    requires Distinct(ActivityKeys(es)) && e in es
    ensures StatsOf(es, e.service) == e.stats
  {
    if es[0] != e {
      assert ActivityKeys(es)[1..] == ActivityKeys(es[1..]);
      DistinctTail(ActivityKeys(es));
      ActivityKeysMember(es[1..], e);
      StatsOfDistinct(es[1..], e);
    }
  }

  lemma {:induction false} ActivityKeysMember(es: seq<ActivityEntry>, e: ActivityEntry)
    requires e in es
    ensures e.service in ActivityKeys(es)
  {
    if es[0] != e {
      ActivityKeysMember(es[1..], e);
    }
  }

  /** The accumulation loop over the records of the loaded change files. */
  method LoadHistoricalActivity(changes: seq<Change>) returns (historicalActivity: seq<ActivityEntry>)
    ensures historicalActivity == HistoricalActivity(changes)
  {
    historicalActivity := [];
    var i := 0;
    while i < |changes|
      invariant 0 <= i <= |changes|
      invariant historicalActivity == HistoricalActivity(changes[..i])
    {
      assert changes[..i + 1][..i] == changes[..i];
      var change := changes[i];
      if change.service != "" && !StartsWith(change.service, "AzureCloud") {
        historicalActivity := Record(historicalActivity, change);
      }
      i := i + 1;
    }
    assert changes[..i] == changes;
  }
}
