# Azure service-tag watcher, modelled in Dafny

The watcher downloads Microsoft's weekly *Azure IP Ranges and Service Tags*
document and compares it with the previous snapshot. For every service that
appeared, disappeared, or whose set of address prefixes changed, it writes
one change record. It also writes summary statistics for the dashboards. Two
browser dashboards read those files and show them.

This project models the logic at the centre of that pipeline:

- **`Watcher`** (`watcher.dfy`) models `detect_changes`. The two snapshots are
  keyed by service name, with Python's dict-comprehension semantics: the last
  entry with a name wins, and keys keep first-occurrence order. The result is:
  - one record per added or changed service, in the new snapshot's order;
  - then one record per removed service, in the old snapshot's order.

  An `ip_changes` record carries the two prefix-set differences, sorted.
- **`Summary`** (`summary.dfy`) models `generate_summary_stats`: the totals,
  the split by record type, the per-region histogram, the per-service
  activity dict, and the ten most active services. The ten come from a
  stable descending sort by count, as Python's `sorted(..., reverse=True)`
  does.
- **`Dashboard`** (`dashboard.dfy`) models these helpers of the main dashboard
  (`docs/js/dashboard.js`):
  - pagination;
  - CSV escaping and data-attribute escaping;
  - grouping change records by region;
  - dropping timeline snapshots whose change number did not move;
  - the compare-mode selection, as a class with mutable fields;
  - the historical per-service activity fold.
- **`ClassicDashboard`** (`classic.dfy`) models these helpers of the classic
  page (`docs/dashboard.js`): the region display-name table and its lookup,
  the order of the regional list, and the service-name and change-type labels.
- **`StringOrder`**, **`Seqs`** and **`Wrappers`** hold what these share:
  - Python's code-point string order, with strictly sorted lists and sorted
    set difference;
  - subsequences and sequences without repeats;
  - `Option`.

Where the source loops and updates variables, the model is a method with a
loop, proved equal to a recursive specification function. The properties are
lemmas about those functions:
- `DetectChanges` is proved equal to `ChangesBetween`.
- `GenerateSummaryStats` ties each field of its result to `RegionalCounts`,
  `ServiceActivity` or `TopActive`.
- `GeneratePageNumbers`, `GroupChangesByRegion`, `FilterUpdates` and
  `LoadHistoricalActivity` are each proved equal to their own specification
  function.

## Model

| member | source | states |
|---|---|---|
| Watcher.DetectChanges | scripts/azure_watcher.py:92-146 | Without previous data (None or an empty dict) the result is empty. Otherwise the result is exactly `ChangesBetween`: the first loop's records for the new snapshot's keys, then the second loop's removals for the old snapshot's keys. |
| Watcher.ChangesDescribeServices | scripts/azure_watcher.py:102-143 | Soundness. Every record is justified by the two name-keyed dicts. An added service is absent from the old snapshot and carries its prefix count, region and system service. A removed service is absent from the new snapshot. An `ip_changes` record carries the exact set differences. |
| Watcher.ChangesCoverEveryDifference | scripts/azure_watcher.py:102-143 | Completeness. A name only in the new snapshot yields its `service_added` record. A name only in the old snapshot yields its `service_removed` record. A name in both whose prefix sets differ yields an `ip_changes` record. |
| Watcher.ChangesOrderedAndUnique | scripts/azure_watcher.py:102-143 | Added and changed records come first and are in the new snapshot's key order. Removals come last and are in the old snapshot's key order. No service name occurs in two records. |
| Watcher.NoChangesAgainstItself | scripts/azure_watcher.py:92-146 | Comparing a document with itself reports nothing. |
| Watcher.CompareService | scripts/azure_watcher.py:103-133 | The record for one name of the new snapshot: a name new to the old snapshot always gets a `service_added` record, and every record names that service and carries its new region. |
| Watcher.CompareServiceSpec | scripts/azure_watcher.py:103-133 | A new name gives `service_added` with the length of its prefix list. An existing name gives a record exactly when its prefix sets differ. That record is `ip_changes`, with sorted, duplicate-free added and removed lists equal to the set differences, counts equal to their sizes, and the new entry's region and system service. |
| Watcher.IndexByName | scripts/azure_watcher.py:99-100 | The name-keyed dict of a `values` list, with its key order: it has at most as many keys as the list has entries. |
| Watcher.IndexByNameKeys | scripts/azure_watcher.py:99-100 | The dict's keys are exactly the names in `values`. Each key is listed once, and each entry is stored under its own name. |
| Watcher.IndexByNameLastWins | scripts/azure_watcher.py:99-100 | For a repeated name, the last entry with that name is the one kept. |
| Watcher.IndexByNameListed | scripts/azure_watcher.py:99-100 | Every key in the iteration order is a key of the dict. |
| Watcher.AddedOrChangedFacts | scripts/azure_watcher.py:102-133 | The first loop appends only additions and IP changes. Each one describes its service. Their services follow the key order. Every reported difference is appended. |
| Watcher.RemovedFacts | scripts/azure_watcher.py:136-143 | The second loop appends only removals of names missing from the new snapshot, with the old region and system service. It appends one for every such name, in key order. |
| Watcher.AddedOrChangedStep | scripts/azure_watcher.py:102-133 | One iteration of the first loop appends exactly that name's record, if it has one. |
| Watcher.RemovedStep | scripts/azure_watcher.py:136-143 | One iteration of the second loop appends a removal exactly when the name is gone from the new snapshot. |
| Watcher.AddedOrChangedSame | scripts/azure_watcher.py:102-133 | Against the same dict, the first loop appends nothing. |
| Watcher.RemovedSame | scripts/azure_watcher.py:136-143 | Against the same dict, the second loop appends nothing. |
| StringOrder.LessIrreflexive | scripts/azure_watcher.py:127-128 | No string sorts before itself. |
| StringOrder.LessTransitive | scripts/azure_watcher.py:127-128 | Python's string order is transitive. |
| StringOrder.LessTotal | scripts/azure_watcher.py:127-128 | Of two different strings, one sorts first. |
| StringOrder.LessAsymmetric | scripts/azure_watcher.py:127-128 | Two strings never sort before each other. |
| StringOrder.InsertSpec | scripts/azure_watcher.py:127-128 | Inserting into a strictly sorted list keeps it strictly sorted, and adds exactly the new element. |
| StringOrder.StrictlySortedCardinality | scripts/azure_watcher.py:127-131 | A strictly sorted list is as long as the set of its elements, so `len()` of the sorted list equals the set's size. |
| StringOrder.SortedDifferenceSpec | scripts/azure_watcher.py:120-128 | `sorted(list(a - b))` is strictly sorted and holds exactly the elements of `a` that are not in `b`. |
| StringOrder.SortedDifferenceSize | scripts/azure_watcher.py:120-131 | Its length is the size of the set difference. |
| StringOrder.Compare | docs/dashboard.js:278 | Zero exactly on equal strings, negative exactly when the first sorts first, positive exactly when the second does. |
| Summary.GenerateSummaryStats | scripts/azure_watcher.py:148-197 | Each field is given by its specification, in terms of the snapshot and the change list. The three type counts add up to `changes_this_week`. The region counts add up to it too. The top list has `min(10, n)` entries for `n` active services, and is non-increasing in count. |
| Summary.CountByRegion | scripts/azure_watcher.py:161-167 | The region loop builds `RegionalCounts(changes)`. |
| Summary.CountServiceActivity | scripts/azure_watcher.py:169-175 | The activity loop builds `ServiceActivity(ip_changes)`. |
| Summary.TotalIpRangesAppend | scripts/azure_watcher.py:151-154 | The prefix total of two lists of entries is the sum of their totals. |
| Summary.TypePartition | scripts/azure_watcher.py:157-159 | Every record has exactly one of the three types, so the three filtered lists add up to the whole list. |
| Summary.IpChangesPartition | scripts/azure_watcher.py:157 | The `ip_changes` list holds exactly the IP-change records, in their original order. |
| Summary.AddKeys | scripts/azure_watcher.py:164-167 | Incrementing a dict entry keeps the key order, and appends the key when it is new. |
| Summary.AddCount | scripts/azure_watcher.py:164-167 | Incrementing under `k` raises `k`'s value by the increment and leaves every other key's value as it was. |
| Summary.AddTotal | scripts/azure_watcher.py:164-167 | Incrementing raises the sum of the values by the increment. |
| Summary.RegionalCountsSpec | scripts/azure_watcher.py:161-167 | The region histogram's keys are distinct. They are exactly the region values that occur, including `None`. Each count is the number of records with that region. The counts add up to the number of records. |
| Summary.RegionalCountsKeys | scripts/azure_watcher.py:161-167 | The histogram's keys are distinct, and are exactly the region values that occur. |
| Summary.RegionalCountsCount | scripts/azure_watcher.py:161-167 | Each region's count is its number of records. |
| Summary.RegionalCountsTotal | scripts/azure_watcher.py:161-167 | The counts add up to the number of records. |
| Summary.ServiceActivitySpec | scripts/azure_watcher.py:169-175 | The activity dict's keys are distinct and are exactly the services of the `ip_changes` records. Each value is the sum of `added_count + removed_count` over that service's records. |
| Summary.ServiceActivityKeys | scripts/azure_watcher.py:169-175 | The keys are distinct, and are exactly the services that occur. |
| Summary.ServiceActivityCount | scripts/azure_watcher.py:169-175 | Each value is that service's summed activity. |
| Summary.InsertByCountSpec | scripts/azure_watcher.py:177-182 | Inserting an entry into a non-increasing list keeps it non-increasing and adds exactly that entry. The new entry goes after every entry with the same count. |
| Summary.InsertByCountOrder | scripts/azure_watcher.py:177-182 | Insertion keeps the list non-increasing, and adds exactly one entry. |
| Summary.InsertByCountMultiset | scripts/azure_watcher.py:177-182 | Insertion adds exactly the inserted entry. |
| Summary.InsertByCountNonIncreasing | scripts/azure_watcher.py:177-182 | Insertion keeps the list non-increasing. |
| Summary.InsertByCountWithCount | scripts/azure_watcher.py:177-182 | Among entries with the inserted entry's count, the inserted one comes last. |
| Summary.SortByCountDescSpec | scripts/azure_watcher.py:177-182 | `sorted(items, key=count, reverse=True)`: the result is non-increasing in count and is a permutation of the input. It is stable: for every count, the entries with that count keep their input order. |
| Summary.SortByCountDescOrder | scripts/azure_watcher.py:177-182 | The result is non-increasing and a permutation of the input. |
| Summary.SortByCountDescNonIncreasing | scripts/azure_watcher.py:177-182 | The result is non-increasing in count. |
| Summary.SortByCountDescPermutes | scripts/azure_watcher.py:177-182 | The result is a permutation of the input. |
| Summary.SortByCountDescStable | scripts/azure_watcher.py:177-182 | Entries with equal counts keep their input order. |
| Summary.TopActiveSpec | scripts/azure_watcher.py:177-182 | The top list is the first `min(10, len)` entries of the descending ranking, so it is non-increasing. Every entry comes from the activity dict. No entry left out is more active than one kept. |
| Summary.TopActiveRanked | scripts/azure_watcher.py:177-182 | The top list is the prefix of the descending ranking with `min(10, len)` entries, most active first. |
| Summary.TopActiveMember | scripts/azure_watcher.py:177-182 | Every ranked entry is an entry of the activity dict. |
| Summary.TopActiveDominates | scripts/azure_watcher.py:177-182 | An entry left out is never more active than one kept. |
| Summary.CountOfDistinct | scripts/azure_watcher.py:164-175 | With distinct keys, looking up an entry's key gives that entry's count. |
| Summary.CountOfAbsent | scripts/azure_watcher.py:164-175 | A key that is absent reads as zero. |
| Summary.ActivityOfUnique | scripts/azure_watcher.py:169-175 | When no service repeats, a service's activity is its single record's added plus removed count. |
| Summary.ActivityOfAbsent | scripts/azure_watcher.py:169-175 | A service with no record has zero activity. |
| Summary.ActivityEntry | scripts/azure_watcher.py:169-175 | When services do not repeat, each activity entry is one record's service with that record's activity. |
| Summary.TopActiveOfDistinct | scripts/azure_watcher.py:157-182 | For a change list without repeated services, each ranked entry is one `ip_changes` record's service. Its count is that record's `added_count + removed_count`. |
| Summary.TopActiveEntryOfDistinct | scripts/azure_watcher.py:157-182 | The same, for one ranked entry. |
| Summary.DetectedTopActive | scripts/azure_watcher.py:169-182 | On the list `detect_changes` produces, every ranked service is one `ip_changes` record with that count. |
| Dashboard.GeneratePageNumbers | docs/js/dashboard.js:821-852 | The loop-built page list is `PageWindow(currentPage, totalPages)`. |
| Dashboard.PageRunSpec | docs/js/dashboard.js:826-844 | A run of pages `lo..hi` has `hi - lo + 1` entries (none when `hi < lo`). Entry `k` is page `lo + k`, active exactly when it is the current page. |
| Dashboard.PageWindowAt | docs/js/dashboard.js:830-851 | With more than six pages, gives each position of the list: the first page, an ellipsis when `start > 2`, the pages `start..end`, an ellipsis when `end < total - 1`, and the last page. |
| Dashboard.PageWindowSound | docs/js/dashboard.js:821-852 | At most seven items. Every page shown lies in range: all pages, or the first, the last, or one within one of the current page. Only the current page is active. |
| Dashboard.PageWindowComplete | docs/js/dashboard.js:821-852 | Every page that should be shown is shown, with the right active flag. |
| Dashboard.PageWindowIncreasing | docs/js/dashboard.js:830-851 | Page numbers strictly increase along the list. |
| Dashboard.PageWindowGaps | docs/js/dashboard.js:838-848 | Two adjacent pages have consecutive numbers. An ellipsis stands only between two pages whose numbers are not consecutive. |
| Dashboard.UndoubleDoubleQuotes | docs/js/dashboard.js:6057 | Doubling the quotes is undone by reading `""` back as `"`, and never shortens the string. |
| Dashboard.EscapeCsv | docs/js/dashboard.js:6052-6060 | `escapeCSV`: the field is empty exactly for `null`, `undefined` or an empty string, and a field that needs quoting comes back between double quotes. |
| Dashboard.EscapeCsvRoundTrip | docs/js/dashboard.js:6052-6060 | A reader following RFC 4180 reads the escaped field back as the original string, unless the field holds a carriage return and no comma, quote or newline; such a field is written bare and does not read back. The field is left unchanged exactly when it holds no comma, quote or newline. |
| Dashboard.ReplaceCharAppend | docs/js/dashboard.js:4216 | Replacing a character in a concatenation is the concatenation of the replacements. |
| Dashboard.EscapeForDataAttr | docs/js/dashboard.js:4215-4217 | `escapeForDataAttr`: the escaped value is never shorter than the input. |
| Dashboard.EscapeForDataAttrPieces | docs/js/dashboard.js:4215-4217 | The two chained replacements work character by character: `"` becomes `&quot;`, `'` becomes `&#39;`, and anything else stays. |
| Dashboard.EscapeForDataAttrNoQuotes | docs/js/dashboard.js:4215-4217 | The escaped value holds no quote of either kind. |
| Dashboard.EscapeForDataAttrUnchanged | docs/js/dashboard.js:4215-4217 | A string is left unchanged exactly when it holds no quote. |
| Dashboard.EscapeForDataAttrPlain | docs/js/dashboard.js:4215-4217 | A string without quotes is left as it is. |
| Dashboard.EscapeForDataAttrDecodes | docs/js/dashboard.js:4215-4217 | For input without `&`, decoding the attribute's entities gives back the input. |
| Dashboard.AddToGroupsKeys | docs/js/dashboard.js:3657-3663 | Pushing under a region keeps the key order, and adds the region as a new last key when it is new. |
| Dashboard.AddToGroupsOf | docs/js/dashboard.js:3657-3663 | The record is appended to its region's group and to no other. |
| Dashboard.AddToGroupsCount | docs/js/dashboard.js:3657-3663 | The groups together hold one more record. |
| Dashboard.GroupsByRegionSpec | docs/js/dashboard.js:3655-3665 | Group keys are distinct. They are exactly the `region \|\| 'Global'` values that occur. Each group holds exactly the records with that key, in input order. Together the groups hold every record once. |
| Dashboard.GroupsByRegionKeys | docs/js/dashboard.js:3655-3665 | Group keys are distinct, and are exactly the keys that occur. |
| Dashboard.GroupsByRegionOf | docs/js/dashboard.js:3655-3665 | Each group is the input filtered by its key. |
| Dashboard.GroupsByRegionCount | docs/js/dashboard.js:3655-3665 | The group sizes add up to the number of records. |
| Dashboard.GroupOfDistinct | docs/js/dashboard.js:3655-3665 | With distinct keys, a key's lookup returns its own group. |
| Dashboard.GroupsAreRegions | docs/js/dashboard.js:3655-3665 | Every group built holds exactly the records of its region. |
| Dashboard.GroupChangesByRegion | docs/js/dashboard.js:3655-3665 | The `forEach` loop builds `GroupsByRegion(changes)`. |
| Dashboard.FilterUpdates | docs/js/dashboard.js:1078-1086 | The dedup loop, tracking `lastChangeNumber`, builds `ChangedFromPrevious(timeline)`. |
| Dashboard.ChangedFromPreviousEnds | docs/js/dashboard.js:1078-1086 | The first snapshot is kept. The last kept one carries the latest change number. |
| Dashboard.ChangedFromPreviousNoRepeats | docs/js/dashboard.js:1078-1086 | No two consecutive kept snapshots have `===` change numbers. |
| Dashboard.ChangedFromPreviousSubsequence | docs/js/dashboard.js:1078-1086 | What is kept is a subsequence of the timeline. |
| Dashboard.ChangedFromPreviousKeeps | docs/js/dashboard.js:1078-1086 | A snapshot is kept when it is the first one, when its number differs from its predecessor's, or when its number is `NaN`. |
| Dashboard.WithoutSpec | docs/js/dashboard.js:5361 | `filter(d => d !== date)` keeps exactly the other entries, in order. |
| Dashboard.WithoutLength | docs/js/dashboard.js:5361 | Filtering never lengthens the list. |
| Dashboard.CompareSelection.constructor | docs/js/dashboard.js:4881-4882 | Starts outside compare mode, with no picks and no highlights. |
| Dashboard.CompareSelection.ToggleCompareMode | docs/js/dashboard.js:5284-5351 | Flips the mode and empties the picks. Leaving the mode removes every highlight. The invariant holds afterwards: at most two picks, every highlighted item among them, and no highlight outside compare mode. |
| Dashboard.CompareSelection.RenderFilteredTimeline | docs/js/dashboard.js:5063-5098 | Re-rendering the timeline removes every highlight and keeps the mode and the picks. The invariant is kept. |
| Dashboard.CompareSelection.ToggleCompareSelection | docs/js/dashboard.js:5355-5368 | Clicking a highlighted item removes every occurrence of its date from the picks and drops its highlight. Clicking an item without the highlight appends its date while fewer than two are picked, even when the date is picked already; otherwise nothing changes. The invariant is kept. |
| Dashboard.CompareSelection.ToggleCompareSelectionByPicks | docs/js/dashboard.js:5355-5368 | Corrected selection, decided by the picks rather than the highlight: a picked date is unpicked, another is picked while fewer than two are. Picks without repeats stay without repeats. |
| Dashboard.CompareSelection.PerformComparison | docs/js/dashboard.js:5378-5393 | Without exactly two picks nothing is compared and nothing changes. With two, the picks are sorted in place (same elements, earlier date first) and those two dates are compared. The mode and highlights stay. |
| Dashboard.DuplicatePickAsWritten | docs/js/dashboard.js:5358-5367 | Pick `d`, re-render, click `d` again: the picks are `[d, d]` and `d` is compared with itself. |
| Dashboard.DuplicatePickCorrected | docs/js/dashboard.js:5358-5367 | With the corrected selection, the same clicks leave no pick. |
| Dashboard.RecordKeys | docs/js/dashboard.js:537-549 | Recording a change keeps the service order, and appends the service when it is new. |
| Dashboard.RecordStats | docs/js/dashboard.js:537-549 | Recording bumps only that service's counters: one more change, its added and removed counts, and their sum. |
| Dashboard.HistoricalActivitySpec | docs/js/dashboard.js:527-551 | Keys are distinct. They are exactly the services, not starting with `AzureCloud` and not empty, that occur. Each service's counters equal its record count, its summed `added_count \|\| 0`, its summed `removed_count \|\| 0`, and their total. |
| Dashboard.HistoricalActivityKeys | docs/js/dashboard.js:527-551 | Keys are distinct, and are exactly the tracked services that occur. |
| Dashboard.HistoricalActivityStats | docs/js/dashboard.js:527-551 | A tracked service's counters are the sums over its records. |
| Dashboard.HistoricalActivityTracked | docs/js/dashboard.js:527-551 | Every entry is a tracked service, with the expected counters. Its total change is its added plus its removed count. |
| Dashboard.StatsOfDistinct | docs/js/dashboard.js:537-549 | With distinct keys, a lookup gives the entry's own counters. |
| Dashboard.LoadHistoricalActivity | docs/js/dashboard.js:527-551 | The loop over the loaded records builds `HistoricalActivity(changes)`. |
| ClassicDashboard.GetRegionDisplayNameAsWritten | docs/dashboard.js:66-75 | `getRegionDisplayName` as written: a missing name is `Global`, and every result is `Global`, a display name from the table, or the name itself. |
| ClassicDashboard.GetRegionDisplayNameSpec | docs/dashboard.js:7-75 | With digits kept in the cleaning, every table key made of lower-case letters and digits resolves to its own display name. Names without digits resolve as the original code does. A missing or empty name is `Global`. |
| ClassicDashboard.WestUs3Resolves | docs/dashboard.js:7-75 | With the corrected cleaning, `westus3` is shown as `West US 3`. |
| ClassicDashboard.DigitKeysUnreachable | docs/dashboard.js:72 | As written, no cleaned name holds a digit, so table keys with a digit are never looked up. |
| ClassicDashboard.WestUs3AsWritten | docs/dashboard.js:66-75 | As written, `westus3` is shown as `West US`. |
| ClassicDashboard.CleanAsWrittenLetters | docs/dashboard.js:72 | The cleaning as written keeps only lower-case letters. |
| ClassicDashboard.CleanIdentity | docs/dashboard.js:72 | Cleaning leaves a name of lower-case letters and digits unchanged. |
| ClassicDashboard.CleanWithoutDigits | docs/dashboard.js:72 | On a name without digits, the two cleanings agree. |
| ClassicDashboard.CompareRegions | docs/dashboard.js:272-279 | The comparator of the regional list: zero exactly on equal names, and the empty region before any other. |
| ClassicDashboard.CompareRegionsSpec | docs/dashboard.js:271-279 | The comparator is zero exactly on equal names, and negative or positive exactly as the string order says. The empty region comes before every other. |
| ClassicDashboard.CompareRegionsTotalOrder | docs/dashboard.js:271-279 | The comparator is antisymmetric and transitive, so the sort is well defined. |
| ClassicDashboard.TruncateServiceName | docs/dashboard.js:646-648 | `truncateServiceName(name, maxLength)`: the label is at most three characters longer than the name, and a truncated one is exactly `maxLength + 3` long. |
| ClassicDashboard.TruncateServiceNameDefault | docs/dashboard.js:221 | The chart labels use the default `maxLength` of 25: a label is at most 28 characters, and a name of at most 25 is shown whole. |
| ClassicDashboard.TruncateServiceNameSpec | docs/dashboard.js:646-648 | A name that fits is returned whole. A longer one is its first `maxLength` characters (none when that is negative) followed by `...`. |
| ClassicDashboard.TruncateServiceNameIdempotent | docs/dashboard.js:646-648 | Truncating twice gives the same as truncating once. |
| ClassicDashboard.FormatChangeType | docs/dashboard.js:650-657 | `formatChangeType`: a string is shown unchanged exactly when it is not one of the three record types. |
| ClassicDashboard.FormatChangeTypeSpec | docs/dashboard.js:650-657 | Each record type gets its label. Any other string is shown as it is. Formatting a label again changes nothing. |

## Left out

- Network, file and clock access are not modelled:
  - downloading the document and finding its URL;
  - reading and writing the JSON files, and the manifest;
  - baseline filtering, logging, the SHA-256 digest;
  - `last_updated`, which comes from `datetime.now`.

  The documents and change lists are parameters instead.
- The dashboards' DOM, HTML rendering, charts, banners and event wiring are not modelled:
  - `GeneratePageNumbers` returns the list of pages and ellipses, not the HTML buttons built from it;
  - the `compare-selected` class is the `highlighted` field of `CompareSelection`.
- `CompareSelection.ToggleCompareSelection` requires compare mode. Its click handler is only installed in compare mode (`applyCompareMode`). The model also assumes one timeline item per date.
- `CompareSelection.PerformComparison` returns the two dates it compares. Looking up their weeks in `allTimelineData` and the comparison modal are not modelled. The sort compares strings by code point, where JavaScript compares UTF-16 code units; the two differ only beyond the Basic Multilingual Plane.
- The week-selector export and `scroll-handler.js` are not modelled. They drive the page and change no modelled state.
- `ClassicDashboard.CompareRegions` treats `localeCompare` as code-point order. Locale collation is not modelled.
- Lower-casing covers ASCII letters only. String lengths count Unicode scalar values, not UTF-16 code units.
- JavaScript object keys are modelled as an insertion-ordered list. The engine's ordering of integer-like keys is not modelled, nor are prototype keys: `formatChangeType('constructor')` would return a function.
- The timeline sort by date before the dedup loop is not modelled. `FilterUpdates` takes the sorted timeline, and `parseInt` results as `Num(n)` or `NaN`.
- `Dashboard.EscapeCsvRoundTrip`: a field holding a carriage return but no comma, quote or line feed is written unquoted by `escapeCSV`, and an RFC 4180 reader does not take it back; the lemma states that case instead of a round trip.
- `Dashboard.EscapeCsv`: every caller passes a string, so `String(field)` of numbers and other values is not modelled.
- `Dashboard.EscapeForDataAttrDecodes`: the round trip is stated only for inputs without `&`. The source does not escape `&`, so an input such as `&quot;` decodes to `"`.
- The regional histogram is keyed by the raw region value, `None` included. Every record from `detect_changes` carries a `region` key, so the `'Global'` default of `change.get('region', 'Global')` is never used. How JSON serialises the `None` key is not modelled.
- `truncateServiceName` and `formatChangeType` appear identically in both dashboard files (`docs/js/dashboard.js:4202-4213` and `docs/dashboard.js:646-657`). Each is modelled once, in `ClassicDashboard`.

## Findings

| source | as written | input that shows it | evidently intended | confidence | as-written member | corrected member |
|---|---|---|---|---|---|---|
| docs/dashboard.js:72 | `getRegionDisplayName` cleans the name with `/[^a-z]/g`, which also deletes digits. The table keys `australiacentral2`, `eastus2`, `westus2` and `westus3` can never be looked up. | `getRegionDisplayName('westus3')` looks up `westus` and returns `West US`. | Keep digits, so that `westus3` is shown as `West US 3`. | not executed | ClassicDashboard.WestUs3AsWritten | ClassicDashboard.GetRegionDisplayName |
| docs/js/dashboard.js:5358-5367 | `toggleCompareSelection` decides by the item's `compare-selected` class. Every change of a history filter re-renders the timeline (:5047, :5092), which drops that class but keeps `selectedCompareItems`. | In compare mode, pick week `d`, then any call of `filterHistory` (the history filters' handlers live in the page's HTML, which is not part of this model), then click `d` again: the picks become `[d, d]`, and `performComparison` compares `d` with itself. | Decide by whether the date is already picked, so that the click unpicks `d`. | not executed | Dashboard.DuplicatePickAsWritten | Dashboard.CompareSelection.ToggleCompareSelectionByPicks |
