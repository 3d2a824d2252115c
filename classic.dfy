/**
 * Helpers of the classic dashboard page: display names of Azure regions,
 * the order of the regional list, and the labels of service names and
 * change types.
 */
module ClassicDashboard {
  import opened Wrappers
  import opened StringOrder
  import Watcher

  // ---------------------------------------------------------------------
  // Region display names
  // ---------------------------------------------------------------------

  /** Programmatic region name to display name. */
  const AzureRegions: map<string, string> := map[
    "australiacentral" := "Australia Central",
    "australiacentral2" := "Australia Central 2",
    "australiaeast" := "Australia East",
    "australiasoutheast" := "Australia Southeast",
    "austriaeast" := "Austria East",
    "belgiumcentral" := "Belgium Central",
    "brazilsouth" := "Brazil South",
    "brazilsoutheast" := "Brazil Southeast",
    "canadacentral" := "Canada Central",
    "canadaeast" := "Canada East",
    "centralindia" := "Central India",
    "centralus" := "Central US",
    "chilecentral" := "Chile Central",
    "eastasia" := "East Asia",
    "eastus" := "East US",
    "eastus2" := "East US 2",
    "francecentral" := "France Central",
    "francesouth" := "France South",
    "germanynorth" := "Germany North",
    "germanywestcentral" := "Germany West Central",
    "indonesiacentral" := "Indonesia Central",
    "israelcentral" := "Israel Central",
    "italynorth" := "Italy North",
    "japaneast" := "Japan East",
    "japanwest" := "Japan West",
    "koreacentral" := "Korea Central",
    "koreasouth" := "Korea South",
    "malaysiawest" := "Malaysia West",
    "mexicocentral" := "Mexico Central",
    "newzealandnorth" := "New Zealand North",
    "northcentralus" := "North Central US",
    "northeurope" := "North Europe",
    "norwayeast" := "Norway East",
    "norwaywest" := "Norway West",
    "polandcentral" := "Poland Central",
    "qatarcentral" := "Qatar Central",
    "southafricanorth" := "South Africa North",
    "southafricawest" := "South Africa West",
    "southcentralus" := "South Central US",
    "southindia" := "South India",
    "southeastasia" := "Southeast Asia",
    "spaincentral" := "Spain Central",
    "swedencentral" := "Sweden Central",
    "swedensouth" := "Sweden South",
    "switzerlandnorth" := "Switzerland North",
    "switzerlandwest" := "Switzerland West",
    "uaecentral" := "UAE Central",
    "uaenorth" := "UAE North",
    "uksouth" := "UK South",
    "ukwest" := "UK West",
    "westcentralus" := "West Central US",
    "westeurope" := "West Europe",
    "westindia" := "West India",
    "westus" := "West US",
    "westus2" := "West US 2",
    "westus3" := "West US 3"
  ]

  /** `toLowerCase` on one character, for the ASCII letters. */
  function LowerAscii(c: char): char {
    if 'A' <= c <= 'Z' then (c as int + 32) as char else c
  }

  predicate IsLowerLetter(c: char) { 'a' <= c <= 'z' }

  predicate IsDigit(c: char) { '0' <= c <= '9' }

  /** `name.toLowerCase().replace(/[^a-z]/g, '')`: lower-case letters only, digits dropped. */
  function CleanAsWritten(name: string): string {
    if name == [] then []
    else (if IsLowerLetter(LowerAscii(name[0])) then [LowerAscii(name[0])] else []) + CleanAsWritten(name[1..])
  }

  /** `getRegionDisplayName(programmaticName)` as it stands; `None` stands for `null` and `undefined`. */
  function GetRegionDisplayNameAsWritten(programmaticName: Option<string>): (r: string)
    ensures programmaticName.None? ==> r == "Global"
    ensures r == "Global" || r in AzureRegions.Values || (programmaticName.Some? && r == programmaticName.value)
  {
    if programmaticName.None? || programmaticName.value == "" then "Global"
    else
      var cleanName := CleanAsWritten(programmaticName.value);
      if cleanName in AzureRegions then AzureRegions[cleanName] else programmaticName.value
  }

  /**
   * The cleaning drops digits, so `westus3` is looked up as `westus`: no
   * cleaned name holds a digit, and the table entries whose key holds one
   * (`australiacentral2`, `eastus2`, `westus2`, `westus3`) are never reached.
   */
  lemma DigitKeysUnreachable()
    ensures forall name :: !HasDigit(CleanAsWritten(name))
  {
    forall name ensures !HasDigit(CleanAsWritten(name)) {
      CleanAsWrittenLetters(name);
    }
  }

  /** `westus3` is shown as `West US`, although the table maps it to `West US 3` (see `WestUs3Resolves`). */
  lemma WestUs3AsWritten()
    ensures GetRegionDisplayNameAsWritten(Some("westus3")) == "West US"
  {
    assert CleanAsWritten("westus3") == "westus";
  }

  predicate HasDigit(s: string) {
    exists i :: 0 <= i < |s| && IsDigit(s[i])
  }

  lemma {:induction false} CleanAsWrittenLetters(name: string)
    ensures forall i :: 0 <= i < |CleanAsWritten(name)| ==> IsLowerLetter(CleanAsWritten(name)[i])
  {
    if name != [] {
      CleanAsWrittenLetters(name[1..]);
    }
  }

  predicate IsLowerAlnum(c: char) { IsLowerLetter(c) || IsDigit(c) }

  /** The cleaning the lookup table needs: lower-case letters and digits are kept. */
  function Clean(name: string): string {
    if name == [] then []
    else (if IsLowerAlnum(LowerAscii(name[0])) then [LowerAscii(name[0])] else []) + Clean(name[1..])
  }

  /** `getRegionDisplayName`, keeping digits so that every table entry can be reached. */
  function GetRegionDisplayName(programmaticName: Option<string>): string {
    if programmaticName.None? || programmaticName.value == "" then "Global"
    else
      var cleanName := Clean(programmaticName.value);
      if cleanName in AzureRegions then AzureRegions[cleanName] else programmaticName.value
  }

  lemma {:induction false} CleanIdentity(s: string)
    requires forall i :: 0 <= i < |s| ==> IsLowerAlnum(s[i])
    ensures Clean(s) == s
  {
    if s != [] {
      CleanIdentity(s[1..]);
    }
  }

  /** On a name without digits the two cleanings agree. */
  lemma {:induction false} CleanWithoutDigits(s: string)
    requires !HasDigit(s)
    ensures Clean(s) == CleanAsWritten(s)
  {
    if s != [] {
      assert !IsDigit(s[0]);
      assert !HasDigit(s[1..]) by {
        forall i | 0 <= i < |s[1..]| ensures !IsDigit(s[1..][i]) {
          assert s[1..][i] == s[i + 1];
        }
      }
      CleanWithoutDigits(s[1..]);
    }
  }

  /** A name made only of lower-case letters and digits, as the table keys are. */
  predicate IsCleanName(s: string) {
    forall i :: 0 <= i < |s| ==> IsLowerAlnum(s[i])
  }

  /**
   * A table key gets its own display name, whether or not it holds a digit;
   * a name without digits gets the same answer as before the correction;
   * a missing or empty name is `Global`.
   */
  lemma GetRegionDisplayNameSpec()
    ensures forall k :: k != "" && IsCleanName(k) && k in AzureRegions ==> GetRegionDisplayName(Some(k)) == AzureRegions[k]
    ensures forall name :: !HasDigit(name) ==> GetRegionDisplayName(Some(name)) == GetRegionDisplayNameAsWritten(Some(name))
    ensures GetRegionDisplayName(None) == "Global" && GetRegionDisplayName(Some("")) == "Global"
  {
    forall k | k != "" && IsCleanName(k) && k in AzureRegions ensures GetRegionDisplayName(Some(k)) == AzureRegions[k] {
      CleanIdentity(k);
    }
    forall name | !HasDigit(name)
      ensures GetRegionDisplayName(Some(name)) == GetRegionDisplayNameAsWritten(Some(name))
    {
      CleanWithoutDigits(name);
    }
  }

  /** `westus3` now resolves to its own entry. */
  lemma WestUs3Resolves()
    ensures GetRegionDisplayName(Some("westus3")) == AzureRegions["westus3"] == "West US 3"
  {
    assert Clean("westus3") == "westus3";
  }

  // ---------------------------------------------------------------------
  // Order of the regional list
  // ---------------------------------------------------------------------

  /**
   * The comparator of the regional list: the empty region (global tags)
   * first, then `localeCompare`, taken here as code-point order.
   */
  function CompareRegions(a: string, b: string): (r: int)
    ensures r == 0 <==> a == b
    ensures a == "" && b != "" ==> r < 0
  {
    if a == "" && b != "" then -1
    else if a != "" && b == "" then 1
    else if a == "" && b == "" then 0
    else Compare(a, b)
  }

  /**
   * The comparator orders regions exactly as `Less` does: it is zero only
   * on equal names, negative exactly when `a` sorts first, positive
   * exactly when `b` does, so it is a total order with the empty region
   * before all others.
   */
  lemma CompareRegionsSpec(a: string, b: string)
    ensures CompareRegions(a, b) == 0 <==> a == b
    ensures CompareRegions(a, b) < 0 <==> Less(a, b)
    ensures CompareRegions(a, b) > 0 <==> Less(b, a)
    ensures a == "" && b != "" ==> CompareRegions(a, b) < 0
  {
    LessIrreflexive(a);
  }

  /** Sorting with the comparator is well defined: it is antisymmetric and transitive. */
  lemma CompareRegionsTotalOrder(a: string, b: string, c: string)
    ensures CompareRegions(a, b) < 0 <==> CompareRegions(b, a) > 0
    ensures CompareRegions(a, b) < 0 && CompareRegions(b, c) < 0 ==> CompareRegions(a, c) < 0
  {
    CompareRegionsSpec(a, b);
    CompareRegionsSpec(b, a);
    CompareRegionsSpec(b, c);
    CompareRegionsSpec(a, c);
    if Less(a, b) && Less(b, c) {
      LessTransitive(a, b, c);
    }
  }

  // ---------------------------------------------------------------------
  // Labels
  // ---------------------------------------------------------------------

  const DefaultMaxLength := 25

  /**
   * `truncateServiceName(name, maxLength)`: a name longer than `maxLength`
   * keeps its first `maxLength` characters (none when `maxLength` is
   * negative, as `substring` clamps) followed by `...`.
   */
  function TruncateServiceName(name: string, maxLength: int): (r: string)
    ensures |r| <= |name| + 3
    ensures 0 <= maxLength < |name| ==> |r| == maxLength + 3
  {
    if |name| > maxLength then name[..if maxLength < 0 then 0 else maxLength] + "..." else name
  }

  /** `truncateServiceName(name)` with the default `maxLength`, as the top-services chart calls it: a label is at most 28 characters. */
  function TruncateServiceNameDefault(name: string): (r: string)
    ensures |r| <= DefaultMaxLength + 3
    ensures |name| <= DefaultMaxLength ==> r == name
  {
    TruncateServiceName(name, DefaultMaxLength)
  }

  /**
   * A name that fits is shown whole; a longer one is shown as a prefix of
   * it of length `maxLength` (at least zero) followed by `...`.
   */
  lemma TruncateServiceNameSpec(name: string, maxLength: int)
    ensures var r := TruncateServiceName(name, maxLength);
            var keep := if maxLength < 0 then 0 else maxLength;
            && (|name| <= maxLength ==> r == name)
            && (|name| > maxLength ==>
                  && |r| == keep + 3
                  && r[..keep] == name[..keep]
                  && r[keep..] == "...")
  {
  }

  /** Truncating a truncated name changes nothing. */
  lemma TruncateServiceNameIdempotent(name: string, maxLength: int)
    ensures TruncateServiceName(TruncateServiceName(name, maxLength), maxLength) == TruncateServiceName(name, maxLength)
  {
    var r := TruncateServiceName(name, maxLength);
    if |name| > maxLength {
      var keep := if maxLength < 0 then 0 else maxLength;
      assert r[..keep] == name[..keep];
    }
  }

  /** `formatChangeType(type)`: the label of a record type; any other string is shown as it is. */
  function FormatChangeType(t: string): (r: string)
    ensures r == t <==> t !in {"ip_changes", "service_added", "service_removed"}
  {
    if t == "ip_changes" then "IP Changes"
    else if t == "service_added" then "New Service"
    else if t == "service_removed" then "Removed"
    else t
  }

  /**
   * Each kind of change record gets its own label, and formatting a label
   * again leaves it as it is.
   */
  lemma FormatChangeTypeSpec(c: Watcher.Change, t: string)
    ensures FormatChangeType(Watcher.TypeName(c)) == match c
      case ServiceAdded(_, _, _, _) => "New Service"
      case IpChanges(_, _, _, _, _, _, _) => "IP Changes"
      case ServiceRemoved(_, _, _) => "Removed"
    ensures FormatChangeType(FormatChangeType(t)) == FormatChangeType(t)
    ensures t != "ip_changes" && t != "service_added" && t != "service_removed" ==> FormatChangeType(t) == t
  {
  }
}
