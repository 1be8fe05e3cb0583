/**
 * The stateable parts of the `scan` command: the consistency rules on its
 * options, the APK paths derived from a package build log, the
 * require-zero bookkeeping, and the findings tree printed in outline
 * format (styles and hyperlinks taken as the identity).
 */
module ScanCommand {
  import opened Results
  import opened Text
  import Sorting

  // ----- Options -----

  const OutputFormatOutline: string := "outline"
  const OutputFormatJSON: string := "json"
  const ValidOutputFormats: seq<string> := [OutputFormatOutline, OutputFormatJSON]

  datatype ScanParams = ScanParams(
    requireZeroFindings: bool,
    outputFormat: string,
    sbomInput: bool,
    packageBuildLogInput: bool,
    advisoryFilterSet: string,
    advisoriesRepoDirs: seq<string>)

  datatype ScanError =
    | InvalidOutputFormat(format: string)
    | InvalidAdvisoryFilterSet(filterSet: string)
    | FilterWithoutAdvisoriesDirs
    | AdvisoriesDirsWithoutFilter
    | SbomAndBuildLog
    | VulnerabilitiesFound(paths: seq<string>)

  /** An empty output format means outline. */
  function EffectiveOutputFormat(format: string): string {
    if format == "" then OutputFormatOutline else format
  }

  /** The rules the options must satisfy, stated together. */
  ghost predicate ParamsConsistent(p: ScanParams, validAdvisoriesSets: seq<string>) {
    && EffectiveOutputFormat(p.outputFormat) in ValidOutputFormats
    && (p.advisoryFilterSet != "" ==> p.advisoryFilterSet in validAdvisoriesSets)
    && (p.advisoryFilterSet != "" <==> p.advisoriesRepoDirs != [])
    && !(p.sbomInput && p.packageBuildLogInput)
  }

  /**
   * The checks at the start of the command, in their order; on success the
   * options with the output format defaulted.
   */
  function ValidateParams(p: ScanParams, validAdvisoriesSets: seq<string>): (r: Result<ScanParams, ScanError>)
    ensures r.Ok? <==> ParamsConsistent(p, validAdvisoriesSets)
    ensures r.Ok? ==> r.value == p.(outputFormat := EffectiveOutputFormat(p.outputFormat))
    ensures r.Ok? ==> r.value.outputFormat in {OutputFormatOutline, OutputFormatJSON}
    ensures (r == Err(InvalidOutputFormat(EffectiveOutputFormat(p.outputFormat)))) <==>
            EffectiveOutputFormat(p.outputFormat) !in ValidOutputFormats
    ensures r == Err(SbomAndBuildLog) ==> p.sbomInput && p.packageBuildLogInput
  {
    var format := EffectiveOutputFormat(p.outputFormat);
    if format !in ValidOutputFormats then
      Err(InvalidOutputFormat(format))
    else if p.advisoryFilterSet != "" && p.advisoryFilterSet !in validAdvisoriesSets then
      Err(InvalidAdvisoryFilterSet(p.advisoryFilterSet))
    else if p.advisoryFilterSet != "" && |p.advisoriesRepoDirs| == 0 then
      Err(FilterWithoutAdvisoriesDirs)
    else if |p.advisoriesRepoDirs| > 0 && p.advisoryFilterSet == "" then
      Err(AdvisoriesDirsWithoutFilter)
    else if p.packageBuildLogInput && p.sbomInput then
      Err(SbomAndBuildLog)
    else
      Ok(p.(outputFormat := format))
  }

  // ----- Inputs from a build log -----

  datatype BuildLogEntry = BuildLogEntry(arch: string, package: string, fullVersion: string)

  /** `filepath.Join` without its final cleaning: non-empty elements joined by `/`. */
  function JoinPath(elems: seq<string>): string {
    if elems == [] then ""
    else
      var init := JoinPath(elems[..|elems| - 1]);
      var last := elems[|elems| - 1];
      if last == "" then init else if init == "" then last else init + "/" + last
  }

  function ApkPath(base: string, entry: BuildLogEntry): string {
    JoinPath([base, "packages", entry.arch, entry.package + "-" + entry.fullVersion + ".apk"])
  }

  /** With a base directory and an architecture, the path is `<base>/packages/<arch>/<pkg>-<version>.apk`. */
  lemma ApkPathShape(base: string, entry: BuildLogEntry)
    requires base != "" && entry.arch != ""
    ensures ApkPath(base, entry) ==
      base + "/packages/" + entry.arch + "/" + entry.package + "-" + entry.fullVersion + ".apk"
  {
    var elems := [base, "packages", entry.arch, entry.package + "-" + entry.fullVersion + ".apk"];
    var apk := entry.package + "-" + entry.fullVersion + ".apk";
    assert elems[..1][..0] == [];
    assert JoinPath(elems[..1]) == base;
    assert elems[..2][..1] == elems[..1];
    assert JoinPath(elems[..2]) == base + "/" + "packages";
    assert elems[..3][..2] == elems[..2];
    assert JoinPath(elems[..3]) == base + "/" + "packages" + "/" + entry.arch;
    assert elems[..4][..3] == elems[..3];
    assert apk != "" by { assert apk[|apk| - 1] == 'k'; }
    assert elems[..4] == elems;
    assert JoinPath(elems) == base + "/" + "packages" + "/" + entry.arch + "/" + apk;
  }

  /** One APK path per build-log entry, in order. */
  method ApkPaths(packagesBaseDir: string, buildLogEntries: seq<BuildLogEntry>) returns (scanInputs: seq<string>)
    ensures |scanInputs| == |buildLogEntries|
    ensures forall i :: 0 <= i < |buildLogEntries| ==> scanInputs[i] == ApkPath(packagesBaseDir, buildLogEntries[i])
  {
    scanInputs := [];
    for i := 0 to |buildLogEntries|
      invariant |scanInputs| == i
      invariant forall k :: 0 <= k < i ==> scanInputs[k] == ApkPath(packagesBaseDir, buildLogEntries[k])
    {
      var entry := buildLogEntries[i];
      var apkName := entry.package + "-" + entry.fullVersion + ".apk";
      var apkPath := JoinPath([packagesBaseDir, "packages", entry.arch, apkName]);
      scanInputs := scanInputs + [apkPath];
    }
  }

  // ----- Require-zero bookkeeping -----

  /** The scanned paths that had findings, in scan order. */
  function PathsWithFindings(paths: seq<string>, findingCounts: seq<nat>): seq<string>
    requires |paths| == |findingCounts|
  {
    if paths == [] then []
    else PathsWithFindings(paths[..|paths| - 1], findingCounts[..|paths| - 1])
         + (if findingCounts[|paths| - 1] > 0 then [paths[|paths| - 1]] else [])
  }

  lemma {:induction false} PathsWithFindingsMembers(paths: seq<string>, findingCounts: seq<nat>, x: string)
    requires |paths| == |findingCounts|
    ensures x in PathsWithFindings(paths, findingCounts) <==>
            exists i :: 0 <= i < |paths| && paths[i] == x && findingCounts[i] > 0
    decreases |paths|
  {
    if paths != [] {
      var n := |paths|;
      PathsWithFindingsMembers(paths[..n - 1], findingCounts[..n - 1], x);
      if exists i :: 0 <= i < n && paths[i] == x && findingCounts[i] > 0 {
        var i :| 0 <= i < n && paths[i] == x && findingCounts[i] > 0;
        if i < n - 1 {
          assert paths[..n - 1][i] == x && findingCounts[..n - 1][i] > 0;
        }
      }
    }
  }

  lemma {:induction false} PathsWithFindingsEmpty(paths: seq<string>, findingCounts: seq<nat>)
    requires |paths| == |findingCounts|
    ensures PathsWithFindings(paths, findingCounts) == [] <==>
            forall i :: 0 <= i < |paths| ==> findingCounts[i] == 0
    decreases |paths|
  {
    if paths != [] {
      var n := |paths|;
      PathsWithFindingsEmpty(paths[..n - 1], findingCounts[..n - 1]);
      assert forall i :: 0 <= i < n - 1 ==> findingCounts[..n - 1][i] == findingCounts[i];
    }
  }

  /**
   * With `--require-zero`, every scan still runs, and the command fails at
   * the end naming each path that had findings.
   */
  method RequireZeroFindings(requireZero: bool, paths: seq<string>, findingCounts: seq<nat>)
    returns (err: Option<ScanError>)
    requires |paths| == |findingCounts|
    ensures err.Some? <==> requireZero && exists i :: 0 <= i < |paths| && findingCounts[i] > 0
    ensures err.Some? ==> err.value == VulnerabilitiesFound(PathsWithFindings(paths, findingCounts))
  {
    var failing: seq<string> := [];
    for i := 0 to |paths|
      invariant failing == if requireZero then PathsWithFindings(paths[..i], findingCounts[..i]) else []
    {
      assert paths[..i + 1][..i] == paths[..i] && findingCounts[..i + 1][..i] == findingCounts[..i];
      if requireZero && findingCounts[i] > 0 {
        failing := failing + [paths[i]];
      }
    }
    assert paths[..|paths|] == paths && findingCounts[..|paths|] == findingCounts;
    PathsWithFindingsEmpty(paths, findingCounts);
    if |failing| > 0 {
      return Some(VulnerabilitiesFound(failing));
    }
    return None;
  }

  // ----- Findings tree -----

  datatype Package = Package(id: string, name: string, version: string, kind: string, location: string)
  datatype Vulnerability = Vulnerability(id: string, aliases: seq<string>, severity: string, fixedVersion: string)
  datatype Finding = Finding(package: Package, vulnerability: Vulnerability)

  /** The value a Go map lookup of a missing package ID yields. */
  const ZeroPackage: Package := Package("", "", "", "", "")

  datatype FindingsTree = FindingsTree(
    findingsByPackageByLocation: map<string, map<string, seq<Finding>>>,
    packagesByID: map<string, Package>)

  /** The findings at a location, in input order. */
  function AtLocation(findings: seq<Finding>, location: string): (r: seq<Finding>)
    ensures |r| <= |findings|
  {
    if findings == [] then []
    else
      var f := findings[|findings| - 1];
      AtLocation(findings[..|findings| - 1], location) + (if f.package.location == location then [f] else [])
  }

  /** The findings of one package at one location, in input order. */
  function Bucket(findings: seq<Finding>, location: string, packageID: string): (r: seq<Finding>)
    ensures |r| <= |findings|
  {
    if findings == [] then []
    else
      var f := findings[|findings| - 1];
      Bucket(findings[..|findings| - 1], location, packageID)
      + (if f.package.location == location && f.package.id == packageID then [f] else [])
  }

  /** The package of the last finding with the given package ID. */
  function LastPackage(findings: seq<Finding>, packageID: string): Option<Package> {
    if findings == [] then None
    else if findings[|findings| - 1].package.id == packageID then Some(findings[|findings| - 1].package)
    else LastPackage(findings[..|findings| - 1], packageID)
  }

  /** A non-empty bucket lies inside a non-empty location. */
  lemma {:induction false} BucketWithinLocation(findings: seq<Finding>, location: string, packageID: string)
    requires Bucket(findings, location, packageID) != []
    ensures AtLocation(findings, location) != []
    decreases |findings|
  {
    var n := |findings|;
    if findings[n - 1].package.location != location || findings[n - 1].package.id != packageID {
      BucketWithinLocation(findings[..n - 1], location, packageID);
    }
  }

  /** A non-empty location holds at least one non-empty bucket. */
  lemma {:induction false} LocationHasBucket(findings: seq<Finding>, location: string) returns (packageID: string)
    requires AtLocation(findings, location) != []
    ensures Bucket(findings, location, packageID) != []
    decreases |findings|
  {
    var n := |findings|;
    if findings[n - 1].package.location == location {
      packageID := findings[n - 1].package.id;
    } else {
      packageID := LocationHasBucket(findings[..n - 1], location);
    }
  }

  /**
   * Each bucket holds every occurrence of every finding with its location
   * and package ID, and nothing else: each finding is placed exactly once.
   */
  lemma {:induction false} BucketCounts(findings: seq<Finding>, location: string, packageID: string, f: Finding)
    ensures multiset(Bucket(findings, location, packageID))[f] ==
            if f.package.location == location && f.package.id == packageID then multiset(findings)[f] else 0
    decreases |findings|
  {
    if findings != [] {
      var n := |findings|;
      BucketCounts(findings[..n - 1], location, packageID, f);
      Sorting.MultisetSnoc(findings);
      BucketSnoc(findings, location, packageID);
    }
  }

  lemma BucketSnoc(findings: seq<Finding>, location: string, packageID: string)
    requires findings != []
    ensures var last := findings[|findings| - 1];
      multiset(Bucket(findings, location, packageID)) ==
      multiset(Bucket(findings[..|findings| - 1], location, packageID))
      + if last.package.location == location && last.package.id == packageID then multiset{last} else multiset{}
  {
  }

  /** `LastPackage` names a finding with that ID after which no finding has the ID. */
  lemma {:induction false} LastPackageIsLast(findings: seq<Finding>, packageID: string) returns (k: nat)
    requires LastPackage(findings, packageID).Some?
    ensures k < |findings| && findings[k].package == LastPackage(findings, packageID).value
    ensures findings[k].package.id == packageID
    ensures forall j :: k < j < |findings| ==> findings[j].package.id != packageID
    decreases |findings|
  {
    var n := |findings|;
    if findings[n - 1].package.id == packageID {
      k := n - 1;
    } else {
      k := LastPackageIsLast(findings[..n - 1], packageID);
    }
  }

  lemma {:induction false} LastPackageNone(findings: seq<Finding>, packageID: string)
    ensures LastPackage(findings, packageID).None? <==>
            forall j :: 0 <= j < |findings| ==> findings[j].package.id != packageID
    decreases |findings|
  {
    if findings != [] {
      var n := |findings|;
      LastPackageNone(findings[..n - 1], packageID);
      assert forall j :: 0 <= j < n - 1 ==> findings[..n - 1][j] == findings[j];
    }
  }

  /** What the tree holds after grouping `findings`. */
  ghost predicate GroupsFindings(tree: map<string, map<string, seq<Finding>>>, findings: seq<Finding>) {
    GroupsLocations(tree, findings) && GroupsPackages(tree, findings) && GroupsBuckets(tree, findings)
  }

  /** A location is a key exactly when some finding is there. */
  ghost predicate GroupsLocations(tree: map<string, map<string, seq<Finding>>>, findings: seq<Finding>) {
    forall loc :: loc in tree <==> AtLocation(findings, loc) != []
  }

  /** A package ID is a key under a location exactly when its bucket there is non-empty. */
  ghost predicate GroupsPackages(tree: map<string, map<string, seq<Finding>>>, findings: seq<Finding>) {
    forall loc, id :: loc in tree ==> (id in tree[loc] <==> Bucket(findings, loc, id) != [])
  }

  /** Each stored group is the bucket of its location and package ID. */
  ghost predicate GroupsBuckets(tree: map<string, map<string, seq<Finding>>>, findings: seq<Finding>) {
    forall loc, id :: loc in tree && id in tree[loc] ==> tree[loc][id] == Bucket(findings, loc, id)
  }

  /** What the package table holds after recording `findings`. */
  ghost predicate RecordsPackages(packagesByID: map<string, Package>, findings: seq<Finding>) {
    forall id :: (id in packagesByID <==> LastPackage(findings, id).Some?)
              && (id in packagesByID ==> LastPackage(findings, id) == Some(packagesByID[id]))
  }

  /** The tree with one more finding appended to its bucket. */
  function Place(tree: map<string, map<string, seq<Finding>>>, f: Finding): map<string, map<string, seq<Finding>>> {
    var byPackage := if f.package.location in tree then tree[f.package.location] else map[];
    var bucket := if f.package.id in byPackage then byPackage[f.package.id] else [];
    tree[f.package.location := byPackage[f.package.id := bucket + [f]]]
  }

  lemma PlaceGroups(tree: map<string, map<string, seq<Finding>>>, findings: seq<Finding>, f: Finding)
    requires GroupsFindings(tree, findings)
    ensures GroupsFindings(Place(tree, f), findings + [f])
  {
    PlaceLocations(tree, findings, f);
    PlacePackages(tree, findings, f);
    PlaceBuckets(tree, findings, f);
  }

  lemma PlaceLocations(tree: map<string, map<string, seq<Finding>>>, findings: seq<Finding>, f: Finding)
    requires GroupsLocations(tree, findings)
    ensures GroupsLocations(Place(tree, f), findings + [f])
  {
    var fs := findings + [f];
    assert fs[..|fs| - 1] == findings;
    var t := Place(tree, f);
    forall loc ensures loc in t <==> AtLocation(fs, loc) != [] {
      if loc != f.package.location && AtLocation(findings, loc) != [] {
        assert loc in tree;
      }
    }
  }

  lemma PlacePackages(tree: map<string, map<string, seq<Finding>>>, findings: seq<Finding>, f: Finding)
    requires GroupsLocations(tree, findings) && GroupsPackages(tree, findings)
    ensures GroupsPackages(Place(tree, f), findings + [f])
  {
    var fs := findings + [f];
    assert fs[..|fs| - 1] == findings;
    var t := Place(tree, f);
    forall loc, id | loc in t ensures id in t[loc] <==> Bucket(fs, loc, id) != [] {
      if loc != f.package.location {
        assert loc in tree;
      } else if loc !in tree {
        if id != f.package.id && Bucket(findings, loc, id) != [] {
          BucketWithinLocation(findings, loc, id);
        }
      }
    }
  }

  lemma PlaceBuckets(tree: map<string, map<string, seq<Finding>>>, findings: seq<Finding>, f: Finding)
    requires GroupsLocations(tree, findings) && GroupsPackages(tree, findings) && GroupsBuckets(tree, findings)
    ensures GroupsBuckets(Place(tree, f), findings + [f])
  {
    var fs := findings + [f];
    assert fs[..|fs| - 1] == findings;
    var t := Place(tree, f);
    forall loc, id | loc in t && id in t[loc] ensures t[loc][id] == Bucket(fs, loc, id) {
      if loc == f.package.location && id == f.package.id && loc !in tree && Bucket(findings, loc, id) != [] {
        BucketWithinLocation(findings, loc, id);
      }
    }
  }

  lemma RecordStep(packagesByID: map<string, Package>, findings: seq<Finding>, f: Finding)
    requires RecordsPackages(packagesByID, findings)
    ensures RecordsPackages(packagesByID[f.package.id := f.package], findings + [f])
  {
    var fs := findings + [f];
    assert fs[..|fs| - 1] == findings;
  }

  /** Groups the findings by location, then by package ID, keeping input order in each group. */
  method NewFindingsTree(findings: seq<Finding>) returns (t: FindingsTree)
    ensures GroupsFindings(t.findingsByPackageByLocation, findings)
    ensures RecordsPackages(t.packagesByID, findings)
  {
    var tree: map<string, map<string, seq<Finding>>> := map[];
    var packagesByID: map<string, Package> := map[];
    for i := 0 to |findings|
      invariant GroupsFindings(tree, findings[..i])
      invariant RecordsPackages(packagesByID, findings[..i])
    {
      var f := findings[i];
      var loc := f.package.location;
      var packageID := f.package.id;
      assert findings[..i + 1] == findings[..i] + [f];
      RecordStep(packagesByID, findings[..i], f);
      PlaceGroups(tree, findings[..i], f);
      packagesByID := packagesByID[packageID := f.package];
      // a missing location starts as an empty map, a missing package as an empty list
      var byPackage := if loc in tree then tree[loc] else map[];
      var bucket := if packageID in byPackage then byPackage[packageID] else [];
      tree := tree[loc := byPackage[packageID := bucket + [f]]];
    }
    assert findings[..|findings|] == findings;
    return FindingsTree(tree, packagesByID);
  }

  // ----- Rendering -----

  /** The index of the first alias that is a CVE ID. */
  function FirstCVEAlias(aliases: seq<string>): (r: Option<nat>)
    ensures r.Some? ==> r.value < |aliases| && HasPrefix(aliases[r.value], "CVE-")
    ensures r.Some? ==> forall j :: 0 <= j < r.value ==> !HasPrefix(aliases[j], "CVE-")
    ensures r.None? ==> forall j :: 0 <= j < |aliases| ==> !HasPrefix(aliases[j], "CVE-")
  {
    if aliases == [] then None
    else if HasPrefix(aliases[0], "CVE-") then Some(0)
    else match FirstCVEAlias(aliases[1..])
      case None => None
      case Some(k) => Some(k + 1)
  }

  /**
   * The vulnerability as printed: its first CVE alias followed by its own ID,
   * or its own ID alone (hyperlinks and styles as the identity).
   */
  function VulnerabilityLabel(v: Vulnerability): string {
    match FirstCVEAlias(v.aliases)
    case None => v.id
    case Some(k) => v.aliases[k] + " " + v.id
  }

  method RenderVulnerabilityID(v: Vulnerability) returns (s: string)
    ensures s == VulnerabilityLabel(v)
  {
    var cveID := "";
    var i := 0;
    while i < |v.aliases|
      invariant 0 <= i <= |v.aliases|
      invariant cveID == ""
      invariant forall j :: 0 <= j < i ==> !HasPrefix(v.aliases[j], "CVE-")
    {
      if HasPrefix(v.aliases[i], "CVE-") {
        cveID := v.aliases[i];
        assert cveID[..4] == "CVE-";
        break;
      }
      i := i + 1;
    }
    if cveID == "" {
      return v.id;
    }
    return cveID + " " + v.id;
  }

  /** The label starts with the vulnerability's CVE ID whenever it has one among its aliases. */
  lemma VulnerabilityLabelPrefersCVE(v: Vulnerability, k: nat)
    requires k < |v.aliases| && HasPrefix(v.aliases[k], "CVE-")
    ensures exists j :: 0 <= j <= k && VulnerabilityLabel(v) == v.aliases[j] + " " + v.id
  {
    var r := FirstCVEAlias(v.aliases);
    assert r.Some? && r.value <= k;
  }

  function RenderFixedIn(v: Vulnerability): (r: string)
    ensures r == "" <==> v.fixedVersion == ""
    ensures r != "" ==> HasPrefix(r, " fixed in ") && r[|" fixed in "|..] == v.fixedVersion
  {
    if v.fixedVersion == "" then "" else " fixed in " + v.fixedVersion
  }

  function Stem(isLast: bool): string {
    if isLast then "└── " else "├── "
  }

  function VerticalLine(isLast: bool): string {
    if isLast then " " else "│"
  }

  function LocationLine(isLast: bool, location: string): string {
    Stem(isLast) + "\U{1F4C4} " + location
  }

  function PackageLine(verticalLine: string, p: Package): string {
    verticalLine + "       \U{1F4E6} " + p.name + " " + p.version + " " + "(" + p.kind + ")"
  }

  function FindingLine(verticalLine: string, f: Finding): string {
    verticalLine + "           " + f.vulnerability.severity + " "
    + VulnerabilityLabel(f.vulnerability) + RenderFixedIn(f.vulnerability)
  }

  function PackageName(p: Package): string { p.name }
  function VulnerabilityID(f: Finding): string { f.vulnerability.id }

  function LookupPackage(t: FindingsTree, id: string): Package {
    if id in t.packagesByID then t.packagesByID[id] else ZeroPackage
  }

  function FindingsOf(t: FindingsTree, location: string, id: string): seq<Finding> {
    if location in t.findingsByPackageByLocation && id in t.findingsByPackageByLocation[location]
    then t.findingsByPackageByLocation[location][id]
    else []
  }

  /** The packages of a location, looked up in the enumeration order of their IDs, stably sorted by name. */
  function SortedPackages(t: FindingsTree, ids: seq<string>): seq<Package> {
    Sorting.SortBy(LookupPackages(t, ids), PackageName)
  }

  function LookupPackages(t: FindingsTree, ids: seq<string>): (r: seq<Package>)
    ensures |r| == |ids|
    ensures forall k :: 0 <= k < |ids| ==> r[k] == LookupPackage(t, ids[k])
  {
    if ids == [] then [] else LookupPackages(t, ids[..|ids| - 1]) + [LookupPackage(t, ids[|ids| - 1])]
  }

  function SortedFindings(t: FindingsTree, location: string, id: string): seq<Finding> {
    Sorting.SortBy(FindingsOf(t, location, id), VulnerabilityID)
  }

  function FindingLines(verticalLine: string, findings: seq<Finding>): seq<string> {
    if findings == [] then []
    else FindingLines(verticalLine, findings[..|findings| - 1]) + [FindingLine(verticalLine, findings[|findings| - 1])]
  }

  function PackageBlock(t: FindingsTree, location: string, verticalLine: string, p: Package): seq<string> {
    [PackageLine(verticalLine, p)] + FindingLines(verticalLine, SortedFindings(t, location, p.id))
  }

  function PackageLines(t: FindingsTree, location: string, verticalLine: string, packages: seq<Package>): seq<string> {
    if packages == [] then []
    else
      PackageLines(t, location, verticalLine, packages[..|packages| - 1])
      + PackageBlock(t, location, verticalLine, packages[|packages| - 1])
  }

  /** The lines for one location: its header, its packages, and a closing vertical line. */
  function LocationBlock(t: FindingsTree, location: string, isLast: bool, ids: seq<string>): seq<string> {
    [LocationLine(isLast, location)]
    + PackageLines(t, location, VerticalLine(isLast), SortedPackages(t, ids))
    + [VerticalLine(isLast)]
  }

  function Flatten(blocks: seq<seq<string>>): seq<string> {
    if blocks == [] then [] else Flatten(blocks[..|blocks| - 1]) + blocks[|blocks| - 1]
  }

  /** `strings.Join(lines, "\n")`. */
  function JoinLines(lines: seq<string>): string {
    if lines == [] then ""
    else if |lines| == 1 then lines[0]
    else JoinLines(lines[..|lines| - 1]) + "\n" + lines[|lines| - 1]
  }

  ghost predicate Enumerates(keys: seq<string>, s: set<string>) {
    && (forall k :: 0 <= k < |keys| ==> keys[k] in s)
    && (forall x :: x in s ==> x in keys)
    && (forall i, j :: 0 <= i < j < |keys| ==> keys[i] != keys[j])
  }

  function Identity(s: string): string { s }

  /** The keys of a map, in an order the map chooses (Go's map iteration order is unspecified). */
  method KeysOf<V>(m: map<string, V>) returns (keys: seq<string>)
    ensures Enumerates(keys, m.Keys)
  {
    keys := [];
    var rest := m.Keys;
    while rest != {}
      invariant rest <= m.Keys
      invariant forall k :: 0 <= k < |keys| ==> keys[k] in m.Keys && keys[k] !in rest
      invariant forall x :: x in m.Keys ==> x in rest || x in keys
      invariant forall i, j :: 0 <= i < j < |keys| ==> keys[i] != keys[j]
      decreases rest
    {
      var x :| x in rest;
      keys := keys + [x];
      rest := rest - {x};
    }
  }

  /** The lines of one package: its header, then its findings in vulnerability-ID order. */
  method RenderPackage(t: FindingsTree, location: string, verticalLine: string, p: Package) returns (lines: seq<string>)
    ensures lines == PackageBlock(t, location, verticalLine, p)
  {
    var body := RenderFindings(verticalLine, SortedFindings(t, location, p.id));
    lines := [PackageLine(verticalLine, p)] + body;
  }

  /** One line per finding, in the order given. */
  method RenderFindings(verticalLine: string, findings: seq<Finding>) returns (body: seq<string>)
    ensures body == FindingLines(verticalLine, findings)
  {
    body := [];
    for k := 0 to |findings|
      invariant body == FindingLines(verticalLine, findings[..k])
    {
      FindingLinesStep(verticalLine, findings, k);
      body := body + [FindingLine(verticalLine, findings[k])];
    }
    assert findings[..|findings|] == findings;
  }

  lemma FindingLinesStep(verticalLine: string, findings: seq<Finding>, k: int)
    requires 0 <= k < |findings|
    ensures FindingLines(verticalLine, findings[..k + 1]) ==
            FindingLines(verticalLine, findings[..k]) + [FindingLine(verticalLine, findings[k])]
  {
    assert findings[..k + 1][..k] == findings[..k];
  }

  lemma PackageLinesStep(t: FindingsTree, location: string, verticalLine: string, packages: seq<Package>, k: int)
    requires 0 <= k < |packages|
    ensures PackageLines(t, location, verticalLine, packages[..k + 1]) ==
            PackageLines(t, location, verticalLine, packages[..k]) + PackageBlock(t, location, verticalLine, packages[k])
  {
    assert packages[..k + 1][..k] == packages[..k];
  }

  /** The lines of one location, given the order in which its package IDs are enumerated. */
  method RenderLocation(t: FindingsTree, location: string, isLast: bool) returns (lines: seq<string>, ghost ids: seq<string>)
    requires location in t.findingsByPackageByLocation
    ensures Enumerates(ids, t.findingsByPackageByLocation[location].Keys)
    ensures lines == LocationBlock(t, location, isLast, ids)
    ensures |lines| >= 2 && lines[0] == LocationLine(isLast, location) && lines[|lines| - 1] == VerticalLine(isLast)
  {
    var verticalLine := VerticalLine(isLast);
    var packageIDs := KeysOf(t.findingsByPackageByLocation[location]);
    ids := packageIDs;
    var packages := SortedPackages(t, packageIDs);
    var body: seq<string> := [];
    for k := 0 to |packages|
      invariant body == PackageLines(t, location, verticalLine, packages[..k])
    {
      PackageLinesStep(t, location, verticalLine, packages, k);
      var block := RenderPackage(t, location, verticalLine, packages[k]);
      body := body + block;
    }
    assert packages[..|packages|] == packages;
    lines := [LocationLine(isLast, location)] + body + [verticalLine];
  }

  /**
   * The outline: locations in ascending order, the last one drawn with the
   * closing stem; within each, packages by name and findings by
   * vulnerability ID. `packageIDs[j]` is the order in which the package IDs
   * of location `j` were enumerated.
   */
  method Render(t: FindingsTree) returns (out: string, ghost locations: seq<string>, ghost packageIDs: seq<seq<string>>, ghost blocks: seq<seq<string>>)
    ensures Enumerates(locations, t.findingsByPackageByLocation.Keys)
    ensures forall i, j :: 0 <= i < j < |locations| ==> Lt(locations[i], locations[j])
    ensures |blocks| == |locations|
    ensures RenderedUpTo(t, locations, packageIDs, blocks)
    ensures out == JoinLines(Flatten(blocks))
    ensures out == "" <==> |t.findingsByPackageByLocation| == 0
  {
    var keys := KeysOf(t.findingsByPackageByLocation);
    SortLocations(keys, t.findingsByPackageByLocation.Keys);
    var sorted := Sorting.SortBy(keys, Identity);
    locations := sorted;
    assert forall i, j :: 0 <= i < j < |sorted| ==> Lt(sorted[i], sorted[j]);
    var lines: seq<string> := [];
    blocks := [];
    packageIDs := [];
    for i := 0 to |sorted|
      invariant |blocks| == i
      invariant lines == Flatten(blocks)
      invariant RenderedUpTo(t, sorted, packageIDs, blocks)
    {
      var block, ids := RenderLocation(t, sorted[i], i == |sorted| - 1);
      FlattenStep(blocks, block);
      RenderedStep(t, sorted, packageIDs, blocks, ids, block);
      blocks := blocks + [block];
      packageIDs := packageIDs + [ids];
      lines := lines + block;
    }
    out := JoinLines(lines);
    assert out == "" <==> |t.findingsByPackageByLocation| == 0 by {
      RenderedEmptyExactly(t, sorted, packageIDs, blocks);
    }
  }

  /**
   * The first `|blocks|` locations have been rendered: block `j` is the
   * block of location `j`, its package IDs enumerated as `packageIDs[j]`.
   */
  ghost predicate RenderedUpTo(t: FindingsTree, locations: seq<string>, packageIDs: seq<seq<string>>, blocks: seq<seq<string>>) {
    && |packageIDs| == |blocks| <= |locations|
    && (forall j :: 0 <= j < |blocks| ==> RenderedAt(t, locations, j, packageIDs[j], blocks[j]))
  }

  /** Block `j` is location `j` drawn with its packages enumerated as `ids`. */
  ghost predicate RenderedAt(t: FindingsTree, locations: seq<string>, j: int, ids: seq<string>, block: seq<string>) {
    && 0 <= j < |locations|
    && locations[j] in t.findingsByPackageByLocation
    && Enumerates(ids, t.findingsByPackageByLocation[locations[j]].Keys)
    && block == LocationBlock(t, locations[j], j == |locations| - 1, ids)
  }

  lemma RenderedStep(t: FindingsTree, locations: seq<string>, packageIDs: seq<seq<string>>, blocks: seq<seq<string>>,
                     ids: seq<string>, block: seq<string>)
    requires RenderedUpTo(t, locations, packageIDs, blocks) && |blocks| < |locations|
    requires RenderedAt(t, locations, |blocks|, ids, block)
    ensures RenderedUpTo(t, locations, packageIDs + [ids], blocks + [block])
  {
    var ps, bs := packageIDs + [ids], blocks + [block];
    forall j | 0 <= j < |bs| ensures RenderedAt(t, locations, j, ps[j], bs[j]) {
      if j < |blocks| {
        assert RenderedAt(t, locations, j, packageIDs[j], blocks[j]);
        assert ps[j] == packageIDs[j] && bs[j] == blocks[j];
      } else {
        assert ps[j] == ids && bs[j] == block;
      }
    }
  }

  /** The outline is empty exactly when the tree has no location. */
  lemma RenderedEmptyExactly(t: FindingsTree, locations: seq<string>, packageIDs: seq<seq<string>>, blocks: seq<seq<string>>)
    requires Enumerates(locations, t.findingsByPackageByLocation.Keys)
    requires |blocks| == |locations| && RenderedUpTo(t, locations, packageIDs, blocks)
    ensures JoinLines(Flatten(blocks)) == "" <==> |t.findingsByPackageByLocation| == 0
  {
    if |t.findingsByPackageByLocation| != 0 {
      var x :| x in t.findingsByPackageByLocation;
      assert x in locations;
      assert RenderedAt(t, locations, 0, packageIDs[0], blocks[0]);
      LocationBlockShape(t, locations[0], 0 == |locations| - 1, packageIDs[0]);
      FlattenFirst(blocks);
      JoinLinesCoversFirst(Flatten(blocks));
    }
  }

  lemma FlattenStep(blocks: seq<seq<string>>, block: seq<string>)
    ensures Flatten(blocks + [block]) == Flatten(blocks) + block
  {
    assert (blocks + [block])[..|blocks|] == blocks;
  }

  lemma {:induction false} FlattenFirst(blocks: seq<seq<string>>)
    requires blocks != [] && blocks[0] != []
    ensures Flatten(blocks) != [] && Flatten(blocks)[0] == blocks[0][0]
    decreases |blocks|
  {
    var n := |blocks|;
    if n > 1 {
      FlattenFirst(blocks[..n - 1]);
    }
  }

  /** The joined text is at least as long as its first line. */
  lemma {:induction false} JoinLinesCoversFirst(lines: seq<string>)
    requires lines != []
    ensures |JoinLines(lines)| >= |lines[0]|
    decreases |lines|
  {
    var n := |lines|;
    if n > 1 {
      JoinLinesCoversFirst(lines[..n - 1]);
    }
  }

  /** Sorting an enumeration of a set gives its elements in strictly ascending order, each exactly once. */
  lemma SortLocations(keys: seq<string>, s: set<string>)
    requires Enumerates(keys, s)
    ensures Enumerates(Sorting.SortBy(keys, Identity), s)
    ensures forall i, j :: 0 <= i < j < |Sorting.SortBy(keys, Identity)| ==>
              Lt(Sorting.SortBy(keys, Identity)[i], Sorting.SortBy(keys, Identity)[j])
  {
    var r := Sorting.SortBy(keys, Identity);
    Sorting.SortBySortsAndPermutes(keys, Identity);
    Sorting.SortByDistinctIsStrict(keys, Identity);
    forall k | 0 <= k < |r| ensures r[k] in s {
      assert r[k] in multiset(keys);
    }
    forall x | x in s ensures x in r {
      assert x in multiset(r);
    }
  }

  // ----- Properties of the rendered outline -----

  /** A location block opens with its header line and closes with its vertical line; only the last uses the closing stem. */
  lemma LocationBlockShape(t: FindingsTree, location: string, isLast: bool, ids: seq<string>)
    ensures var b := LocationBlock(t, location, isLast, ids);
      && b[0] == LocationLine(isLast, location)
      && b[|b| - 1] == VerticalLine(isLast)
      && (HasPrefix(b[0], Stem(true)) <==> isLast)
  {
    var b := LocationBlock(t, location, isLast, ids);
    if !isLast {
      assert b[0][0] != Stem(true)[0];
    }
  }

  /** Packages are listed sorted by name, each looked-up package once, ties kept in enumeration order. */
  lemma SortedPackagesOrder(t: FindingsTree, ids: seq<string>, name: string)
    ensures Sorting.SortedBy(SortedPackages(t, ids), PackageName)
    ensures multiset(SortedPackages(t, ids)) == multiset(LookupPackages(t, ids))
    ensures Sorting.WithKey(SortedPackages(t, ids), PackageName, name) == Sorting.WithKey(LookupPackages(t, ids), PackageName, name)
  {
    Sorting.SortBySortsAndPermutes(LookupPackages(t, ids), PackageName);
    Sorting.SortByIsStable(LookupPackages(t, ids), PackageName, name);
  }

  /**
   * For a tree built from `findings`, the findings printed under a package
   * are exactly its bucket, sorted by vulnerability ID, and findings with
   * the same ID keep their input order.
   */
  lemma RenderedFindingsAreBucket(findings: seq<Finding>, t: FindingsTree, location: string, id: string, vulnID: string)
    requires GroupsFindings(t.findingsByPackageByLocation, findings)
    ensures Sorting.SortedBy(SortedFindings(t, location, id), VulnerabilityID)
    ensures multiset(SortedFindings(t, location, id)) == multiset(Bucket(findings, location, id))
    ensures Sorting.WithKey(SortedFindings(t, location, id), VulnerabilityID, vulnID) ==
            Sorting.WithKey(Bucket(findings, location, id), VulnerabilityID, vulnID)
  {
    var fs := FindingsOf(t, location, id);
    if location in t.findingsByPackageByLocation && id in t.findingsByPackageByLocation[location] {
      assert fs == Bucket(findings, location, id);
    } else if Bucket(findings, location, id) != [] {
      BucketWithinLocation(findings, location, id);
    }
    Sorting.SortBySortsAndPermutes(fs, VulnerabilityID);
    Sorting.SortByIsStable(fs, VulnerabilityID, vulnID);
  }

  lemma {:induction false} BucketHasPackage(findings: seq<Finding>, location: string, id: string)
    requires Bucket(findings, location, id) != []
    ensures LastPackage(findings, id).Some?
    decreases |findings|
  {
    var n := |findings|;
    if findings[n - 1].package.id != id {
      BucketHasPackage(findings[..n - 1], location, id);
    }
  }

  /**
   * In a tree built from `findings`, every package ID under a location is
   * known, and the package it looks up carries that ID, so each package
   * line is followed by that package's own findings.
   */
  lemma LookupPackageMatches(findings: seq<Finding>, t: FindingsTree, location: string, id: string)
    requires GroupsFindings(t.findingsByPackageByLocation, findings)
    requires RecordsPackages(t.packagesByID, findings)
    requires location in t.findingsByPackageByLocation && id in t.findingsByPackageByLocation[location]
    ensures id in t.packagesByID
    ensures LookupPackage(t, id).id == id
  {
    BucketHasPackage(findings, location, id);
    var k := LastPackageIsLast(findings, id);
  }
}
