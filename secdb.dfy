/**
 * `advisory.BuildSecurityDatabase`: folds every advisory of every document
 * of every index to its latest event and groups advisory IDs by the
 * version that fixed them (or under the NAK key for false positives),
 * producing an Alpine-style security database value.
 */
module SecDb {
  import opened Results
  import opened Text
  import opened AdvisoryData
  import Sorting

  const ApkURL: string := "{{urlprefix}}/{{reponame}}/{{arch}}/{{pkg.name}}-{{pkg.ver}}.apk"

  /** The secfixes key for "not affected": Alpine's version "0". */
  const NAK: string := "0"

  /** Version (or NAK) to the advisory IDs filed under it. */
  type Secfixes = map<string, seq<string>>

  datatype PackageEntry = PackageEntry(name: string, secfixes: Secfixes)

  datatype Database = Database(
    apkURL: string, archs: seq<string>, repo: string, urlPrefix: string, packages: seq<PackageEntry>)

  /** Each index is given by its documents, in the order the index lists them. */
  datatype Options = Options(indices: seq<seq<Document>>, urlPrefix: string, archs: seq<string>, repo: string)

  datatype Error = NoPackageSecurityData

  // ----- The fold, as functions -----

  /** The event-type table: where an advisory whose latest event is `e` is filed, if anywhere. */
  function SecfixesKey(e: Event): (k: Option<string>)
    ensures k.None? <==> e.data.OtherEvent?
    ensures e.data.Fixed? ==> k == Some(e.data.fixedVersion)
    ensures e.data.FalsePositiveDetermination? ==> k == Some(NAK)
  {
    match e.data
    case Fixed(version) => Some(version)
    case FalsePositiveDetermination => Some(NAK)
    case OtherEvent(_) => None
  }

  /** Where an advisory is filed: decided by its latest event alone. */
  function Contribution(a: Advisory): Option<string> {
    match Latest(a)
    case None => None
    case Some(e) => SecfixesKey(e)
  }

  function AddAdvisory(sf: Secfixes, a: Advisory): Secfixes {
    match Contribution(a)
    case None => sf
    case Some(k) => sf[k := (if k in sf then sf[k] else []) + [a.id]]
  }

  /** The secfixes of a sequence of advisories, visited in order. */
  function SecfixesOf(advs: seq<Advisory>): (sf: Secfixes)
    ensures forall k :: k in sf ==> sf[k] != []
  {
    if advs == [] then map[] else AddAdvisory(SecfixesOf(advs[..|advs| - 1]), advs[|advs| - 1])
  }

  /** A document's entry: none for a document without advisories or without any secfixes. */
  function PackageEntryOf(doc: Document): Option<PackageEntry> {
    if |doc.advisories| == 0 then None
    else
      var sf := SecfixesOf(SortAdvisories(doc.advisories));
      if |sf| == 0 then None else Some(PackageEntry(doc.package.name, sf))
  }

  /** The entries one index contributes, in document order. */
  function IndexEntries(docs: seq<Document>): seq<PackageEntry> {
    if docs == [] then []
    else IndexEntries(docs[..|docs| - 1]) + (match PackageEntryOf(docs[|docs| - 1])
                                             case None => []
                                             case Some(pe) => [pe])
  }

  /** The entries of all indices, concatenated in index order. */
  function EntriesOf(indices: seq<seq<Document>>): seq<PackageEntry> {
    if indices == [] then [] else EntriesOf(indices[..|indices| - 1]) + IndexEntries(indices[|indices| - 1])
  }

  /** Visits the indices in order, stopping at the first that contributes no entry. */
  function AllEntries(indices: seq<seq<Document>>): Result<seq<PackageEntry>, Error> {
    if indices == [] then Ok([])
    else
      var first := IndexEntries(indices[0]);
      if first == [] then Err(NoPackageSecurityData)
      else match AllEntries(indices[1..])
        case Err(e) => Err(e)
        case Ok(rest) => Ok(first + rest)
  }

  function BuildDatabase(opts: Options): Result<Database, Error> {
    match AllEntries(opts.indices)
    case Err(e) => Err(e)
    case Ok(entries) => Ok(Database(ApkURL, opts.archs, opts.repo, opts.urlPrefix, entries))
  }

  // ----- Properties of the fold -----

  ghost predicate StrictlyAscending(ids: seq<string>) {
    forall i, j :: 0 <= i < j < |ids| ==> Lt(ids[i], ids[j])
  }

  lemma AddAdvisoryMembership(sf: Secfixes, a: Advisory, k: string, id: string)
    ensures (k in AddAdvisory(sf, a) && id in AddAdvisory(sf, a)[k]) <==>
            (k in sf && id in sf[k]) || (Contribution(a) == Some(k) && id == a.id)
  {
  }

  /**
   * An ID is filed under key `k` exactly when some advisory with that ID has
   * a latest event that the table maps to `k`.
   */
  lemma {:induction false} SecfixesMembership(advs: seq<Advisory>, k: string, id: string)
    ensures (k in SecfixesOf(advs) && id in SecfixesOf(advs)[k]) <==>
            exists i :: 0 <= i < |advs| && advs[i].id == id && Contribution(advs[i]) == Some(k)
    decreases |advs|
  {
    if advs != [] {
      var p := advs[..|advs| - 1];
      SecfixesMembership(p, k, id);
      AddAdvisoryMembership(SecfixesOf(p), advs[|advs| - 1], k, id);
      if exists i :: 0 <= i < |advs| && advs[i].id == id && Contribution(advs[i]) == Some(k) {
        var i :| 0 <= i < |advs| && advs[i].id == id && Contribution(advs[i]) == Some(k);
        if i < |advs| - 1 {
          assert p[i] == advs[i];
        }
      }
    }
  }

  /** Advisories visited in strictly ascending ID order give strictly ascending lists. */
  lemma {:induction false} SecfixesAscending(advs: seq<Advisory>)
    requires forall i, j :: 0 <= i < j < |advs| ==> Lt(advs[i].id, advs[j].id)
    ensures forall k :: k in SecfixesOf(advs) ==> StrictlyAscending(SecfixesOf(advs)[k])
    decreases |advs|
  {
    if advs != [] {
      var p, a := advs[..|advs| - 1], advs[|advs| - 1];
      SecfixesAscending(p);
      var sf := SecfixesOf(p);
      if Contribution(a).Some? {
        var k := Contribution(a).value;
        var old_ := if k in sf then sf[k] else [];
        forall m | 0 <= m < |old_| ensures Lt(old_[m], a.id) {
          SecfixesMembership(p, k, old_[m]);
          var i :| 0 <= i < |p| && p[i].id == old_[m] && Contribution(p[i]) == Some(k);
          assert advs[i] == p[i];
        }
        assert StrictlyAscending(old_ + [a.id]);
      }
    }
  }

  /** With unique IDs, no ID is filed under two keys. */
  lemma SecfixesAtMostOnce(advs: seq<Advisory>, k1: string, k2: string, id: string)
    requires UniqueIDs(advs)
    requires k1 in SecfixesOf(advs) && id in SecfixesOf(advs)[k1]
    requires k2 in SecfixesOf(advs) && id in SecfixesOf(advs)[k2]
    ensures k1 == k2
  {
    SecfixesMembership(advs, k1, id);
    SecfixesMembership(advs, k2, id);
    var i1 :| 0 <= i1 < |advs| && advs[i1].id == id && Contribution(advs[i1]) == Some(k1);
    var i2 :| 0 <= i2 < |advs| && advs[i2].id == id && Contribution(advs[i2]) == Some(k2);
    UniqueIDsAt(advs, i1, i2);
  }

  /**
   * A document's entry carries the package name and its secfixes; when the
   * document's advisory IDs are unique, every list is strictly ascending and
   * an ID appears under one key only.
   */
  lemma PackageEntryShape(doc: Document)
    requires UniqueIDs(doc.advisories)
    requires PackageEntryOf(doc).Some?
    ensures var pe := PackageEntryOf(doc).value;
      && pe.name == doc.package.name
      && pe.secfixes != map[]
      && (forall k :: k in pe.secfixes ==> StrictlyAscending(pe.secfixes[k]))
      && (forall k1, k2, id ::
            (k1 in pe.secfixes && k2 in pe.secfixes && id in pe.secfixes[k1] && id in pe.secfixes[k2]) ==> k1 == k2)
  {
    var sorted := SortAdvisories(doc.advisories);
    Sorting.SortBySortsAndPermutes(doc.advisories, AdvisoryID);
    PermutationKeepsUniqueIDs(doc.advisories, sorted);
    forall i, j | 0 <= i < j < |sorted| ensures Lt(sorted[i].id, sorted[j].id) {
      SortedUniqueIsStrict(sorted, i, j);
    }
    SecfixesAscending(sorted);
    var sf := SecfixesOf(sorted);
    forall k1, k2, id | k1 in sf && k2 in sf && id in sf[k1] && id in sf[k2] ensures k1 == k2 {
      SecfixesAtMostOnce(sorted, k1, k2, id);
    }
  }

  /** Reordering advisories changes nothing about which of them file an ID under a key. */
  lemma SameContributors(a: seq<Advisory>, b: seq<Advisory>, k: string, id: string)
    requires multiset(a) == multiset(b)
    ensures (exists x :: x in a && x.id == id && Contribution(x) == Some(k)) <==>
            (exists i :: 0 <= i < |b| && b[i].id == id && Contribution(b[i]) == Some(k))
  {
    if exists x :: x in a && x.id == id && Contribution(x) == Some(k) {
      var x :| x in a && x.id == id && Contribution(x) == Some(k);
      assert x in multiset(b);
      var i :| 0 <= i < |b| && b[i] == x;
    }
    if exists i :: 0 <= i < |b| && b[i].id == id && Contribution(b[i]) == Some(k) {
      var i :| 0 <= i < |b| && b[i].id == id && Contribution(b[i]) == Some(k);
      assert b[i] in multiset(a);
    }
  }

  /** An ID lands in a document's entry exactly when its advisory's latest event maps to that key. */
  lemma PackageEntryMembership(doc: Document, k: string, id: string)
    ensures (PackageEntryOf(doc).Some? && k in PackageEntryOf(doc).value.secfixes
             && id in PackageEntryOf(doc).value.secfixes[k]) <==>
            exists a :: a in doc.advisories && a.id == id && Contribution(a) == Some(k)
  {
    var sorted := SortAdvisories(doc.advisories);
    Sorting.SortBySortsAndPermutes(doc.advisories, AdvisoryID);
    SecfixesMembership(sorted, k, id);
    SameContributors(doc.advisories, sorted, k, id);
  }

  /** An event appended after every recorded one decides where the advisory is filed. */
  lemma NewestEventDecides(a: Advisory, e: Event)
    requires forall x :: x in a.events ==> x.timestamp <= e.timestamp
    ensures Contribution(a.(events := a.events + [e])) == SecfixesKey(e)
  {
    AppendedNewestIsLatest(a, e);
  }

  lemma {:induction false} EntriesOfFront(indices: seq<seq<Document>>)
    requires indices != []
    ensures EntriesOf(indices) == IndexEntries(indices[0]) + EntriesOf(indices[1..])
    decreases |indices|
  {
    var n := |indices|;
    if n > 1 {
      EntriesOfFront(indices[..n - 1]);
      assert indices[..n - 1][1..] == indices[1..][..n - 2];
    } else {
      assert indices[1..] == [];
    }
  }

  /**
   * The build fails with `NoPackageSecurityData` exactly when some index
   * contributes no entry; otherwise the packages are the indices' entries
   * concatenated in index order.
   */
  lemma {:induction false} AllEntriesSpec(indices: seq<seq<Document>>)
    ensures AllEntries(indices).Err? <==> exists i :: 0 <= i < |indices| && IndexEntries(indices[i]) == []
    ensures AllEntries(indices).Err? ==> AllEntries(indices).error == NoPackageSecurityData
    ensures AllEntries(indices).Ok? ==> AllEntries(indices).value == EntriesOf(indices)
    decreases |indices|
  {
    if indices != [] {
      var rest := indices[1..];
      AllEntriesSpec(rest);
      EntriesOfFront(indices);
      if exists i :: 0 <= i < |indices| && IndexEntries(indices[i]) == [] {
        var i :| 0 <= i < |indices| && IndexEntries(indices[i]) == [];
        if i > 0 {
          assert rest[i - 1] == indices[i];
        }
      }
      if exists i :: 0 <= i < |rest| && IndexEntries(rest[i]) == [] {
        var i :| 0 <= i < |rest| && IndexEntries(rest[i]) == [];
        assert indices[i + 1] == rest[i];
      }
    }
  }

  /** The database copies the URL template and the options, or reports the missing data. */
  lemma BuildDatabaseSpec(opts: Options)
    ensures BuildDatabase(opts).Err? <==>
      exists i :: 0 <= i < |opts.indices| && IndexEntries(opts.indices[i]) == []
    ensures BuildDatabase(opts).Err? ==> BuildDatabase(opts).error == NoPackageSecurityData
    ensures BuildDatabase(opts).Ok? ==>
      BuildDatabase(opts).value == Database(ApkURL, opts.archs, opts.repo, opts.urlPrefix, EntriesOf(opts.indices))
  {
    AllEntriesSpec(opts.indices);
  }

  // ----- The loops -----

  /** The innermost loop: files each advisory, in the given order, under its latest event's key. */
  method FoldSecfixes(advisories: seq<Advisory>) returns (secfixes: Secfixes)
    ensures secfixes == SecfixesOf(advisories)
  {
    secfixes := map[];
    var k := 0;
    while k < |advisories|
      invariant 0 <= k <= |advisories|
      invariant secfixes == SecfixesOf(advisories[..k])
    {
      var advisory := advisories[k];
      assert advisories[..k + 1][..k] == advisories[..k];
      if |advisory.events| == 0 {
        k := k + 1;
        continue;
      }

      var sortedEvents := SortedEvents(advisory.events);
      var latest := sortedEvents[|advisory.events| - 1];
      var vulnID := advisory.id;

      match latest.data {
        case Fixed(version) =>
          secfixes := secfixes[version := (if version in secfixes then secfixes[version] else []) + [vulnID]];
        case FalsePositiveDetermination =>
          secfixes := secfixes[NAK := (if NAK in secfixes then secfixes[NAK] else []) + [vulnID]];
        case OtherEvent(_) =>
      }
      k := k + 1;
    }
    assert advisories[..k] == advisories;
  }

  lemma IndexEntriesStep(docs: seq<Document>, j: int)
    requires 0 <= j < |docs|
    ensures IndexEntries(docs[..j + 1]) == IndexEntries(docs[..j]) + (match PackageEntryOf(docs[j])
                                                                      case None => []
                                                                      case Some(pe) => [pe])
  {
    assert docs[..j + 1][..j] == docs[..j];
  }

  /** The loop over one index's documents: skips documents with no advisories or no secfixes. */
  method IndexPackageEntries(docs: seq<Document>) returns (indexPackageEntries: seq<PackageEntry>)
    ensures indexPackageEntries == IndexEntries(docs)
  {
    indexPackageEntries := [];
    var j := 0;
    while j < |docs|
      invariant 0 <= j <= |docs|
      invariant indexPackageEntries == IndexEntries(docs[..j])
    {
      var doc := docs[j];
      IndexEntriesStep(docs, j);
      if |doc.advisories| == 0 {
        j := j + 1;
        continue;
      }

      var advisories := SortAdvisories(doc.advisories);
      var secfixes := FoldSecfixes(advisories);

      if |secfixes| == 0 {
        assert PackageEntryOf(doc).None?;
        j := j + 1;
        continue;
      }

      assert PackageEntryOf(doc) == Some(PackageEntry(doc.package.name, secfixes));
      indexPackageEntries := indexPackageEntries + [PackageEntry(doc.package.name, secfixes)];
      j := j + 1;
    }
    assert docs[..j] == docs;
  }

  /** Every index contributes at least one entry. */
  ghost predicate NoEmptyIndex(indices: seq<seq<Document>>) {
    forall j :: 0 <= j < |indices| ==> IndexEntries(indices[j]) != []
  }

  lemma NoEmptyIndexStep(indices: seq<seq<Document>>, i: int)
    requires 0 <= i < |indices| && NoEmptyIndex(indices[..i]) && IndexEntries(indices[i]) != []
    ensures NoEmptyIndex(indices[..i + 1])
  {
    var prefix := indices[..i + 1];
    forall j | 0 <= j < |prefix| ensures IndexEntries(prefix[j]) != [] {
      if j < i {
        assert indices[..i][j] == indices[j];
      }
    }
  }

  lemma EntriesOfStep(indices: seq<seq<Document>>, i: int)
    requires 0 <= i < |indices|
    ensures EntriesOf(indices[..i + 1]) == EntriesOf(indices[..i]) + IndexEntries(indices[i])
  {
    assert indices[..i + 1][..i] == indices[..i];
  }

  method BuildSecurityDatabase(opts: Options) returns (r: Result<Database, Error>)
    ensures r == BuildDatabase(opts)
  {
    var packageEntries: seq<PackageEntry> := [];

    var i := 0;
    while i < |opts.indices|
      invariant 0 <= i <= |opts.indices|
      invariant packageEntries == EntriesOf(opts.indices[..i])
      invariant NoEmptyIndex(opts.indices[..i])
    {
      var indexPackageEntries := IndexPackageEntries(opts.indices[i]);

      if |indexPackageEntries| == 0 {
        AllEntriesSpec(opts.indices);
        assert IndexEntries(opts.indices[i]) == [];
        return Err(NoPackageSecurityData);
      }

      EntriesOfStep(opts.indices, i);
      NoEmptyIndexStep(opts.indices, i);
      packageEntries := packageEntries + indexPackageEntries;
      i := i + 1;
    }

    assert opts.indices[..i] == opts.indices;
    AllEntriesSpec(opts.indices);
    assert NoEmptyIndex(opts.indices);
    return Ok(Database(ApkURL, opts.archs, opts.repo, opts.urlPrefix, packageEntries));
  }
}
