/**
 * `advisory.Create`: records a new advisory for a package, either in a new
 * document named after the package or appended to the package's one
 * existing document.
 */
module AdvisoryCreate {
  import opened Results
  import opened Text
  import opened AdvisoryData
  import opened AdvisoryIndex
  import Sorting

  /** `<package>.advisories.yaml`. */
  function FileNameFor(pkg: string): string {
    pkg + ".advisories.yaml"
  }

  function NewAdvisory(req: Request): Advisory {
    Advisory(req.vulnerabilityID, req.aliases, [req.event])
  }

  /** The document written when a package has no advisories document yet. */
  function NewDocument(req: Request): (doc: Document)
    ensures doc.schemaVersion == SchemaVersion && doc.package.name == req.package
    ensures doc.advisories == [NewAdvisory(req)] && Latest(doc.advisories[0]) == Some(req.event)
  {
    Document(SchemaVersion, Package(req.package), [NewAdvisory(req)])
  }

  /**
   * The advisories-section updater of the one-document case: fails when the
   * ID is already present, otherwise appends the new advisory and sorts by ID.
   */
  function AppendAdvisory(req: Request, doc: Document): (r: Result<seq<Advisory>, Error>)
    ensures r.Err? <==> exists i :: 0 <= i < |doc.advisories| && doc.advisories[i].id == req.vulnerabilityID
    ensures r.Err? ==> r.error == AdvisoryExists(req.vulnerabilityID, req.package)
  {
    if Get(doc.advisories, req.vulnerabilityID).Some? then
      Err(AdvisoryExists(req.vulnerabilityID, req.package))
    else
      Ok(SortAdvisories(doc.advisories + [NewAdvisory(req)]))
  }

  /**
   * On success the list is the old list plus the new advisory, reordered
   * ascending by ID: one longer, every old advisory still present unchanged.
   */
  lemma AppendAdvisoryAddsOne(req: Request, doc: Document)
    requires AppendAdvisory(req, doc).Ok?
    ensures var r := AppendAdvisory(req, doc).value;
      && |r| == |doc.advisories| + 1
      && multiset(r) == multiset(doc.advisories) + multiset{NewAdvisory(req)}
      && SortedByID(r)
      && NewAdvisory(req) in r
      && (forall a :: a in doc.advisories ==> a in r)
  {
    var all := doc.advisories + [NewAdvisory(req)];
    Sorting.SortBySortsAndPermutes(all, AdvisoryID);
    var r := AppendAdvisory(req, doc).value;
    assert NewAdvisory(req) in multiset(r);
    forall a | a in doc.advisories ensures a in r {
      assert a in multiset(r);
    }
  }

  /** Appending keeps the document's advisory IDs unique, and the result is strictly ascending. */
  lemma AppendAdvisoryKeepsUniqueIDs(req: Request, doc: Document)
    requires UniqueIDs(doc.advisories) && AppendAdvisory(req, doc).Ok?
    ensures UniqueIDs(AppendAdvisory(req, doc).value)
    ensures var r := AppendAdvisory(req, doc).value;
      forall i, j :: 0 <= i < j < |r| ==> Lt(r[i].id, r[j].id)
  {
    var all := doc.advisories + [NewAdvisory(req)];
    assert UniqueIDs(all);
    AppendAdvisoryAddsOne(req, doc);
    var r := AppendAdvisory(req, doc).value;
    PermutationKeepsUniqueIDs(all, r);
    forall i, j | 0 <= i < j < |r| ensures Lt(r[i].id, r[j].id) {
      SortedUniqueIsStrict(r, i, j);
    }
  }

  /** Creating a package's first document keeps the index invariant. */
  lemma NewDocumentKeepsInvariant(docs: map<string, Document>, req: Request)
    requires IndexInvariant(docs) && |Matching(docs, req.package)| == 0 && FileNameFor(req.package) !in docs
    ensures IndexInvariant(docs[FileNameFor(req.package) := NewDocument(req)])
  {
    AddKeepsInvariant(docs, FileNameFor(req.package), NewDocument(req));
  }

  /** Appending an advisory to a package's document, then upgrading its schema, keeps the index invariant. */
  lemma AppendKeepsInvariant(docs: map<string, Document>, f: string, req: Request)
    requires IndexInvariant(docs) && f in docs && AppendAdvisory(req, docs[f]).Ok?
    ensures var doc := docs[f];
      IndexInvariant(docs[f := doc.(advisories := AppendAdvisory(req, doc).value, schemaVersion := SchemaVersion)])
  {
    var doc := docs[f];
    AppendAdvisoryAddsOne(req, doc);
    AppendAdvisoryKeepsUniqueIDs(req, doc);
    ReplaceKeepsInvariant(docs, f, doc.(advisories := AppendAdvisory(req, doc).value, schemaVersion := SchemaVersion));
  }

  /** `createAdvisoryConfig`: a new document for the package; an error from the index is returned as is. */
  method CreateAdvisoryConfig(index: Index, req: Request) returns (err: Option<Error>)
    modifies index
    ensures FileNameFor(req.package) in old(index.documents) ==>
      err == Some(DocumentExists(FileNameFor(req.package))) && index.documents == old(index.documents)
    ensures FileNameFor(req.package) !in old(index.documents) ==>
      err == None && index.documents == old(index.documents)[FileNameFor(req.package) := NewDocument(req)]
  {
    err := index.Create(FileNameFor(req.package), NewDocument(req));
  }

  method Create(req: Request, index: Index) returns (err: Option<Error>)
    modifies index
    // an invalid request is rejected before the index is consulted
    ensures Validate(req).Some? ==> err == Validate(req) && index.documents == old(index.documents)
    // no document for the package: a new one is created
    ensures Validate(req).None? && |Matching(old(index.documents), req.package)| == 0 ==>
      var name := FileNameFor(req.package);
      if name in old(index.documents) then
        err == Some(DocumentExists(name)) && index.documents == old(index.documents)
      else
        err == None && index.documents == old(index.documents)[name := NewDocument(req)]
    // one document: the advisory is appended, then the schema version upgraded
    ensures Validate(req).None? && |Matching(old(index.documents), req.package)| == 1 ==>
      var f := Only(Matching(old(index.documents), req.package));
      var doc := old(index.documents)[f];
      match AppendAdvisory(req, doc)
      case Err(e) =>
        err == Some(CreateAdvisoryFailed(req.vulnerabilityID, req.package, e))
        && index.documents == old(index.documents)
      case Ok(advs) =>
        err == None
        && index.documents == old(index.documents)[f := doc.(advisories := advs, schemaVersion := SchemaVersion)]
    // several documents: refused
    ensures Validate(req).None? && |Matching(old(index.documents), req.package)| > 1 ==>
      err == Some(DocumentCount("create", |Matching(old(index.documents), req.package)|, req.package))
      && index.documents == old(index.documents)
    // the index invariant is kept
    ensures IndexInvariant(old(index.documents)) ==> IndexInvariant(index.documents)
  {
    ghost var before := index.documents;
    err := Validate(req);
    if err.Some? {
      return;
    }

    var documents := index.WhereName(req.package);
    var count := |documents|;

    if count == 0 {
      err := CreateAdvisoryConfig(index, req);
      if IndexInvariant(before) && FileNameFor(req.package) !in before {
        NewDocumentKeepsInvariant(before, req);
      }
      return;
    }

    if count == 1 {
      var newAdvisoryID := req.vulnerabilityID;
      ghost var f := Only(documents);
      ghost var doc := index.documents[f];
      var u := AdvisoriesSection(d => AppendAdvisory(req, d));
      var e := index.Update(documents, u);
      if e.Some? {
        assert ApplySection(u, doc) == Err(e.value);
        return Some(CreateAdvisoryFailed(newAdvisoryID, req.package, e.value));
      }
      ghost var appended := index.documents;
      assert appended == before[f := doc.(advisories := AppendAdvisory(req, doc).value)] by {
        assert ApplySection(u, doc).Ok?;
        UpdatedOnly(before, appended, f, doc.(advisories := AppendAdvisory(req, doc).value));
      }
      e := index.Update(documents, SchemaVersionSection(SchemaVersion));
      // a total section updater on a non-empty selection cannot fail
      assert e.None?;
      UpdatedOnly(appended, index.documents, f, appended[f].(schemaVersion := SchemaVersion));
      ghost var updated := before[f := doc.(advisories := AppendAdvisory(req, doc).value, schemaVersion := SchemaVersion)];
      assert index.documents == updated;
      assert IndexInvariant(before) ==> IndexInvariant(updated) by {
        if IndexInvariant(before) {
          AppendKeepsInvariant(before, f, req);
        }
      }
      return None;
    }

    return Some(DocumentCount("create", count, req.package));
  }
}
