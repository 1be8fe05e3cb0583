/**
 * `advisory.Update`: appends an event to an existing advisory in the
 * package's one advisories document.
 */
module AdvisoryUpdate {
  import opened Results
  import opened AdvisoryData
  import opened AdvisoryIndex
  import Sorting

  /** The advisory with `event` appended to its history. */
  function WithEvent(adv: Advisory, event: Event): (r: Advisory)
    ensures r.id == adv.id && r.aliases == adv.aliases
    ensures |r.events| == |adv.events| + 1
    ensures r.events[..|adv.events|] == adv.events && r.events[|adv.events|] == event
  {
    adv.(events := adv.events + [event])
  }

  /**
   * The advisories-section updater: fails when no advisory has the requested
   * ID, otherwise appends the event to that advisory, puts it back in place
   * and sorts by ID.
   */
  function AddEvent(req: Request, doc: Document): (r: Result<seq<Advisory>, Error>)
    ensures r.Err? <==> forall i :: 0 <= i < |doc.advisories| ==> doc.advisories[i].id != req.vulnerabilityID
    ensures r.Err? ==> r.error == AdvisoryDoesNotExist(req.vulnerabilityID)
  {
    match Get(doc.advisories, req.vulnerabilityID)
    case None => Err(AdvisoryDoesNotExist(req.vulnerabilityID))
    case Some(adv) =>
      Ok(SortAdvisories(Replace(doc.advisories, req.vulnerabilityID, WithEvent(adv, req.event))))
  }

  /**
   * On success the advisory count is unchanged, the list is sorted by ID, it
   * holds the extended advisory, and every advisory with another ID is still
   * there unchanged.
   */
  lemma AddEventKeepsOthers(req: Request, doc: Document)
    requires AddEvent(req, doc).Ok?
    ensures var r := AddEvent(req, doc).value;
      var adv := Get(doc.advisories, req.vulnerabilityID).value;
      && |r| == |doc.advisories|
      && SortedByID(r)
      && WithEvent(adv, req.event) in r
      && (forall a :: a in doc.advisories && a.id != req.vulnerabilityID ==> a in r)
  {
    var advs, id := doc.advisories, req.vulnerabilityID;
    var i := Find(advs, id).value;
    var x := WithEvent(advs[i], req.event);
    assert AddEvent(req, doc).value == SortAdvisories(advs[i := x]);
    SortedReplacement(advs, i, x);
  }

  /** Sorting after replacing position `i` keeps the length and every other element, and holds the replacement. */
  lemma SortedReplacement(advs: seq<Advisory>, i: int, x: Advisory)
    requires 0 <= i < |advs|
    ensures var r := SortAdvisories(advs[i := x]);
      && |r| == |advs|
      && SortedByID(r)
      && x in r
      && (forall a :: a in advs && a.id != advs[i].id ==> a in r)
  {
    var replaced := advs[i := x];
    Sorting.SortBySortsAndPermutes(replaced, AdvisoryID);
    var r := SortAdvisories(replaced);
    assert replaced[i] in multiset(r);
    forall a | a in advs && a.id != advs[i].id ensures a in r {
      var k :| 0 <= k < |advs| && advs[k] == a;
      assert replaced[k] == a;
      assert a in multiset(r);
    }
  }

  /** Replacing an advisory by one with the same ID keeps the IDs unique. */
  lemma ReplaceKeepsUniqueIDs(advs: seq<Advisory>, i: int, x: Advisory)
    requires UniqueIDs(advs) && 0 <= i < |advs| && x.id == advs[i].id
    ensures UniqueIDs(advs[i := x])
  {
    var replaced := advs[i := x];
    forall p, q | 0 <= p < q < |replaced| ensures AdvisoryID(replaced[p]) != AdvisoryID(replaced[q]) {
      assert replaced[p].id == advs[p].id && replaced[q].id == advs[q].id;
      assert AdvisoryID(advs[p]) != AdvisoryID(advs[q]);
    }
  }

  /**
   * With unique IDs, the result keeps them unique, and the one advisory with
   * the requested ID has its old events followed by the new event.
   */
  lemma AddEventAppendsToTarget(req: Request, doc: Document)
    requires UniqueIDs(doc.advisories) && AddEvent(req, doc).Ok?
    ensures var r := AddEvent(req, doc).value;
      UniqueIDs(r) && exists j :: 0 <= j < |r| && r[j].id == req.vulnerabilityID
    ensures var r := AddEvent(req, doc).value;
      forall j, a :: 0 <= j < |r| && r[j].id == req.vulnerabilityID && a in doc.advisories && a.id == req.vulnerabilityID ==>
        r[j].events == a.events + [req.event] && r[j].aliases == a.aliases
  {
    var advs, id := doc.advisories, req.vulnerabilityID;
    var i := Find(advs, id).value;
    var updated := WithEvent(advs[i], req.event);
    var r := AddEvent(req, doc).value;
    assert r == SortAdvisories(advs[i := updated]);
    assert UniqueIDs(r) by {
      ReplaceKeepsUniqueIDs(advs, i, updated);
      Sorting.SortBySortsAndPermutes(advs[i := updated], AdvisoryID);
      PermutationKeepsUniqueIDs(advs[i := updated], r);
    }
    SortedReplacement(advs, i, updated);
    var j0 :| 0 <= j0 < |r| && r[j0] == updated;
    forall j, a | 0 <= j < |r| && r[j].id == id && a in advs && a.id == id
      ensures r[j].events == a.events + [req.event] && r[j].aliases == a.aliases
    {
      UniqueIDsAt(r, j, j0);
      UniqueIDsMember(advs, i, a);
    }
  }

  /** Appending an event to a package's document, then upgrading its schema, keeps the index invariant. */
  lemma AddEventKeepsInvariant(docs: map<string, Document>, f: string, req: Request)
    requires IndexInvariant(docs) && f in docs && AddEvent(req, docs[f]).Ok?
    ensures var doc := docs[f];
      IndexInvariant(docs[f := doc.(advisories := AddEvent(req, doc).value, schemaVersion := SchemaVersion)])
  {
    var doc := docs[f];
    AddEventKeepsOthers(req, doc);
    AddEventAppendsToTarget(req, doc);
    ReplaceKeepsInvariant(docs, f, doc.(advisories := AddEvent(req, doc).value, schemaVersion := SchemaVersion));
  }

  method Update(req: Request, index: Index) returns (err: Option<Error>)
    modifies index
    // exactly one document must match the package
    ensures |Matching(old(index.documents), req.package)| != 1 ==>
      err == Some(DocumentCount("update", |Matching(old(index.documents), req.package)|, req.package))
      && index.documents == old(index.documents)
    // the event is appended, then the schema version upgraded
    ensures |Matching(old(index.documents), req.package)| == 1 ==>
      var f := Only(Matching(old(index.documents), req.package));
      var doc := old(index.documents)[f];
      match AddEvent(req, doc)
      case Err(e) =>
        err == Some(AddEntryFailed(req.vulnerabilityID, req.package, e))
        && index.documents == old(index.documents)
      case Ok(advs) =>
        err == None
        && index.documents == old(index.documents)[f := doc.(advisories := advs, schemaVersion := SchemaVersion)]
    // the index invariant is kept
    ensures IndexInvariant(old(index.documents)) ==> IndexInvariant(index.documents)
  {
    var vulnID := req.vulnerabilityID;

    ghost var before := index.documents;
    var documents := index.WhereName(req.package);
    var count := |documents|;
    if count != 1 {
      return Some(DocumentCount("update", count, req.package));
    }

    ghost var f := Only(documents);
    ghost var doc := before[f];
    var u := AdvisoriesSection(d => AddEvent(req, d));
    var e := index.Update(documents, u);
    if e.Some? {
      assert ApplySection(u, doc) == Err(e.value);
      return Some(AddEntryFailed(vulnID, req.package, e.value));
    }
    ghost var appended := index.documents;
    assert appended == before[f := doc.(advisories := AddEvent(req, doc).value)] by {
      assert ApplySection(u, doc).Ok?;
      UpdatedOnly(before, appended, f, doc.(advisories := AddEvent(req, doc).value));
    }
    e := index.Update(documents, SchemaVersionSection(SchemaVersion));
    // a total section updater on a non-empty selection cannot fail
    assert e.None?;
    UpdatedOnly(appended, index.documents, f, appended[f].(schemaVersion := SchemaVersion));
    ghost var updated := before[f := doc.(advisories := AddEvent(req, doc).value, schemaVersion := SchemaVersion)];
    assert index.documents == updated;
    assert IndexInvariant(before) ==> IndexInvariant(updated) by {
      if IndexInvariant(before) {
        AddEventKeepsInvariant(before, f, req);
      }
    }
    return None;
  }
}
