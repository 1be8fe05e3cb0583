/**
 * The v2 advisory document schema: one document per package, holding
 * advisories, each with an append-only history of events; the helpers the
 * document types offer (`Advisories.Get`, `Advisories.Update`, the sort
 * order of `Advisories`, `Advisory.SortedEvents`); the request that the
 * create and update operations receive; and the errors they report.
 */
module AdvisoryData {
  import opened Results
  import opened Text
  import Sorting

  /** The current document format version that every write upgrades to. */
  const SchemaVersion: string := "2"

  /** The payload of an event, tagged by its type. */
  datatype EventData =
    | Fixed(fixedVersion: string)
    | FalsePositiveDetermination
    | OtherEvent(eventType: string)  // detection, true-positive determination, fix not planned, ...

  datatype Event = Event(timestamp: int, data: EventData)

  datatype Advisory = Advisory(id: string, aliases: seq<string>, events: seq<Event>)

  datatype Package = Package(name: string)

  datatype Document = Document(schemaVersion: string, package: Package, advisories: seq<Advisory>)

  /** What the create and update operations are asked to record. */
  datatype Request = Request(package: string, vulnerabilityID: string, aliases: seq<string>, event: Event)

  datatype Error =
    | InvalidRequest(field: string)
    | AdvisoryExists(id: string, package: string)
    | AdvisoryDoesNotExist(id: string)
    | DocumentCount(operation: string, count: nat, package: string)
    | NoDocumentsSelected
    | DocumentExists(fileName: string)
    | CreateAdvisoryFailed(id: string, package: string, cause: Error)
    | AddEntryFailed(id: string, package: string, cause: Error)

  /** `Request.Validate`: the package and the vulnerability ID must be given. */
  function Validate(req: Request): (r: Option<Error>)
    ensures r.None? <==> req.package != "" && req.vulnerabilityID != ""
    ensures req.package == "" ==> r == Some(InvalidRequest("package"))
  {
    if req.package == "" then Some(InvalidRequest("package"))
    else if req.vulnerabilityID == "" then Some(InvalidRequest("vulnerability ID"))
    else None
  }

  // ----- Advisories: lookup, replacement, order -----

  function AdvisoryID(a: Advisory): string { a.id }

  ghost predicate SortedByID(advs: seq<Advisory>) {
    Sorting.SortedBy(advs, AdvisoryID)
  }

  ghost predicate UniqueIDs(advs: seq<Advisory>) {
    Sorting.DistinctKeys(advs, AdvisoryID)
  }

  /** `sort.Sort(advisories)`: ascending by ID. */
  function SortAdvisories(advs: seq<Advisory>): seq<Advisory> {
    Sorting.SortBy(advs, AdvisoryID)
  }

  /** The position of the first advisory with the given ID. */
  function Find(advs: seq<Advisory>, id: string): (r: Option<nat>)
    ensures r.None? <==> forall i :: 0 <= i < |advs| ==> advs[i].id != id
    ensures r.Some? ==> r.value < |advs| && advs[r.value].id == id
    ensures r.Some? ==> forall i :: 0 <= i < r.value ==> advs[i].id != id
  {
    if advs == [] then None
    else if advs[0].id == id then Some(0)
    else match Find(advs[1..], id)
      case None => None
      case Some(i) => Some(i + 1)
  }

  /** `Advisories.Get(id)`: the first advisory with that ID, if any. */
  function Get(advs: seq<Advisory>, id: string): (r: Option<Advisory>)
    ensures r.Some? <==> exists i :: 0 <= i < |advs| && advs[i].id == id
    ensures r.Some? ==> r.value in advs && r.value.id == id
  {
    match Find(advs, id)
    case None => None
    case Some(i) => Some(advs[i])
  }

  /** `Advisories.Update(id, adv)`: the first advisory with that ID is replaced. */
  function Replace(advs: seq<Advisory>, id: string, adv: Advisory): (r: seq<Advisory>)
    ensures |r| == |advs|
    ensures Find(advs, id).None? ==> r == advs
    ensures Find(advs, id).Some? ==> r == advs[Find(advs, id).value := adv]
  {
    match Find(advs, id)
    case None => advs
    case Some(i) => advs[i := adv]
  }

  /** With unique IDs, an ID names at most one advisory. */
  lemma UniqueIDsAt(advs: seq<Advisory>, i: int, j: int)
    requires UniqueIDs(advs) && 0 <= i < |advs| && 0 <= j < |advs| && advs[i].id == advs[j].id
    ensures i == j
  {
    assert AdvisoryID(advs[i]) == AdvisoryID(advs[j]);
  }

  /** With unique IDs, an advisory is the only one carrying its ID. */
  lemma UniqueIDsMember(advs: seq<Advisory>, i: int, a: Advisory)
    requires UniqueIDs(advs) && 0 <= i < |advs| && a in advs && a.id == advs[i].id
    ensures a == advs[i]
  {
    var k :| 0 <= k < |advs| && advs[k] == a;
    UniqueIDsAt(advs, i, k);
  }

  /** Reordering advisories keeps their IDs unique. */
  lemma PermutationKeepsUniqueIDs(a: seq<Advisory>, b: seq<Advisory>)
    requires multiset(a) == multiset(b) && UniqueIDs(a)
    ensures UniqueIDs(b)
  {
    Sorting.PermutationKeepsDistinctKeys(a, b, AdvisoryID);
  }

  /** Sorted by ID with unique IDs means strictly ascending IDs. */
  lemma SortedUniqueIsStrict(advs: seq<Advisory>, i: int, j: int)
    requires SortedByID(advs) && UniqueIDs(advs) && 0 <= i < j < |advs|
    ensures Lt(advs[i].id, advs[j].id)
  {
    assert AdvisoryID(advs[i]) == advs[i].id && AdvisoryID(advs[j]) == advs[j].id;
  }

  // ----- Events: `Advisory.SortedEvents` -----

  ghost predicate SortedByTime(es: seq<Event>) {
    forall i, j :: 0 <= i < j < |es| ==> es[i].timestamp <= es[j].timestamp
  }

  /** Places `e` after every event no later than it. */
  function InsertEvent(s: seq<Event>, e: Event): (r: seq<Event>)
    ensures |r| == |s| + 1
  {
    if s == [] || s[|s| - 1].timestamp <= e.timestamp then s + [e]
    else InsertEvent(s[..|s| - 1], e) + [s[|s| - 1]]
  }

  /** The events ordered by timestamp; events with equal timestamps keep the order they were recorded in. */
  function SortedEvents(es: seq<Event>): (r: seq<Event>)
    ensures |r| == |es|
  {
    if es == [] then [] else InsertEvent(SortedEvents(es[..|es| - 1]), es[|es| - 1])
  }

  /** The latest event of an advisory: the last of its sorted events. */
  function Latest(a: Advisory): Option<Event> {
    if a.events == [] then None else Some(SortedEvents(a.events)[|a.events| - 1])
  }

  lemma {:induction false} InsertEventPermutes(s: seq<Event>, e: Event)
    ensures multiset(InsertEvent(s, e)) == multiset(s) + multiset{e}
    decreases |s|
  {
    if !(s == [] || s[|s| - 1].timestamp <= e.timestamp) {
      var p := s[..|s| - 1];
      InsertEventPermutes(p, e);
      assert s == p + [s[|s| - 1]];
    }
  }

  lemma {:induction false} InsertEventSorts(s: seq<Event>, e: Event)
    requires SortedByTime(s)
    ensures SortedByTime(InsertEvent(s, e))
    decreases |s|
  {
    if !(s == [] || s[|s| - 1].timestamp <= e.timestamp) {
      var p, last := s[..|s| - 1], s[|s| - 1];
      var q := InsertEvent(p, e);
      InsertEventSorts(p, e);
      InsertEventPermutes(p, e);
      forall i | 0 <= i < |q| ensures q[i].timestamp <= last.timestamp {
        assert q[i] in multiset(q);
        if q[i] != e {
          assert q[i] in multiset(p);
          var k :| 0 <= k < |p| && p[k] == q[i];
          assert s[k] == p[k];
        }
      }
      assert InsertEvent(s, e) == q + [last];
    }
  }

  /** `SortedEvents` is ordered by timestamp and is a permutation of the events. */
  lemma {:induction false} SortedEventsSortsAndPermutes(es: seq<Event>)
    ensures SortedByTime(SortedEvents(es))
    ensures multiset(SortedEvents(es)) == multiset(es)
    decreases |es|
  {
    if es != [] {
      var p := es[..|es| - 1];
      SortedEventsSortsAndPermutes(p);
      InsertEventSorts(SortedEvents(p), es[|es| - 1]);
      InsertEventPermutes(SortedEvents(p), es[|es| - 1]);
      assert es == p + [es[|es| - 1]];
    }
  }

  lemma LastOfInsertEvent(s: seq<Event>, e: Event)
    ensures InsertEvent(s, e)[|s|] ==
      if s == [] || s[|s| - 1].timestamp <= e.timestamp then e else s[|s| - 1]
  {
  }

  /** `es[i]` has the greatest timestamp, and no later-recorded event has that timestamp. */
  ghost predicate NewestAt(es: seq<Event>, i: int) {
    && 0 <= i < |es|
    && (forall j :: 0 <= j < |es| ==> es[j].timestamp <= es[i].timestamp)
    && (forall j :: i < j < |es| ==> es[j].timestamp < es[i].timestamp)
  }

  /**
   * The latest event is the one with the greatest timestamp; among several
   * with that timestamp, the one recorded last.
   */
  lemma {:induction false} LatestIsNewest(es: seq<Event>) returns (i: nat)
    requires es != []
    ensures NewestAt(es, i) && es[i] == SortedEvents(es)[|es| - 1]
    decreases |es|
  {
    var n := |es|;
    var p, x := es[..n - 1], es[n - 1];
    var s := SortedEvents(p);
    LastOfInsertEvent(s, x);
    assert forall j :: 0 <= j < n - 1 ==> es[j] == p[j];
    if p == [] {
      i := 0;
    } else {
      var i0 := LatestIsNewest(p);
      if s[|s| - 1].timestamp <= x.timestamp {
        i := n - 1;
      } else {
        i := i0;
      }
    }
  }

  /** An event appended with a timestamp no earlier than any recorded one becomes the latest. */
  lemma AppendedNewestIsLatest(a: Advisory, e: Event)
    requires forall x :: x in a.events ==> x.timestamp <= e.timestamp
    ensures Latest(a.(events := a.events + [e])) == Some(e)
  {
    var es := a.events + [e];
    var i := LatestIsNewest(es);
  }
}
