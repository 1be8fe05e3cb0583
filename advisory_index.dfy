/**
 * The index of advisory documents (`configs.Index[v2.Document]`), held in
 * memory as a map from file name to document. A selection is the set of
 * file names it covers; `documents.Update(u)` applies a section updater to
 * every selected document, and either all of them are rewritten or none.
 */
module AdvisoryIndex {
  import opened Results
  import opened AdvisoryData

  /** A pure rewrite of one section of a document. */
  datatype SectionUpdater =
    | AdvisoriesSection(update: Document -> Result<seq<Advisory>, Error>)
    | SchemaVersionSection(version: string)

  /** The document with the updater's section replaced, or the updater's error. */
  function ApplySection(u: SectionUpdater, doc: Document): (r: Result<Document, Error>)
    ensures r.Ok? ==> r.value.package == doc.package
    ensures u.SchemaVersionSection? ==> r == Ok(doc.(schemaVersion := u.version))
  {
    match u
    case AdvisoriesSection(f) =>
      (match f(doc)
       case Ok(advs) => Ok(doc.(advisories := advs))
       case Err(e) => Err(e))
    case SchemaVersionSection(v) => Ok(doc.(schemaVersion := v))
  }

  /** `Select().WhereName(name)` over a map of documents. */
  function Matching(docs: map<string, Document>, name: string): (sel: set<string>)
    ensures sel <= docs.Keys
    ensures forall f :: f in docs && docs[f].package.name == name ==> f in sel
    ensures forall f :: f in sel ==> docs[f].package.name == name
  {
    set f | f in docs && docs[f].package.name == name
  }

  /** A map that differs from `before` only at `f`, where it holds `d`, is `before[f := d]`. */
  lemma UpdatedOnly(before: map<string, Document>, after: map<string, Document>, f: string, d: Document)
    requires f in before && after.Keys == before.Keys && after[f] == d
    requires forall g :: g in before && g != f ==> after[g] == before[g]
    ensures after == before[f := d]
  {
  }

  /**
   * The index's standing invariants: at most one document per package
   * name, and in each document unique advisory IDs sorted by ID.
   */
  ghost predicate IndexInvariant(docs: map<string, Document>) {
    && (forall f, g :: f in docs && g in docs && docs[f].package.name == docs[g].package.name ==> f == g)
    && (forall f :: f in docs ==> UniqueIDs(docs[f].advisories) && SortedByID(docs[f].advisories))
  }

  /** Rewriting one document's sections, keeping its package, keeps the invariant when its advisories keep theirs. */
  lemma ReplaceKeepsInvariant(docs: map<string, Document>, f: string, d: Document)
    requires IndexInvariant(docs) && f in docs && d.package == docs[f].package
    requires UniqueIDs(d.advisories) && SortedByID(d.advisories)
    ensures IndexInvariant(docs[f := d])
  {
    var t := docs[f := d];
    forall g, h | g in t && h in t && t[g].package.name == t[h].package.name ensures g == h {
      assert t[g].package == docs[g].package && t[h].package == docs[h].package;
    }
  }

  /** Adding a document under a new file name for a package no document has keeps the invariant. */
  lemma AddKeepsInvariant(docs: map<string, Document>, f: string, d: Document)
    requires IndexInvariant(docs) && f !in docs
    requires forall g :: g in docs ==> docs[g].package.name != d.package.name
    requires UniqueIDs(d.advisories) && SortedByID(d.advisories)
    ensures IndexInvariant(docs[f := d])
  {
    var t := docs[f := d];
    forall g, h | g in t && h in t && t[g].package.name == t[h].package.name ensures g == h {
      if g != f && h != f {
        assert t[g] == docs[g] && t[h] == docs[h];
      }
    }
  }

  /** The single element of a one-element selection. */
  function Only(sel: set<string>): (f: string)
    requires |sel| == 1
    ensures sel == {f}
  {
    var f :| f in sel;
    assert |sel - {f}| == 0;
    f
  }

  class Index {
    var documents: map<string, Document>

    constructor (docs: map<string, Document>)
      ensures documents == docs
    {
      documents := docs;
    }

    function WhereName(name: string): set<string>
      reads this
    {
      Matching(documents, name)
    }

    /** Adds a document under a new file name; an existing file name is an error. */
    method Create(fileName: string, doc: Document) returns (err: Option<Error>)
      modifies this
      ensures fileName in old(documents) ==> err == Some(DocumentExists(fileName)) && documents == old(documents)
      ensures fileName !in old(documents) ==> err == None && documents == old(documents)[fileName := doc]
    {
      if fileName in documents {
        return Some(DocumentExists(fileName));
      }
      documents := documents[fileName := doc];
      return None;
    }

    /**
     * Rewrites every selected document with `u`. An empty selection, or an
     * error from `u` on any selected document, leaves the index unchanged.
     */
    method Update(sel: set<string>, u: SectionUpdater) returns (err: Option<Error>)
      requires sel <= documents.Keys
      modifies this
      ensures sel == {} ==> err == Some(NoDocumentsSelected)
      ensures err.Some? ==> documents == old(documents)
      ensures err.Some? && sel != {} ==>
        exists f :: f in sel && ApplySection(u, old(documents)[f]) == Err(err.value)
      ensures err.None? <==> sel != {} && forall f :: f in sel ==> ApplySection(u, old(documents)[f]).Ok?
      ensures err.None? ==> documents.Keys == old(documents).Keys
      ensures err.None? ==> forall f :: f in sel ==> documents[f] == ApplySection(u, old(documents)[f]).value
      ensures err.None? ==> forall f :: f in old(documents) && f !in sel ==> documents[f] == old(documents)[f]
    {
      if sel == {} {
        return Some(NoDocumentsSelected);
      }
      if exists f :: f in sel && ApplySection(u, documents[f]).Err? {
        var f :| f in sel && ApplySection(u, documents[f]).Err?;
        return Some(ApplySection(u, documents[f]).error);
      }
      documents := map f | f in documents :: if f in sel then ApplySection(u, documents[f]).value else documents[f];
      return None;
    }
  }
}
