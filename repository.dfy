/**
 * The record store both controllers talk to (a Spring Data MongoDB repository in
 * the source), modelled as an in-memory sequence of documents in insertion order
 * plus the next identifier to assign. Lookups return the first match.
 */
module Repository {
  import opened Options
  import opened Entity

  datatype Db = Db(documents: seq<Document>, nextId: Id)

  predicate IdsDistinct(docs: seq<Document>)
  {
    forall i, j :: 0 <= i < j < |docs| ==> docs[i].id != docs[j].id
  }

  predicate IdsBelow(docs: seq<Document>, bound: Id)
  {
    forall i :: 0 <= i < |docs| ==> docs[i].id < bound
  }

  /** The store's own invariant: ids are distinct and below the next id. */
  predicate WellFormed(db: Db)
  {
    IdsDistinct(db.documents) && IdsBelow(db.documents, db.nextId)
  }

  /** No two records share a short code. */
  predicate CodesUnique(docs: seq<Document>)
  {
    forall i, j :: 0 <= i < j < |docs| ==> docs[i].shortCode != docs[j].shortCode
  }

  /** The position of the first record with short code `code`, if any. */
  function IndexOfCode(docs: seq<Document>, code: string): (r: Option<nat>)
    ensures r.Some? ==> r.value < |docs| && docs[r.value].shortCode == code
    ensures r.Some? ==> forall j :: 0 <= j < r.value ==> docs[j].shortCode != code
    ensures r.None? ==> forall j :: 0 <= j < |docs| ==> docs[j].shortCode != code
  {
    if docs == [] then None
    else if docs[0].shortCode == code then Some(0)
    else match IndexOfCode(docs[1..], code)
      case None => None
      case Some(i) => Some(i + 1)
  }

  /** The position of the first record whose original URL is `url`, if any. */
  function IndexOfUrl(docs: seq<Document>, url: string): (r: Option<nat>)
    ensures r.Some? ==> r.value < |docs| && docs[r.value].originalUrl == url
    ensures r.Some? ==> forall j :: 0 <= j < r.value ==> docs[j].originalUrl != url
    ensures r.None? ==> forall j :: 0 <= j < |docs| ==> docs[j].originalUrl != url
  {
    if docs == [] then None
    else if docs[0].originalUrl == url then Some(0)
    else match IndexOfUrl(docs[1..], url)
      case None => None
      case Some(i) => Some(i + 1)
  }

  /** The lookup by URL finds exactly the first record with that URL. */
  lemma IndexOfUrlIs(docs: seq<Document>, url: string, i: nat)
    requires i < |docs| && docs[i].originalUrl == url
    requires forall j :: 0 <= j < i ==> docs[j].originalUrl != url
    ensures IndexOfUrl(docs, url) == Some(i)
  {
  }

  /** The position of the record with id `id`, if any. */
  function IndexOfId(docs: seq<Document>, id: Id): (r: Option<nat>)
    ensures r.Some? ==> r.value < |docs| && docs[r.value].id == id
    ensures r.Some? ==> forall j :: 0 <= j < r.value ==> docs[j].id != id
    ensures r.None? ==> forall j :: 0 <= j < |docs| ==> docs[j].id != id
  {
    if docs == [] then None
    else if docs[0].id == id then Some(0)
    else match IndexOfId(docs[1..], id)
      case None => None
      case Some(i) => Some(i + 1)
  }

  /** In a store with distinct ids, record i is the one found by its id. */
  lemma IndexOfOwnId(docs: seq<Document>, i: nat)
    requires IdsDistinct(docs) && i < |docs|
    ensures IndexOfId(docs, docs[i].id) == Some(i)
  {
  }

  /** In a store with unique codes, record i is the one found by its code. */
  lemma IndexOfOwnCode(docs: seq<Document>, i: nat)
    requires CodesUnique(docs) && i < |docs|
    ensures IndexOfCode(docs, docs[i].shortCode) == Some(i)
  {
  }

  /** The short codes in use; there are no more of them than records. */
  function Codes(docs: seq<Document>): (r: set<string>)
    ensures |r| <= |docs|
  {
    if docs == [] then {} else {docs[0].shortCode} + Codes(docs[1..])
  }

  /** A code is in use exactly when a lookup by that code finds a record. */
  lemma {:induction false} CodesMembership(docs: seq<Document>, code: string)
    ensures code in Codes(docs) <==> IndexOfCode(docs, code).Some?
  {
    if docs != [] {
      CodesMembership(docs[1..], code);
    }
  }

  lemma CodeInCodes(docs: seq<Document>, j: nat)
    requires j < |docs|
    ensures docs[j].shortCode in Codes(docs)
  {
    CodesMembership(docs, docs[j].shortCode);
  }

  /** A record's code is free again once that record is gone, when codes are unique. */
  lemma CodeFreedByRemoval(docs: seq<Document>, i: nat)
    requires CodesUnique(docs) && i < |docs|
    ensures docs[i].shortCode !in Codes(Without(docs, i))
  {
    WithoutIndex(docs, i);
    CodesMembership(Without(docs, i), docs[i].shortCode);
  }

  /** The store without record i. */
  function Without(docs: seq<Document>, i: nat): (r: seq<Document>)
    requires i < |docs|
    ensures |r| == |docs| - 1
  {
    docs[..i] + docs[i + 1..]
  }

  /** The records of the store without record i, by position. */
  lemma WithoutIndex(docs: seq<Document>, i: nat)
    requires i < |docs|
    ensures forall j :: 0 <= j < i ==> Without(docs, i)[j] == docs[j]
    ensures forall j :: i <= j < |docs| - 1 ==> Without(docs, i)[j] == docs[j + 1]
  {
  }

  /** `deleteByShortCode`: every record with that code removed, the others
      kept in order. */
  function RemoveCode(docs: seq<Document>, code: string): (r: seq<Document>)
    ensures |r| <= |docs|
  {
    if docs == [] then []
    else if docs[0].shortCode == code then RemoveCode(docs[1..], code)
    else [docs[0]] + RemoveCode(docs[1..], code)
  }

  /** A record survives deletion by code exactly when it has another code. */
  lemma {:induction false} RemoveCodeMembership(docs: seq<Document>, code: string)
    ensures forall d :: d in RemoveCode(docs, code) <==> d in docs && d.shortCode != code
  {
    if docs != [] {
      RemoveCodeMembership(docs[1..], code);
      assert forall d :: d in docs <==> d == docs[0] || d in docs[1..];
    }
  }

  /** `delete(entity)`: the record with the entity's id removed. */
  function RemoveId(db: Db, id: Id): Db
  {
    match IndexOfId(db.documents, id)
    case None => db
    case Some(i) => db.(documents := Without(db.documents, i))
  }

  /** The id `save` gives an entity: its own, or a fresh one. */
  function AssignedId(db: Db, f: Fields): Id
  {
    if f.id.Some? then f.id.value else db.nextId
  }

  /** `save(entity)`: an upsert by id, assigning a fresh id to a new entity. */
  function Put(db: Db, f: Fields): Db
    requires Complete(f)
  {
    var d := Persist(f, AssignedId(db, f));
    match IndexOfId(db.documents, d.id)
    case Some(i) => db.(documents := db.documents[i := d])
    case None => Db(db.documents + [d], if d.id < db.nextId then db.nextId else d.id + 1)
  }

  lemma PutWellFormed(db: Db, f: Fields)
    requires WellFormed(db) && Complete(f)
    ensures WellFormed(Put(db, f))
  {
  }

  /** Saving an entity loaded from record i replaces record i and nothing else. */
  lemma PutExisting(db: Db, i: nat, f: Fields)
    requires WellFormed(db) && i < |db.documents| && Complete(f)
    requires f.id == Some(db.documents[i].id)
    ensures Put(db, f) == db.(documents := db.documents[i := Persist(f, db.documents[i].id)])
  {
    IndexOfOwnId(db.documents, i);
  }

  /** Saving an entity without id appends it under the next id. */
  lemma PutNew(db: Db, f: Fields)
    requires WellFormed(db) && Complete(f) && f.id.None?
    ensures Put(db, f) == Db(db.documents + [Persist(f, db.nextId)], db.nextId + 1)
  {
  }

  /** Deleting the entity loaded from record i removes exactly record i. */
  lemma RemoveOwnId(db: Db, i: nat)
    requires WellFormed(db) && i < |db.documents|
    ensures RemoveId(db, db.documents[i].id) == db.(documents := Without(db.documents, i))
  {
    IndexOfOwnId(db.documents, i);
  }

  /** Deleting by code keeps the remaining ids distinct. */
  lemma {:induction false} RemoveCodeKeepsIds(docs: seq<Document>, code: string)
    requires IdsDistinct(docs)
    ensures IdsDistinct(RemoveCode(docs, code))
  {
    if docs != [] {
      var tail := docs[1..];
      RemoveCodeKeepsIds(tail, code);
      RemoveCodeMembership(tail, code);
      var rest := RemoveCode(tail, code);
      forall d | d in rest
        ensures d.id != docs[0].id
      {
        var k :| 0 <= k < |tail| && tail[k] == d;
        assert docs[k + 1] == d;
      }
      if docs[0].shortCode != code {
        var r := [docs[0]] + rest;
        forall i, j | 0 <= i < j < |r|
          ensures r[i].id != r[j].id
        {
          if i == 0 {
            assert r[j] == rest[j - 1] && r[j] in rest;
          } else {
            assert r[i] == rest[i - 1] && r[j] == rest[j - 1];
          }
        }
      }
    }
  }

  /** Deleting by code keeps the remaining codes unique. */
  lemma {:induction false} RemoveCodeKeepsCodes(docs: seq<Document>, code: string)
    requires CodesUnique(docs)
    ensures CodesUnique(RemoveCode(docs, code))
  {
    if docs != [] {
      var tail := docs[1..];
      RemoveCodeKeepsCodes(tail, code);
      RemoveCodeMembership(tail, code);
      var rest := RemoveCode(tail, code);
      forall d | d in rest
        ensures d.shortCode != docs[0].shortCode
      {
        var k :| 0 <= k < |tail| && tail[k] == d;
        assert docs[k + 1] == d;
      }
      if docs[0].shortCode != code {
        var r := [docs[0]] + rest;
        forall i, j | 0 <= i < j < |r|
          ensures r[i].shortCode != r[j].shortCode
        {
          if i == 0 {
            assert r[j] == rest[j - 1] && r[j] in rest;
          } else {
            assert r[i] == rest[i - 1] && r[j] == rest[j - 1];
          }
        }
      }
    }
  }

  /** With unique codes, deleting by code removes exactly the record found. */
  lemma {:induction false} RemoveUniqueCode(docs: seq<Document>, i: nat)
    requires CodesUnique(docs) && i < |docs|
    ensures RemoveCode(docs, docs[i].shortCode) == Without(docs, i)
  {
    var code := docs[i].shortCode;
    var tail := docs[1..];
    assert CodesUnique(tail);
    if i == 0 {
      RemoveAbsentCode(tail, code);
      assert Without(docs, 0) == tail;
    } else {
      RemoveUniqueCode(tail, i - 1);
      assert docs[0].shortCode != code;
      assert Without(docs, i) == [docs[0]] + Without(tail, i - 1);
    }
  }

  lemma {:induction false} RemoveAbsentCode(docs: seq<Document>, code: string)
    requires forall j :: 0 <= j < |docs| ==> docs[j].shortCode != code
    ensures RemoveCode(docs, code) == docs
  {
    if docs != [] {
      RemoveAbsentCode(docs[1..], code);
      assert [docs[0]] + docs[1..] == docs;
    }
  }

  /** The store's invariants: the record store's own, and no two records
      sharing a short code. */
  predicate Consistent(db: Db)
  {
    WellFormed(db) && CodesUnique(db.documents)
  }

  lemma WithoutKeepsConsistent(db: Db, i: nat)
    requires Consistent(db) && i < |db.documents|
    ensures Consistent(db.(documents := Without(db.documents, i)))
  {
    WithoutIndex(db.documents, i);
  }

  /** Rewriting a record in place, keeping its id and code, keeps the invariants. */
  lemma ReplaceKeepsConsistent(db: Db, i: nat, d: Document)
    requires Consistent(db) && i < |db.documents|
    requires d.id == db.documents[i].id && d.shortCode == db.documents[i].shortCode
    ensures Consistent(db.(documents := db.documents[i := d]))
  {
  }

  /** Appending a record under the next id with a code not in use keeps the invariants. */
  lemma AppendKeepsConsistent(db: Db, d: Document)
    requires Consistent(db)
    requires d.id == db.nextId && d.shortCode !in Codes(db.documents)
    ensures Consistent(Db(db.documents + [d], db.nextId + 1))
  {
    forall j | 0 <= j < |db.documents|
      ensures db.documents[j].shortCode != d.shortCode
    {
      CodeInCodes(db.documents, j);
    }
  }

  /** The store, one object shared by all handlers. */
  class UrlRepository {
    var documents: seq<Document>
    var nextId: Id

    function State(): Db
      reads this
    {
      Db(documents, nextId)
    }

    ghost predicate Valid()
      reads this
    {
      WellFormed(State())
    }

    constructor ()
      ensures Valid() && State() == Db([], 0)
    {
      documents, nextId := [], 0;
    }

    /** `findByShortCode(code).isPresent()`. */
    function ContainsShortCode(code: string): (r: bool)
      reads this
      ensures r <==> code in Codes(documents)
    {
      CodesMembership(documents, code);
      IndexOfCode(documents, code).Some?
    }

    /** Builds the entity for a document as the store's mapper does: the
        no-argument constructor, then every field set. */
    method Materialize(d: Document) returns (e: UrlEntity)
      ensures fresh(e) && e.Snapshot() == Load(d)
    {
      e := new UrlEntity.Empty();
      e.SetId(Some(d.id));
      e.SetOriginalUrl(Some(d.originalUrl));
      e.SetShortCode(Some(d.shortCode));
      e.SetCreatedAt(Some(d.createdAt));
      e.SetUpdatedAt(Some(d.updatedAt));
      e.SetExpiresAt(d.expiresAt);
      e.SetAccessCount(d.accessCount);
    }

    method FindByShortCode(code: string) returns (e: UrlEntity?)
      ensures e == null <==> IndexOfCode(documents, code).None?
      ensures e != null ==> fresh(e) && e.Snapshot() == Load(documents[IndexOfCode(documents, code).value])
    {
      var i := IndexOfCode(documents, code);
      if i.None? {
        e := null;
      } else {
        e := Materialize(documents[i.value]);
      }
    }

    method FindByOriginalUrl(url: string) returns (e: UrlEntity?)
      ensures e == null <==> IndexOfUrl(documents, url).None?
      ensures e != null ==> fresh(e) && e.Snapshot() == Load(documents[IndexOfUrl(documents, url).value])
    {
      var i := IndexOfUrl(documents, url);
      if i.None? {
        e := null;
      } else {
        e := Materialize(documents[i.value]);
      }
    }

    /** `save(entity)`: writes the entity back, first giving it an id if it has
        none, and returns the same entity. */
    method Save(e: UrlEntity) returns (saved: UrlEntity)
      requires Valid() && Complete(e.Snapshot())
      modifies this, e
      ensures Valid() && saved == e
      ensures e.Snapshot() == old(e.Snapshot()).(id := Some(AssignedId(old(State()), old(e.Snapshot()))))
      ensures State() == Put(old(State()), old(e.Snapshot()))
    {
      ghost var before := State();
      ghost var f := e.Snapshot();
      if e.id.None? {
        e.SetId(Some(nextId));
      }
      var d := Persist(e.Snapshot(), e.id.value);
      assert d == Persist(f, AssignedId(before, f));
      var i := IndexOfId(documents, d.id);
      if i.Some? {
        documents := documents[i.value := d];
      } else {
        documents := documents + [d];
        nextId := if d.id < nextId then nextId else d.id + 1;
      }
      PutWellFormed(before, f);
      saved := e;
    }

    /** `delete(entity)`: removes the record with the entity's id. */
    method Delete(e: UrlEntity)
      requires Valid() && e.id.Some?
      modifies this
      ensures Valid() && State() == RemoveId(old(State()), e.id.value)
    {
      var i := IndexOfId(documents, e.id.value);
      if i.Some? {
        documents := Without(documents, i.value);
      }
    }

    /** `deleteByShortCode(code)`: removes every record with that code. */
    method DeleteByShortCode(code: string)
      requires Valid()
      modifies this
      ensures Valid() && State() == old(State()).(documents := RemoveCode(old(documents), code))
    {
      RemoveCodeKeepsIds(documents, code);
      RemoveCodeMembership(documents, code);
      documents := RemoveCode(documents, code);
    }
  }
}
