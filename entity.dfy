/**
 * The record both controllers manipulate: the mutable `UrlEntity` object, with
 * the `expiresAt` and `accessCount` fields the controllers read and write, and
 * the value that the record store keeps for it.
 */
module Entity {
  import opened Options

  /** Timestamps, in any unit; the clock is a parameter wherever it is read. */
  type Time = int

  /** The store-assigned identifier (a MongoDB ObjectId in the source). */
  type Id = nat

  /** The values of all fields of a `UrlEntity`; `None` is Java's null. */
  datatype Fields = Fields(
    id: Option<Id>,
    originalUrl: Option<string>,
    shortCode: Option<string>,
    createdAt: Option<Time>,
    updatedAt: Option<Time>,
    expiresAt: Option<Time>,
    accessCount: Option<nat>)

  /** Every field the handlers rely on when they save an entity is set. */
  predicate Complete(f: Fields)
  {
    f.originalUrl.Some? && f.shortCode.Some? && f.createdAt.Some? && f.updatedAt.Some?
  }

  /** A stored document: a saved entity together with its assigned id. */
  datatype Document = Document(
    id: Id,
    originalUrl: string,
    shortCode: string,
    createdAt: Time,
    updatedAt: Time,
    expiresAt: Option<Time>,
    accessCount: Option<nat>)

  /** The entity the store hands out for a document. */
  function Load(d: Document): (f: Fields)
    ensures Complete(f) && f.id == Some(d.id)
  {
    Fields(Some(d.id), Some(d.originalUrl), Some(d.shortCode), Some(d.createdAt),
           Some(d.updatedAt), d.expiresAt, d.accessCount)
  }

  /** The document the store writes for a complete entity under id `id`. */
  function Persist(f: Fields, id: Id): (d: Document)
    requires Complete(f)
    ensures d.id == id
  {
    Document(id, f.originalUrl.value, f.shortCode.value, f.createdAt.value,
             f.updatedAt.value, f.expiresAt, f.accessCount)
  }

  /** Loading and persisting are inverse: nothing is lost in either direction. */
  lemma PersistLoad(d: Document, f: Fields, id: Id)
    ensures Persist(Load(d), d.id) == d
    ensures Complete(f) ==> Load(Persist(f, id)) == f.(id := Some(id))
  {
  }

  /** Absent access counts read as zero (`getAccessCount() != null ? ... : 0L`). */
  function CountOf(accessCount: Option<nat>): nat
  {
    if accessCount.Some? then accessCount.value else 0
  }

  /** The record after one more successful redirect: an absent count becomes 1. */
  function Accessed(d: Document): Document
  {
    d.(accessCount := Some(CountOf(d.accessCount) + 1))
  }

  class UrlEntity {
    var id: Option<Id>
    var originalUrl: Option<string>
    var shortCode: Option<string>
    var createdAt: Option<Time>
    var updatedAt: Option<Time>
    var expiresAt: Option<Time>
    var accessCount: Option<nat>

    /** All fields at once; the getters of the source are reads of these fields. */
    function Snapshot(): Fields
      reads this
    {
      Fields(id, originalUrl, shortCode, createdAt, updatedAt, expiresAt, accessCount)
    }

    /** The no-argument constructor the store's mapper uses: every field null. */
    constructor Empty()
      ensures Snapshot() == Fields(None, None, None, None, None, None, None)
    {
      id, originalUrl, shortCode := None, None, None;
      createdAt, updatedAt, expiresAt, accessCount := None, None, None, None;
    }

    /** `new UrlEntity(originalUrl, shortCode)`: both strings kept as given,
        both timestamps set from the clock, no id yet, no accesses, and the
        expiry supplied by the caller. */
    constructor (originalUrl: string, shortCode: string, now: Time, expiresAt: Option<Time>)
      ensures Snapshot() == Fields(None, Some(originalUrl), Some(shortCode), Some(now), Some(now), expiresAt, None)
      ensures Complete(Snapshot())
    {
      this.id := None;
      this.originalUrl := Some(originalUrl);
      this.shortCode := Some(shortCode);
      this.createdAt := Some(now);
      this.updatedAt := Some(now);
      this.expiresAt := expiresAt;
      this.accessCount := None;
    }

    method SetId(id: Option<Id>)
      modifies this
      ensures Snapshot() == old(Snapshot()).(id := id)
    {
      this.id := id;
    }

    method SetOriginalUrl(originalUrl: Option<string>)
      modifies this
      ensures Snapshot() == old(Snapshot()).(originalUrl := originalUrl)
    {
      this.originalUrl := originalUrl;
    }

    method SetShortCode(shortCode: Option<string>)
      modifies this
      ensures Snapshot() == old(Snapshot()).(shortCode := shortCode)
    {
      this.shortCode := shortCode;
    }

    method SetCreatedAt(createdAt: Option<Time>)
      modifies this
      ensures Snapshot() == old(Snapshot()).(createdAt := createdAt)
    {
      this.createdAt := createdAt;
    }

    method SetUpdatedAt(updatedAt: Option<Time>)
      modifies this
      ensures Snapshot() == old(Snapshot()).(updatedAt := updatedAt)
    {
      this.updatedAt := updatedAt;
    }

    method SetExpiresAt(expiresAt: Option<Time>)
      modifies this
      ensures Snapshot() == old(Snapshot()).(expiresAt := expiresAt)
    {
      this.expiresAt := expiresAt;
    }

    method SetAccessCount(accessCount: Option<nat>)
      modifies this
      ensures Snapshot() == old(Snapshot()).(accessCount := accessCount)
    {
      this.accessCount := accessCount;
    }
  }
}
