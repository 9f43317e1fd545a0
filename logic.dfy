/**
 * The controller `ApplicationLogic`, the earlier variant of the service: the
 * same short-code generator and the same five handlers, but no validation (the
 * body is only trimmed) and no expiry (every record in the store is served).
 * Its replies carry neither an expiry nor an error body.
 */
module Logic {
  import opened Options
  import opened JavaLang
  import opened Entity
  import opened Repository
  import opened ShortCodes
  import Http
  import Shortener

  datatype ShortenResponse = ShortenResponse(id: Id, url: string, shortCode: string, createdAt: Time, updatedAt: Time)

  datatype StatsResponse = StatsResponse(
    id: Id, originalUrl: string, shortCode: string, createdAt: Time, updatedAt: Time, accessCount: nat)

  datatype Body = NoBody | Shortened(shortened: ShortenResponse) | Statistics(stats: StatsResponse)

  /** Status, the Location header when there is one, and the body. */
  datatype Reply = Reply(status: nat, location: Option<string>, body: Body)

  function NotFoundReply(): Reply
  {
    Reply(Http.NotFound, None, NoBody)
  }

  function ShortenReply(status: nat, d: Document, url: string): Reply
  {
    Reply(status, None, Shortened(ShortenResponse(d.id, url, Http.RedirectBase + d.shortCode, d.createdAt, d.updatedAt)))
  }

  function StatsOf(d: Document): StatsResponse
  {
    StatsResponse(d.id, d.originalUrl, d.shortCode, d.createdAt, d.updatedAt, CountOf(d.accessCount))
  }

  // ---------------------------------------------------------------------------
  // The handlers, as functions of the store

  /** POST /api/shorten: the record for the trimmed URL with updatedAt
      refreshed, or a new record. `expiresAt` is whatever the entity
      constructor gives a new record. */
  function Shorten(db: Db, longUrl: string, now: Time, expiresAt: Option<Time>): (Reply, Db)
  {
    var cleanUrl := Trim(longUrl);
    match IndexOfUrl(db.documents, cleanUrl)
    case Some(i) =>
      var d := db.documents[i].(updatedAt := now);
      (ShortenReply(Http.Ok, d, cleanUrl), db.(documents := db.documents[i := d]))
    case None =>
      var d := Document(db.nextId, cleanUrl, UniqueShortCode(cleanUrl, Codes(db.documents)), now, now, expiresAt, None);
      (ShortenReply(Http.Created, d, cleanUrl), Db(db.documents + [d], db.nextId + 1))
  }

  /** PUT /api/shorten/{shortCode}. */
  function Update(db: Db, shortCode: string, newLongUrl: string, now: Time): (Reply, Db)
  {
    var cleanUrl := Trim(newLongUrl);
    match IndexOfCode(db.documents, shortCode)
    case None => (NotFoundReply(), db)
    case Some(i) =>
      var d := db.documents[i].(originalUrl := cleanUrl, updatedAt := now);
      (ShortenReply(Http.Ok, d, cleanUrl), db.(documents := db.documents[i := d]))
  }

  /** GET /api/{shortCode}. */
  function Redirect(db: Db, shortCode: string): (Reply, Db)
  {
    match IndexOfCode(db.documents, shortCode)
    case None => (NotFoundReply(), db)
    case Some(i) =>
      var d := db.documents[i];
      (Reply(Http.Found, Some(d.originalUrl), NoBody), db.(documents := db.documents[i := Accessed(d)]))
  }

  /** DELETE /api/shorten/{shortCode}. */
  function Delete(db: Db, shortCode: string): (Reply, Db)
  {
    match IndexOfCode(db.documents, shortCode)
    case None => (NotFoundReply(), db)
    case Some(_) => (Reply(Http.NoContent, None, NoBody), db.(documents := RemoveCode(db.documents, shortCode)))
  }

  /** GET /api/shorten/{shortCode}/stats. */
  function Stats(db: Db, shortCode: string): (Reply, Db)
  {
    match IndexOfCode(db.documents, shortCode)
    case None => (NotFoundReply(), db)
    case Some(i) => (Reply(Http.Ok, None, Statistics(StatsOf(db.documents[i]))), db)
  }

  // ---------------------------------------------------------------------------
  // Properties of the handlers

  /** Shortening a URL that is already stored answers 200 with that record; only
      its updatedAt changes and nothing is added. */
  lemma ShortenDeduplicates(db: Db, longUrl: string, now: Time, expiresAt: Option<Time>, i: nat)
    requires IndexOfUrl(db.documents, Trim(longUrl)) == Some(i)
    ensures var (reply, after) := Shorten(db, longUrl, now, expiresAt);
            var d := db.documents[i];
            && reply == ShortenReply(Http.Ok, d.(updatedAt := now), Trim(longUrl))
            && after.nextId == db.nextId && |after.documents| == |db.documents|
            && after.documents[i] == d.(updatedAt := now)
            && forall j :: 0 <= j < |db.documents| && j != i ==> after.documents[j] == db.documents[j]
  {
  }

  /** Shortening a URL not yet stored appends exactly one record, under the next
      id, for the trimmed URL, with a code no record has, no accesses and both
      timestamps `now`, and answers 201 with it. */
  lemma ShortenCreatesOne(db: Db, longUrl: string, now: Time, expiresAt: Option<Time>)
    requires IndexOfUrl(db.documents, Trim(longUrl)).None?
    ensures var (reply, after) := Shorten(db, longUrl, now, expiresAt);
            var d := after.documents[|db.documents|];
            && |after.documents| == |db.documents| + 1
            && after.documents[..|db.documents|] == db.documents
            && after.nextId == db.nextId + 1
            && d == Document(db.nextId, Trim(longUrl), d.shortCode, now, now, expiresAt, None)
            && d.shortCode !in Codes(db.documents)
            && d.shortCode == UniqueShortCode(Trim(longUrl), Codes(db.documents))
            && reply == ShortenReply(Http.Created, d, Trim(longUrl))
  {
    var d := Document(db.nextId, Trim(longUrl), UniqueShortCode(Trim(longUrl), Codes(db.documents)), now, now, expiresAt, None);
    assert (db.documents + [d])[..|db.documents|] == db.documents;
  }

  /** No input is ever rejected: shortening answers 200 or 201. */
  lemma ShortenNeverRejects(db: Db, longUrl: string, now: Time, expiresAt: Option<Time>)
    ensures Shorten(db, longUrl, now, expiresAt).0.status in {Http.Ok, Http.Created}
    ensures Shorten(db, longUrl, now, expiresAt).0.body.Shortened?
  {
  }

  /** Shortening the same URL again answers 200 with the same short code and adds
      no record. */
  lemma ShortenIdempotent(db: Db, longUrl: string, now: Time, later: Time, expiresAt: Option<Time>)
    ensures var (first, after) := Shorten(db, longUrl, now, expiresAt);
            var (second, final) := Shorten(after, longUrl, later, expiresAt);
            && second.status == Http.Ok
            && second.body.shortened.shortCode == first.body.shortened.shortCode
            && |final.documents| == |after.documents|
  {
    var cleanUrl := Trim(longUrl);
    var after := Shorten(db, longUrl, now, expiresAt).1;
    match IndexOfUrl(db.documents, cleanUrl)
    case Some(i) =>
      IndexOfUrlIs(after.documents, cleanUrl, i);
    case None =>
      IndexOfUrlIs(after.documents, cleanUrl, |db.documents|);
  }

  /** There is no expiry: every code in use is served by redirect, update and
      stats. */
  lemma EveryCodeServed(db: Db, shortCode: string, newLongUrl: string, now: Time)
    requires shortCode in Codes(db.documents)
    ensures Redirect(db, shortCode).0.status == Http.Found
    ensures Update(db, shortCode, newLongUrl, now).0.status == Http.Ok
    ensures Stats(db, shortCode).0.status == Http.Ok
  {
    CodesMembership(db.documents, shortCode);
  }

  /** An unknown code is answered 404 by every handler that takes a code, and the
      store is unchanged. */
  lemma UnknownCode(db: Db, shortCode: string, newLongUrl: string, now: Time)
    requires shortCode !in Codes(db.documents)
    ensures Redirect(db, shortCode) == (NotFoundReply(), db)
    ensures Update(db, shortCode, newLongUrl, now) == (NotFoundReply(), db)
    ensures Delete(db, shortCode) == (NotFoundReply(), db)
    ensures Stats(db, shortCode) == (NotFoundReply(), db)
  {
    CodesMembership(db.documents, shortCode);
  }

  /** A redirect answers 302 to the stored URL and adds exactly one to the access
      count (an absent count becoming 1); nothing else changes. */
  lemma RedirectCountsAccess(db: Db, shortCode: string, i: nat)
    requires IndexOfCode(db.documents, shortCode) == Some(i)
    ensures var (reply, after) := Redirect(db, shortCode);
            && reply == Reply(Http.Found, Some(db.documents[i].originalUrl), NoBody)
            && after.nextId == db.nextId && |after.documents| == |db.documents|
            && after.documents[i].accessCount == Some(CountOf(db.documents[i].accessCount) + 1)
            && after.documents[i].(accessCount := None) == db.documents[i].(accessCount := None)
            && forall j :: 0 <= j < |db.documents| && j != i ==> after.documents[j] == db.documents[j]
  {
  }

  /** Updating a stored code replaces its URL by the trimmed new one and
      refreshes updatedAt; everything else about the record and the store is
      kept. */
  lemma UpdateChangesOnlyUrl(db: Db, shortCode: string, newLongUrl: string, now: Time, i: nat)
    requires IndexOfCode(db.documents, shortCode) == Some(i)
    ensures var (reply, after) := Update(db, shortCode, newLongUrl, now);
            var d, e := db.documents[i], after.documents[i];
            && reply.status == Http.Ok
            && reply.body.shortened.url == Trim(newLongUrl)
            && reply.body.shortened.shortCode == Http.RedirectBase + shortCode
            && after.nextId == db.nextId && |after.documents| == |db.documents|
            && e.originalUrl == Trim(newLongUrl) && e.updatedAt == now
            && e.id == d.id && e.shortCode == d.shortCode && e.createdAt == d.createdAt
            && e.expiresAt == d.expiresAt && e.accessCount == d.accessCount
            && forall j :: 0 <= j < |db.documents| && j != i ==> after.documents[j] == db.documents[j]
  {
  }

  /** Deleting a code in use answers 204 and removes exactly the records with
      that code. */
  lemma DeleteRemovesCode(db: Db, shortCode: string)
    requires shortCode in Codes(db.documents)
    ensures var (reply, after) := Delete(db, shortCode);
            && reply == Reply(Http.NoContent, None, NoBody)
            && shortCode !in Codes(after.documents)
            && after.nextId == db.nextId
            && forall d :: d in after.documents <==> d in db.documents && d.shortCode != shortCode
  {
    CodesMembership(db.documents, shortCode);
    RemoveCodeMembership(db.documents, shortCode);
    CodesMembership(RemoveCode(db.documents, shortCode), shortCode);
  }

  /** Stats change nothing and report the record, an absent access count as 0. */
  lemma StatsReadOnly(db: Db, shortCode: string, i: nat)
    requires IndexOfCode(db.documents, shortCode) == Some(i)
    ensures var (reply, after) := Stats(db, shortCode);
            var d := db.documents[i];
            && after == db && reply.status == Http.Ok
            && reply.body.stats == StatsResponse(d.id, d.originalUrl, d.shortCode, d.createdAt, d.updatedAt,
                                                 CountOf(d.accessCount))
            && (d.accessCount.None? ==> reply.body.stats.accessCount == 0)
  {
  }

  /** Shortening never makes two records share a code or an id. */
  lemma ShortenKeepsConsistent(db: Db, longUrl: string, now: Time, expiresAt: Option<Time>)
    requires Consistent(db)
    ensures Consistent(Shorten(db, longUrl, now, expiresAt).1)
  {
    var cleanUrl := Trim(longUrl);
    match IndexOfUrl(db.documents, cleanUrl)
    case Some(i) =>
      ReplaceKeepsConsistent(db, i, db.documents[i].(updatedAt := now));
    case None =>
      var code := UniqueShortCode(cleanUrl, Codes(db.documents));
      AppendKeepsConsistent(db, Document(db.nextId, cleanUrl, code, now, now, expiresAt, None));
  }

  lemma UpdateKeepsConsistent(db: Db, shortCode: string, newLongUrl: string, now: Time)
    requires Consistent(db)
    ensures Consistent(Update(db, shortCode, newLongUrl, now).1)
  {
    var found := IndexOfCode(db.documents, shortCode);
    if found.Some? {
      var i := found.value;
      ReplaceKeepsConsistent(db, i, db.documents[i].(originalUrl := Trim(newLongUrl), updatedAt := now));
    }
  }

  lemma RedirectKeepsConsistent(db: Db, shortCode: string)
    requires Consistent(db)
    ensures Consistent(Redirect(db, shortCode).1)
  {
    var found := IndexOfCode(db.documents, shortCode);
    if found.Some? {
      ReplaceKeepsConsistent(db, found.value, Accessed(db.documents[found.value]));
    }
  }

  lemma DeleteKeepsConsistent(db: Db, shortCode: string)
    requires Consistent(db)
    ensures Consistent(Delete(db, shortCode).1)
  {
    RemoveCodeKeepsIds(db.documents, shortCode);
    RemoveCodeKeepsCodes(db.documents, shortCode);
    RemoveCodeMembership(db.documents, shortCode);
  }

  lemma StatsKeepsConsistent(db: Db, shortCode: string)
    requires Consistent(db)
    ensures Consistent(Stats(db, shortCode).1)
  {
  }

  /** One request to this controller; the clock is read only by shorten and
      update. */
  function Handle(db: Db, request: Shortener.Request): (Reply, Db)
  {
    match request
    case ShortenRequest(longUrl, now, expiresAt) => Shorten(db, longUrl, now, expiresAt)
    case RedirectRequest(shortCode, _) => Redirect(db, shortCode)
    case UpdateRequest(shortCode, newLongUrl, now) => Update(db, shortCode, newLongUrl, now)
    case DeleteRequest(shortCode) => Delete(db, shortCode)
    case StatsRequest(shortCode, _) => Stats(db, shortCode)
  }

  /** The store after a series of requests, handled one after the other. */
  function Run(db: Db, requests: seq<Shortener.Request>): Db
    decreases |requests|
  {
    if requests == [] then db else Run(Handle(db, requests[0]).1, requests[1..])
  }

  /** Uniqueness: whatever requests arrive, no two records ever come to share a
      short code or an id. */
  lemma {:induction false} RunKeepsConsistent(db: Db, requests: seq<Shortener.Request>)
    requires Consistent(db)
    ensures Consistent(Run(db, requests))
    decreases |requests|
  {
    if requests != [] {
      match requests[0] {
        case ShortenRequest(longUrl, now, expiresAt) => ShortenKeepsConsistent(db, longUrl, now, expiresAt);
        case RedirectRequest(shortCode, _) => RedirectKeepsConsistent(db, shortCode);
        case UpdateRequest(shortCode, newLongUrl, now) => UpdateKeepsConsistent(db, shortCode, newLongUrl, now);
        case DeleteRequest(shortCode) => DeleteKeepsConsistent(db, shortCode);
        case StatsRequest(shortCode, _) => StatsKeepsConsistent(db, shortCode);
      }
      RunKeepsConsistent(Handle(db, requests[0]).1, requests[1..]);
    }
  }

  // ---------------------------------------------------------------------------
  // The two controllers compared

  /** No record carries an expiry. */
  predicate NoExpiry(db: Db)
  {
    forall i :: 0 <= i < |db.documents| ==> db.documents[i].expiresAt.None?
  }

  /** On a valid URL, with no expiries anywhere, the later controller's shorten
      leaves the store exactly as this one's and answers with the same status,
      record and short link. */
  lemma ShortenAgrees(db: Db, longUrl: string, now: Time, parse: string -> Shortener.UriParse)
    requires NoExpiry(db)
    requires Shortener.ValidateUrl(Some(longUrl), parse).Pass?
    ensures var (reply, after) := Shortener.Shorten(db, longUrl, now, None, parse);
            var (reply', after') := Shorten(db, longUrl, now, None);
            && after == after'
            && reply.status == reply'.status
            && reply.body.shortened.id == reply'.body.shortened.id
            && reply.body.shortened.shortCode == reply'.body.shortened.shortCode
  {
  }

  /** With no expiries anywhere, the later controller's redirect, update,
      delete and stats leave the store exactly as this one's and answer with the
      same status (and the same Location for a redirect). */
  lemma CodeHandlersAgree(db: Db, shortCode: string, newLongUrl: string, now: Time, parse: string -> Shortener.UriParse)
    requires NoExpiry(db)
    ensures Shortener.Redirect(db, shortCode, now).1 == Redirect(db, shortCode).1
    ensures Shortener.Redirect(db, shortCode, now).0.status == Redirect(db, shortCode).0.status
    ensures Shortener.Redirect(db, shortCode, now).0.location == Redirect(db, shortCode).0.location
    ensures Shortener.ValidateUrl(Some(newLongUrl), parse).Pass? ==>
              && Shortener.Update(db, shortCode, newLongUrl, now, parse).1 == Update(db, shortCode, newLongUrl, now).1
              && Shortener.Update(db, shortCode, newLongUrl, now, parse).0.status == Update(db, shortCode, newLongUrl, now).0.status
    ensures Shortener.Delete(db, shortCode).1 == Delete(db, shortCode).1
    ensures Shortener.Delete(db, shortCode).0.status == Delete(db, shortCode).0.status
    ensures Shortener.Stats(db, shortCode, now).1 == Stats(db, shortCode).1
    ensures Shortener.Stats(db, shortCode, now).0.status == Stats(db, shortCode).0.status
  {
  }

  // ---------------------------------------------------------------------------
  // The controller

  class ApplicationLogic {
    const urlRepository: UrlRepository

    constructor (urlRepository: UrlRepository)
      ensures this.urlRepository == urlRepository
    {
      this.urlRepository := urlRepository;
    }

    ghost predicate Valid()
      reads urlRepository
    {
      urlRepository.Valid()
    }

    /** `generateUniqueShortCode`: the least free candidate for `url`. */
    method GenerateUniqueShortCode(url: string) returns (shortCode: string)
      ensures shortCode !in Codes(urlRepository.documents)
      ensures shortCode == UniqueShortCode(url, Codes(urlRepository.documents))
    {
      shortCode := ShortCodes.GenerateUniqueShortCode(urlRepository, url);
    }

    method ShortenUrl(longUrl: string, now: Time, expiresAt: Option<Time>) returns (reply: Reply)
      requires Valid()
      modifies urlRepository
      ensures Valid()
      ensures (reply, urlRepository.State()) == Shorten(old(urlRepository.State()), longUrl, now, expiresAt)
    {
      var cleanUrl := Trim(longUrl);
      ghost var db := urlRepository.State();
      var existingUrl := urlRepository.FindByOriginalUrl(cleanUrl);
      if existingUrl != null {
        ghost var i := IndexOfUrl(db.documents, cleanUrl).value;
        existingUrl.SetUpdatedAt(Some(now));
        PutExisting(db, i, existingUrl.Snapshot());
        var savedEntity := urlRepository.Save(existingUrl);
        reply := Reply(Http.Ok, None, Shortened(ShortenResponse(
          savedEntity.id.value, cleanUrl, Http.RedirectBase + savedEntity.shortCode.value,
          savedEntity.createdAt.value, savedEntity.updatedAt.value)));
        return;
      }
      var shortCode := GenerateUniqueShortCode(cleanUrl);
      var urlEntity := new UrlEntity(cleanUrl, shortCode, now, expiresAt);
      PutNew(db, urlEntity.Snapshot());
      var savedEntity := urlRepository.Save(urlEntity);
      reply := Reply(Http.Created, None, Shortened(ShortenResponse(
        savedEntity.id.value, cleanUrl, Http.RedirectBase + shortCode,
        savedEntity.createdAt.value, savedEntity.updatedAt.value)));
    }

    method UpdateUrl(shortCode: string, newLongUrl: string, now: Time) returns (reply: Reply)
      requires Valid()
      modifies urlRepository
      ensures Valid()
      ensures (reply, urlRepository.State()) == Update(old(urlRepository.State()), shortCode, newLongUrl, now)
    {
      var cleanUrl := Trim(newLongUrl);
      ghost var db := urlRepository.State();
      var existingUrl := urlRepository.FindByShortCode(shortCode);
      if existingUrl != null {
        ghost var i := IndexOfCode(db.documents, shortCode).value;
        existingUrl.SetOriginalUrl(Some(cleanUrl));
        existingUrl.SetUpdatedAt(Some(now));
        PutExisting(db, i, existingUrl.Snapshot());
        var savedEntity := urlRepository.Save(existingUrl);
        reply := Reply(Http.Ok, None, Shortened(ShortenResponse(
          savedEntity.id.value, cleanUrl, Http.RedirectBase + savedEntity.shortCode.value,
          savedEntity.createdAt.value, savedEntity.updatedAt.value)));
      } else {
        reply := NotFoundReply();
      }
    }

    method RedirectToOriginal(shortCode: string) returns (reply: Reply)
      requires Valid()
      modifies urlRepository
      ensures Valid()
      ensures (reply, urlRepository.State()) == Redirect(old(urlRepository.State()), shortCode)
    {
      ghost var db := urlRepository.State();
      var urlEntity := urlRepository.FindByShortCode(shortCode);
      if urlEntity != null {
        ghost var i := IndexOfCode(db.documents, shortCode).value;
        var originalUrl := urlEntity.originalUrl.value;
        urlEntity.SetAccessCount(Some(if urlEntity.accessCount.Some? then urlEntity.accessCount.value + 1 else 1));
        PutExisting(db, i, urlEntity.Snapshot());
        var _ := urlRepository.Save(urlEntity);
        reply := Reply(Http.Found, Some(originalUrl), NoBody);
      } else {
        reply := NotFoundReply();
      }
    }

    method DeleteUrl(shortCode: string) returns (reply: Reply)
      requires Valid()
      modifies urlRepository
      ensures Valid()
      ensures (reply, urlRepository.State()) == Delete(old(urlRepository.State()), shortCode)
    {
      var urlEntity := urlRepository.FindByShortCode(shortCode);
      if urlEntity != null {
        urlRepository.DeleteByShortCode(shortCode);
        reply := Reply(Http.NoContent, None, NoBody);
      } else {
        reply := NotFoundReply();
      }
    }

    /** Reads the store and changes nothing. */
    method GetUrlStats(shortCode: string) returns (reply: Reply)
      ensures (reply, urlRepository.State()) == Stats(urlRepository.State(), shortCode)
    {
      var urlEntity := urlRepository.FindByShortCode(shortCode);
      if urlEntity != null {
        reply := Reply(Http.Ok, None, Statistics(StatsResponse(
          urlEntity.id.value, urlEntity.originalUrl.value, urlEntity.shortCode.value,
          urlEntity.createdAt.value, urlEntity.updatedAt.value,
          if urlEntity.accessCount.Some? then urlEntity.accessCount.value else 0)));
      } else {
        reply := NotFoundReply();
      }
    }
  }
}
