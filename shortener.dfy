/**
 * The controller `UrlShortenerApplication`: input validation, lazy expiry and
 * the five request handlers over the record store. Each handler is specified by
 * a function from the store before the request to the reply and the store after
 * it; the class's methods run the source's steps on entities and the store and
 * are proved to agree with those functions.
 */
module Shortener {
  import opened Options
  import opened JavaLang
  import opened Entity
  import opened Repository
  import opened ShortCodes
  import Http

  /** The longest URL accepted, in UTF-16 code units after trimming. */
  const MaxUrlLength: nat := 2048

  // ---------------------------------------------------------------------------
  // Expiry

  /** `isUrlExpired`: a record expires once the clock is strictly past its
      expiry; a record without expiry never does. */
  predicate IsUrlExpired(expiresAt: Option<Time>, now: Time)
  {
    expiresAt.Some? && now > expiresAt.value
  }

  lemma ExpiryRules(expiresAt: Option<Time>, now: Time, later: Time)
    ensures expiresAt.None? ==> !IsUrlExpired(expiresAt, now)
    ensures expiresAt == Some(now) ==> !IsUrlExpired(expiresAt, now)
    ensures IsUrlExpired(expiresAt, now) && now <= later ==> IsUrlExpired(expiresAt, later)
  {
  }

  // ---------------------------------------------------------------------------
  // Validation

  /** What `new URI(s)` gives: a syntax error with its reason, or the scheme
      and host it found (each possibly null). The parser itself is a parameter. */
  datatype UriParse = SyntaxError(reason: string) | Parsed(scheme: Option<string>, host: Option<string>)

  datatype ValidationError =
    | Blank
    | TooLong
    | InvalidFormat(reason: string)
    | MissingScheme
    | UnsupportedScheme
    | MissingHost

  datatype Verdict = Pass | Fail(error: ValidationError)

  /** The message of the `IllegalArgumentException` for each error. */
  function Message(e: ValidationError): string
  {
    match e
    case Blank => "URL cannot be null or empty"
    case TooLong => "URL is too long (maximum 2048 characters)"
    case InvalidFormat(reason) => "Invalid URL format: " + reason
    case MissingScheme => "URL must include a protocol (http:// or https://)"
    case UnsupportedScheme => "Only HTTP and HTTPS URLs are supported"
    case MissingHost => "URL must include a valid host"
  }

  predicate IsWebScheme(scheme: string)
  {
    ToLowerCase(scheme) == "http" || ToLowerCase(scheme) == "https"
  }

  /** The errors raised only once blankness and length have been checked. */
  predicate IsUriError(e: ValidationError)
  {
    e.InvalidFormat? || e.MissingScheme? || e.UnsupportedScheme? || e.MissingHost?
  }

  /** A URL that gets past the blankness and length checks. */
  predicate WithinLimits(url: Option<string>)
  {
    url.Some? && !AllTrimmable(url.value) && Length(Trim(url.value)) <= MaxUrlLength
  }

  /** The URLs the service accepts, stated all at once: present, not only
      whitespace, at most 2048 code units once trimmed, and parsing to an http
      or https scheme (in any case) with a non-empty host. */
  predicate Acceptable(url: Option<string>, parse: string -> UriParse)
  {
    && url.Some?
    && !AllTrimmable(url.value)
    && Length(Trim(url.value)) <= MaxUrlLength
    && var uri := parse(Trim(url.value));
       && uri.Parsed? && uri.scheme.Some? && IsWebScheme(uri.scheme.value)
       && uri.host.Some? && uri.host.value != []
  }

  /** `validateUrl`: the checks in the source's order, the first failing one
      deciding the error. */
  function ValidateUrl(url: Option<string>, parse: string -> UriParse): (r: Verdict)
    ensures r.Pass? <==> Acceptable(url, parse)
    ensures r == Fail(Blank) <==> url.None? || AllTrimmable(url.value)
    ensures r == Fail(TooLong) <==>
              url.Some? && !AllTrimmable(url.value) && Length(Trim(url.value)) > MaxUrlLength
    ensures r.Fail? && IsUriError(r.error) ==> WithinLimits(url)
    ensures (r.Fail? && r.error.InvalidFormat?) <==> WithinLimits(url) && parse(Trim(url.value)).SyntaxError?
    ensures r.Fail? && r.error.InvalidFormat? ==> r.error.reason == parse(Trim(url.value)).reason
    ensures r == Fail(MissingScheme) <==>
              WithinLimits(url) && parse(Trim(url.value)).Parsed? && parse(Trim(url.value)).scheme.None?
    ensures r == Fail(UnsupportedScheme) <==>
              && WithinLimits(url) && parse(Trim(url.value)).Parsed? && parse(Trim(url.value)).scheme.Some?
              && !IsWebScheme(parse(Trim(url.value)).scheme.value)
    ensures r == Fail(MissingHost) <==>
              && WithinLimits(url) && parse(Trim(url.value)).Parsed? && parse(Trim(url.value)).scheme.Some?
              && IsWebScheme(parse(Trim(url.value)).scheme.value)
              && (parse(Trim(url.value)).host.None? || parse(Trim(url.value)).host.value == [])
  {
    if url.None? then Fail(Blank)
    else
      TrimEmpty(url.value);
      CheckTrimmed(Trim(url.value), parse)
  }

  /** The checks `validateUrl` makes once the URL is trimmed, in its order. */
  function CheckTrimmed(cleanUrl: string, parse: string -> UriParse): (r: Verdict)
    ensures r == Fail(Blank) <==> cleanUrl == []
    ensures r == Fail(TooLong) <==> cleanUrl != [] && Length(cleanUrl) > MaxUrlLength
    ensures r.Fail? && IsUriError(r.error) ==> cleanUrl != [] && Length(cleanUrl) <= MaxUrlLength
    ensures (r.Fail? && r.error.InvalidFormat?) <==>
              cleanUrl != [] && Length(cleanUrl) <= MaxUrlLength && parse(cleanUrl).SyntaxError?
    ensures r.Fail? && r.error.InvalidFormat? ==> r.error.reason == parse(cleanUrl).reason
    ensures r == Fail(MissingScheme) <==>
              cleanUrl != [] && Length(cleanUrl) <= MaxUrlLength && parse(cleanUrl).Parsed? && parse(cleanUrl).scheme.None?
    ensures r == Fail(UnsupportedScheme) <==>
              && cleanUrl != [] && Length(cleanUrl) <= MaxUrlLength && parse(cleanUrl).Parsed?
              && parse(cleanUrl).scheme.Some? && !IsWebScheme(parse(cleanUrl).scheme.value)
    ensures r == Fail(MissingHost) <==>
              && cleanUrl != [] && Length(cleanUrl) <= MaxUrlLength && parse(cleanUrl).Parsed?
              && parse(cleanUrl).scheme.Some? && IsWebScheme(parse(cleanUrl).scheme.value)
              && (parse(cleanUrl).host.None? || parse(cleanUrl).host.value == [])
  {
    if cleanUrl == [] then Fail(Blank)
    else if Length(cleanUrl) > MaxUrlLength then Fail(TooLong)
    else match parse(cleanUrl)
      case SyntaxError(reason) => Fail(InvalidFormat(reason))
      case Parsed(scheme, host) =>
        if scheme.None? then Fail(MissingScheme)
        else if !IsWebScheme(scheme.value) then Fail(UnsupportedScheme)
        else if host.None? || host.value == [] then Fail(MissingHost)
        else Pass
  }

  /** Whitespace around a URL never changes the verdict. */
  lemma ValidationIgnoresPadding(p: string, url: string, q: string, parse: string -> UriParse)
    requires AllTrimmable(p) && AllTrimmable(q) && IsTrimmed(url)
    ensures ValidateUrl(Some(p + url + q), parse) == ValidateUrl(Some(url), parse)
  {
    TrimOfPadded(p, url, q);
    assert [] + url + [] == url;
    TrimOfPadded([], url, []);
  }

  /** The limit is 2048 UTF-16 code units, inclusive: a trimmed URL one unit
      longer is refused as too long, one within it is at least not refused for
      blankness or length. */
  lemma LengthLimit(url: string, parse: string -> UriParse)
    requires IsTrimmed(url) && url != []
    ensures Length(url) > MaxUrlLength ==> ValidateUrl(Some(url), parse) == Fail(TooLong)
    ensures Length(url) <= MaxUrlLength ==>
              ValidateUrl(Some(url), parse) != Fail(TooLong) && ValidateUrl(Some(url), parse) != Fail(Blank)
  {
    assert [] + url + [] == url;
    TrimOfPadded([], url, []);
  }

  /** The scheme test is `equalsIgnoreCase` against "http" and "https". */
  lemma SchemeIgnoresCase(scheme: string)
    ensures IsWebScheme(scheme) <==> EqualsIgnoreAsciiCase(scheme, "http") || EqualsIgnoreAsciiCase(scheme, "https")
  {
    ToLowerCaseIs(scheme, "http");
    ToLowerCaseIs(scheme, "https");
  }

  /** The scheme test ignores case and admits only http and https. */
  lemma SchemeExamples()
    ensures IsWebScheme("http") && IsWebScheme("HTTP") && IsWebScheme("Https")
    ensures !IsWebScheme("ftp") && !IsWebScheme("file") && !IsWebScheme("httpx")
  {
    assert ToLowerCase("http") == "http";
    assert ToLowerCase("HTTP") == "http";
    assert ToLowerCase("Https") == "https";
    assert ToLowerCase("file")[0] == 'f';
    assert ToLowerCase("httpx")[4] == 'x';
  }

  // ---------------------------------------------------------------------------
  // Replies

  datatype ShortenResponse = ShortenResponse(
    id: Id, url: string, shortCode: string, createdAt: Time, updatedAt: Time, expiresAt: Option<Time>)

  datatype StatsResponse = StatsResponse(
    id: Id, originalUrl: string, shortCode: string, createdAt: Time, updatedAt: Time,
    expiresAt: Option<Time>, accessCount: nat)

  datatype ErrorResponse = ErrorResponse(error: string, message: string)

  datatype Body = NoBody | Shortened(shortened: ShortenResponse) | Statistics(stats: StatsResponse) | Problem(problem: ErrorResponse)

  /** Status, the Location header if any, and the body. */
  datatype Reply = Reply(status: nat, location: Option<string>, body: Body)

  function NotFoundReply(): Reply
  {
    Reply(Http.NotFound, None, NoBody)
  }

  function InvalidReply(e: ValidationError): Reply
  {
    Reply(Http.BadRequest, None, Problem(ErrorResponse("Validation Error", Message(e))))
  }

  function ShortenReply(status: nat, d: Document, url: string): Reply
  {
    Reply(status, None, Shortened(ShortenResponse(d.id, url, Http.RedirectBase + d.shortCode, d.createdAt, d.updatedAt, d.expiresAt)))
  }

  // ---------------------------------------------------------------------------
  // The handlers, as functions of the store

  /** POST /api/shorten: validate, then store the trimmed URL. */
  function Shorten(db: Db, longUrl: string, now: Time, expiresAt: Option<Time>, parse: string -> UriParse): (Reply, Db)
  {
    match ValidateUrl(Some(longUrl), parse)
    case Fail(e) => (InvalidReply(e), db)
    case Pass => StoreUrl(db, Trim(longUrl), now, expiresAt)
  }

  /** The part of POST /api/shorten after validation: answer with the live record
      for the URL if there is one; otherwise drop an expired record for it and
      create a new one. */
  function StoreUrl(db: Db, cleanUrl: string, now: Time, expiresAt: Option<Time>): (Reply, Db)
  {
    var found := IndexOfUrl(db.documents, cleanUrl);
    if found.Some? && !IsUrlExpired(db.documents[found.value].expiresAt, now) then
      var d := db.documents[found.value].(updatedAt := now);
      (ShortenReply(Http.Ok, d, cleanUrl), db.(documents := db.documents[found.value := d]))
    else
      var kept := if found.Some? then Without(db.documents, found.value) else db.documents;
      var d := Document(db.nextId, cleanUrl, UniqueShortCode(cleanUrl, Codes(kept)), now, now, expiresAt, None);
      (ShortenReply(Http.Created, d, cleanUrl), Db(kept + [d], db.nextId + 1))
  }

  /** GET /api/{shortCode}. */
  function Redirect(db: Db, shortCode: string, now: Time): (Reply, Db)
  {
    match IndexOfCode(db.documents, shortCode)
    case None => (NotFoundReply(), db)
    case Some(i) =>
      var d := db.documents[i];
      if IsUrlExpired(d.expiresAt, now) then (NotFoundReply(), db.(documents := Without(db.documents, i)))
      else (Reply(Http.Found, Some(d.originalUrl), NoBody), db.(documents := db.documents[i := Accessed(d)]))
  }

  /** PUT /api/shorten/{shortCode}: validate, then rewrite the record. */
  function Update(db: Db, shortCode: string, newLongUrl: string, now: Time, parse: string -> UriParse): (Reply, Db)
  {
    match ValidateUrl(Some(newLongUrl), parse)
    case Fail(e) => (InvalidReply(e), db)
    case Pass => Rewrite(db, shortCode, Trim(newLongUrl), now)
  }

  /** The part of PUT /api/shorten/{shortCode} after validation. */
  function Rewrite(db: Db, shortCode: string, cleanUrl: string, now: Time): (Reply, Db)
  {
    match IndexOfCode(db.documents, shortCode)
    case None => (NotFoundReply(), db)
    case Some(i) =>
      if IsUrlExpired(db.documents[i].expiresAt, now) then (NotFoundReply(), db)
      else
        var d := db.documents[i].(originalUrl := cleanUrl, updatedAt := now);
        (ShortenReply(Http.Ok, d, cleanUrl), db.(documents := db.documents[i := d]))
  }

  /** DELETE /api/shorten/{shortCode}. */
  function Delete(db: Db, shortCode: string): (Reply, Db)
  {
    match IndexOfCode(db.documents, shortCode)
    case None => (NotFoundReply(), db)
    case Some(_) => (Reply(Http.NoContent, None, NoBody), db.(documents := RemoveCode(db.documents, shortCode)))
  }

  function StatsOf(d: Document): StatsResponse
  {
    StatsResponse(d.id, d.originalUrl, d.shortCode, d.createdAt, d.updatedAt, d.expiresAt, CountOf(d.accessCount))
  }

  /** GET /api/shorten/{shortCode}/stats. */
  function Stats(db: Db, shortCode: string, now: Time): (Reply, Db)
  {
    match IndexOfCode(db.documents, shortCode)
    case None => (NotFoundReply(), db)
    case Some(i) =>
      var d := db.documents[i];
      if IsUrlExpired(d.expiresAt, now) then (NotFoundReply(), db.(documents := Without(db.documents, i)))
      else (Reply(Http.Ok, None, Statistics(StatsOf(d))), db)
  }

  // ---------------------------------------------------------------------------
  // Properties of the handlers

  /** Storing a URL that has a live record answers 200 with that record; only
      its updatedAt changes and nothing is added. */
  lemma StoreReturnsLive(db: Db, cleanUrl: string, now: Time, expiresAt: Option<Time>, i: nat)
    requires IndexOfUrl(db.documents, cleanUrl) == Some(i)
    requires !IsUrlExpired(db.documents[i].expiresAt, now)
    ensures var d := db.documents[i].(updatedAt := now);
            StoreUrl(db, cleanUrl, now, expiresAt)
            == (ShortenReply(Http.Ok, d, cleanUrl), db.(documents := db.documents[i := d]))
  {
  }

  /** The records that survive the first step of a shorten request that creates
      a record: all of them, less an expired record with the same URL. */
  function Surviving(db: Db, cleanUrl: string): seq<Document>
  {
    match IndexOfUrl(db.documents, cleanUrl)
    case None => db.documents
    case Some(i) => Without(db.documents, i)
  }

  /** Storing a URL with no live record appends exactly one new record, under
      the next id, with a code no surviving record has, no accesses and both
      timestamps `now`, and answers 201 with it. */
  lemma StoreCreates(db: Db, cleanUrl: string, now: Time, expiresAt: Option<Time>)
    requires var found := IndexOfUrl(db.documents, cleanUrl);
             found.None? || IsUrlExpired(db.documents[found.value].expiresAt, now)
    ensures var kept := Surviving(db, cleanUrl);
            var code := UniqueShortCode(cleanUrl, Codes(kept));
            var d := Document(db.nextId, cleanUrl, code, now, now, expiresAt, None);
            && code !in Codes(kept)
            && StoreUrl(db, cleanUrl, now, expiresAt)
               == (ShortenReply(Http.Created, d, cleanUrl), Db(kept + [d], db.nextId + 1))
  {
    var found := IndexOfUrl(db.documents, cleanUrl);
    var kept := Surviving(db, cleanUrl);
    var code := UniqueShortCode(cleanUrl, Codes(kept));
    var d := Document(db.nextId, cleanUrl, code, now, now, expiresAt, None);
    if found.Some? {
      assert kept == Without(db.documents, found.value);
    } else {
      assert kept == db.documents;
    }
    assert StoreUrl(db, cleanUrl, now, expiresAt) == (ShortenReply(Http.Created, d, cleanUrl), Db(kept + [d], db.nextId + 1));
  }

  /** Invalid input is answered 400 with the validator's message, and the
      store is left as it was. */
  lemma ShortenRejectsInvalid(db: Db, longUrl: string, now: Time, expiresAt: Option<Time>, parse: string -> UriParse)
    requires ValidateUrl(Some(longUrl), parse).Fail?
    ensures var (reply, after) := Shorten(db, longUrl, now, expiresAt, parse);
            && reply.status == Http.BadRequest && after == db
            && reply.body == Problem(ErrorResponse("Validation Error", Message(ValidateUrl(Some(longUrl), parse).error)))
  {
  }

  lemma StoreKeepsConsistent(db: Db, cleanUrl: string, now: Time, expiresAt: Option<Time>)
    requires Consistent(db)
    ensures Consistent(StoreUrl(db, cleanUrl, now, expiresAt).1)
  {
    var found := IndexOfUrl(db.documents, cleanUrl);
    if found.Some? && !IsUrlExpired(db.documents[found.value].expiresAt, now) {
      StoreReturnsLive(db, cleanUrl, now, expiresAt, found.value);
      ReplaceKeepsConsistent(db, found.value, db.documents[found.value].(updatedAt := now));
    } else {
      StoreCreates(db, cleanUrl, now, expiresAt);
      var kept := Surviving(db, cleanUrl);
      if found.Some? {
        WithoutKeepsConsistent(db, found.value);
      }
      var code := UniqueShortCode(cleanUrl, Codes(kept));
      AppendKeepsConsistent(db.(documents := kept), Document(db.nextId, cleanUrl, code, now, now, expiresAt, None));
    }
  }

  /** Shortening never makes two records share a code or an id. */
  lemma ShortenKeepsConsistent(db: Db, longUrl: string, now: Time, expiresAt: Option<Time>, parse: string -> UriParse)
    requires Consistent(db)
    ensures Consistent(Shorten(db, longUrl, now, expiresAt, parse).1)
  {
    if ValidateUrl(Some(longUrl), parse).Pass? {
      StoreKeepsConsistent(db, Trim(longUrl), now, expiresAt);
    }
  }

  /** No two records have the same original URL. */
  predicate UrlsUnique(docs: seq<Document>)
  {
    forall i, j :: 0 <= i < j < |docs| ==> docs[i].originalUrl != docs[j].originalUrl
  }

  /** No surviving record of a creating shorten has the URL being shortened. */
  lemma SurvivingLacksUrl(db: Db, cleanUrl: string)
    requires UrlsUnique(db.documents)
    ensures UrlsUnique(Surviving(db, cleanUrl))
    ensures forall j :: 0 <= j < |Surviving(db, cleanUrl)| ==> Surviving(db, cleanUrl)[j].originalUrl != cleanUrl
  {
    if IndexOfUrl(db.documents, cleanUrl).Some? {
      WithoutIndex(db.documents, IndexOfUrl(db.documents, cleanUrl).value);
    }
  }

  /** Shortening alone never creates two records for one URL. */
  lemma ShortenKeepsUrlsUnique(db: Db, longUrl: string, now: Time, expiresAt: Option<Time>, parse: string -> UriParse)
    requires UrlsUnique(db.documents)
    ensures UrlsUnique(Shorten(db, longUrl, now, expiresAt, parse).1.documents)
  {
    if ValidateUrl(Some(longUrl), parse).Pass? {
      var cleanUrl := Trim(longUrl);
      var found := IndexOfUrl(db.documents, cleanUrl);
      if found.Some? && !IsUrlExpired(db.documents[found.value].expiresAt, now) {
        StoreReturnsLive(db, cleanUrl, now, expiresAt, found.value);
      } else {
        StoreCreates(db, cleanUrl, now, expiresAt);
        SurvivingLacksUrl(db, cleanUrl);
      }
    }
  }

  /** After storing a URL, a lookup by that URL finds the record the reply was
      built from. */
  lemma StoreFindsAgain(db: Db, cleanUrl: string, now: Time, expiresAt: Option<Time>)
    requires UrlsUnique(db.documents)
    ensures var (first, after) := StoreUrl(db, cleanUrl, now, expiresAt);
            var found := IndexOfUrl(after.documents, cleanUrl);
            && first.status in {Http.Ok, Http.Created}
            && found.Some?
            && first == ShortenReply(first.status, after.documents[found.value], cleanUrl)
  {
    var found := IndexOfUrl(db.documents, cleanUrl);
    if found.Some? && !IsUrlExpired(db.documents[found.value].expiresAt, now) {
      var i := found.value;
      var d := db.documents[i].(updatedAt := now);
      StoreReturnsLive(db, cleanUrl, now, expiresAt, i);
      IndexOfUrlIs(db.documents[i := d], cleanUrl, i);
    } else {
      StoreCreates(db, cleanUrl, now, expiresAt);
      var kept := Surviving(db, cleanUrl);
      SurvivingLacksUrl(db, cleanUrl);
      var d := Document(db.nextId, cleanUrl, UniqueShortCode(cleanUrl, Codes(kept)), now, now, expiresAt, None);
      IndexOfUrlIs(kept + [d], cleanUrl, |kept|);
    }
  }

  /** Shortening the same URL again while its record is live answers 200 with
      the same short code and adds no record (duplicate creation is idempotent). */
  lemma ShortenIdempotent(db: Db, longUrl: string, now: Time, later: Time, expiresAt: Option<Time>, parse: string -> UriParse)
    requires UrlsUnique(db.documents)
    requires ValidateUrl(Some(longUrl), parse).Pass?
    requires var after := Shorten(db, longUrl, now, expiresAt, parse).1;
             forall j :: (0 <= j < |after.documents| && after.documents[j].originalUrl == Trim(longUrl))
                           ==> !IsUrlExpired(after.documents[j].expiresAt, later)
    ensures var (first, after) := Shorten(db, longUrl, now, expiresAt, parse);
            var (second, final) := Shorten(after, longUrl, later, expiresAt, parse);
            && first.status in {Http.Ok, Http.Created}
            && second.status == Http.Ok
            && second.body.shortened.shortCode == first.body.shortened.shortCode
            && |final.documents| == |after.documents|
  {
    var cleanUrl := Trim(longUrl);
    StoreFindsAgain(db, cleanUrl, now, expiresAt);
    var after := StoreUrl(db, cleanUrl, now, expiresAt).1;
    var i := IndexOfUrl(after.documents, cleanUrl).value;
    StoreReturnsLive(after, cleanUrl, later, expiresAt, i);
  }

  /** A redirect on a live code answers 302 to the stored URL and adds exactly
      one to its access count (an absent count becoming 1); nothing else in the
      store changes. */
  lemma RedirectCountsAccess(db: Db, shortCode: string, now: Time, i: nat)
    requires IndexOfCode(db.documents, shortCode) == Some(i)
    requires !IsUrlExpired(db.documents[i].expiresAt, now)
    ensures var (reply, after) := Redirect(db, shortCode, now);
            && reply == Reply(Http.Found, Some(db.documents[i].originalUrl), NoBody)
            && after.nextId == db.nextId && |after.documents| == |db.documents|
            && after.documents[i].accessCount == Some(CountOf(db.documents[i].accessCount) + 1)
            && after.documents[i].(accessCount := None) == db.documents[i].(accessCount := None)
            && forall j :: 0 <= j < |db.documents| && j != i ==> after.documents[j] == db.documents[j]
  {
  }

  /** A code that no record has is answered 404 by redirect, stats, delete and a
      valid update, and the store is unchanged; an invalid update is answered
      400 first. */
  lemma UnknownCode(db: Db, shortCode: string, newLongUrl: string, now: Time, parse: string -> UriParse)
    requires shortCode !in Codes(db.documents)
    ensures Redirect(db, shortCode, now) == (NotFoundReply(), db)
    ensures Stats(db, shortCode, now) == (NotFoundReply(), db)
    ensures Delete(db, shortCode) == (NotFoundReply(), db)
    ensures ValidateUrl(Some(newLongUrl), parse).Pass? ==> Update(db, shortCode, newLongUrl, now, parse) == (NotFoundReply(), db)
    ensures ValidateUrl(Some(newLongUrl), parse).Fail? ==>
              Update(db, shortCode, newLongUrl, now, parse) == (InvalidReply(ValidateUrl(Some(newLongUrl), parse).error), db)
  {
    CodesMembership(db.documents, shortCode);
  }

  /** Expiry gating: once a record has expired, redirect, stats and a valid update
      all answer 404; redirect and stats delete the record so that its code is
      free again (when codes are unique), while update leaves the store as it was. */
  lemma ExpiredCodeIsGone(db: Db, shortCode: string, newLongUrl: string, now: Time, parse: string -> UriParse, i: nat)
    requires IndexOfCode(db.documents, shortCode) == Some(i)
    requires IsUrlExpired(db.documents[i].expiresAt, now)
    ensures Redirect(db, shortCode, now).0 == NotFoundReply()
    ensures Redirect(db, shortCode, now).1 == db.(documents := Without(db.documents, i))
    ensures CodesUnique(db.documents) ==> shortCode !in Codes(Redirect(db, shortCode, now).1.documents)
    ensures Stats(db, shortCode, now) == Redirect(db, shortCode, now)
    ensures ValidateUrl(Some(newLongUrl), parse).Pass? ==> Update(db, shortCode, newLongUrl, now, parse) == (NotFoundReply(), db)
  {
    if CodesUnique(db.documents) {
      CodeFreedByRemoval(db.documents, i);
    }
  }

  /** The store after a series of redirects to one code at the given times. */
  function RedirectAll(db: Db, shortCode: string, times: seq<Time>): Db
    decreases |times|
  {
    if times == [] then db else RedirectAll(Redirect(db, shortCode, times[0]).1, shortCode, times[1..])
  }

  /** N redirects to a live code raise its access count by exactly N and change
      nothing else about the record. */
  lemma {:induction false} RedirectsCount(db: Db, shortCode: string, times: seq<Time>, i: nat)
    requires IndexOfCode(db.documents, shortCode) == Some(i)
    requires forall k :: 0 <= k < |times| ==> !IsUrlExpired(db.documents[i].expiresAt, times[k])
    decreases |times|
    ensures var after := RedirectAll(db, shortCode, times);
            && |after.documents| == |db.documents|
            && IndexOfCode(after.documents, shortCode) == Some(i)
            && CountOf(after.documents[i].accessCount) == CountOf(db.documents[i].accessCount) + |times|
            && after.documents[i].(accessCount := None) == db.documents[i].(accessCount := None)
  {
    if times != [] {
      var next := Redirect(db, shortCode, times[0]).1;
      RedirectCountsAccess(db, shortCode, times[0], i);
      assert IndexOfCode(next.documents, shortCode) == Some(i);
      RedirectsCount(next, shortCode, times[1..], i);
    }
  }

  /** Update checks its input before looking the code up, so invalid input is
      answered 400 even for an unknown code, and the store is unchanged. */
  lemma UpdateValidatesFirst(db: Db, shortCode: string, newLongUrl: string, now: Time, parse: string -> UriParse)
    requires ValidateUrl(Some(newLongUrl), parse).Fail?
    ensures Update(db, shortCode, newLongUrl, now, parse)
            == (InvalidReply(ValidateUrl(Some(newLongUrl), parse).error), db)
  {
  }

  /** Updating a live code replaces its original URL by the trimmed new one and
      refreshes updatedAt; id, code, creation time, expiry and access count are
      kept, and every other record is untouched. */
  lemma UpdateChangesOnlyUrl(db: Db, shortCode: string, newLongUrl: string, now: Time, parse: string -> UriParse, i: nat)
    requires ValidateUrl(Some(newLongUrl), parse).Pass?
    requires IndexOfCode(db.documents, shortCode) == Some(i)
    requires !IsUrlExpired(db.documents[i].expiresAt, now)
    ensures var (reply, after) := Update(db, shortCode, newLongUrl, now, parse);
            var d, e := db.documents[i], after.documents[i];
            && reply.status == Http.Ok
            && reply.body.shortened.url == Trim(newLongUrl)
            && reply.body.shortened.shortCode == Http.RedirectBase + shortCode
            && after.nextId == db.nextId && |after.documents| == |db.documents|
            && e.originalUrl == Trim(newLongUrl) && e.updatedAt == now
            && e.id == d.id && e.shortCode == d.shortCode && e.createdAt == d.createdAt
            && e.expiresAt == d.expiresAt && e.accessCount == d.accessCount
            && forall j :: 0 <= j < |db.documents| && j != i ==> after.documents[j] == db.documents[j]
  {
  }

  /** Deleting a code in use answers 204, expired or not, and removes every
      record with that code and no other; an unknown code is answered 404. */
  lemma DeleteRemovesCode(db: Db, shortCode: string)
    ensures var (reply, after) := Delete(db, shortCode);
            && (shortCode !in Codes(db.documents) ==> reply == NotFoundReply() && after == db)
            && (shortCode in Codes(db.documents) ==>
                  && reply == Reply(Http.NoContent, None, NoBody)
                  && shortCode !in Codes(after.documents)
                  && after.nextId == db.nextId
                  && forall d :: d in after.documents <==> d in db.documents && d.shortCode != shortCode)
  {
    CodesMembership(db.documents, shortCode);
    RemoveCodeMembership(db.documents, shortCode);
    var after := RemoveCode(db.documents, shortCode);
    CodesMembership(after, shortCode);
  }

  /** With unique codes, deleting removes exactly the record that had the code. */
  lemma DeleteRemovesOneRecord(db: Db, shortCode: string, i: nat)
    requires CodesUnique(db.documents)
    requires IndexOfCode(db.documents, shortCode) == Some(i)
    ensures Delete(db, shortCode).1 == db.(documents := Without(db.documents, i))
  {
    RemoveUniqueCode(db.documents, i);
  }

  /** Stats on a live code answers 200 with the record's fields, an absent
      access count reported as 0, and leave the store unchanged. */
  lemma StatsReadOnly(db: Db, shortCode: string, now: Time, i: nat)
    requires IndexOfCode(db.documents, shortCode) == Some(i)
    requires !IsUrlExpired(db.documents[i].expiresAt, now)
    ensures var (reply, after) := Stats(db, shortCode, now);
            var d := db.documents[i];
            && after == db && reply.status == Http.Ok
            && reply.body.stats == StatsResponse(d.id, d.originalUrl, d.shortCode, d.createdAt,
                                                 d.updatedAt, d.expiresAt, CountOf(d.accessCount))
            && (d.accessCount.None? ==> reply.body.stats.accessCount == 0)
  {
  }

  lemma RedirectKeepsConsistent(db: Db, shortCode: string, now: Time)
    requires Consistent(db)
    ensures Consistent(Redirect(db, shortCode, now).1)
  {
    var found := IndexOfCode(db.documents, shortCode);
    if found.Some? && IsUrlExpired(db.documents[found.value].expiresAt, now) {
      WithoutKeepsConsistent(db, found.value);
    }
  }

  lemma UpdateKeepsConsistent(db: Db, shortCode: string, newLongUrl: string, now: Time, parse: string -> UriParse)
    requires Consistent(db)
    ensures Consistent(Update(db, shortCode, newLongUrl, now, parse).1)
  {
    if ValidateUrl(Some(newLongUrl), parse).Pass? {
      var found := IndexOfCode(db.documents, shortCode);
      if found.Some? && !IsUrlExpired(db.documents[found.value].expiresAt, now) {
        var i := found.value;
        ReplaceKeepsConsistent(db, i, db.documents[i].(originalUrl := Trim(newLongUrl), updatedAt := now));
      }
    }
  }

  lemma DeleteKeepsConsistent(db: Db, shortCode: string)
    requires Consistent(db)
    ensures Consistent(Delete(db, shortCode).1)
  {
    RemoveCodeKeepsIds(db.documents, shortCode);
    RemoveCodeKeepsCodes(db.documents, shortCode);
    RemoveCodeMembership(db.documents, shortCode);
  }

  lemma StatsKeepsConsistent(db: Db, shortCode: string, now: Time)
    requires Consistent(db)
    ensures Consistent(Stats(db, shortCode, now).1)
  {
    var found := IndexOfCode(db.documents, shortCode);
    if found.Some? && IsUrlExpired(db.documents[found.value].expiresAt, now) {
      WithoutKeepsConsistent(db, found.value);
    }
  }

  /** One request to the controller. */
  datatype Request =
    | ShortenRequest(longUrl: string, now: Time, expiresAt: Option<Time>)
    | RedirectRequest(shortCode: string, now: Time)
    | UpdateRequest(shortCode: string, newLongUrl: string, now: Time)
    | DeleteRequest(shortCode: string)
    | StatsRequest(shortCode: string, now: Time)

  function Handle(db: Db, request: Request, parse: string -> UriParse): (Reply, Db)
  {
    match request
    case ShortenRequest(longUrl, now, expiresAt) => Shorten(db, longUrl, now, expiresAt, parse)
    case RedirectRequest(shortCode, now) => Redirect(db, shortCode, now)
    case UpdateRequest(shortCode, newLongUrl, now) => Update(db, shortCode, newLongUrl, now, parse)
    case DeleteRequest(shortCode) => Delete(db, shortCode)
    case StatsRequest(shortCode, now) => Stats(db, shortCode, now)
  }

  /** The store after a series of requests, handled one after the other. */
  function Run(db: Db, requests: seq<Request>, parse: string -> UriParse): Db
    decreases |requests|
  {
    if requests == [] then db else Run(Handle(db, requests[0], parse).1, requests[1..], parse)
  }

  /** Uniqueness: whatever requests arrive, starting from an empty store no two
      records ever share a short code (or an id). */
  lemma {:induction false} RunKeepsConsistent(db: Db, requests: seq<Request>, parse: string -> UriParse)
    requires Consistent(db)
    ensures Consistent(Run(db, requests, parse))
    decreases |requests|
  {
    if requests != [] {
      var r := requests[0];
      match r {
        case ShortenRequest(longUrl, now, expiresAt) => ShortenKeepsConsistent(db, longUrl, now, expiresAt, parse);
        case RedirectRequest(shortCode, now) => RedirectKeepsConsistent(db, shortCode, now);
        case UpdateRequest(shortCode, newLongUrl, now) => UpdateKeepsConsistent(db, shortCode, newLongUrl, now, parse);
        case DeleteRequest(shortCode) => DeleteKeepsConsistent(db, shortCode);
        case StatsRequest(shortCode, now) => StatsKeepsConsistent(db, shortCode, now);
      }
      RunKeepsConsistent(Handle(db, r, parse).1, requests[1..], parse);
    }
  }

  /** A run from the empty store: create a URL (201, code = its base code), follow
      the short link (302 to the URL), read stats (one access), delete (204), and
      follow the link again (404). */
  lemma Scenario(longUrl: string, parse: string -> UriParse, expiresAt: Option<Time>, t0: Time, t1: Time, t2: Time, t3: Time)
    requires ValidateUrl(Some(longUrl), parse).Pass?
    requires !IsUrlExpired(expiresAt, t1) && !IsUrlExpired(expiresAt, t2)
    ensures var code := BaseCode(Trim(longUrl));
            var (r1, db1) := Shorten(Db([], 0), longUrl, t0, expiresAt, parse);
            var (r2, db2) := Redirect(db1, code, t1);
            var (r3, db3) := Stats(db2, code, t2);
            var (r4, db4) := Delete(db3, code);
            var (r5, db5) := Redirect(db4, code, t3);
            && r1.status == Http.Created && r1.body.shortened.shortCode == Http.RedirectBase + code
            && r2 == Reply(Http.Found, Some(Trim(longUrl)), NoBody)
            && r3.status == Http.Ok && r3.body.stats.accessCount == 1
            && r4.status == Http.NoContent
            && r5 == NotFoundReply() && db5.documents == []
  {
    var code := BaseCode(Trim(longUrl));
    assert Candidate(code, 0) !in {};
    assert UniqueShortCode(Trim(longUrl), {}) == code;
    StoreCreates(Db([], 0), Trim(longUrl), t0, expiresAt);
  }

  // ---------------------------------------------------------------------------
  // Formatting an absent expiry

  /** What `formatTimestamp` yields as written: the formatted time, or the
      NullPointerException it throws when handed null. */
  datatype Formatted = Formatted(time: Time) | NullPointerException

  function FormatTimestampAsWritten(t: Option<Time>): Formatted
  {
    if t.None? then NullPointerException else Formatted(t.value)
  }

  /** As written, the reply to a shorten formats the record's expiry
      unconditionally, so creating a record without expiry (one that, by
      `isUrlExpired`, never expires) throws instead of answering 201. */
  lemma CreateWithoutExpiryThrowsAsWritten(db: Db, longUrl: string, now: Time, parse: string -> UriParse)
    requires ValidateUrl(Some(longUrl), parse).Pass?
    requires IndexOfUrl(db.documents, Trim(longUrl)).None?
    ensures var reply := Shorten(db, longUrl, now, None, parse).0;
            && reply.status == Http.Created
            && FormatTimestampAsWritten(reply.body.shortened.expiresAt) == NullPointerException
  {
    StoreCreates(db, Trim(longUrl), now, None);
  }

  /** Likewise shortening a URL whose live record has no expiry throws
      instead of answering 200. */
  lemma DuplicateWithoutExpiryThrowsAsWritten(db: Db, longUrl: string, now: Time, expiresAt: Option<Time>,
                                              parse: string -> UriParse, i: nat)
    requires ValidateUrl(Some(longUrl), parse).Pass?
    requires IndexOfUrl(db.documents, Trim(longUrl)) == Some(i)
    requires db.documents[i].expiresAt.None?
    ensures var reply := Shorten(db, longUrl, now, expiresAt, parse).0;
            && reply.status == Http.Ok
            && FormatTimestampAsWritten(reply.body.shortened.expiresAt) == NullPointerException
  {
    StoreReturnsLive(db, Trim(longUrl), now, expiresAt, i);
  }

  /** Likewise a valid update of a record without expiry throws instead of
      answering 200. */
  lemma UpdateWithoutExpiryThrowsAsWritten(db: Db, shortCode: string, newLongUrl: string, now: Time,
                                           parse: string -> UriParse, i: nat)
    requires ValidateUrl(Some(newLongUrl), parse).Pass?
    requires IndexOfCode(db.documents, shortCode) == Some(i)
    requires db.documents[i].expiresAt.None?
    ensures var reply := Update(db, shortCode, newLongUrl, now, parse).0;
            && reply.status == Http.Ok
            && FormatTimestampAsWritten(reply.body.shortened.expiresAt) == NullPointerException
  {
  }

  /** Likewise stats on a live record without expiry throw instead of
      answering 200. */
  lemma StatsWithoutExpiryThrowsAsWritten(db: Db, shortCode: string, now: Time, i: nat)
    requires IndexOfCode(db.documents, shortCode) == Some(i)
    requires db.documents[i].expiresAt.None?
    ensures var reply := Stats(db, shortCode, now).0;
            && reply.status == Http.Ok
            && FormatTimestampAsWritten(reply.body.stats.expiresAt) == NullPointerException
  {
  }

  /** The model's replies carry the expiry as an optional value, so a valid
      shorten always answers 200 or 201 with the record, an absent expiry
      included, and that record is live at any later time. */
  lemma ShortenAlwaysAnswers(db: Db, longUrl: string, now: Time, later: Time, parse: string -> UriParse)
    requires UrlsUnique(db.documents)
    requires ValidateUrl(Some(longUrl), parse).Pass?
    ensures var (reply, after) := Shorten(db, longUrl, now, None, parse);
            var found := IndexOfUrl(after.documents, Trim(longUrl));
            && reply.status in {Http.Ok, Http.Created}
            && found.Some?
            && reply.body.shortened.expiresAt == after.documents[found.value].expiresAt
            && (reply.status == Http.Created ==> !IsUrlExpired(after.documents[found.value].expiresAt, later))
  {
    var cleanUrl := Trim(longUrl);
    StoreFindsAgain(db, cleanUrl, now, None);
    var found := IndexOfUrl(db.documents, cleanUrl);
    if !(found.Some? && !IsUrlExpired(db.documents[found.value].expiresAt, now)) {
      StoreCreates(db, cleanUrl, now, None);
    }
  }

  // ---------------------------------------------------------------------------
  // The controller

  class UrlShortenerApplication {
    const urlRepository: UrlRepository
    /** `new URI(...)`, left abstract. */
    const parseUri: string -> UriParse

    constructor (urlRepository: UrlRepository, parseUri: string -> UriParse)
      ensures this.urlRepository == urlRepository && this.parseUri == parseUri
    {
      this.urlRepository := urlRepository;
      this.parseUri := parseUri;
    }

    ghost predicate Valid()
      reads urlRepository
    {
      urlRepository.Valid()
    }

    /** `generateUniqueShortCode`: the least free candidate for `url`. */
    method GenerateUniqueShortCode(url: string) returns (shortCode: string)
      ensures shortCode !in Codes(urlRepository.documents)
      ensures shortCode == UniqueShortCode(url, Codes(urlRepository.documents))
    {
      shortCode := ShortCodes.GenerateUniqueShortCode(urlRepository, url);
    }

    method ShortenUrl(longUrl: string, now: Time, expiresAt: Option<Time>) returns (reply: Reply)
      requires Valid()
      modifies urlRepository
      ensures Valid()
      ensures (reply, urlRepository.State()) == Shorten(old(urlRepository.State()), longUrl, now, expiresAt, parseUri)
    {
      var verdict := ValidateUrl(Some(longUrl), parseUri);
      if verdict.Fail? {
        return InvalidReply(verdict.error);
      }
      var cleanUrl := Trim(longUrl);
      ghost var db := urlRepository.State();
      assert Shorten(db, longUrl, now, expiresAt, parseUri) == StoreUrl(db, cleanUrl, now, expiresAt);
      var existingUrl := urlRepository.FindByOriginalUrl(cleanUrl);
      if existingUrl != null {
        ghost var i := IndexOfUrl(db.documents, cleanUrl).value;
        if IsUrlExpired(existingUrl.expiresAt, now) {
          urlRepository.Delete(existingUrl);
          RemoveOwnId(db, i);
        } else {
          existingUrl.SetUpdatedAt(Some(now));
          PutExisting(db, i, existingUrl.Snapshot());
          var savedEntity := urlRepository.Save(existingUrl);
          reply := Reply(Http.Ok, None, Shortened(ShortenResponse(
            savedEntity.id.value, cleanUrl, Http.RedirectBase + savedEntity.shortCode.value,
            savedEntity.createdAt.value, savedEntity.updatedAt.value, savedEntity.expiresAt)));
          assert (reply, urlRepository.State()) == StoreUrl(db, cleanUrl, now, expiresAt) by {
            StoreReturnsLive(db, cleanUrl, now, expiresAt, i);
          }
          return;
        }
      }
      ghost var kept := urlRepository.State();
      assert kept.nextId == db.nextId;
      assert kept.documents == Surviving(db, cleanUrl);
      var shortCode := GenerateUniqueShortCode(cleanUrl);
      var urlEntity := new UrlEntity(cleanUrl, shortCode, now, expiresAt);
      PutNew(kept, urlEntity.Snapshot());
      var savedEntity := urlRepository.Save(urlEntity);
      ghost var d := Document(db.nextId, cleanUrl, shortCode, now, now, expiresAt, None);
      assert urlRepository.State() == Db(kept.documents + [d], db.nextId + 1);
      reply := Reply(Http.Created, None, Shortened(ShortenResponse(
        savedEntity.id.value, cleanUrl, Http.RedirectBase + shortCode,
        savedEntity.createdAt.value, savedEntity.updatedAt.value, savedEntity.expiresAt)));
      assert reply == ShortenReply(Http.Created, d, cleanUrl);
      assert (reply, urlRepository.State()) == StoreUrl(db, cleanUrl, now, expiresAt) by {
        StoreCreates(db, cleanUrl, now, expiresAt);
      }
    }

    method RedirectToOriginal(shortCode: string, now: Time) returns (reply: Reply)
      requires Valid()
      modifies urlRepository
      ensures Valid()
      ensures (reply, urlRepository.State()) == Redirect(old(urlRepository.State()), shortCode, now)
    {
      ghost var db := urlRepository.State();
      var urlEntity := urlRepository.FindByShortCode(shortCode);
      if urlEntity != null {
        ghost var i := IndexOfCode(db.documents, shortCode).value;
        if IsUrlExpired(urlEntity.expiresAt, now) {
          urlRepository.Delete(urlEntity);
          RemoveOwnId(db, i);
          return NotFoundReply();
        }
        var originalUrl := urlEntity.originalUrl.value;
        urlEntity.SetAccessCount(Some(if urlEntity.accessCount.Some? then urlEntity.accessCount.value + 1 else 1));
        PutExisting(db, i, urlEntity.Snapshot());
        var _ := urlRepository.Save(urlEntity);
        reply := Reply(Http.Found, Some(originalUrl), NoBody);
      } else {
        reply := NotFoundReply();
      }
    }

    method UpdateUrl(shortCode: string, newLongUrl: string, now: Time) returns (reply: Reply)
      requires Valid()
      modifies urlRepository
      ensures Valid()
      ensures (reply, urlRepository.State()) == Update(old(urlRepository.State()), shortCode, newLongUrl, now, parseUri)
    {
      var verdict := ValidateUrl(Some(newLongUrl), parseUri);
      if verdict.Fail? {
        return InvalidReply(verdict.error);
      }
      var cleanUrl := Trim(newLongUrl);
      ghost var db := urlRepository.State();
      var existingUrl := urlRepository.FindByShortCode(shortCode);
      if existingUrl != null {
        ghost var i := IndexOfCode(db.documents, shortCode).value;
        if IsUrlExpired(existingUrl.expiresAt, now) {
          return NotFoundReply();
        }
        existingUrl.SetOriginalUrl(Some(cleanUrl));
        existingUrl.SetUpdatedAt(Some(now));
        PutExisting(db, i, existingUrl.Snapshot());
        var savedEntity := urlRepository.Save(existingUrl);
        reply := Reply(Http.Ok, None, Shortened(ShortenResponse(
          savedEntity.id.value, cleanUrl, Http.RedirectBase + savedEntity.shortCode.value,
          savedEntity.createdAt.value, savedEntity.updatedAt.value, savedEntity.expiresAt)));
      } else {
        reply := NotFoundReply();
      }
    }

    method DeleteUrl(shortCode: string) returns (reply: Reply)
      requires Valid()
      modifies urlRepository
      ensures Valid()
      ensures (reply, urlRepository.State()) == Delete(old(urlRepository.State()), shortCode)
    {
      var urlEntity := urlRepository.FindByShortCode(shortCode);
      if urlEntity != null {
        // an expired record is deleted all the same
        urlRepository.DeleteByShortCode(shortCode);
        reply := Reply(Http.NoContent, None, NoBody);
      } else {
        reply := NotFoundReply();
      }
    }

    method GetUrlStats(shortCode: string, now: Time) returns (reply: Reply)
      requires Valid()
      modifies urlRepository
      ensures Valid()
      ensures (reply, urlRepository.State()) == Stats(old(urlRepository.State()), shortCode, now)
    {
      ghost var db := urlRepository.State();
      var urlEntity := urlRepository.FindByShortCode(shortCode);
      if urlEntity != null {
        ghost var i := IndexOfCode(db.documents, shortCode).value;
        if IsUrlExpired(urlEntity.expiresAt, now) {
          urlRepository.Delete(urlEntity);
          RemoveOwnId(db, i);
          return NotFoundReply();
        }
        reply := Reply(Http.Ok, None, Statistics(StatsResponse(
          urlEntity.id.value, urlEntity.originalUrl.value, urlEntity.shortCode.value,
          urlEntity.createdAt.value, urlEntity.updatedAt.value, urlEntity.expiresAt,
          if urlEntity.accessCount.Some? then urlEntity.accessCount.value else 0)));
      } else {
        reply := NotFoundReply();
      }
    }
  }
}
