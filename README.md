# URL shortener, modelled in Dafny

A model of the core of a Spring Boot URL-shortening service backed by MongoDB.
The service turns a long URL into a short code and stores one record per URL:
original URL, short code, creation and update times, an optional expiry and an
access count. It then serves five requests on a code:

- create or look up (`POST /api/shorten`);
- redirect (`GET /api/{shortCode}`), which counts the access;
- update the target (`PUT /api/shorten/{shortCode}`);
- delete (`DELETE /api/shorten/{shortCode}`);
- statistics (`GET /api/shorten/{shortCode}/stats`).

The repository holds two controllers for these requests, and both are modelled:

- `UrlShortenerApplication` (module `Shortener`, file `shortener.dfy`). It
  validates the URL and treats expired records lazily, when a request finds
  one. Shortening a URL whose record has expired deletes that record and
  creates a new one (201). Redirect and stats answer 404 and delete the record.
  Update answers 404 and keeps the record. Delete removes it and answers 204,
  as for any record.
- `ApplicationLogic` (module `Logic`, file `logic.dfy`). This is the earlier
  variant, with no validation and no expiry.

Both controllers pick a short code the same way. The base code is the
lower-case hexadecimal of `Math.abs(url.hashCode())`. The controller then
tries `base`, `base1`, `base2`, ... until a code is free. That probe is in
`short_codes.dfy`. It rests on a model of the Java library parts involved, in
`java_lang.dfy`:

- `String.hashCode` over UTF-16 code units, wrapping at 32 bits;
- `Math.abs`, including its `Integer.MIN_VALUE` case;
- `Integer.toHexString` and `Integer.toString`;
- `String.trim`;
- `String.length`, counted in UTF-16 code units.

The record is the class `Entity.UrlEntity`, whose setters update its fields in
place. The record store is the class `Repository.UrlRepository`. It keeps
a sequence of document values plus the next id to assign. Lookups return fresh
entities, the way the object mapper does. `save` is an upsert by id, and
`deleteByShortCode` removes the record with the code (every such record; see
"## Left out").

Each request handler has two forms:

- a specification function, from the store before the request to the reply
  and the store after it (`Shortener.Shorten`, `Shortener.Redirect`, ...);
- a method of the controller class that runs the source's steps on entities
  and the store. Each method is proved to produce exactly that reply and that
  new store.

The lemmas state what the service promises. They cover:

- the validation rules and their order;
- deduplication and idempotence of shortening;
- exactly one more access per redirect;
- expiry gating;
- deletion removing the code;
- statistics being read-only;
- the invariant that no two records share a short code or an id. For each
  controller it holds across any sequence of requests, starting from any
  store that satisfies it.

Two further lemmas compare the controllers: with no expiries, the two agree on
every valid request.

## Model

| member | source | states |
|---|---|---|
| JavaLang.MathAbsValue | src/main/java/com/mjfactor/url_shortener/UrlShortenerApplication.java:67 | `Math.abs` is the absolute value except on `Integer.MIN_VALUE`, which it returns unchanged; the result is negative only there |
| JavaLang.Utf16 | src/main/java/com/mjfactor/url_shortener/UrlShortenerApplication.java:67 | the UTF-16 encoding has between n and 2n code units, each below 0x10000 |
| JavaLang.Utf16OfBmp | src/main/java/com/mjfactor/url_shortener/UrlShortenerApplication.java:97 | for characters of the Basic Multilingual Plane, the code units are the characters and `length()` is the character count |
| JavaLang.HashBitsIsPowerSum | src/main/java/com/mjfactor/url_shortener/UrlShortenerApplication.java:67 | the incremental `h = 31*h + c` in 32 bits equals the documented polynomial s[0]*31^(n-1) + ... + s[n-1] taken modulo 2^32 |
| JavaLang.PowerSumSnoc | src/main/java/com/mjfactor/url_shortener/UrlShortenerApplication.java:67 | appending a unit multiplies the polynomial by 31 and adds the unit |
| JavaLang.Numeral | src/main/java/com/mjfactor/url_shortener/UrlShortenerApplication.java:67 | the numeral is non-empty, uses only digits of the radix, and has no leading zero unless it is "0" |
| JavaLang.NumeralRoundTrip | src/main/java/com/mjfactor/url_shortener/UrlShortenerApplication.java:67 | reading a numeral back gives the number it was written for |
| JavaLang.NumeralInjective | src/main/java/com/mjfactor/url_shortener/UrlShortenerApplication.java:73 | distinct numbers have distinct numerals |
| JavaLang.TrimStartShape | src/main/java/com/mjfactor/url_shortener/UrlShortenerApplication.java:94 | the start of a trim drops a prefix made only of characters <= U+0020 and stops at the first character that is not one |
| JavaLang.TrimEndShape | src/main/java/com/mjfactor/url_shortener/UrlShortenerApplication.java:94 | the end of a trim drops such a suffix and stops at the last character that is not one |
| JavaLang.TrimShape | src/main/java/com/mjfactor/url_shortener/UrlShortenerApplication.java:94 | `trim()` gives a trimmed infix of the input with only trimmable characters outside it |
| JavaLang.TrimOfPadded | src/main/java/com/mjfactor/url_shortener/UrlShortenerApplication.java:94 | a trimmed string padded on both sides with trimmable characters trims back to itself |
| JavaLang.TrimIdempotent | src/main/java/com/mjfactor/url_shortener/UrlShortenerApplication.java:133 | trimming twice equals trimming once |
| JavaLang.TrimEmpty | src/main/java/com/mjfactor/url_shortener/UrlShortenerApplication.java:90 | `trim().isEmpty()` holds exactly when every character is trimmable |
| JavaLang.ToLowerCase | src/main/java/com/mjfactor/url_shortener/UrlShortenerApplication.java:110 | the result equals the input up to the case of ASCII letters, and has no upper-case ASCII letter left |
| JavaLang.ToLowerCaseIs | src/main/java/com/mjfactor/url_shortener/UrlShortenerApplication.java:110-113 | a string lower-cases to a given all-lower-case word exactly when it equals that word ignoring ASCII case |
| Entity.Load | src/main/java/com/mjfactor/url_shortener/UrlEntity.java:39-77 | an entity handed out for a stored record has all fields the handlers need, and the record's id |
| Entity.PersistLoad | src/main/java/com/mjfactor/url_shortener/UrlEntity.java:39-77 | persisting a loaded entity gives back the record, and loading a persisted entity gives back the entity with its id |
| Entity.UrlEntity.Empty | src/main/java/com/mjfactor/url_shortener/UrlEntity.java:27-28 | the no-argument constructor leaves every field null |
| Entity.UrlEntity.constructor | src/main/java/com/mjfactor/url_shortener/UrlEntity.java:31-36 | the two-argument constructor keeps the URL and code, sets both timestamps from the clock, and leaves id and access count null |
| Entity.UrlEntity.SetId | src/main/java/com/mjfactor/url_shortener/UrlEntity.java:43-45 | only the id changes |
| Entity.UrlEntity.SetOriginalUrl | src/main/java/com/mjfactor/url_shortener/UrlEntity.java:51-53 | only the original URL changes |
| Entity.UrlEntity.SetShortCode | src/main/java/com/mjfactor/url_shortener/UrlEntity.java:59-61 | only the short code changes |
| Entity.UrlEntity.SetCreatedAt | src/main/java/com/mjfactor/url_shortener/UrlEntity.java:67-69 | only the creation time changes |
| Entity.UrlEntity.SetUpdatedAt | src/main/java/com/mjfactor/url_shortener/UrlEntity.java:75-77 | only the update time changes |
| Entity.UrlEntity.SetExpiresAt | src/main/java/com/mjfactor/url_shortener/UrlEntity.java:39-77 | only the expiry changes; the setter of the added `expiresAt` field, written like the setters at these lines |
| Entity.UrlEntity.SetAccessCount | src/main/java/com/mjfactor/url_shortener/UrlShortenerApplication.java:213 | only the access count changes |
| Repository.IndexOfCode | src/main/java/com/mjfactor/url_shortener/UrlRepository.java:9 | the lookup by code answers the first record with the code, and answers none only if no record has it |
| Repository.IndexOfUrl | src/main/java/com/mjfactor/url_shortener/UrlRepository.java:12 | the lookup by original URL answers the first record with the URL, and answers none only if no record has it |
| Repository.IndexOfId | src/main/java/com/mjfactor/url_shortener/UrlRepository.java:6 | the lookup by id answers the first record with the id, and answers none only if no record has it |
| Repository.IndexOfOwnCode | src/main/java/com/mjfactor/url_shortener/UrlRepository.java:9 | with unique codes, each record is the one its own code finds |
| Repository.CodesMembership | src/main/java/com/mjfactor/url_shortener/UrlRepository.java:9 | a code is in use exactly when the lookup by code finds a record |
| Repository.RemoveCodeMembership | src/main/java/com/mjfactor/url_shortener/UrlRepository.java:15 | a record survives `deleteByShortCode` exactly when its code differs |
| Repository.RemoveUniqueCode | src/main/java/com/mjfactor/url_shortener/UrlShortenerApplication.java:291 | with unique codes, deleting by code removes exactly the record found |
| Repository.RemoveCodeKeepsCodes | src/main/java/com/mjfactor/url_shortener/UrlRepository.java:15 | deleting by code keeps codes unique |
| Repository.RemoveCodeKeepsIds | src/main/java/com/mjfactor/url_shortener/UrlRepository.java:15 | deleting by code keeps ids distinct |
| Repository.PutExisting | src/main/java/com/mjfactor/url_shortener/UrlShortenerApplication.java:146-147 | saving an entity loaded from a record overwrites that record in place and nothing else |
| Repository.PutNew | src/main/java/com/mjfactor/url_shortener/UrlShortenerApplication.java:169 | saving a new entity appends it under the next id |
| Repository.PutWellFormed | src/main/java/com/mjfactor/url_shortener/UrlShortenerApplication.java:169 | saving keeps ids distinct and below the next id |
| Repository.RemoveOwnId | src/main/java/com/mjfactor/url_shortener/UrlShortenerApplication.java:143 | deleting a loaded entity removes exactly its record |
| Repository.UrlRepository.ContainsShortCode | src/main/java/com/mjfactor/url_shortener/UrlShortenerApplication.java:72 | `findByShortCode(c).isPresent()` holds exactly when c is in use |
| Repository.UrlRepository.FindByShortCode | src/main/java/com/mjfactor/url_shortener/UrlRepository.java:9 | answers null when no record has the code, otherwise a fresh entity loaded from the first record with it |
| Repository.UrlRepository.FindByOriginalUrl | src/main/java/com/mjfactor/url_shortener/UrlRepository.java:12 | answers null when no record has the URL, otherwise a fresh entity loaded from the first record with it |
| Repository.UrlRepository.Save | src/main/java/com/mjfactor/url_shortener/UrlShortenerApplication.java:169 | the entity gets its assigned id; the store becomes the upsert of the entity |
| Repository.UrlRepository.Delete | src/main/java/com/mjfactor/url_shortener/UrlShortenerApplication.java:143 | the store loses the record with the entity's id |
| Repository.UrlRepository.DeleteByShortCode | src/main/java/com/mjfactor/url_shortener/UrlShortenerApplication.java:291 | the store loses every record with the code |
| ShortCodes.BaseCode | src/main/java/com/mjfactor/url_shortener/UrlShortenerApplication.java:67 | defined as `Integer.toHexString(Math.abs(url.hashCode()))`; its value is stated by `ShortCodes.BaseCodeValue` |
| ShortCodes.BaseCodeValue | src/main/java/com/mjfactor/url_shortener/UrlShortenerApplication.java:67 | the base code is a lower-case hex numeral with no leading zero, denoting the hash's absolute value; the hash `Integer.MIN_VALUE` gives 0x80000000 |
| ShortCodes.CandidateInjective | src/main/java/com/mjfactor/url_shortener/UrlShortenerApplication.java:73 | distinct probe numbers give distinct candidate codes |
| ShortCodes.CandidatesBound | src/main/java/com/mjfactor/url_shortener/UrlShortenerApplication.java:72-75 | k distinct taken candidates need at least k codes in use, so the probe ends |
| ShortCodes.FreeIndex | src/main/java/com/mjfactor/url_shortener/UrlShortenerApplication.java:72-75 | the first free probe comes after only taken ones and within the number of codes in use |
| ShortCodes.UniqueShortCode | src/main/java/com/mjfactor/url_shortener/UrlShortenerApplication.java:66-78 | the chosen code is not in use |
| ShortCodes.UniqueShortCodeIsLeastFree | src/main/java/com/mjfactor/url_shortener/UrlShortenerApplication.java:66-78 | the chosen code is the first free candidate: the base if free, else base + least free k; it is found within codes-in-use + 1 probes |
| ShortCodes.GenerateUniqueShortCode | src/main/java/com/mjfactor/url_shortener/UrlShortenerApplication.java:66-78 | the probe loop answers a code not in use, namely the least free candidate |
| Shortener.IsUrlExpired | src/main/java/com/mjfactor/url_shortener/UrlShortenerApplication.java:84-86 | defined as: the record has an expiry and the clock is strictly past it; its consequences are stated by `Shortener.ExpiryRules` |
| Shortener.ExpiryRules | src/main/java/com/mjfactor/url_shortener/UrlShortenerApplication.java:84-86 | a record without expiry never expires, nor at its expiry instant itself; once expired it stays expired |
| Shortener.ValidateUrl | src/main/java/com/mjfactor/url_shortener/UrlShortenerApplication.java:88-124 | accepts exactly the present, non-blank URLs of at most 2048 units after trimming, with an http or https scheme in any case and a non-empty host. The first failing check decides the error. Blank iff the URL is absent or only trimmable. Too long iff it is non-blank and over 2048. Past those checks, a syntax error iff InvalidFormat, carrying its reason; no scheme iff MissingScheme; a scheme other than http(s) iff UnsupportedScheme; a web scheme with a missing or empty host iff MissingHost |
| Shortener.CheckTrimmed | src/main/java/com/mjfactor/url_shortener/UrlShortenerApplication.java:94-123 | on a trimmed URL, each check in the source's order decides its own error: blank iff empty; too long iff over 2048 units; then InvalidFormat, MissingScheme, UnsupportedScheme and MissingHost, each iff the earlier checks pass and its own check fails |
| Shortener.ValidationIgnoresPadding | src/main/java/com/mjfactor/url_shortener/UrlShortenerApplication.java:90-94 | whitespace around a URL never changes the verdict |
| Shortener.LengthLimit | src/main/java/com/mjfactor/url_shortener/UrlShortenerApplication.java:97-99 | 2048 units are accepted by the length check and 2049 are refused as too long |
| Shortener.SchemeIgnoresCase | src/main/java/com/mjfactor/url_shortener/UrlShortenerApplication.java:104-115 | the scheme check passes exactly when the scheme equals "http" or "https" ignoring ASCII case |
| Shortener.SchemeExamples | src/main/java/com/mjfactor/url_shortener/UrlShortenerApplication.java:110-115 | http, HTTP and Https pass the scheme check; ftp, file and httpx do not |
| Shortener.Shorten | src/main/java/com/mjfactor/url_shortener/UrlShortenerApplication.java:127-189 | defined as: validate the body; on failure answer 400 with the message and leave the store alone; otherwise `Shortener.StoreUrl` of the trimmed URL |
| Shortener.StoreUrl | src/main/java/com/mjfactor/url_shortener/UrlShortenerApplication.java:136-182 | defined as: a live record for the URL is answered 200 with updatedAt refreshed; otherwise an expired one is dropped and a new record with the generated code is appended and answered 201 |
| Shortener.Redirect | src/main/java/com/mjfactor/url_shortener/UrlShortenerApplication.java:192-226 | defined as: unknown code 404; expired record deleted and 404; otherwise 302 to the URL with the access count raised by one |
| Shortener.Update | src/main/java/com/mjfactor/url_shortener/UrlShortenerApplication.java:229-276 | defined as: validate the body, 400 on failure; otherwise `Shortener.Rewrite` with the trimmed URL |
| Shortener.Rewrite | src/main/java/com/mjfactor/url_shortener/UrlShortenerApplication.java:237-268 | defined as: unknown or expired code 404 with the store unchanged; otherwise the record gets the URL and a fresh updatedAt, answered 200 |
| Shortener.Delete | src/main/java/com/mjfactor/url_shortener/UrlShortenerApplication.java:279-296 | defined as: unknown code 404; otherwise every record with the code removed, 204 |
| Shortener.Stats | src/main/java/com/mjfactor/url_shortener/UrlShortenerApplication.java:299-325 | defined as: unknown code 404; expired record deleted and 404; otherwise 200 with the record's fields, absent count as 0 |
| Shortener.StoreReturnsLive | src/main/java/com/mjfactor/url_shortener/UrlShortenerApplication.java:136-161 | a URL with a live record answers 200 with it, only updatedAt changed, nothing added |
| Shortener.StoreCreates | src/main/java/com/mjfactor/url_shortener/UrlShortenerApplication.java:136-182 | otherwise the expired record, if any, is dropped and exactly one record is appended under the next id, with a free code, no accesses and both times now; the reply is 201 |
| Shortener.ShortenRejectsInvalid | src/main/java/com/mjfactor/url_shortener/UrlShortenerApplication.java:183-188 | an invalid URL answers 400 with the validator's message and leaves the store unchanged |
| Shortener.StoreKeepsConsistent | src/main/java/com/mjfactor/url_shortener/UrlShortenerApplication.java:136-182 | storing keeps codes unique and ids distinct |
| Shortener.ShortenKeepsConsistent | src/main/java/com/mjfactor/url_shortener/UrlShortenerApplication.java:127-189 | shortening keeps codes unique and ids distinct |
| Shortener.SurvivingLacksUrl | src/main/java/com/mjfactor/url_shortener/UrlShortenerApplication.java:141-143 | after an expired record is dropped, no record has the URL |
| Shortener.ShortenKeepsUrlsUnique | src/main/java/com/mjfactor/url_shortener/UrlShortenerApplication.java:136-182 | shortening never creates a second record for a URL |
| Shortener.StoreFindsAgain | src/main/java/com/mjfactor/url_shortener/UrlShortenerApplication.java:136-182 | after storing, the lookup by URL finds the record the reply was built from |
| Shortener.ShortenIdempotent | src/main/java/com/mjfactor/url_shortener/UrlShortenerApplication.java:136-161 | shortening the same URL again while its record is live answers 200 with the same code and adds no record |
| Shortener.RedirectCountsAccess | src/main/java/com/mjfactor/url_shortener/UrlShortenerApplication.java:199-222 | a live code answers 302 to the stored URL and raises the access count by one (null becoming 1); nothing else changes |
| Shortener.UnknownCode | src/main/java/com/mjfactor/url_shortener/UrlShortenerApplication.java:223-225 | a code no record has is answered 404 with the store unchanged by redirect, and likewise by stats, delete and a valid update (lines 266-268, 293-295, 322-324); an invalid update answers 400 first |
| Shortener.ExpiredCodeIsGone | src/main/java/com/mjfactor/url_shortener/UrlShortenerApplication.java:203-208 | an expired code answers 404 (also lines 243-246 and 306-311). Redirect and stats delete exactly its record, which frees the code when codes are unique. A valid update leaves the store unchanged |
| Shortener.RedirectsCount | src/main/java/com/mjfactor/url_shortener/UrlShortenerApplication.java:212-214 | N redirects to a live code raise its count by exactly N and change nothing else of the record |
| Shortener.UpdateValidatesFirst | src/main/java/com/mjfactor/url_shortener/UrlShortenerApplication.java:233-234 | invalid input answers 400 before any lookup, even for an unknown code, and the store is unchanged |
| Shortener.UpdateChangesOnlyUrl | src/main/java/com/mjfactor/url_shortener/UrlShortenerApplication.java:238-265 | a live code gets the trimmed new URL and a fresh updatedAt; other fields and other records are kept; the reply is 200 |
| Shortener.DeleteRemovesCode | src/main/java/com/mjfactor/url_shortener/UrlShortenerApplication.java:280-296 | a code in use answers 204, expired or not, and exactly the records with it are removed; an unknown code answers 404 and changes nothing |
| Shortener.DeleteRemovesOneRecord | src/main/java/com/mjfactor/url_shortener/UrlShortenerApplication.java:291 | with unique codes, delete removes exactly the record found |
| Shortener.StatsReadOnly | src/main/java/com/mjfactor/url_shortener/UrlShortenerApplication.java:301-321 | a live code answers 200 with the record's fields, null count as 0, and leaves the store unchanged |
| Shortener.RedirectKeepsConsistent | src/main/java/com/mjfactor/url_shortener/UrlShortenerApplication.java:192-226 | redirecting keeps codes unique and ids distinct |
| Shortener.UpdateKeepsConsistent | src/main/java/com/mjfactor/url_shortener/UrlShortenerApplication.java:229-276 | updating keeps codes unique and ids distinct |
| Shortener.DeleteKeepsConsistent | src/main/java/com/mjfactor/url_shortener/UrlShortenerApplication.java:279-296 | deleting keeps codes unique and ids distinct |
| Shortener.StatsKeepsConsistent | src/main/java/com/mjfactor/url_shortener/UrlShortenerApplication.java:299-325 | statistics keep codes unique and ids distinct |
| Shortener.RunKeepsConsistent | src/main/java/com/mjfactor/url_shortener/UrlShortenerApplication.java:127-325 | any sequence of requests keeps codes unique and ids distinct |
| Shortener.Scenario | src/main/java/com/mjfactor/url_shortener/UrlShortenerApplication.java:127-325 | from an empty store: create (201, the base code), redirect (302), stats (count 1), delete (204), redirect (404) |
| Shortener.CreateWithoutExpiryThrowsAsWritten | src/main/java/com/mjfactor/url_shortener/UrlShortenerApplication.java:172-174 | as written, creating a record with no expiry reaches `formatTimestamp(null)` |
| Shortener.DuplicateWithoutExpiryThrowsAsWritten | src/main/java/com/mjfactor/url_shortener/UrlShortenerApplication.java:150-152 | as written, shortening a URL whose live record has no expiry reaches `formatTimestamp(null)` |
| Shortener.UpdateWithoutExpiryThrowsAsWritten | src/main/java/com/mjfactor/url_shortener/UrlShortenerApplication.java:255-257 | as written, a valid update of a live record with no expiry reaches `formatTimestamp(null)` |
| Shortener.StatsWithoutExpiryThrowsAsWritten | src/main/java/com/mjfactor/url_shortener/UrlShortenerApplication.java:317-319 | as written, stats on a live record with no expiry reach `formatTimestamp(null)` |
| Shortener.ShortenAlwaysAnswers | src/main/java/com/mjfactor/url_shortener/UrlShortenerApplication.java:150-182 | corrected: a valid shorten answers 200 or 201 with the record's expiry as an optional value; a new record is live at any later time |
| Shortener.UrlShortenerApplication.constructor | src/main/java/com/mjfactor/url_shortener/UrlShortenerApplication.java:35-37 | the controller uses the given store |
| Shortener.UrlShortenerApplication.GenerateUniqueShortCode | src/main/java/com/mjfactor/url_shortener/UrlShortenerApplication.java:66-78 | answers the least free candidate, a code not in use |
| Shortener.UrlShortenerApplication.ShortenUrl | src/main/java/com/mjfactor/url_shortener/UrlShortenerApplication.java:127-189 | the reply and new store are exactly those of `Shortener.Shorten` |
| Shortener.UrlShortenerApplication.RedirectToOriginal | src/main/java/com/mjfactor/url_shortener/UrlShortenerApplication.java:192-226 | the reply and new store are exactly those of `Shortener.Redirect` |
| Shortener.UrlShortenerApplication.UpdateUrl | src/main/java/com/mjfactor/url_shortener/UrlShortenerApplication.java:229-276 | the reply and new store are exactly those of `Shortener.Update` |
| Shortener.UrlShortenerApplication.DeleteUrl | src/main/java/com/mjfactor/url_shortener/UrlShortenerApplication.java:279-296 | the reply and new store are exactly those of `Shortener.Delete` |
| Shortener.UrlShortenerApplication.GetUrlStats | src/main/java/com/mjfactor/url_shortener/UrlShortenerApplication.java:299-325 | the reply and new store are exactly those of `Shortener.Stats` |
| Logic.Shorten | src/main/java/com/mjfactor/url_shortener/ApplicationLogic.java:73-117 | defined as: the record for the trimmed URL answered 200 with updatedAt refreshed, or a new record with the generated code appended and answered 201 |
| Logic.Update | src/main/java/com/mjfactor/url_shortener/ApplicationLogic.java:120-152 | defined as: unknown code 404; otherwise the record gets the trimmed URL and a fresh updatedAt, answered 200 |
| Logic.Redirect | src/main/java/com/mjfactor/url_shortener/ApplicationLogic.java:155-181 | defined as: unknown code 404; otherwise 302 to the URL with the access count raised by one |
| Logic.Delete | src/main/java/com/mjfactor/url_shortener/ApplicationLogic.java:184-193 | defined as: unknown code 404; otherwise every record with the code removed, 204 |
| Logic.Stats | src/main/java/com/mjfactor/url_shortener/ApplicationLogic.java:196-212 | defined as: unknown code 404; otherwise 200 with the record's fields, absent count as 0 |
| Logic.ShortenDeduplicates | src/main/java/com/mjfactor/url_shortener/ApplicationLogic.java:81-98 | a stored URL answers 200 with its record; only updatedAt changes, nothing added |
| Logic.ShortenCreatesOne | src/main/java/com/mjfactor/url_shortener/ApplicationLogic.java:100-116 | a new URL gets exactly one appended record under the next id, with the least free code, no accesses and both times now; the reply is 201 |
| Logic.ShortenNeverRejects | src/main/java/com/mjfactor/url_shortener/ApplicationLogic.java:73-117 | every input answers 200 or 201 with a body |
| Logic.ShortenIdempotent | src/main/java/com/mjfactor/url_shortener/ApplicationLogic.java:73-117 | shortening the same URL twice answers 200 the second time with the same code and adds no record |
| Logic.EveryCodeServed | src/main/java/com/mjfactor/url_shortener/ApplicationLogic.java:155-212 | with no expiry, every code in use is redirected (302), updated (200) and reported (200) |
| Logic.UnknownCode | src/main/java/com/mjfactor/url_shortener/ApplicationLogic.java:149-151 | an unknown code answers 404 on update, and likewise on redirect, delete and stats (lines 177-180, 190-192, 209-211), with the store unchanged |
| Logic.RedirectCountsAccess | src/main/java/com/mjfactor/url_shortener/ApplicationLogic.java:162-176 | 302 to the stored URL; the access count goes up by one; nothing else changes |
| Logic.UpdateChangesOnlyUrl | src/main/java/com/mjfactor/url_shortener/ApplicationLogic.java:130-148 | the trimmed new URL and a fresh updatedAt; the rest is kept; the reply is 200 |
| Logic.DeleteRemovesCode | src/main/java/com/mjfactor/url_shortener/ApplicationLogic.java:184-193 | 204, and exactly the records with the code are removed |
| Logic.StatsReadOnly | src/main/java/com/mjfactor/url_shortener/ApplicationLogic.java:196-212 | 200 with the record's fields, null count as 0, and the store unchanged |
| Logic.ShortenKeepsConsistent | src/main/java/com/mjfactor/url_shortener/ApplicationLogic.java:73-117 | shortening keeps codes unique and ids distinct |
| Logic.UpdateKeepsConsistent | src/main/java/com/mjfactor/url_shortener/ApplicationLogic.java:120-152 | updating keeps codes unique and ids distinct |
| Logic.RedirectKeepsConsistent | src/main/java/com/mjfactor/url_shortener/ApplicationLogic.java:155-181 | redirecting keeps codes unique and ids distinct |
| Logic.DeleteKeepsConsistent | src/main/java/com/mjfactor/url_shortener/ApplicationLogic.java:184-193 | deleting keeps codes unique and ids distinct |
| Logic.StatsKeepsConsistent | src/main/java/com/mjfactor/url_shortener/ApplicationLogic.java:196-212 | statistics keep codes unique and ids distinct |
| Logic.RunKeepsConsistent | src/main/java/com/mjfactor/url_shortener/ApplicationLogic.java:73-212 | any sequence of requests keeps codes unique and ids distinct |
| Logic.ShortenAgrees | src/main/java/com/mjfactor/url_shortener/ApplicationLogic.java:73-117 | with no expiries and a valid URL, both controllers' shorten give the same store, status, id and short link |
| Logic.CodeHandlersAgree | src/main/java/com/mjfactor/url_shortener/ApplicationLogic.java:120-212 | with no expiries, both controllers' redirect, valid update, delete and stats give the same store and status |
| Logic.ApplicationLogic.constructor | src/main/java/com/mjfactor/url_shortener/ApplicationLogic.java:30-32 | the controller uses the given store |
| Logic.ApplicationLogic.GenerateUniqueShortCode | src/main/java/com/mjfactor/url_shortener/ApplicationLogic.java:54-66 | answers the least free candidate, a code not in use |
| Logic.ApplicationLogic.ShortenUrl | src/main/java/com/mjfactor/url_shortener/ApplicationLogic.java:73-117 | the reply and new store are exactly those of `Logic.Shorten` |
| Logic.ApplicationLogic.UpdateUrl | src/main/java/com/mjfactor/url_shortener/ApplicationLogic.java:120-152 | the reply and new store are exactly those of `Logic.Update` |
| Logic.ApplicationLogic.RedirectToOriginal | src/main/java/com/mjfactor/url_shortener/ApplicationLogic.java:155-181 | the reply and new store are exactly those of `Logic.Redirect` |
| Logic.ApplicationLogic.DeleteUrl | src/main/java/com/mjfactor/url_shortener/ApplicationLogic.java:184-193 | the reply and new store are exactly those of `Logic.Delete` |
| Logic.ApplicationLogic.GetUrlStats | src/main/java/com/mjfactor/url_shortener/ApplicationLogic.java:196-212 | the reply is that of `Logic.Stats`, and the store is unchanged |

## Left out

- HTTP and Spring plumbing is left out: routing, CORS, the `ResponseEntity` builders and headers. A reply is modelled as its status, Location header and body. The logger, the health endpoint and `main` are left out because they have no effect on the store.
- `formatTimestamp` is not modelled as text: timestamps are integers and replies carry them unformatted. The null case is covered under "## Findings".
- `new URI(...)` is a function-typed parameter, `parse`. It says whether parsing fails, and with what reason, or which scheme and host it finds. Java's URI grammar is not modelled.
- `String.toLowerCase` is modelled on ASCII letters only. For the comparison with "http" and "https" this is equivalent, because only ASCII letters can lower-case to those letters. Locale-specific mappings are not modelled.
- The clock, `LocalDateTime.now()`, is a `now` parameter of each request. The two-argument constructor reads the clock twice; the model uses one value for both reads.
- Concurrency between requests is left out. Requests are handled one after the other.
- The overflow of the `int` probe counter and of the `Long` access count is left out. Both are unbounded here, since neither can realistically reach the limit.
- MongoDB raises an error when a derived query matches several records; the model's lookups return the first match instead. Duplicate URLs can arise only through update, since `Shortener.ShortenKeepsUrlsUnique` shows shortening never creates them.
- `deleteByShortCode` is declared to return one `Optional<UrlEntity>`, so the source removes a single record. The model removes every record with the code. The two agree whenever codes are unique, and `Shortener.RunKeepsConsistent` and `Logic.RunKeepsConsistent` prove that every request keeps them unique.
- A null request body is modelled only in the validator, which takes an optional string. The handlers take a string.
- Getters are direct reads of the fields, through `Entity.UrlEntity.Snapshot`.
- `Repository.UrlRepository.Save` requires the entity's URL, code and timestamps to be set. Every handler saves only such entities.
- The record store is in memory, and ids are natural numbers rather than MongoDB ObjectIds. The MongoDB driver and the database are not part of this model.
- `app.js`, `RootController.java` and `MongoDB_Annotations_Reference.java` are not part of this model: they are the web front end, a page route and notes.
- The entity file lacks the `expiresAt` and `accessCount` fields that `UrlShortenerApplication` reads and writes. The model adds both, and the two-argument constructor takes the initial `expiresAt` as a parameter, since no retention period appears in the code.
- An update of an expired record answers 404 and leaves the record in place, as the code does (lines 243-246 of `UrlShortenerApplication.java`). Redirect and stats, by contrast, delete an expired record.

## Findings

| source | as written | input that shows it | evidently intended | confidence | as-written member | corrected member |
|---|---|---|---|---|---|---|
| src/main/java/com/mjfactor/url_shortener/UrlShortenerApplication.java:80-82 | `formatTimestamp` calls `format` on the expiry even when it is null (called on it at lines 152, 174, 257 and 319); the entity constructor sets no expiry, and `isUrlExpired` treats null as "never expires" | shortening a valid new URL (created with no expiry), shortening it again, updating it with a valid URL, or asking for its stats | report the expiry as absent, with the request answered 201 or 200 | medium, not executed | Shortener.CreateWithoutExpiryThrowsAsWritten, Shortener.DuplicateWithoutExpiryThrowsAsWritten, Shortener.UpdateWithoutExpiryThrowsAsWritten, Shortener.StatsWithoutExpiryThrowsAsWritten | Shortener.ShortenAlwaysAnswers |
