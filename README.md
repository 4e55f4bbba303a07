# CacheStore: an HTTP-cache store over a PSR-6 pool, modelled in Dafny

`CacheStore` is the store behind Symfony's HTTP cache kernel in the
softspring http-cache-store-bundle. Instead of writing to the file system, it
keeps everything in a PSR-6 cache item pool. It uses two kinds of item:

- **Entity items.** A response body stored under its content digest, `"en"`
  followed by the SHA-256 of the body.
- **Metadata items.** Stored under `"md"` followed by the SHA-256 of the
  request URI. Each holds a list of entries. An entry is a pair of the stored
  request headers and the stored response headers, newest first.

When a response is written, an older entry under the same key is dropped when
two things hold. Its first `Vary` value must equal the new response's first
`Vary` value. Its stored request must also match the new request under that
first value (src/HttpCache/CacheStore.php:133-139). With a single-valued
`Vary` this keeps one entry per representation. With several `Vary` values it
does not. Write looks only at the first value, but lookup matches on all of
them (src/HttpCache/CacheStore.php:45). So an old entry that differs from the
new request only in a later `Vary` header is dropped, and the new entry does
not serve the old entry's request. `Properties.MultiValueVary` states this.

This project models the store's operations:

- `lookup` serves the first entry whose request matches under its own Vary.
- `write` stores the body, then a new metadata list. The new entry goes first.
  Old entries that the new response supersedes are dropped.
- `invalidate` expires the fresh entries.
- `purge` deletes the metadata of the `http:` and `https:` forms of a URL.
- The lock stubs always succeed, and `cleanup` does nothing.
- The helpers are modelled too: `save`, `load`, `getMetadata`, `requestsMatch`,
  the key generators, `persistResponse` and `restoreResponse`, and the
  per-request key memo.

The modules are:

- `Decimal`: how the `X-Status` value is written as text.
- `Headers`: header bags, lower-casing, and PHP's `preg_split('/[\s,]+/')` and
  `implode`.
- `Vary`: `requestsMatch`.
- `Foreign` and `Keys`: the platform functions and the two key forms.
- `Metadata`: entries, persist/restore, and the per-list loops of lookup, write
  and invalidate. Each loop is a method proved equal to a specification
  function.
- `Pool`: the item pool, its invariant, and the effect of each operation as a
  function of the pool.
- `Properties`: lemmas relating the operations.
- `Store`: the `CacheStore` class, which holds the pool and the key memo as
  fields that its methods update.

Code outside this repository is a parameter of type `Foreign.Platform`:

- the SHA-256 hash;
- the URI that `Request::create` followed by `getUri` produces;
- Symfony's `Response::getTtl`, `isFresh` and `expire` on a header bag.

The pool invariant `Pool.PoolValid` says three things:

- each body sits under its own digest;
- metadata never sits under an entity key;
- every stored response carries `X-Status`.

Every state-changing operation keeps this invariant.

`requestsMatch` compares a header's whole value list on both sides
(src/HttpCache/CacheStore.php:286-288).

## Model

| member | source | states |
|---|---|---|
| Decimal.NatToDecimal | src/HttpCache/CacheStore.php:351 | the status code written into X-Status (and the body length written into Content-Length at line 128) is a non-empty digit string without a leading zero; the text form stands for the integer that PHP stores in X-Status |
| Decimal.DecimalRoundTrip | src/HttpCache/CacheStore.php:351-361 | reading back the X-Status text gives the status code that was written |
| Headers.Lower | src/HttpCache/CacheStore.php:148 | `strtolower` leaves no upper-case letter and keeps the length |
| Headers.NormalizeName | src/HttpCache/CacheStore.php:285 | a Vary token becomes a lower-case name with `_` turned into `-` |
| Headers.SplitFromShape | src/HttpCache/CacheStore.php:284 | splitting on runs of whitespace and commas gives at least one piece; pieces are separator-free, empty only at either end, and concatenate to the input without its separators |
| Headers.SplitToken | src/HttpCache/CacheStore.php:284 | a value without whitespace or commas splits into itself alone |
| Headers.SplitBreak | src/HttpCache/CacheStore.php:284 | a piece ends at the first run of whitespace and commas, and splitting resumes after the whole run |
| Headers.Join | src/HttpCache/CacheStore.php:45 | `implode` of a non-empty list begins with the first value |
| Headers.SplitJoin | src/HttpCache/CacheStore.php:45 | splitting a Vary value that lookup joins with ", " gives back exactly the listed header names |
| Vary.MatchTokens | src/HttpCache/CacheStore.php:284-293 | the loop returns true exactly when both bags agree on every token |
| Vary.RequestsMatch | src/HttpCache/CacheStore.php:278-294 | an empty Vary ("" or "0") always matches; otherwise the result is true if and only if both bags hold identical value lists for every named header |
| Vary.RequestsMatchSymmetric | src/HttpCache/CacheStore.php:278-294 | swapping the two header bags does not change the answer |
| Vary.RequestsMatchReflexive | src/HttpCache/CacheStore.php:278-294 | a request always matches its own stored headers |
| Vary.RequestsMatchNames | src/HttpCache/CacheStore.php:284-291 | for a Vary that lists names, matching means agreeing on each named header (both directions) |
| Keys.GenerateCacheKey | src/HttpCache/CacheStore.php:320-323 | a metadata key is "md" followed by the hash of the URI, and is never an entity key |
| Keys.KeysDisjoint | src/HttpCache/CacheStore.php:265-268 | no metadata key equals a content digest |
| Keys.ContentDigestInjective | src/HttpCache/CacheStore.php:265-268 | with a collision-free hash, equal digests mean equal bodies |
| Keys.CacheKeyInjective | src/HttpCache/CacheStore.php:320-323 | with a collision-free hash, equal metadata keys mean equal URIs |
| Metadata.PersistResponse | src/HttpCache/CacheStore.php:348-354 | the stored headers carry X-Status holding the status code |
| Metadata.PersistShape | src/HttpCache/CacheStore.php:348-354 | persisting adds X-Status and leaves every other header as it was |
| Metadata.RestoreResponse | src/HttpCache/CacheStore.php:359-372 | the status comes from X-Status, X-Status is removed, and the body is the given content |
| Metadata.RestoreShape | src/HttpCache/CacheStore.php:359-372 | every header other than X-Status is kept, with its values |
| Metadata.RestorePersisted | src/HttpCache/CacheStore.php:348-372 | restoring persisted headers gives back the status and every other header |
| Metadata.EntryVaryNames | src/HttpCache/CacheStore.php:45 | the Vary value lookup joins from an entry's list of names splits back into that list |
| Metadata.FirstMatching | src/HttpCache/CacheStore.php:42-50 | the index found matches under its own Vary and no earlier entry does; with no index, no entry matches |
| Metadata.FindMatch | src/HttpCache/CacheStore.php:42-50 | lookup's scan stops at exactly the first matching entry |
| Metadata.WithDefaultVary | src/HttpCache/CacheStore.php:135-137 | an entry without a vary value gets `['']`; an entry with one is unchanged; the request, the first vary value, the status and every other header are kept |
| Metadata.SameRequestSupersedes | src/HttpCache/CacheStore.php:139 | writing again for the request an entry was stored for drops that entry exactly when the first vary values agree |
| Metadata.SurvivorsShape | src/HttpCache/CacheStore.php:131-142 | write keeps no more entries than before, each with a vary value and none superseded by the new response, each still carrying X-Status |
| Metadata.SurvivorsAt | src/HttpCache/CacheStore.php:134-142 | each old entry is dropped when superseded and otherwise kept in place, in the original order |
| Metadata.KeepUnsuperseded | src/HttpCache/CacheStore.php:131-142 | write's filtering loop computes exactly the surviving entries |
| Metadata.StrippedShape | src/HttpCache/CacheStore.php:144-149 | stored headers lose `age` and every lower-cased private header, keep every other header and its values, and keep X-Status |
| Metadata.StripPrivate | src/HttpCache/CacheStore.php:144-149 | the unset loop computes exactly the stripped headers |
| Metadata.ExpireEntry | src/HttpCache/CacheStore.php:169-176 | one entry after invalidate keeps its stored request, its X-Status and its status code |
| Metadata.ExpireAllPointwise | src/HttpCache/CacheStore.php:167-177 | the list invalidate writes back has one entry per old entry, each treated on its own |
| Metadata.ExpireAllShape | src/HttpCache/CacheStore.php:167-177 | invalidate keeps the length, order and stored requests; leaves non-fresh entries as they are; replaces fresh ones by their expired form, with the same status |
| Metadata.ExpireFresh | src/HttpCache/CacheStore.php:164-177 | the loop computes that list, and `$modified` is true if and only if some entry was fresh |
| Pool.SaveTo | src/HttpCache/CacheStore.php:244-260 | save without overwrite keeps an existing item; otherwise it stores the item with the given TTL; no other key changes |
| Pool.Load | src/HttpCache/CacheStore.php:234-239 | load hits if and only if the key is present, and a hit returns the stored item |
| Pool.MetadataAt | src/HttpCache/CacheStore.php:301-308 | a missing key gives the empty list; a stored list is returned as stored |
| Pool.LookupIn | src/HttpCache/CacheStore.php:34-71 | a key without entries misses; a hit comes from a matching entry whose digest is in the pool, carries that entry's status and has no X-Status header |
| Pool.EntityTtl | src/HttpCache/CacheStore.php:123 | the body is kept one second longer than the response's TTL, and for one second when the response has none |
| Pool.StampedShape | src/HttpCache/CacheStore.php:121-129 | write stamps the body's digest and, unless the response is chunked, its length; every other header is unchanged |
| Pool.WriteInto | src/HttpCache/CacheStore.php:115-157 | write adds exactly the body's digest and the request's key to the pool's keys, and the key holds a non-empty list |
| Pool.InvalidateIn | src/HttpCache/CacheStore.php:164-181 | invalidate adds and removes no key, and changes no item but the request's own |
| Pool.HttpVariant | src/HttpCache/CacheStore.php:201 | the rewritten URL never starts with `https:`, and the part after the scheme is kept |
| Pool.HttpsVariant | src/HttpCache/CacheStore.php:202 | the rewritten URL never starts with `http:`, and the part after the scheme is kept |
| Pool.PurgeFrom | src/HttpCache/CacheStore.php:199-229 | purge only removes keys, removes both variants' keys, and leaves every remaining item as it was |
| Properties.SaveThenLoad | src/HttpCache/CacheStore.php:234-260 | load after save returns the saved item, or the old one for a non-overwriting save onto an existing key |
| Properties.LookupServesFirstMatch | src/HttpCache/CacheStore.php:34-72 | lookup serves the first matching entry, restored with the body under its digest, and misses when that digest is absent |
| Properties.LookupMissesWithoutMatch | src/HttpCache/CacheStore.php:52-54 | with no matching entry lookup misses |
| Properties.StoredHeadersShape | src/HttpCache/CacheStore.php:120-149 | stored headers hold X-Status, the digest and (unless chunked) the length; never age or a private header; every other header unchanged |
| Properties.WriteList | src/HttpCache/CacheStore.php:131-157 | after write, the request's key holds the new entry first, then the old entries it does not supersede (at most one more entry in all), saved with the response's TTL |
| Properties.WriteEntity | src/HttpCache/CacheStore.php:120-125 | write stores the body under its digest without replacing an existing entity, and changes no other key except the request's own |
| Properties.WriteKeepsValid | src/HttpCache/CacheStore.php:115-160 | write keeps the pool invariant |
| Properties.WriteThenLookup | src/HttpCache/CacheStore.php:34-160 | right after write, a lookup with the same request hits with the written status, the stored headers, and a body with the written body's digest (the body itself for a collision-free hash) |
| Properties.ExpireAllNoFresh | src/HttpCache/CacheStore.php:167-177 | with no fresh entry the list is unchanged |
| Properties.InvalidateEffect | src/HttpCache/CacheStore.php:162-182 | invalidate writes the expired list (default TTL) only when some entry was fresh, and touches no other key |
| Properties.InvalidateKeepsValid | src/HttpCache/CacheStore.php:162-182 | invalidate keeps the pool invariant |
| Properties.SchemeVariants | src/HttpCache/CacheStore.php:201-202 | the two rewrites map either scheme to the http: and https: forms of the same rest |
| Properties.OtherSchemeVariants | src/HttpCache/CacheStore.php:201-202 | a URL with neither scheme is left as it is by both rewrites |
| Properties.PurgeEffect | src/HttpCache/CacheStore.php:199-229 | after purge neither variant's key is present, lookups through them miss, and every other item is unchanged |
| Properties.PurgeSymmetric | src/HttpCache/CacheStore.php:199-208 | purging the http: or the https: form has the same effect |
| Properties.PurgeKeepsValid | src/HttpCache/CacheStore.php:199-229 | purge keeps the pool invariant |
| Properties.SingleNameVary | src/HttpCache/CacheStore.php:139 | an entry stored with `Vary: X` is superseded by, and served to, exactly the requests that agree with its own on X |
| Properties.MultiValueVary | src/HttpCache/CacheStore.php:133-139 | with `Vary: A, B`, a new request that agrees with an old entry's request on A but not on B drops that entry, and the new entry does not serve the old request |
| Properties.VaryingStored | src/HttpCache/CacheStore.php:133-149 | a `Vary: X` response is stored with its Vary header and its status |
| Properties.VaryScenario | src/HttpCache/CacheStore.php:131-153 | two writes for requests differing in X keep both entries, newest first; a third write for the first request replaces only that request's entry |
| Properties.VaryLookups | src/HttpCache/CacheStore.php:42-50 | in that two-entry list each request is served the entry written for it |
| Store.CacheStore.constructor | src/HttpCache/CacheStore.php:24-32 | private headers default to Set-Cookie, the memo starts empty, and the invariant holds |
| Store.CacheStore.GetCacheKey | src/HttpCache/CacheStore.php:328-335 | the key is always the generated key for the request's URI, and the memo records it |
| Store.CacheStore.Save | src/HttpCache/CacheStore.php:244-260 | save always reports success, updates the pool as SaveTo says, and keeps the invariant when it stores a body under its digest or a well-formed list under a metadata key, as every caller does |
| Store.CacheStore.Lookup | src/HttpCache/CacheStore.php:34-72 | lookup leaves the pool unchanged and returns exactly LookupIn of the request's key |
| Store.CacheStore.Write | src/HttpCache/CacheStore.php:115-160 | write returns the request's key, stamps digest and length on the response, leaves the pool as WriteInto says, and keeps the invariant |
| Store.CacheStore.Invalidate | src/HttpCache/CacheStore.php:162-182 | invalidate leaves the pool as InvalidateIn says and keeps the invariant |
| Store.CacheStore.Lock | src/HttpCache/CacheStore.php:184-187 | lock always reports success |
| Store.CacheStore.Unlock | src/HttpCache/CacheStore.php:189-192 | unlock always reports success |
| Store.CacheStore.IsLocked | src/HttpCache/CacheStore.php:194-197 | isLocked always reports false |
| Store.CacheStore.Cleanup | src/HttpCache/CacheStore.php:210-213 | cleanup changes nothing |
| Store.CacheStore.Purge | src/HttpCache/CacheStore.php:199-208 | purge reports whether either variant's key was present, and deletes exactly those two keys |
| Store.CacheStore.DoPurge | src/HttpCache/CacheStore.php:218-229 | doPurge reports whether the URL's key was present and deletes exactly that key |

## Left out

- Serialisation: `serialize` and `unserialize` of metadata lists are not modelled. A metadata item holds the entry list itself. Other stored values under a metadata key are not modelled (the pool invariant keeps only lists there). In the source, `unserialize($entries) ?: []` (src/HttpCache/CacheStore.php:307) turns only a falsy result, such as a failed `unserialize`, into `[]`. A truthy value that is not an array, such as an integer or an object, would make `getMetadata`'s `array` return type (line 301) raise a `TypeError`. An array that is not a list of entries would be returned as it is.
- Logging: `processVaryForLogger`, `processFragmentForLogger` and the logger calls produce log text. The logger is not part of this model.
- Logger failures: with a logger set, `processFragmentForLogger` can raise a `ValueError` from `array_combine` for some fragment URLs (src/HttpCache/CacheStore.php:100-108). In write this happens at line 151, after the body is saved and before the metadata is saved. The model has no logger, so it does not capture this failure or the body it leaves behind without metadata.
- Platform code: the SHA-256 hash, `Request::create(...)->getUri()`, and `Response::getTtl`, `isFresh` and `expire` are platform parameters. Their internals are not modelled. Default headers that `Request::create` adds are not modelled either.
- TTL expiry: the pool's own expiry and eviction are not modelled. A saved TTL is recorded but never acted on.
- Concurrency: the lock stubs are modelled as the constants they return. Interleaved requests are not modelled.
- Storage errors: the "Unable to store" exceptions are not modelled. `save` always returns true, so they can never fire.
- Pool.SaveTo: the result of the backend's own save (src/HttpCache/CacheStore.php:257) is discarded in the source. The model takes every backend save to succeed, so a save that fails and goes unnoticed is not modelled.
- Request URIs: the URI of a `Store.Request` is fixed in the model. The source memoises a key per request object, so a request whose URI changes after its key was memoised keeps the old key. That stale key is not modelled.
- Metadata.RestoreResponse: Symfony's `Response` constructor adds `Date` and `Cache-Control` headers when they are absent. The restored header bag is modelled as the stored bag without X-Status, without those additions.
- Loose comparison: in write, the `!=` between an old entry's first vary value and the new one is modelled as string equality, with null equal to `''`. PHP's numeric-string comparison (for example `"1" == "01"`) is not modelled.
- Types: the status code is stored as its decimal text rather than a PHP integer. `strlen` is modelled on characters rather than bytes.
- Pool.LookupIn: a matched entry without `x-content-digest` is treated as a miss. In PHP this case raises a warning and looks up the null key.
- Metadata.IsFreshEntry: invalidate restores each entry with `getItem(null)`. It is modelled with the empty body, which the freshness and expiry platform functions do not read.
- Metadata.RestoreResponse: it requires X-Status. The pool invariant guarantees this for every stored entry, and the constructor requires that invariant of the initial pool.
- Store.CacheStore.Purge: the memo entries that the synthetic requests add are not described. The contract states only that existing memo entries are kept.
- Store.CacheStore.DoPurge: the same as Purge. Only the memo entries that were already there are described.
