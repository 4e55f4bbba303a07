/**
 * The CacheStore object: a backend pool and a per-request key memo, and the
 * operations the HTTP cache kernel calls on it.
 */
module Store {
  import opened Wrappers
  import opened Decimal
  import opened Headers
  import opened Foreign
  import opened Keys
  import opened Metadata
  import opened Pool
  import opened Properties

  /** A kernel request: its identity (the memo's key), its normalised URI and its header bag. */
  class Request {
    const uri: string
    const headers: Headers

    constructor (uri: string, headers: Headers)
      ensures this.uri == uri && this.headers == headers
    {
      this.uri := uri;
      this.headers := headers;
    }
  }

  class CacheStore {
    const platform: Platform
    /** options['private_headers'], lower-cased when applied. */
    const privateHeaders: seq<string>
    /** The backend pool. */
    var cache: Pool
    /** The per-request key memo (an SplObjectStorage keyed by request identity). */
    var keyCache: map<Request, string>

    /** The pool invariant, and a memo that only ever holds each request's own key. */
    ghost predicate Valid()
      reads this
    {
      && PoolValid(platform, cache)
      && forall r :: r in keyCache ==> keyCache[r] == GenerateCacheKey(platform, r.uri)
    }

    /** The private headers default to Set-Cookie unless the options name others. */
    constructor (platform: Platform, pool: Pool, privateHeadersOption: Option<seq<string>>)
      requires PoolValid(platform, pool)
      ensures Valid()
      ensures this.platform == platform && cache == pool && keyCache == map[]
      ensures privateHeaders == if privateHeadersOption.Some? then privateHeadersOption.value else ["Set-Cookie"]
    {
      this.platform := platform;
      cache := pool;
      keyCache := map[];
      privateHeaders := if privateHeadersOption.Some? then privateHeadersOption.value else ["Set-Cookie"];
    }

    /** getCacheKey: the memoised key, or the generated one, which is then memoised. */
    method GetCacheKey(request: Request) returns (key: string)
      requires Valid()
      modifies this`keyCache
      ensures Valid()
      ensures key == GenerateCacheKey(platform, request.uri)
      ensures keyCache == old(keyCache)[request := key]
    {
      if request in keyCache {
        key := keyCache[request];
      } else {
        key := GenerateCacheKey(platform, request.uri);
        keyCache := keyCache[request := key];
      }
    }

    /**
     * save: always reports success, so the store's "Unable to store"
     * exceptions never fire. Its callers only ever store a body under its
     * own digest or a well-formed list under a metadata key, so it keeps
     * the invariant.
     */
    method Save(key: string, data: Item, overwrite: bool, ttl: Option<int>) returns (ok: bool)
      requires Valid()
      requires overwrite || key !in cache ==> SlotValid(platform, key, Slot(data, ttl))
      modifies this`cache
      ensures Valid()
      ensures ok
      ensures cache == SaveTo(old(cache), key, data, overwrite, ttl)
    {
      if !overwrite && key in cache {
        return true;
      }
      cache := cache[key := Slot(data, ttl)];
      return true;
    }

    method Lookup(request: Request) returns (response: Option<Response>)
      requires Valid()
      modifies this`keyCache
      ensures Valid() && cache == old(cache)
      ensures keyCache == old(keyCache)[request := GenerateCacheKey(platform, request.uri)]
      ensures WellFormed(MetadataAt(cache, GenerateCacheKey(platform, request.uri)))
      ensures response == LookupIn(cache, GenerateCacheKey(platform, request.uri), request.headers)
    {
      var key := GetCacheKey(request);
      var entries := MetadataAt(cache, key);
      if key in cache {
        assert SlotValid(platform, key, cache[key]);
      }
      if entries == [] {
        return None;
      }
      var found := FindMatch(entries, request.headers);
      if found.None? {
        return None;
      }
      var headers := entries[found.value].response;
      var digest := FirstValue(headers, DigestHeader);
      if digest.Some? && digest.value in cache {
        return Some(RestoreResponse(headers, BodyAt(cache, digest.value)));
      }
      return None;
    }

    /**
     * write: stores the body under its digest, then the new metadata list,
     * and returns the key; `stamped` is the response as write leaves it
     * (the source adds X-Content-Digest and Content-Length to the caller's
     * response object).
     */
    method Write(request: Request, response: Response) returns (key: string, stamped: Response)
      requires Valid()
      modifies this
      ensures Valid()
      ensures key == GenerateCacheKey(platform, request.uri)
      ensures keyCache == old(keyCache)[request := key]
      ensures stamped == Response(response.status, StampedHeaders(platform, response), response.body)
      ensures cache == WriteInto(platform, privateHeaders, old(cache), key, request.headers, response)
    {
      key := GetCacheKey(request);
      var storedEnv := request.headers;

      var digest := ContentDigest(platform, response.body);
      var headers := response.headers[DigestHeader := [digest]];

      var ok := Save(digest, Body(response.body), false, Some(EntityTtl(platform.ttl(headers))));

      if "transfer-encoding" !in headers {
        headers := headers["content-length" := [NatToDecimal(|response.body|)]];
      }

      var vary := FirstValue(headers, VaryHeader);
      var previous := MetadataAt(cache, key);
      if key in cache {
        assert SlotValid(platform, key, cache[key]);
      }
      SurvivorsShape(previous, vary, storedEnv);
      var entries := KeepUnsuperseded(previous, vary, storedEnv);

      stamped := Response(response.status, headers, response.body);
      var stored := StripPrivate(PersistResponse(stamped), privateHeaders);
      StrippedShape(PersistResponse(stamped), privateHeaders);

      WellFormedCons(Entry(storedEnv, stored), entries);
      entries := [Entry(storedEnv, stored)] + entries;

      ok := Save(key, Meta(entries), true, platform.ttl(headers));
    }

    /** invalidate: expires the fresh entries and writes the list back only if one was fresh. */
    method Invalidate(request: Request)
      requires Valid()
      modifies this
      ensures Valid()
      ensures keyCache == old(keyCache)[request := GenerateCacheKey(platform, request.uri)]
      ensures WellFormed(MetadataAt(old(cache), GenerateCacheKey(platform, request.uri)))
      ensures cache == InvalidateIn(platform, old(cache), GenerateCacheKey(platform, request.uri))
    {
      var key := GetCacheKey(request);
      InvalidateKeepsValid(platform, cache, key);
      var entries, modified := ExpireFresh(platform, MetadataAt(cache, key));
      if modified {
        var ok := Save(key, Meta(entries), true, None);
      }
    }

    /** lock: always reports the lock as acquired (no mutual exclusion is provided). */
    method Lock(request: Request) returns (acquired: bool)
      ensures acquired
    {
      return true;
    }

    /** unlock: always reports success. */
    method Unlock(request: Request) returns (released: bool)
      ensures released
    {
      return true;
    }

    /** isLocked: always reports "not locked". */
    method IsLocked(request: Request) returns (locked: bool)
      ensures !locked
    {
      return false;
    }

    /** cleanup: nothing to do; expiry is left to the pool. */
    method Cleanup()
      ensures cache == old(cache) && keyCache == old(keyCache)
    {
    }

    /** purge: deletes the metadata of both the http: and the https: form of the URL. */
    method Purge(url: string) returns (purged: bool)
      requires Valid()
      modifies this
      ensures Valid()
      ensures purged == (PurgeKey(platform, HttpVariant(url)) in old(cache)
                         || PurgeKey(platform, HttpsVariant(url)) in old(cache))
      ensures cache == PurgeFrom(platform, old(cache), url)
      ensures forall r :: r in old(keyCache) ==> r in keyCache && keyCache[r] == old(keyCache)[r]
    {
      var http := HttpVariant(url);
      var https := HttpsVariant(url);

      var purgedHttp := DoPurge(http);
      var purgedHttps := DoPurge(https);

      purged := purgedHttp || purgedHttps;
      PurgeKeepsValid(platform, old(cache), url);
    }

    /** doPurge: deletes the metadata key of a synthetic request for the URL, if present. */
    method DoPurge(url: string) returns (purged: bool)
      requires Valid()
      modifies this
      ensures Valid()
      ensures purged == (PurgeKey(platform, url) in old(cache))
      ensures cache == old(cache) - {PurgeKey(platform, url)}
      ensures forall r :: r in old(keyCache) ==> r in keyCache && keyCache[r] == old(keyCache)[r]
    {
      var request := new Request(platform.requestUri(url), map[]);
      var key := GetCacheKey(request);
      if key in cache {
        cache := cache - {key};
        return true;
      }
      return false;
    }
  }
}
