/**
 * The key-value pool the store keeps everything in, and what lookup, write,
 * invalidate and purge do to it, stated as functions of the pool's value.
 */
module Pool {
  import opened Wrappers
  import opened Decimal
  import opened Headers
  import opened Foreign
  import opened Keys
  import opened Metadata

  /** What a pool item holds: an entity body, or a metadata list (kept decoded). */
  datatype Item = Body(content: string) | Meta(entries: seq<Entry>)

  /** An item with the TTL it was saved with; None is the pool's default lifetime. */
  datatype Slot = Slot(item: Item, ttl: Option<int>)

  type Pool = map<string, Slot>

  /**
   * save($key, $data, $overwrite, $ttl): with overwrite off an existing item
   * is left as it is; otherwise the item is replaced and its TTL reset to
   * `ttl` (a null TTL resets it to the pool's default).
   */
  function SaveTo(pool: Pool, key: string, item: Item, overwrite: bool, ttl: Option<int>): (r: Pool)
    ensures key in r
    ensures !overwrite && key in pool ==> r == pool
    ensures overwrite || key !in pool ==> r[key] == Slot(item, ttl)
    ensures forall k :: k != key ==> (k in r <==> k in pool)
    ensures forall k :: k != key && k in r ==> r[k] == pool[k]
  {
    if !overwrite && key in pool then pool else pool[key := Slot(item, ttl)]
  }

  /** load($key): the stored item on a hit, null otherwise. */
  function Load(pool: Pool, key: string): (r: Option<Item>)
    ensures r.Some? <==> key in pool
    ensures r.Some? ==> r.value == pool[key].item
  {
    if key in pool then Some(pool[key].item) else None
  }

  /** getMetadata($key): the entry list under `key`; a miss (or an item that is not a list) gives []. */
  function MetadataAt(pool: Pool, key: string): (es: seq<Entry>)
    ensures key !in pool ==> es == []
    ensures key in pool && pool[key].item.Meta? ==> es == pool[key].item.entries
  {
    match Load(pool, key)
    case Some(Meta(es)) => es
    case _ => []
  }

  /** The body restoreResponse reads: the item under the digest on a hit, '' otherwise. */
  function BodyAt(pool: Pool, digest: string): string {
    match Load(pool, digest)
    case Some(Body(b)) => b
    case _ => ""
  }

  function DigestOf(e: Entry): Option<string> {
    FirstValue(e.response, DigestHeader)
  }

  /**
   * What the store keeps true of its pool: bodies sit under their own
   * content digest, metadata lists never sit under an entity key, and every
   * stored response carries X-Status.
   */
  ghost predicate SlotValid(p: Platform, key: string, s: Slot) {
    match s.item
    case Body(b) => key == ContentDigest(p, b)
    case Meta(es) => !IsEntityKey(key) && WellFormed(es)
  }

  ghost predicate PoolValid(p: Platform, pool: Pool) {
    forall k :: k in pool ==> SlotValid(p, k, pool[k])
  }

  // ---------------------------------------------------------------------
  // lookup

  /**
   * lookup: null when the key has no entries, when no entry matches, or when
   * the matched entry's digest is not in the pool; otherwise the response
   * restored from the first matching entry with the body under its digest.
   */
  ghost function LookupIn(pool: Pool, key: string, env: Headers): (r: Option<Response>)
    requires WellFormed(MetadataAt(pool, key))
    ensures MetadataAt(pool, key) == [] ==> r.None?
    ensures r.Some? ==>
      var es, m := MetadataAt(pool, key), FirstMatching(MetadataAt(pool, key), env);
      m.Some? && DigestOf(es[m.value]).Some? && DigestOf(es[m.value]).value in pool
      && r.value.status == StoredStatus(es[m.value].response) && StatusHeader !in r.value.headers
  {
    var es := MetadataAt(pool, key);
    if es == [] then None
    else
      match FirstMatching(es, env)
      case None => None
      case Some(i) =>
        match DigestOf(es[i])
        case None => None
        case Some(d) => if d in pool then Some(RestoreResponse(es[i].response, BodyAt(pool, d))) else None
  }

  // ---------------------------------------------------------------------
  // write

  /** getTtl() + 1 in PHP, where a null TTL counts as 0. */
  function EntityTtl(ttl: Option<int>): (r: int)
    ensures ttl.None? ==> r == 1
    ensures ttl.Some? ==> r == ttl.value + 1
  {
    (if ttl.Some? then ttl.value else 0) + 1
  }

  /** The response headers after write stamps the digest (and, unless it is chunked, the length). */
  function StampedHeaders(p: Platform, resp: Response): Headers {
    var h := resp.headers[DigestHeader := [ContentDigest(p, resp.body)]];
    if "transfer-encoding" in h then h else h["content-length" := [NatToDecimal(|resp.body|)]]
  }

  /**
   * Write stamps the digest of the body and, unless the response is chunked,
   * its length; every other header is left as it was.
   */
  lemma StampedShape(p: Platform, resp: Response)
    ensures var h := StampedHeaders(p, resp);
      && DigestHeader in h && h[DigestHeader] == [ContentDigest(p, resp.body)]
      && ("transfer-encoding" !in resp.headers ==>
            "content-length" in h && h["content-length"] == [NatToDecimal(|resp.body|)])
      && ("transfer-encoding" in resp.headers ==>
            ("content-length" in h <==> "content-length" in resp.headers))
      && (forall k :: k != DigestHeader && k != "content-length" ==> (k in h <==> k in resp.headers))
      && (forall k :: k != DigestHeader && k != "content-length" && k in resp.headers ==> h[k] == resp.headers[k])
  {
  }

  /** The response headers write stores: persisted, then without age and the private headers. */
  ghost function StoredHeaders(p: Platform, privateHeaders: seq<string>, resp: Response): Headers {
    Stripped(PersistResponse(Response(resp.status, StampedHeaders(p, resp), resp.body)), privateHeaders)
  }

  /** The new metadata list: the new entry first, then the old entries it does not supersede. */
  ghost function WrittenList(p: Platform, privateHeaders: seq<string>, previous: seq<Entry>, env: Headers, resp: Response): seq<Entry> {
    [Entry(env, StoredHeaders(p, privateHeaders, resp))]
      + Survivors(previous, FirstValue(StampedHeaders(p, resp), VaryHeader), env)
  }

  /** The pool after write: the body saved without overwriting, then the new list saved under `key`. */
  ghost function WriteInto(p: Platform, privateHeaders: seq<string>, pool: Pool, key: string, env: Headers, resp: Response): (r: Pool)
    ensures r.Keys == pool.Keys + {key, ContentDigest(p, resp.body)}
    ensures r[key].item.Meta? && |r[key].item.entries| >= 1
  {
    var digest := ContentDigest(p, resp.body);
    var h := resp.headers[DigestHeader := [digest]];
    var withBody := SaveTo(pool, digest, Body(resp.body), false, Some(EntityTtl(p.ttl(h))));
    var list := WrittenList(p, privateHeaders, MetadataAt(withBody, key), env, resp);
    SaveTo(withBody, key, Meta(list), true, p.ttl(StampedHeaders(p, resp)))
  }

  // ---------------------------------------------------------------------
  // invalidate

  ghost predicate AnyFresh(p: Platform, es: seq<Entry>)
    requires WellFormed(es)
  {
    exists i :: 0 <= i < |es| && IsFreshEntry(p, es[i])
  }

  /** invalidate: when some entry is fresh, the expired list is saved with the default TTL; otherwise nothing is written. */
  ghost function InvalidateIn(p: Platform, pool: Pool, key: string): (r: Pool)
    requires WellFormed(MetadataAt(pool, key))
    ensures r.Keys == pool.Keys
    ensures forall k :: k in r && k != key ==> r[k] == pool[k]
  {
    var es := MetadataAt(pool, key);
    if AnyFresh(p, es) then SaveTo(pool, key, Meta(ExpireAll(p, es)), true, None) else pool
  }

  // ---------------------------------------------------------------------
  // purge

  /** preg_replace('#^https:#', 'http:', $url). */
  function HttpVariant(url: string): (r: string)
    ensures !(|r| >= 6 && r[..6] == "https:")
    ensures |r| >= |url| - 1 && (|url| >= 6 ==> r[|r| - (|url| - 6)..] == url[6..])
  {
    if |url| >= 6 && url[..6] == "https:" then
      assert ("http:" + url[6..])[5..] == url[6..] && ("http:" + url[6..])[4] == ':';
      "http:" + url[6..]
    else url
  }

  /** preg_replace('#^http:#', 'https:', $url). */
  function HttpsVariant(url: string): (r: string)
    ensures !(|r| >= 5 && r[..5] == "http:")
    ensures |url| <= |r| <= |url| + 1 && (|url| >= 5 ==> r[|r| - (|url| - 5)..] == url[5..])
  {
    if |url| >= 5 && url[..5] == "http:" then
      assert ("https:" + url[5..])[6..] == url[5..] && ("https:" + url[5..])[4] == 's';
      "https:" + url[5..]
    else url
  }

  /** The metadata key doPurge computes for a URL, through a synthetic request. */
  function PurgeKey(p: Platform, url: string): string {
    GenerateCacheKey(p, p.requestUri(url))
  }

  /** purge: the metadata of both scheme variants deleted; nothing else touched. */
  ghost function PurgeFrom(p: Platform, pool: Pool, url: string): (r: Pool)
    ensures r.Keys <= pool.Keys
    ensures PurgeKey(p, HttpVariant(url)) !in r && PurgeKey(p, HttpsVariant(url)) !in r
    ensures forall k :: k in r ==> r[k] == pool[k]
  {
    pool - {PurgeKey(p, HttpVariant(url)), PurgeKey(p, HttpsVariant(url))}
  }
}
