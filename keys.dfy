/** The two kinds of backend key: metadata keys and content-addressed entity keys. */
module Keys {
  import opened Foreign

  /** Keys of the entity store begin with "en". */
  predicate IsEntityKey(k: string) {
    |k| >= 2 && k[0] == 'e' && k[1] == 'n'
  }

  /** generateCacheKey: "md" followed by the SHA-256 of the request URI. */
  function GenerateCacheKey(p: Platform, uri: string): (k: string)
    ensures !IsEntityKey(k)
    ensures |k| >= 2 && k[..2] == "md" && k[2..] == p.sha256(uri)
  {
    "md" + p.sha256(uri)
  }

  /** generateContentDigest: "en" followed by the SHA-256 of the body. */
  function ContentDigest(p: Platform, body: string): (d: string)
    ensures IsEntityKey(d)
    ensures d[..2] == "en" && d[2..] == p.sha256(body)
  {
    "en" + p.sha256(body)
  }

  /** A metadata key never names an entity, so the two stores never overwrite each other. */
  lemma KeysDisjoint(p: Platform, uri: string, body: string)
    ensures GenerateCacheKey(p, uri) != ContentDigest(p, body)
  {
  }

  /** With a collision-free hash, equal digests mean byte-identical bodies. */
  lemma ContentDigestInjective(p: Platform, a: string, b: string)
    requires Injective(p.sha256)
    ensures ContentDigest(p, a) == ContentDigest(p, b) <==> a == b
  {
    if ContentDigest(p, a) == ContentDigest(p, b) {
      assert p.sha256(a) == ContentDigest(p, a)[2..] == ContentDigest(p, b)[2..] == p.sha256(b);
    }
  }

  /** With a collision-free hash, equal cache keys mean equal URIs. */
  lemma CacheKeyInjective(p: Platform, u: string, v: string)
    requires Injective(p.sha256)
    ensures GenerateCacheKey(p, u) == GenerateCacheKey(p, v) <==> u == v
  {
    if GenerateCacheKey(p, u) == GenerateCacheKey(p, v) {
      assert p.sha256(u) == GenerateCacheKey(p, u)[2..] == GenerateCacheKey(p, v)[2..] == p.sha256(v);
    }
  }
}
