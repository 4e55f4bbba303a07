/**
 * The calls the store makes into code outside this model, gathered as
 * function values that a store is built with.
 */
module Foreign {
  import opened Wrappers
  import opened Headers

  datatype Platform = Platform(
    /** hash('sha256', $s): the lower-case hex digest of a string. */
    sha256: string -> string,
    /** Request::create($url)->getUri(): the normalised URI of a synthetic request. */
    requestUri: string -> string,
    /** Response::getTtl() of a response with these headers (null when it has no freshness lifetime). */
    ttl: Headers -> Option<int>,
    /** Response::isFresh() of a response rebuilt from these stored headers. */
    isFresh: Headers -> bool,
    /** The header bag of a response rebuilt from these stored headers after Response::expire(). */
    expire: Headers -> Headers
  )

  /** Distinct inputs give distinct digests (SHA-256 collisions are taken as absent). */
  ghost predicate Injective(f: string -> string) {
    forall a, b :: f(a) == f(b) ==> a == b
  }
}
