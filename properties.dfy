/**
 * What lookup, write, invalidate and purge promise, proved about their
 * effect on the pool.
 */
module Properties {
  import opened Wrappers
  import opened Decimal
  import opened Headers
  import opened Vary
  import opened Foreign
  import opened Keys
  import opened Metadata
  import opened Pool

  // ---------------------------------------------------------------------
  // save / load / getMetadata

  /** A save is read back by load unless it was a non-overwriting save onto an existing item. */
  lemma SaveThenLoad(pool: Pool, key: string, item: Item, overwrite: bool, ttl: Option<int>)
    ensures Load(SaveTo(pool, key, item, overwrite, ttl), key)
      == if !overwrite && key in pool then Load(pool, key) else Some(item)
    ensures overwrite ==>
      MetadataAt(SaveTo(pool, key, item, overwrite, ttl), key) == (if item.Meta? then item.entries else [])
  {
  }

  // ---------------------------------------------------------------------
  // lookup

  /**
   * Lookup serves the first (newest) entry that matches the request under
   * its own Vary, and only if that entry's digest is in the pool; when no
   * entry matches it is a miss.
   */
  lemma LookupServesFirstMatch(pool: Pool, key: string, env: Headers, es: seq<Entry>, i: nat)
    requires es == MetadataAt(pool, key) && WellFormed(es)
    requires i < |es| && EntryMatches(es[i], env)
    requires forall j :: 0 <= j < i ==> !EntryMatches(es[j], env)
    ensures LookupIn(pool, key, env)
      == if DigestOf(es[i]).Some? && DigestOf(es[i]).value in pool
         then Some(RestoreResponse(es[i].response, BodyAt(pool, DigestOf(es[i]).value)))
         else None
  {
    assert FirstMatching(es, env) == Some(i);
  }

  lemma LookupMissesWithoutMatch(pool: Pool, key: string, env: Headers)
    requires WellFormed(MetadataAt(pool, key))
    requires forall j :: 0 <= j < |MetadataAt(pool, key)| ==> !EntryMatches(MetadataAt(pool, key)[j], env)
    ensures LookupIn(pool, key, env) == None
  {
    assert FirstMatching(MetadataAt(pool, key), env) == None;
  }

  // ---------------------------------------------------------------------
  // write

  /**
   * The stored response headers never hold `age` or a private header; they
   * hold X-Status with the status code and, unless configured private, the
   * content digest and (for a body not sent chunked) its length; every other
   * header of the response is kept as it was.
   */
  lemma {:induction false} StoredHeadersShape(p: Platform, privateHeaders: seq<string>, resp: Response)
    ensures var s := StoredHeaders(p, privateHeaders, resp);
      && "age" !in s
      && (forall i :: 0 <= i < |privateHeaders| ==> Lower(privateHeaders[i]) !in s)
      && StatusHeader in s && s[StatusHeader] == [NatToDecimal(resp.status)]
      && (DigestHeader !in PrivateKeys(privateHeaders) ==>
            DigestHeader in s && s[DigestHeader] == [ContentDigest(p, resp.body)])
      && ("transfer-encoding" !in resp.headers && "content-length" !in PrivateKeys(privateHeaders) ==>
            "content-length" in s && s["content-length"] == [NatToDecimal(|resp.body|)])
      && (forall k ::
            (k in resp.headers && k != "age" && k != StatusHeader && k != DigestHeader
             && k != "content-length" && k !in PrivateKeys(privateHeaders))
            ==> k in s && s[k] == resp.headers[k])
  {
    var stamped := StampedHeaders(p, resp);
    var persisted := PersistResponse(Response(resp.status, stamped, resp.body));
    StrippedShape(persisted, privateHeaders);
    assert DigestHeader in stamped && stamped[DigestHeader] == [ContentDigest(p, resp.body)];
    assert DigestHeader != StatusHeader && "content-length" != StatusHeader && "age" != StatusHeader;
  }

  /**
   * Write leaves under the request's key the new entry followed by the old
   * entries it does not supersede (so at most one more entry than before),
   * saved with the response's own TTL.
   */
  lemma WriteList(p: Platform, privateHeaders: seq<string>, pool: Pool, uri: string, env: Headers, resp: Response)
    ensures var key := GenerateCacheKey(p, uri);
      var after := WriteInto(p, privateHeaders, pool, key, env, resp);
      && key in after
      && MetadataAt(after, key) == WrittenList(p, privateHeaders, MetadataAt(pool, key), env, resp)
      && |MetadataAt(after, key)| <= |MetadataAt(pool, key)| + 1
      && MetadataAt(after, key)[0] == Entry(env, StoredHeaders(p, privateHeaders, resp))
      && (forall j :: 1 <= j < |MetadataAt(after, key)| ==>
            !Superseded(MetadataAt(after, key)[j], FirstValue(StampedHeaders(p, resp), VaryHeader), env))
      && after[key].ttl == p.ttl(StampedHeaders(p, resp))
  {
    var key := GenerateCacheKey(p, uri);
    KeysDisjoint(p, uri, resp.body);
    SurvivorsShape(MetadataAt(pool, key), FirstValue(StampedHeaders(p, resp), VaryHeader), env);
  }

  /**
   * Write stores the body under its digest without overwriting an existing
   * entity, and changes no key other than the digest and the request's key.
   */
  lemma WriteEntity(p: Platform, privateHeaders: seq<string>, pool: Pool, uri: string, env: Headers, resp: Response)
    ensures var key := GenerateCacheKey(p, uri);
      var digest := ContentDigest(p, resp.body);
      var after := WriteInto(p, privateHeaders, pool, key, env, resp);
      && digest in after
      && (digest in pool ==> after[digest] == pool[digest])
      && (digest !in pool ==>
            after[digest] == Slot(Body(resp.body), Some(EntityTtl(p.ttl(resp.headers[DigestHeader := [digest]])))))
      && (forall k :: k != key && k != digest ==> (k in after <==> k in pool))
      && (forall k :: k != key && k != digest && k in after ==> after[k] == pool[k])
  {
    KeysDisjoint(p, uri, resp.body);
  }

  /** Write keeps the pool invariant. */
  lemma WriteKeepsValid(p: Platform, privateHeaders: seq<string>, pool: Pool, uri: string, env: Headers, resp: Response)
    requires PoolValid(p, pool)
    ensures PoolValid(p, WriteInto(p, privateHeaders, pool, GenerateCacheKey(p, uri), env, resp))
  {
    var key := GenerateCacheKey(p, uri);
    var after := WriteInto(p, privateHeaders, pool, key, env, resp);
    KeysDisjoint(p, uri, resp.body);
    StoredHeadersShape(p, privateHeaders, resp);
    var list := WrittenList(p, privateHeaders, MetadataAt(pool, key), env, resp);
    assert WellFormed(MetadataAt(pool, key));
    SurvivorsShape(MetadataAt(pool, key), FirstValue(StampedHeaders(p, resp), VaryHeader), env);
    assert WellFormed(list);
    forall k | k in after
      ensures SlotValid(p, k, after[k])
    {
      if k == key {
        assert after[k].item == Meta(list);
      }
    }
  }

  /**
   * The write/lookup round trip: right after write, a lookup with the same
   * request environment hits, with the written status and the stored
   * headers, and a body with the written body's digest, which is the
   * written body itself when the hash is collision-free.
   */
  lemma WriteThenLookup(p: Platform, privateHeaders: seq<string>, pool: Pool, uri: string, env: Headers, resp: Response)
    requires PoolValid(p, pool)
    requires DigestHeader !in PrivateKeys(privateHeaders)
    ensures var key := GenerateCacheKey(p, uri);
      var after := WriteInto(p, privateHeaders, pool, key, env, resp);
      && WellFormed(MetadataAt(after, key))
      && LookupIn(after, key, env).Some?
      && LookupIn(after, key, env).value.status == resp.status
      && LookupIn(after, key, env).value.headers == StoredHeaders(p, privateHeaders, resp) - {StatusHeader}
      && ContentDigest(p, LookupIn(after, key, env).value.body) == ContentDigest(p, resp.body)
      && (Injective(p.sha256) ==> LookupIn(after, key, env).value.body == resp.body)
  {
    var key := GenerateCacheKey(p, uri);
    var digest := ContentDigest(p, resp.body);
    var after := WriteInto(p, privateHeaders, pool, key, env, resp);
    WriteKeepsValid(p, privateHeaders, pool, uri, env, resp);
    WriteList(p, privateHeaders, pool, uri, env, resp);
    WriteEntity(p, privateHeaders, pool, uri, env, resp);
    StoredHeadersShape(p, privateHeaders, resp);
    var es := MetadataAt(after, key);
    var stored := StoredHeaders(p, privateHeaders, resp);
    assert es[0] == Entry(env, stored);
    assert WellFormed(es) by {
      assert after[key].item == Meta(es);
      assert SlotValid(p, key, after[key]);
    }
    RequestsMatchReflexive(EntryVary(es[0]), env);
    assert DigestOf(es[0]) == Some(digest);
    LookupServesFirstMatch(after, key, env, es, 0);
    var body := BodyAt(after, digest);
    assert ContentDigest(p, body) == digest by {
      if digest in pool {
        assert SlotValid(p, digest, pool[digest]);
        assert after[digest].item == pool[digest].item;
      }
    }
    if Injective(p.sha256) {
      ContentDigestInjective(p, body, resp.body);
    }
    DecimalRoundTrip(resp.status);
  }

  // ---------------------------------------------------------------------
  // invalidate

  lemma {:induction false} ExpireAllNoFresh(p: Platform, es: seq<Entry>)
    requires WellFormed(es) && !AnyFresh(p, es)
    ensures ExpireAll(p, es) == es
  {
    var r := ExpireAll(p, es);
    ExpireAllShape(p, es);
    assert forall i :: 0 <= i < |es| ==> r[i] == es[i];
  }

  /**
   * Invalidate leaves under the key the expired list (same length, order and
   * stored requests), writes the pool only when some entry was fresh and
   * then with the default TTL, and changes no other key.
   */
  lemma InvalidateEffect(p: Platform, pool: Pool, key: string)
    requires WellFormed(MetadataAt(pool, key))
    ensures var es := MetadataAt(pool, key);
      var after := InvalidateIn(p, pool, key);
      && MetadataAt(after, key) == ExpireAll(p, es)
      && (!AnyFresh(p, es) ==> after == pool)
      && (AnyFresh(p, es) ==> key in after && after[key] == Slot(Meta(ExpireAll(p, es)), None))
      && (forall k :: k != key ==> (k in after <==> k in pool))
      && (forall k :: k != key && k in after ==> after[k] == pool[k])
  {
    var es := MetadataAt(pool, key);
    if !AnyFresh(p, es) {
      ExpireAllNoFresh(p, es);
    }
  }

  /** Invalidate keeps the pool invariant. */
  lemma InvalidateKeepsValid(p: Platform, pool: Pool, key: string)
    requires PoolValid(p, pool)
    ensures WellFormed(MetadataAt(pool, key))
    ensures PoolValid(p, InvalidateIn(p, pool, key))
  {
    var es := MetadataAt(pool, key);
    if key in pool {
      assert SlotValid(p, key, pool[key]);
    }
    if AnyFresh(p, es) {
      assert key in pool && pool[key].item.Meta?;
      assert SlotValid(p, key, pool[key]);
      ExpireAllShape(p, es);
      var after := InvalidateIn(p, pool, key);
      forall k | k in after
        ensures SlotValid(p, k, after[k])
      {
        if k != key {
          assert SlotValid(p, k, pool[k]);
        }
      }
    }
  }

  // ---------------------------------------------------------------------
  // purge

  /** Purging the http: or the https: form of a URL names the same two variants. */
  lemma SchemeVariants(rest: string)
    ensures HttpVariant("http:" + rest) == "http:" + rest
    ensures HttpVariant("https:" + rest) == "http:" + rest
    ensures HttpsVariant("http:" + rest) == "https:" + rest
    ensures HttpsVariant("https:" + rest) == "https:" + rest
  {
    assert ("https:" + rest)[..6] == "https:" && ("https:" + rest)[6..] == rest;
    assert ("http:" + rest)[..5] == "http:" && ("http:" + rest)[5..] == rest;
    assert ("https:" + rest)[..5] != "http:" by {
      assert ("https:" + rest)[4] == 's';
    }
    if |"http:" + rest| >= 6 {
      assert ("http:" + rest)[..6] != "https:" by {
        assert ("http:" + rest)[4] == ':';
      }
    }
  }

  /** A URL with any other scheme is purged under one form only. */
  lemma OtherSchemeVariants(url: string)
    requires !(|url| >= 5 && url[..5] == "http:") && !(|url| >= 6 && url[..6] == "https:")
    ensures HttpVariant(url) == url && HttpsVariant(url) == url
  {
  }

  /**
   * After purge neither variant's metadata key is present, so a lookup
   * through either key misses; every other item, entity bodies included,
   * is unchanged.
   */
  lemma PurgeEffect(p: Platform, pool: Pool, url: string, env: Headers)
    ensures var after := PurgeFrom(p, pool, url);
      var k1 := PurgeKey(p, HttpVariant(url));
      var k2 := PurgeKey(p, HttpsVariant(url));
      && k1 !in after && k2 !in after
      && MetadataAt(after, k1) == [] && MetadataAt(after, k2) == []
      && LookupIn(after, k1, env) == None && LookupIn(after, k2, env) == None
      && (forall k :: k != k1 && k != k2 ==> (k in after <==> k in pool))
      && (forall k :: k != k1 && k != k2 && k in after ==> after[k] == pool[k])
  {
  }

  /** Purging "http:..." and purging "https:..." have the same effect. */
  lemma PurgeSymmetric(p: Platform, pool: Pool, rest: string)
    ensures PurgeFrom(p, pool, "http:" + rest) == PurgeFrom(p, pool, "https:" + rest)
  {
    SchemeVariants(rest);
  }

  lemma PurgeKeepsValid(p: Platform, pool: Pool, url: string)
    requires PoolValid(p, pool)
    ensures PoolValid(p, PurgeFrom(p, pool, url))
  {
  }

  // ---------------------------------------------------------------------
  // A Vary scenario

  function VaryingResponse(body: string): Response {
    Response(200, map[VaryHeader := ["X"]], body)
  }

  /**
   * An entry stored with `Vary: X` is superseded by, and serves, exactly the
   * requests whose X header agrees with that of the entry's own request.
   */
  lemma SingleNameVary(e: Entry, env: Headers)
    requires VaryHeader in e.response && e.response[VaryHeader] == ["X"]
    ensures HasVary(e) && WithDefaultVary(e) == e
    ensures Superseded(e, Some("X"), env) <==> Get(e.request, "x") == Get(env, "x")
    ensures EntryMatches(e, env) <==> Get(env, "x") == Get(e.request, "x")
  {
    SplitToken("X");
    assert NormalizeName("X") == "x";
    assert Join(["X"], ", ") == "X";
  }

  /**
   * With a Vary header of two values, write compares only the first while
   * lookup uses both. A new response with `Vary: A, B` for a request that
   * agrees with an old entry's request on A but not on B drops that entry,
   * and the new entry does not serve the old entry's request.
   */
  lemma {:induction false} MultiValueVary(earlier: Entry, later: Entry, env: Headers, a: string, b: string)
    requires a != "" && b != "" && SeparatorFree(a) && SeparatorFree(b)
    requires VaryHeader in earlier.response && earlier.response[VaryHeader] == [a, b]
    requires later.request == env && VaryHeader in later.response && later.response[VaryHeader] == [a, b]
    requires Get(earlier.request, NormalizeName(a)) == Get(env, NormalizeName(a))
    requires Get(earlier.request, NormalizeName(b)) != Get(env, NormalizeName(b))
    ensures Superseded(earlier, Some(a), env)
    ensures EntryMatches(earlier, earlier.request) && !EntryMatches(later, earlier.request)
  {
    RequestsMatchReflexive(EntryVary(earlier), earlier.request);
    if a != "0" {
      assert Join([a], ", ") == a;
      RequestsMatchNames([a], earlier.request, env);
    }
    var names := [a, b];
    assert Join(names, ", ") == a + ", " + b by {
      assert names[1..] == [b];
    }
    assert EntryVary(later) == Join(names, ", ");
    RequestsMatchNames(names, earlier.request, env);
    assert Get(earlier.request, NormalizeName(names[1])) != Get(env, NormalizeName(names[1]));
  }

  /** A `Vary: X` response is stored with its Vary header and its status. */
  lemma VaryingStored(p: Platform, privateHeaders: seq<string>, b: string)
    requires VaryHeader !in PrivateKeys(privateHeaders)
    ensures var s := StoredHeaders(p, privateHeaders, VaryingResponse(b));
      VaryHeader in s && s[VaryHeader] == ["X"] && HasStatus(s)
    ensures FirstValue(StampedHeaders(p, VaryingResponse(b)), VaryHeader) == Some("X")
  {
    StoredHeadersShape(p, privateHeaders, VaryingResponse(b));
  }

  /** Write over a single `Vary: X` entry keeps it exactly when the X headers differ. */
  lemma VaryOverOne(e: Entry, env: Headers)
    requires VaryHeader in e.response && e.response[VaryHeader] == ["X"]
    ensures Survivors([e], Some("X"), env) == if Get(e.request, "x") == Get(env, "x") then [] else [e]
  {
    SingleNameVary(e, env);
    assert Survivors([e], Some("X"), env) == KeptPart(e, Some("X"), env) + Survivors([], Some("X"), env);
  }

  /**
   * Two writes of a response with `Vary: X` for requests whose X headers
   * differ (X=1 and X=2, say) keep two entries, newest first; a third write
   * for the first request replaces that request's entry and keeps the other.
   * (WriteList shows that these are the lists write leaves in the pool.)
   */
  lemma VaryScenario(p: Platform, privateHeaders: seq<string>, b1: string, b2: string, b3: string,
                     x1: Headers, x2: Headers, l1: seq<Entry>, l2: seq<Entry>, l3: seq<Entry>)
    requires VaryHeader !in PrivateKeys(privateHeaders)
    requires Get(x1, "x") != Get(x2, "x")
    requires l1 == WrittenList(p, privateHeaders, [], x1, VaryingResponse(b1))
    requires l2 == WrittenList(p, privateHeaders, l1, x2, VaryingResponse(b2))
    requires l3 == WrittenList(p, privateHeaders, l2, x1, VaryingResponse(b3))
    ensures |l2| == 2 && l2[0].request == x2 && l2[1] == l1[0] && l1[0].request == x1
    ensures |l3| == 2 && l3[0].request == x1 && l3[1] == l2[0]
  {
    var vary := Some("X");
    var e1 := Entry(x1, StoredHeaders(p, privateHeaders, VaryingResponse(b1)));
    var e2 := Entry(x2, StoredHeaders(p, privateHeaders, VaryingResponse(b2)));
    VaryingStored(p, privateHeaders, b1);
    VaryingStored(p, privateHeaders, b2);
    VaryingStored(p, privateHeaders, b3);
    assert l1 == [e1];
    VaryOverOne(e1, x2);
    assert l2 == [e2, e1];
    VaryOverOne(e2, x1);
    VaryOverOne(e1, x1);
    SurvivorsAppend([e2], [e1], vary, x1);
    assert [e2] + [e1] == l2;
  }

  /**
   * In the two-entry list, each request is served the entry written for it:
   * the lookup scan does not stop at the other request's entry.
   */
  lemma VaryLookups(e2: Entry, e1: Entry, x1: Headers, x2: Headers)
    requires Get(x1, "x") != Get(x2, "x")
    requires e1.request == x1 && e2.request == x2
    requires VaryHeader in e1.response && e1.response[VaryHeader] == ["X"]
    requires VaryHeader in e2.response && e2.response[VaryHeader] == ["X"]
    ensures FirstMatching([e2, e1], x2) == Some(0)
    ensures FirstMatching([e2, e1], x1) == Some(1)
  {
    SingleNameVary(e1, x1);
    SingleNameVary(e2, x1);
    SingleNameVary(e2, x2);
    var es := [e2, e1];
    assert !EntryMatches(es[0], x1) && EntryMatches(es[1], x1);
    var m := FirstMatching(es, x1);
    assert m.Some? && m.value != 0;
  }
}
