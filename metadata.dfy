/**
 * Metadata entries: the (request headers, response headers) pairs kept
 * newest first under one cache key, and the list operations lookup, write
 * and invalidate perform on them.
 */
module Metadata {
  import opened Wrappers
  import opened Decimal
  import opened Headers
  import opened Vary
  import opened Foreign

  /** One cached representation: the stored request environment and the stored response headers. */
  datatype Entry = Entry(request: Headers, response: Headers)

  /** A response as the kernel sees it: status code, header bag and body. */
  datatype Response = Response(status: nat, headers: Headers, body: string)

  /** The synthetic header persistResponse adds; it keeps its mixed case, unlike header-bag names. */
  const StatusHeader: string := "X-Status"
  const DigestHeader: string := "x-content-digest"
  const VaryHeader: string := "vary"

  predicate HasStatus(h: Headers) {
    StatusHeader in h && |h[StatusHeader]| > 0
  }

  predicate WellFormed(es: seq<Entry>) {
    forall i :: 0 <= i < |es| ==> HasStatus(es[i].response)
  }

  /** Putting an entry that carries X-Status in front of a well-formed list keeps it well formed. */
  lemma WellFormedCons(e: Entry, es: seq<Entry>)
    requires HasStatus(e.response) && WellFormed(es)
    ensures WellFormed([e] + es)
  {
  }

  // ---------------------------------------------------------------------
  // persistResponse / restoreResponse

  /** persistResponse: the response's headers plus X-Status holding its status code. */
  function PersistResponse(r: Response): (h: Headers)
    ensures HasStatus(h) && h[StatusHeader] == [NatToDecimal(r.status)]
  {
    r.headers[StatusHeader := [NatToDecimal(r.status)]]
  }

  /** Persisting adds X-Status and changes no other header. */
  lemma PersistShape(r: Response)
    ensures var h := PersistResponse(r);
      && h.Keys == r.headers.Keys + {StatusHeader}
      && (forall k :: k in r.headers && k != StatusHeader ==> h[k] == r.headers[k])
  {
  }

  function StoredStatus(h: Headers): nat
    requires HasStatus(h)
  {
    DecimalValue(h[StatusHeader][0])
  }

  /** restoreResponse: status from X-Status[0], X-Status dropped from the headers, the given body. */
  function RestoreResponse(h: Headers, content: string): (r: Response)
    requires HasStatus(h)
    ensures StatusHeader !in r.headers
    ensures r.status == StoredStatus(h) && r.body == content
  {
    Response(StoredStatus(h), h - {StatusHeader}, content)
  }

  /** Restoring keeps every header except X-Status, with its values. */
  lemma RestoreShape(h: Headers, content: string)
    requires HasStatus(h)
    ensures var r := RestoreResponse(h, content);
      && (forall k :: k in h && k != StatusHeader <==> k in r.headers)
      && (forall k :: k in r.headers ==> r.headers[k] == h[k])
  {
  }

  /** Restoring persisted headers gives back the status and every other header. */
  lemma RestorePersisted(r: Response, content: string)
    ensures RestoreResponse(PersistResponse(r), content)
      == Response(r.status, r.headers - {StatusHeader}, content)
  {
    DecimalRoundTrip(r.status);
    assert PersistResponse(r) - {StatusHeader} == r.headers - {StatusHeader};
  }

  // ---------------------------------------------------------------------
  // lookup: the first entry whose stored request matches

  /** The Vary value lookup uses for an entry: its vary values joined with ", ", or "". */
  function EntryVary(e: Entry): string {
    if VaryHeader in e.response && |e.response[VaryHeader]| > 0
    then Join(e.response[VaryHeader], ", ")
    else ""
  }

  /** Lookup's joined Vary value splits back into the entry's own list of header names. */
  lemma EntryVaryNames(e: Entry)
    requires VaryHeader in e.response && |e.response[VaryHeader]| >= 1
    requires forall i :: 0 <= i < |e.response[VaryHeader]| ==>
      e.response[VaryHeader][i] != "" && SeparatorFree(e.response[VaryHeader][i])
    ensures Split(EntryVary(e)) == e.response[VaryHeader]
  {
    SplitJoin(e.response[VaryHeader]);
  }

  predicate EntryMatches(e: Entry, env: Headers) {
    RequestsMatch(EntryVary(e), env, e.request)
  }

  ghost function FirstMatchingFrom(es: seq<Entry>, env: Headers, i: nat): (m: Option<nat>)
    requires i <= |es|
    ensures m.Some? ==> i <= m.value < |es| && EntryMatches(es[m.value], env)
    ensures m.Some? ==> forall j :: i <= j < m.value ==> !EntryMatches(es[j], env)
    ensures m.None? ==> forall j :: i <= j < |es| ==> !EntryMatches(es[j], env)
    decreases |es| - i
  {
    if i == |es| then None
    else if EntryMatches(es[i], env) then Some(i)
    else FirstMatchingFrom(es, env, i + 1)
  }

  /** The index of the first (newest) entry that matches the request, if any. */
  ghost function FirstMatching(es: seq<Entry>, env: Headers): (m: Option<nat>)
    ensures m.Some? ==> m.value < |es| && EntryMatches(es[m.value], env)
    ensures m.Some? ==> forall j :: 0 <= j < m.value ==> !EntryMatches(es[j], env)
    ensures m.None? ==> forall j :: 0 <= j < |es| ==> !EntryMatches(es[j], env)
  {
    FirstMatchingFrom(es, env, 0)
  }

  /** The scan in lookup: stops at the first entry that matches under its own Vary. */
  method FindMatch(es: seq<Entry>, env: Headers) returns (m: Option<nat>)
    ensures m == FirstMatching(es, env)
  {
    var i := 0;
    while i < |es|
      invariant 0 <= i <= |es|
      invariant FirstMatchingFrom(es, env, i) == FirstMatching(es, env)
    {
      if EntryMatches(es[i], env) {
        return Some(i);
      }
      i := i + 1;
    }
    return None;
  }

  // ---------------------------------------------------------------------
  // write: dropping the entries the new one supersedes

  predicate HasVary(e: Entry) {
    VaryHeader in e.response && |e.response[VaryHeader]| > 0
  }

  /** `$entry[1]['vary'][0]`, after write has defaulted a missing value to ''. */
  function VaryHead(e: Entry): string {
    if HasVary(e) then e.response[VaryHeader][0] else ""
  }

  /** An entry without a vary value is kept with `vary => ['']`. */
  function WithDefaultVary(e: Entry): (d: Entry)
    ensures HasVary(d) && VaryHead(d) == VaryHead(e) && d.request == e.request
    ensures HasStatus(e.response) ==> HasStatus(d.response) && d.response[StatusHeader] == e.response[StatusHeader]
    ensures HasVary(e) ==> d == e
    ensures forall k :: k != VaryHeader ==> (k in d.response <==> k in e.response)
    ensures forall k :: k != VaryHeader && k in e.response ==> d.response[k] == e.response[k]
  {
    if HasVary(e) then e else Entry(e.request, e.response[VaryHeader := [""]])
  }

  /**
   * The new response (first Vary value `vary`, request environment `env`)
   * replaces an old entry when the entry's first vary value equals the new
   * one (PHP's loose comparison makes null equal to '') and the entry's
   * stored request matches `env` under that Vary.
   */
  predicate Superseded(e: Entry, vary: Option<string>, env: Headers) {
    VaryHead(e) == OrEmpty(vary) && RequestsMatch(OrEmpty(vary), e.request, env)
  }

  /**
   * Writing again for the very request an entry was stored for supersedes
   * that entry exactly when the first vary values agree.
   */
  lemma SameRequestSupersedes(e: Entry, vary: Option<string>)
    ensures Superseded(e, vary, e.request) <==> VaryHead(e) == OrEmpty(vary)
  {
    RequestsMatchReflexive(OrEmpty(vary), e.request);
  }

  function KeptPart(e: Entry, vary: Option<string>, env: Headers): seq<Entry> {
    if Superseded(e, vary, env) then [] else [WithDefaultVary(e)]
  }

  /** The old entries write keeps, in their original order. */
  ghost function Survivors(es: seq<Entry>, vary: Option<string>, env: Headers): seq<Entry> {
    if es == [] then [] else KeptPart(es[0], vary, env) + Survivors(es[1..], vary, env)
  }

  /**
   * Write keeps no more entries than there were, each with a vary value and
   * none superseded by the new response, and each still carrying X-Status.
   */
  lemma {:induction false} SurvivorsShape(es: seq<Entry>, vary: Option<string>, env: Headers)
    ensures var r := Survivors(es, vary, env);
      && |r| <= |es|
      && (forall j :: 0 <= j < |r| ==> HasVary(r[j]) && !Superseded(r[j], vary, env))
      && (WellFormed(es) ==> WellFormed(r))
  {
    if es != [] {
      SurvivorsShape(es[1..], vary, env);
      var head := KeptPart(es[0], vary, env);
      var r := Survivors(es, vary, env);
      assert r == head + Survivors(es[1..], vary, env);
      if head != [] {
        assert VaryHead(WithDefaultVary(es[0])) == VaryHead(es[0]);
      }
    }
  }

  lemma {:induction false} SurvivorsAppend(a: seq<Entry>, b: seq<Entry>, vary: Option<string>, env: Headers)
    ensures Survivors(a + b, vary, env) == Survivors(a, vary, env) + Survivors(b, vary, env)
  {
    if a == [] {
      assert a + b == b;
    } else {
      assert (a + b)[0] == a[0];
      assert (a + b)[1..] == a[1..] + b;
      SurvivorsAppend(a[1..], b, vary, env);
    }
  }

  /**
   * Entry `i` contributes, at its own place, itself (with the default vary)
   * exactly when the new response does not supersede it, and nothing otherwise.
   */
  lemma SurvivorsAt(es: seq<Entry>, i: nat, vary: Option<string>, env: Headers)
    requires i < |es|
    ensures Survivors(es, vary, env)
      == Survivors(es[..i], vary, env) + KeptPart(es[i], vary, env) + Survivors(es[i + 1..], vary, env)
  {
    assert es == es[..i] + ([es[i]] + es[i + 1..]);
    SurvivorsAppend(es[..i], [es[i]] + es[i + 1..], vary, env);
    SurvivorsAppend([es[i]], es[i + 1..], vary, env);
    assert Survivors([es[i]], vary, env) == KeptPart(es[i], vary, env) + Survivors([], vary, env);
  }

  lemma SurvivorsStep(es: seq<Entry>, i: nat, vary: Option<string>, env: Headers)
    requires i < |es|
    ensures Survivors(es[..i + 1], vary, env) == Survivors(es[..i], vary, env) + KeptPart(es[i], vary, env)
  {
    assert es[..i + 1] == es[..i] + [es[i]];
    SurvivorsAppend(es[..i], [es[i]], vary, env);
    assert Survivors([es[i]], vary, env) == KeptPart(es[i], vary, env) + Survivors([], vary, env);
  }

  /** The foreach in write that filters the old entries. */
  method KeepUnsuperseded(es: seq<Entry>, vary: Option<string>, env: Headers) returns (kept: seq<Entry>)
    ensures kept == Survivors(es, vary, env)
  {
    kept := [];
    var i := 0;
    while i < |es|
      invariant 0 <= i <= |es|
      invariant kept == Survivors(es[..i], vary, env)
    {
      var entry := es[i];
      if !HasVary(entry) {
        entry := Entry(entry.request, entry.response[VaryHeader := [""]]);
      }
      assert entry == WithDefaultVary(es[i]);
      var keep := entry.response[VaryHeader][0] != OrEmpty(vary) || !RequestsMatch(OrEmpty(vary), entry.request, env);
      assert keep == !Superseded(es[i], vary, env) by {
        assert VaryHead(entry) == VaryHead(es[i]) && entry.request == es[i].request;
      }
      ghost var before := kept;
      if keep {
        kept := kept + [entry];
      }
      assert kept == before + KeptPart(es[i], vary, env);
      SurvivorsStep(es, i, vary, env);
      i := i + 1;
    }
    assert es[..|es|] == es;
  }

  // ---------------------------------------------------------------------
  // write: headers never stored

  /** The lower-cased names of the configured private headers. */
  function PrivateKeys(privateHeaders: seq<string>): set<string> {
    set i | 0 <= i < |privateHeaders| :: Lower(privateHeaders[i])
  }

  /** The persisted response headers with `age` and every private header removed. */
  ghost function Stripped(h: Headers, privateHeaders: seq<string>): Headers {
    h - {"age"} - PrivateKeys(privateHeaders)
  }

  /**
   * Stripping removes `age` and every lower-cased private header and keeps
   * every other header; X-Status always survives, because a lower-cased
   * name is never "X-Status".
   */
  lemma StrippedShape(h: Headers, privateHeaders: seq<string>)
    ensures var r := Stripped(h, privateHeaders);
      && "age" !in r
      && (forall i :: 0 <= i < |privateHeaders| ==> Lower(privateHeaders[i]) !in r)
      && (forall k :: k in r <==> k in h && k != "age" && k !in PrivateKeys(privateHeaders))
      && (forall k :: k in r ==> r[k] == h[k])
      && (StatusHeader in h ==> StatusHeader in r && r[StatusHeader] == h[StatusHeader])
  {
    assert StatusHeader[0] == 'X';
    forall i | 0 <= i < |privateHeaders|
      ensures Lower(privateHeaders[i]) != StatusHeader
    {
      var l := Lower(privateHeaders[i]);
      if |l| > 0 { assert !IsUpper(l[0]); }
    }
  }

  /** `unset($headers['age'])` and the foreach unsetting each lower-cased private header. */
  method StripPrivate(h: Headers, privateHeaders: seq<string>) returns (r: Headers)
    ensures r == Stripped(h, privateHeaders)
  {
    r := h - {"age"};
    var i := 0;
    while i < |privateHeaders|
      invariant 0 <= i <= |privateHeaders|
      invariant r == h - {"age"} - (set j | 0 <= j < i :: Lower(privateHeaders[j]))
    {
      r := r - {Lower(privateHeaders[i])};
      assert (set j | 0 <= j < i + 1 :: Lower(privateHeaders[j]))
        == (set j | 0 <= j < i :: Lower(privateHeaders[j])) + {Lower(privateHeaders[i])};
      i := i + 1;
    }
  }

  // ---------------------------------------------------------------------
  // invalidate: expiring the fresh entries

  /** isFresh() of the response restoreResponse rebuilds from the entry. */
  predicate IsFreshEntry(p: Platform, e: Entry)
    requires HasStatus(e.response)
  {
    p.isFresh(RestoreResponse(e.response, "").headers)
  }

  /** The entry with its response expired and persisted again; the stored request is kept. */
  function Expired(p: Platform, e: Entry): Entry
    requires HasStatus(e.response)
  {
    var restored := RestoreResponse(e.response, "");
    Entry(e.request, PersistResponse(Response(restored.status, p.expire(restored.headers), "")))
  }

  /** One entry as invalidate leaves it: expired when fresh, unchanged otherwise. */
  function ExpireEntry(p: Platform, e: Entry): (d: Entry)
    requires HasStatus(e.response)
    ensures d.request == e.request && HasStatus(d.response)
    ensures StoredStatus(d.response) == StoredStatus(e.response)
  {
    DecimalRoundTrip(StoredStatus(e.response));
    if IsFreshEntry(p, e) then Expired(p, e) else e
  }

  /** The list invalidate writes back. */
  ghost function ExpireAll(p: Platform, es: seq<Entry>): seq<Entry>
    requires WellFormed(es)
  {
    if es == [] then [] else [ExpireEntry(p, es[0])] + ExpireAll(p, es[1..])
  }

  lemma {:induction false} ExpireAllPointwise(p: Platform, es: seq<Entry>)
    requires WellFormed(es)
    ensures |ExpireAll(p, es)| == |es|
    ensures forall i :: 0 <= i < |es| ==> ExpireAll(p, es)[i] == ExpireEntry(p, es[i])
  {
    if es != [] {
      ExpireAllPointwise(p, es[1..]);
      assert forall i :: 1 <= i < |es| ==> es[i] == es[1..][i - 1];
    }
  }

  /**
   * Invalidate keeps the length, the order and every stored request; it
   * leaves entries that are not fresh unchanged and replaces fresh ones by
   * their expired form, which keeps its status code.
   */
  lemma ExpireAllShape(p: Platform, es: seq<Entry>)
    requires WellFormed(es)
    ensures var r := ExpireAll(p, es);
      && |r| == |es| && WellFormed(r)
      && (forall i :: 0 <= i < |es| ==> r[i].request == es[i].request)
      && (forall i :: 0 <= i < |es| && !IsFreshEntry(p, es[i]) ==> r[i] == es[i])
      && (forall i :: 0 <= i < |es| && IsFreshEntry(p, es[i]) ==> r[i] == Expired(p, es[i]))
      && (forall i :: 0 <= i < |es| ==> StoredStatus(r[i].response) == StoredStatus(es[i].response))
  {
    ExpireAllPointwise(p, es);
  }

  /** The foreach in invalidate, with its `$modified` flag. */
  method ExpireFresh(p: Platform, es: seq<Entry>) returns (r: seq<Entry>, modified: bool)
    requires WellFormed(es)
    ensures r == ExpireAll(p, es)
    ensures modified <==> exists i :: 0 <= i < |es| && IsFreshEntry(p, es[i])
  {
    r := [];
    modified := false;
    var i := 0;
    while i < |es|
      invariant 0 <= i <= |es| && |r| == i
      invariant forall j :: 0 <= j < i ==> r[j] == ExpireEntry(p, es[j])
      invariant modified <==> exists j :: 0 <= j < i && IsFreshEntry(p, es[j])
    {
      var entry := es[i];
      var response := RestoreResponse(entry.response, "");
      if p.isFresh(response.headers) {
        modified := true;
        r := r + [Entry(entry.request, PersistResponse(Response(response.status, p.expire(response.headers), "")))];
      } else {
        r := r + [entry];
      }
      i := i + 1;
    }
    ExpireAllPointwise(p, es);
  }
}
