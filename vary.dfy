/**
 * The Vary matcher: whether two request header bags select the same
 * representation under a response's Vary value (CacheStore::requestsMatch).
 */
module Vary {
  import opened Wrappers
  import opened Headers

  /** PHP's empty() on a string: true for "" and for "0". */
  predicate IsEmptyVary(vary: string) {
    vary == "" || vary == "0"
  }

  /** Both bags hold the same value list for the header a Vary token names (or neither holds it). */
  predicate TokenAgrees(token: string, env1: Headers, env2: Headers) {
    Get(env1, NormalizeName(token)) == Get(env2, NormalizeName(token))
  }

  /** The foreach over the Vary tokens, returning false at the first disagreement. */
  function MatchTokens(tokens: seq<string>, env1: Headers, env2: Headers): (r: bool)
    ensures r <==> forall i :: 0 <= i < |tokens| ==> TokenAgrees(tokens[i], env1, env2)
  {
    if tokens == [] then true
    else if !TokenAgrees(tokens[0], env1, env2) then false
    else MatchTokens(tokens[1..], env1, env2)
  }

  /**
   * requestsMatch($vary, $env1, $env2): an empty Vary always matches;
   * otherwise every header the Vary value names must hold identical value
   * lists on both sides, a header absent from both counting as equal.
   */
  function RequestsMatch(vary: string, env1: Headers, env2: Headers): (r: bool)
    ensures IsEmptyVary(vary) ==> r
    ensures !IsEmptyVary(vary) ==>
      (r <==> forall i :: 0 <= i < |Split(vary)| ==> TokenAgrees(Split(vary)[i], env1, env2))
  {
    if IsEmptyVary(vary) then true else MatchTokens(Split(vary), env1, env2)
  }

  /** The two bags play symmetric roles. */
  lemma RequestsMatchSymmetric(vary: string, env1: Headers, env2: Headers)
    ensures RequestsMatch(vary, env1, env2) == RequestsMatch(vary, env2, env1)
  {
  }

  /** Matching is reflexive: a request always matches its own stored headers. */
  lemma RequestsMatchReflexive(vary: string, env: Headers)
    ensures RequestsMatch(vary, env, env)
  {
  }

  /**
   * For a Vary value that lists header names, matching means agreeing on each
   * named header and nothing else: a header the Vary does not name never
   * decides the match.
   */
  lemma {:induction false} RequestsMatchNames(names: seq<string>, env1: Headers, env2: Headers)
    requires |names| >= 1
    requires forall i :: 0 <= i < |names| ==> names[i] != "" && SeparatorFree(names[i])
    requires !IsEmptyVary(Join(names, ", "))
    ensures RequestsMatch(Join(names, ", "), env1, env2) <==>
      forall i :: 0 <= i < |names| ==> Get(env1, NormalizeName(names[i])) == Get(env2, NormalizeName(names[i]))
  {
    SplitJoin(names);
  }
}
