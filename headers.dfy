/**
 * Header maps and the string helpers the store applies to header names:
 * PHP's strtolower, str_replace('_', '-', ...), implode(', ', ...) and
 * preg_split('/[\s,]+/', ...).
 */
module Headers {
  import opened Wrappers

  /** A header bag as `$headers->all()` returns it: name => list of values. */
  type Headers = map<string, seq<string>>

  /** `$env[$name] ?? null`. */
  function Get(env: Headers, name: string): (r: Option<seq<string>>)
    ensures r.Some? <==> name in env
    ensures r.Some? ==> r.value == env[name]
  {
    if name in env then Some(env[name]) else None
  }

  /** HeaderBag::get($name): the first value of a header, or null. */
  function FirstValue(h: Headers, name: string): (r: Option<string>)
    ensures r.Some? <==> name in h && |h[name]| > 0
    ensures r.Some? ==> r.value == h[name][0]
  {
    if name in h && |h[name]| > 0 then Some(h[name][0]) else None
  }

  function OrEmpty(v: Option<string>): string {
    if v.Some? then v.value else ""
  }

  // ---------------------------------------------------------------------
  // Case and name normalisation

  function LowerChar(c: char): char {
    if 'A' <= c <= 'Z' then ((c as int) + 32) as char else c
  }

  predicate IsUpper(c: char) { 'A' <= c <= 'Z' }

  /** strtolower, which (since PHP 8.2) folds only ASCII letters. */
  function Lower(s: string): (r: string)
    ensures |r| == |s|
    ensures forall i :: 0 <= i < |s| ==> r[i] == LowerChar(s[i])
    ensures forall i :: 0 <= i < |r| ==> !IsUpper(r[i])
  {
    seq(|s|, i requires 0 <= i < |s| => LowerChar(s[i]))
  }

  function Dashed(c: char): char { if c == '_' then '-' else c }

  /** The array key a Vary token names: str_replace('_', '-', strtolower($token)). */
  function NormalizeName(token: string): (r: string)
    ensures |r| == |token|
    ensures forall i :: 0 <= i < |token| ==> r[i] == Dashed(LowerChar(token[i]))
    ensures forall i :: 0 <= i < |r| ==> !IsUpper(r[i]) && r[i] != '_'
  {
    seq(|token|, i requires 0 <= i < |token| => Dashed(LowerChar(token[i])))
  }

  // ---------------------------------------------------------------------
  // preg_split('/[\s,]+/', $s) and implode(', ', $values)

  /** `[\s,]`: a comma or one of PCRE's ASCII white-space characters. */
  predicate IsSeparator(c: char) {
    c == ',' || c == ' ' || c == '\t' || c == '\n' || c == '\r' || c == '\U{B}' || c == '\U{C}'
  }

  predicate SeparatorFree(s: string) {
    forall i :: 0 <= i < |s| ==> !IsSeparator(s[i])
  }

  /** Skips one maximal run of separators at the front of `s`. */
  function DropSeparators(s: string): (r: string)
    ensures |r| <= |s| && (s != [] && IsSeparator(s[0]) ==> |r| < |s|)
    ensures r == [] || !IsSeparator(r[0])
  {
    if s != [] && IsSeparator(s[0]) then DropSeparators(s[1..]) else s
  }

  /** The characters of `s` that are not separators, in order. */
  function WithoutSeparators(s: string): string {
    if s == [] then []
    else (if IsSeparator(s[0]) then [] else [s[0]]) + WithoutSeparators(s[1..])
  }

  function Concat(ts: seq<string>): string {
    if ts == [] then [] else ts[0] + Concat(ts[1..])
  }

  lemma {:induction false} ConcatAppend(a: seq<string>, b: seq<string>)
    ensures Concat(a + b) == Concat(a) + Concat(b)
  {
    if a == [] {
      assert a + b == b;
    } else {
      assert (a + b)[0] == a[0];
      assert (a + b)[1..] == a[1..] + b;
      ConcatAppend(a[1..], b);
    }
  }

  lemma {:induction false} WithoutSeparatorsSkip(s: string)
    ensures WithoutSeparators(s) == WithoutSeparators(DropSeparators(s))
  {
    if s != [] && IsSeparator(s[0]) {
      WithoutSeparatorsSkip(s[1..]);
    }
  }

  /**
   * Splitting the rest of `s` while `token` has been read so far: a
   * separator run ends the current piece, any other character extends it.
   */
  function SplitFrom(s: string, token: string): seq<string>
    decreases |s|
  {
    if s == [] then [token]
    else if IsSeparator(s[0]) then [token] + SplitFrom(DropSeparators(s), "")
    else SplitFrom(s[1..], token + [s[0]])
  }

  /** preg_split('/[\s,]+/', $s). */
  function Split(s: string): seq<string> {
    SplitFrom(s, "")
  }

  /** Reading a separator run ends the current piece and starts an empty one after the run. */
  lemma SplitFromAtSeparator(s: string, token: string)
    requires s != [] && IsSeparator(s[0])
    ensures SplitFrom(s, token) == [token] + SplitFrom(DropSeparators(s), "")
  {
  }

  /** Every piece is free of separators. */
  lemma {:induction false} SplitFromPiecesFree(s: string, token: string)
    requires SeparatorFree(token)
    ensures forall i :: 0 <= i < |SplitFrom(s, token)| ==> SeparatorFree(SplitFrom(s, token)[i])
    decreases |s|
  {
    if s == [] {
    } else if IsSeparator(s[0]) {
      SplitFromAtSeparator(s, token);
      SplitFromPiecesFree(DropSeparators(s), "");
    } else {
      SplitFromPiecesFree(s[1..], token + [s[0]]);
    }
  }

  /** Only the first and the last piece may be empty; the first is not when a token is under way or `s` starts with one. */
  lemma {:induction false} SplitFromPiecesNonEmpty(s: string, token: string)
    ensures var r := SplitFrom(s, token);
      && |r| >= 1
      && (forall i :: 0 < i < |r| - 1 ==> r[i] != "")
      && (token != "" || (s != [] && !IsSeparator(s[0])) ==> r[0] != "")
    decreases |s|
  {
    if s == [] {
    } else if IsSeparator(s[0]) {
      SplitFromAtSeparator(s, token);
      SplitFromPiecesNonEmpty(DropSeparators(s), "");
    } else {
      SplitFromPiecesNonEmpty(s[1..], token + [s[0]]);
    }
  }

  lemma ConcatCons(t: string, rest: seq<string>)
    ensures Concat([t] + rest) == t + Concat(rest)
  {
    assert ([t] + rest)[0] == t && ([t] + rest)[1..] == rest;
  }

  lemma {:induction false} ConcatSeparatorStep(s: string, token: string)
    requires s != [] && IsSeparator(s[0])
    requires Concat(SplitFrom(DropSeparators(s), "")) == WithoutSeparators(DropSeparators(s))
    ensures Concat(SplitFrom(s, token)) == token + WithoutSeparators(s)
  {
    SplitFromAtSeparator(s, token);
    ConcatCons(token, SplitFrom(DropSeparators(s), ""));
    WithoutSeparatorsSkip(s);
  }

  lemma {:induction false} ConcatTokenStep(s: string, token: string)
    requires s != [] && !IsSeparator(s[0])
    requires Concat(SplitFrom(s[1..], token + [s[0]])) == (token + [s[0]]) + WithoutSeparators(s[1..])
    ensures Concat(SplitFrom(s, token)) == token + WithoutSeparators(s)
  {
    var c, w := s[0], WithoutSeparators(s[1..]);
    calc {
      Concat(SplitFrom(s, token));
      == { SplitFromAtToken(s, token); }
      Concat(SplitFrom(s[1..], token + [c]));
      ==
      (token + [c]) + w;
      == { assert (token + [c]) + w == token + ([c] + w); }
      token + ([c] + w);
      == { WithoutSeparatorsAtToken(s); }
      token + WithoutSeparators(s);
    }
  }

  lemma SplitFromAtToken(s: string, token: string)
    requires s != [] && !IsSeparator(s[0])
    ensures SplitFrom(s, token) == SplitFrom(s[1..], token + [s[0]])
  {
  }

  lemma WithoutSeparatorsAtToken(s: string)
    requires s != [] && !IsSeparator(s[0])
    ensures WithoutSeparators(s) == [s[0]] + WithoutSeparators(s[1..])
  {
  }

  /** Together the pieces hold every non-separator character, in order. */
  lemma {:induction false} SplitFromConcat(s: string, token: string)
    ensures Concat(SplitFrom(s, token)) == token + WithoutSeparators(s)
    decreases |s|
  {
    if s == [] {
      ConcatCons(token, []);
      assert token + [] == token;
    } else if IsSeparator(s[0]) {
      SplitFromConcat(DropSeparators(s), "");
      assert "" + WithoutSeparators(DropSeparators(s)) == WithoutSeparators(DropSeparators(s));
      ConcatSeparatorStep(s, token);
    } else {
      SplitFromConcat(s[1..], token + [s[0]]);
      ConcatTokenStep(s, token);
    }
  }

  /**
   * The pieces are separator-free, only the first and the last may be
   * empty, and together they hold every non-separator character, in order.
   */
  lemma SplitFromShape(s: string, token: string)
    requires SeparatorFree(token)
    ensures var r := SplitFrom(s, token);
      && |r| >= 1
      && (forall i :: 0 <= i < |r| ==> SeparatorFree(r[i]))
      && (forall i :: 0 < i < |r| - 1 ==> r[i] != "")
      && (token != "" || (s != [] && !IsSeparator(s[0])) ==> r[0] != "")
      && Concat(r) == token + WithoutSeparators(s)
  {
    SplitFromPiecesFree(s, token);
    SplitFromPiecesNonEmpty(s, token);
    SplitFromConcat(s, token);
  }

  /** implode($glue, $values): it begins with the first value. */
  function Join(vs: seq<string>, glue: string): (r: string)
    ensures |vs| >= 1 ==> |r| >= |vs[0]| && r[..|vs[0]|] == vs[0]
  {
    if |vs| == 0 then "" else if |vs| == 1 then vs[0] else vs[0] + glue + Join(vs[1..], glue)
  }

  lemma {:induction false} SplitFromPrefix(t: string, x: string, token: string)
    requires SeparatorFree(t) && SeparatorFree(token)
    ensures SplitFrom(t + x, token) == SplitFrom(x, token + t)
    decreases |t|
  {
    if t != [] {
      assert (t + x)[0] == t[0];
      assert (t + x)[1..] == t[1..] + x;
      assert token + t == (token + [t[0]]) + t[1..];
      SplitFromPrefix(t[1..], x, token + [t[0]]);
    } else {
      assert t + x == x;
      assert token + t == token;
    }
  }

  /** A lone separator-free token splits into itself. */
  lemma SplitToken(t: string)
    requires SeparatorFree(t)
    ensures SplitFrom(t, "") == [t]
  {
    SplitFromPrefix(t, "", "");
    assert t + "" == t;
    assert "" + t == t;
  }

  /** Dropping a separator run from the front of `d + u` leaves `u` when `u` does not start with a separator. */
  lemma {:induction false} DropRun(d: string, u: string)
    requires forall i :: 0 <= i < |d| ==> IsSeparator(d[i])
    requires u == [] || !IsSeparator(u[0])
    ensures DropSeparators(d + u) == u
  {
    if d == [] {
      assert d + u == u;
    } else {
      assert (d + u)[1..] == d[1..] + u;
      DropRun(d[1..], u);
    }
  }

  /**
   * Pieces break exactly at separator runs: a separator-free token `t`
   * followed by a non-empty run `d` of separators splits off as one piece,
   * and splitting resumes at the first non-separator after the run.
   */
  lemma SplitBreak(t: string, d: string, u: string)
    requires SeparatorFree(t)
    requires d != [] && forall i :: 0 <= i < |d| ==> IsSeparator(d[i])
    requires u == [] || !IsSeparator(u[0])
    ensures SplitFrom(t + (d + u), "") == [t] + SplitFrom(u, "")
  {
    SplitFromPrefix(t, d + u, "");
    assert "" + t == t;
    DropRun(d, u);
    SplitFromAtSeparator(d + u, t);
  }

  /** implode(', ', $vs) for two or more values: the first, ", ", then the rest joined. */
  lemma JoinUnfold(vs: seq<string>)
    requires |vs| >= 2 && vs[1] != ""
    ensures var j := Join(vs[1..], ", ");
      Join(vs, ", ") == vs[0] + (", " + j) && j != [] && j[0] == vs[1][0]
  {
  }

  /**
   * Joining separator-free, non-empty header names with ", " and splitting
   * the result on `[\s,]+` gives back the same names: the Vary string that
   * a lookup builds from a stored entry names exactly that entry's headers.
   */
  lemma {:induction false} SplitJoin(vs: seq<string>)
    requires |vs| >= 1
    requires forall i :: 0 <= i < |vs| ==> vs[i] != "" && SeparatorFree(vs[i])
    ensures Split(Join(vs, ", ")) == vs
  {
    if |vs| == 1 {
      SplitToken(vs[0]);
    } else {
      JoinUnfold(vs);
      SplitBreak(vs[0], ", ", Join(vs[1..], ", "));
      SplitJoin(vs[1..]);
      assert [vs[0]] + vs[1..] == vs;
    }
  }
}
