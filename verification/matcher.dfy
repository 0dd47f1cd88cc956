/** The escape-aware pseudo-state matcher (`matchOne` / `matchAll` in
    src/preview/rewriteStyleSheet.ts). The regular expression
    `(?<=(?<!\\)(?:\\\\)*):(s1|s2|...)` is replaced by an explicit scan:
    a position matches when it holds an unescaped colon followed by one of the
    state names, the first one in list order winning (JavaScript alternation);
    matches are found left to right and never overlap. */
module Matcher {
  import opened Text
  import opened Escapes

  /** The alternation `(n0|n1|...)` at the start of `t`: the index of the first
      name, in list order, that `t` starts with. */
  function FirstPrefix(names: seq<string>, t: string): (r: Option<nat>)
    ensures r.Some? ==> r.value < |names| && StartsWith(t, names[r.value])
    ensures r.Some? ==> forall j :: 0 <= j < r.value ==> !StartsWith(t, names[j])
    ensures r.None? ==> forall j :: 0 <= j < |names| ==> !StartsWith(t, names[j])
  {
    if |names| == 0 then None
    else if StartsWith(t, names[0]) then Some(0)
    else match FirstPrefix(names[1..], t)
      case None => None
      case Some(k) => Some(k + 1)
  }

  /** Position `i` of `s` starts a pseudo-state occurrence: an unescaped colon
      followed by one of the state names. */
  predicate IsMatchAt(s: string, names: seq<string>, i: nat) {
    i < |s| && s[i] == ':' && Unescaped(s, i) && FirstPrefix(names, s[i + 1..]).Some?
  }

  /** The state name captured at a matching position. */
  function MatchedName(s: string, names: seq<string>, i: nat): (n: string)
    requires IsMatchAt(s, names, i)
    ensures n in names && i + 1 + |n| <= |s| && s[i + 1..i + 1 + |n|] == n
  {
    names[FirstPrefix(names, s[i + 1..]).value]
  }

  /** `matchOne.test(s)`: some position of `s` matches. */
  predicate HasMatch(s: string, names: seq<string>) {
    exists i :: 0 <= i < |s| && IsMatchAt(s, names, i)
  }

  /** A scanned selector: literal characters and the matched `:<state>` occurrences. */
  datatype Token = Lit(c: char) | State(name: string)

  /** The global scan of `matchAll` from position `p`: at a match the colon and
      the name are consumed together, otherwise one character is kept. */
  function TokensFrom(s: string, names: seq<string>, p: nat): seq<Token>
    requires p <= |s|
    decreases |s| - p
  {
    if p == |s| then []
    else if IsMatchAt(s, names, p) then
      var n := MatchedName(s, names, p);
      [State(n)] + TokensFrom(s, names, p + 1 + |n|)
    else [Lit(s[p])] + TokensFrom(s, names, p + 1)
  }

  lemma TokensAtMatch(s: string, names: seq<string>, p: nat, n: string)
    requires IsMatchAt(s, names, p) && n == MatchedName(s, names, p)
    ensures TokensFrom(s, names, p) == [State(n)] + TokensFrom(s, names, p + 1 + |n|)
  {
  }

  lemma TokensAtLit(s: string, names: seq<string>, p: nat)
    requires p < |s| && !IsMatchAt(s, names, p)
    ensures TokensFrom(s, names, p) == [Lit(s[p])] + TokensFrom(s, names, p + 1)
  {
  }

  function Tokenize(s: string, names: seq<string>): seq<Token> {
    TokensFrom(s, names, 0)
  }

  /** How a matched state is written back: as it was (`:<state>`), removed
      (`plainSelector`), or as the forcing class (`.pseudo-<state>`). */
  datatype Mode = Original | Strip | Class

  function RenderToken(t: Token, mode: Mode): string {
    match t
    case Lit(c) => [c]
    case State(n) =>
      match mode
      case Original => ":" + n
      case Strip => ""
      case Class => ".pseudo-" + n
  }

  function Render(ts: seq<Token>, mode: Mode): string {
    if |ts| == 0 then "" else RenderToken(ts[0], mode) + Render(ts[1..], mode)
  }

  lemma RenderCons(t: Token, ts: seq<Token>, mode: Mode)
    ensures Render([t] + ts, mode) == RenderToken(t, mode) + Render(ts, mode)
  {
    assert ([t] + ts)[1..] == ts;
  }

  lemma RenderClassCons(n: string, ts: seq<Token>)
    ensures Render([State(n)] + ts, Class) == ".pseudo-" + n + Render(ts, Class)
  {
    RenderCons(State(n), ts, Class);
  }

  /** The names captured by the scan, left to right, one per match (`states`). */
  function StatesOf(ts: seq<Token>): seq<string> {
    if |ts| == 0 then []
    else if ts[0].State? then [ts[0].name] + StatesOf(ts[1..])
    else StatesOf(ts[1..])
  }

  lemma StatesOfCons(t: Token, ts: seq<Token>)
    ensures StatesOf([t] + ts) == (if t.State? then [t.name] else []) + StatesOf(ts)
  {
    assert ([t] + ts)[1..] == ts;
  }

  /** The global scan of a whole selector loses nothing: writing every
      match back as `:<state>` gives back the selector. */
  lemma ScanRoundTrip(s: string, names: seq<string>)
    ensures Render(Tokenize(s, names), Original) == s
  {
    TokensRoundTrip(s, names, 0);
  }

  /** Scanning from `p` loses nothing: writing every match back as
      `:<state>` gives back the text from `p` on. */
  lemma {:induction false} TokensRoundTrip(s: string, names: seq<string>, p: nat)
    requires p <= |s|
    ensures Render(TokensFrom(s, names, p), Original) == s[p..]
    decreases |s| - p, 1
  {
    if p == |s| {
      assert s[p..] == [];
    } else if IsMatchAt(s, names, p) {
      var n := MatchedName(s, names, p);
      TokensAtMatch(s, names, p, n);
      MatchCaseRoundTrip(s, names, p, n);
    } else {
      LitCaseRoundTrip(s, names, p);
    }
  }

  lemma {:induction false} MatchCaseRoundTrip(s: string, names: seq<string>, p: nat, n: string)
    requires p < |s| && s[p] == ':' && p + 1 + |n| <= |s| && s[p + 1..p + 1 + |n|] == n
    requires TokensFrom(s, names, p) == [State(n)] + TokensFrom(s, names, p + 1 + |n|)
    ensures Render(TokensFrom(s, names, p), Original) == s[p..]
    decreases |s| - p, 0
  {
    var q := p + 1 + |n|;
    var rest := TokensFrom(s, names, q);
    TokensRoundTrip(s, names, q);
    assert Render(rest, Original) == s[q..];
    MatchRoundTrip(s, p, n, [State(n)] + rest, rest);
  }

  lemma {:induction false} LitCaseRoundTrip(s: string, names: seq<string>, p: nat)
    requires p < |s| && !IsMatchAt(s, names, p)
    ensures Render(TokensFrom(s, names, p), Original) == s[p..]
    decreases |s| - p, 0
  {
    var rest := TokensFrom(s, names, p + 1);
    TokensRoundTrip(s, names, p + 1);
    assert Render(rest, Original) == s[p + 1..];
    TokensAtLit(s, names, p);
    LitRoundTrip(s, p, [Lit(s[p])] + rest, rest);
  }

  lemma MatchRoundTrip(s: string, p: nat, n: string, ts: seq<Token>, rest: seq<Token>)
    requires p < |s| && s[p] == ':' && p + 1 + |n| <= |s| && s[p + 1..p + 1 + |n|] == n
    requires ts == [State(n)] + rest
    requires Render(rest, Original) == s[p + 1 + |n|..]
    ensures Render(ts, Original) == s[p..]
  {
    var q := p + 1 + |n|;
    var tail := Render(rest, Original);
    RenderCons(State(n), rest, Original);
    assert RenderToken(State(n), Original) == ":" + n;
    assert Render(ts, Original) == ":" + n + tail;
    SplitAt(s, p, q);
    assert [s[p]] == ":";
    assert s[p..] == ":" + n + tail;
  }

  lemma LitRoundTrip(s: string, p: nat, ts: seq<Token>, rest: seq<Token>)
    requires p < |s|
    requires ts == [Lit(s[p])] + rest
    requires Render(rest, Original) == s[p + 1..]
    ensures Render(ts, Original) == s[p..]
  {
    RenderCons(Lit(s[p]), rest, Original);
    assert s[p..] == [s[p]] + s[p + 1..];
  }

  /** Every captured state is one of the configured names. */
  lemma {:induction false} StatesAreNames(s: string, names: seq<string>, p: nat)
    requires p <= |s|
    ensures forall x :: x in StatesOf(TokensFrom(s, names, p)) ==> x in names
    decreases |s| - p
  {
    if p < |s| {
      if IsMatchAt(s, names, p) {
        StatesAreNames(s, names, p + 1 + |MatchedName(s, names, p)|);
      } else {
        StatesAreNames(s, names, p + 1);
      }
    }
  }

  /** The scan captures at least one state exactly when some position from
      `p` onwards matches. */
  lemma {:induction false} ScanFindsMatch(s: string, names: seq<string>, p: nat)
    requires p <= |s|
    ensures |StatesOf(TokensFrom(s, names, p))| > 0 <==> exists i :: p <= i < |s| && IsMatchAt(s, names, i)
    decreases |s| - p
  {
    if p < |s| {
      if IsMatchAt(s, names, p) {
        var n := MatchedName(s, names, p);
        var rest := TokensFrom(s, names, p + 1 + |n|);
        TokensAtMatch(s, names, p, n);
        StatesOfCons(State(n), rest);
        assert |StatesOf(TokensFrom(s, names, p))| > 0;
        assert p <= p < |s| && IsMatchAt(s, names, p);
      } else {
        var rest := TokensFrom(s, names, p + 1);
        ScanFindsMatch(s, names, p + 1);
        assert |StatesOf(rest)| > 0 <==> exists i :: p + 1 <= i < |s| && IsMatchAt(s, names, i);
        TokensAtLit(s, names, p);
        StatesOfCons(Lit(s[p]), rest);
        assert StatesOf(TokensFrom(s, names, p)) == StatesOf(rest);
      }
    }
  }

  /** `matchOne.test` agrees with the global scan of `matchAll`: a selector
      passes the test exactly when `states` ends up non-empty. */
  lemma HasMatchIffStates(s: string, names: seq<string>)
    ensures HasMatch(s, names) <==> |StatesOf(Tokenize(s, names))| > 0
  {
    ScanFindsMatch(s, names, 0);
  }

  /** Characters copied through the scan unchanged. */
  function Lits(t: string): (r: seq<Token>)
    ensures |r| == |t|
  {
    if |t| == 0 then [] else [Lit(t[0])] + Lits(t[1..])
  }

  /** A stretch without a match is copied literally by the scan. */
  lemma {:induction false} ScanWithoutMatch(s: string, names: seq<string>, p: nat, q: nat)
    requires p <= q <= |s|
    requires forall i :: p <= i < q ==> !IsMatchAt(s, names, i)
    ensures TokensFrom(s, names, p) == Lits(s[p..q]) + TokensFrom(s, names, q)
    decreases q - p
  {
    if p < q {
      var rest := TokensFrom(s, names, p + 1);
      var lits := Lits(s[p + 1..q]);
      ScanWithoutMatch(s, names, p + 1, q);
      assert rest == lits + TokensFrom(s, names, q);
      TokensAtLit(s, names, p);
      assert s[p..q][0] == s[p] && s[p..q][1..] == s[p + 1..q];
      assert Lits(s[p..q]) == [Lit(s[p])] + lits;
      ConcatAssoc([Lit(s[p])], lits, TokensFrom(s, names, q));
    } else {
      assert Lits(s[p..q]) == [];
    }
  }

  lemma {:induction false} RenderLits(t: string, rest: seq<Token>, mode: Mode)
    ensures Render(Lits(t) + rest, mode) == t + Render(rest, mode)
  {
    if |t| > 0 {
      var tail := Lits(t[1..]) + rest;
      RenderLits(t[1..], rest, mode);
      ConcatAssoc([Lit(t[0])], Lits(t[1..]), rest);
      RenderCons(Lit(t[0]), tail, mode);
      ConcatAssoc([t[0]], t[1..], Render(rest, mode));
      assert t == [t[0]] + t[1..];
    } else {
      assert Lits(t) + rest == rest;
    }
  }

  lemma {:induction false} StatesOfLits(t: string, rest: seq<Token>)
    ensures StatesOf(Lits(t) + rest) == StatesOf(rest)
  {
    if |t| > 0 {
      StatesOfLits(t[1..], rest);
      assert (Lits(t) + rest)[1..] == Lits(t[1..]) + rest;
    } else {
      assert Lits(t) + rest == rest;
    }
  }

  /** A text whose only match is a name that ends it scans as literals
      followed by that one state. */
  lemma ScanToFinalMatch(s: string, names: seq<string>, q: nat, n: string)
    requires IsMatchAt(s, names, q) && n == MatchedName(s, names, q) && q + 1 + |n| == |s|
    requires forall i :: 0 <= i < q ==> !IsMatchAt(s, names, i)
    ensures Tokenize(s, names) == Lits(s[..q]) + [State(n)]
  {
    var rest := TokensFrom(s, names, |s|);
    assert rest == [];
    TokensAtMatch(s, names, q, n);
    assert TokensFrom(s, names, q) == [State(n)];
    ScanWithoutMatch(s, names, 0, q);
    assert s[0..q] == s[..q];
  }

  /** `sel + ":" + n` scans as the literal `sel` and the state `n` when no
      position of `sel` starts a match and `sel` does not end in a backslash. */
  lemma ScanOneState(sel: string, n: string)
    requires Lacks(sel, '\\')
    requires forall i :: 0 <= i < |sel| ==> !IsMatchAt(sel + ":" + n, [n], i)
    ensures HasMatch(sel + ":" + n, [n])
    ensures Tokenize(sel + ":" + n, [n]) == Lits(sel) + [State(n)]
  {
    var s := sel + ":" + n;
    OneStateMatch(sel, n);
    ScanToFinalMatch(s, [n], |sel|, n);
    assert s[..|sel|] == sel;
  }

  lemma OneStateMatch(sel: string, n: string)
    requires Lacks(sel, '\\')
    ensures IsMatchAt(sel + ":" + n, [n], |sel|)
    ensures MatchedName(sel + ":" + n, [n], |sel|) == n
  {
    var s := sel + ":" + n;
    var p := |sel|;
    assert s[p] == ':' && s[p + 1..] == n;
    if p > 0 {
      assert s[p - 1] == sel[p - 1];
    }
    assert Unescaped(s, p);
    assert StartsWith(s[p + 1..], [n][0]);
  }

  /** The states and the three renderings of a scan with exactly one state,
      after `pre`. */
  lemma SingleState(pre: string, n: string, ts: seq<Token>)
    requires ts == Lits(pre) + [State(n)]
    ensures StatesOf(ts) == [n]
    ensures Render(ts, Original) == pre + ":" + n
    ensures Render(ts, Strip) == pre
    ensures Render(ts, Class) == pre + ".pseudo-" + n
  {
    SingleStates(pre, n, ts);
    SingleRender(pre, n, ts, Original);
    SingleRender(pre, n, ts, Strip);
    SingleRender(pre, n, ts, Class);
  }

  lemma SingleStates(pre: string, n: string, ts: seq<Token>)
    requires ts == Lits(pre) + [State(n)]
    ensures StatesOf(ts) == [n]
  {
    var one := [State(n)];
    assert one[1..] == [];
    StatesOfLits(pre, one);
  }

  lemma SingleRender(pre: string, n: string, ts: seq<Token>, mode: Mode)
    requires ts == Lits(pre) + [State(n)]
    ensures mode == Original ==> Render(ts, mode) == pre + ":" + n
    ensures mode == Strip ==> Render(ts, mode) == pre
    ensures mode == Class ==> Render(ts, mode) == pre + ".pseudo-" + n
  {
    var one := [State(n)];
    RenderLits(pre, one, mode);
    RenderCons(State(n), [], mode);
    assert one == [State(n)] + [];
    var tail := Render([], mode);
    assert tail == [];
    if mode == Original {
      assert Render(ts, mode) == pre + ((":" + n) + tail);
      ConcatAssoc(pre, ":", n);
    } else if mode == Class {
      assert Render(ts, mode) == pre + ((".pseudo-" + n) + tail);
      ConcatAssoc(pre, ".pseudo-", n);
    }
  }

  /** Escape parity: a colon after `m` backslashes starts a match exactly when
      `m` is even and a state name follows (`\:` and `\\\:` are skipped,
      `:`, `\\:` and `\\\\:` are kept). */
  lemma EscapeParity(m: nat, rest: string, names: seq<string>)
    ensures IsMatchAt(Backslashes(m) + ":" + rest, names, m)
        <==> m % 2 == 0 && FirstPrefix(names, rest).Some?
  {
    var s := Backslashes(m) + ":" + rest;
    assert s == Backslashes(m) + (":" + rest);
    BackslashesBefore(m, ":" + rest);
    OddRunIsParity(s, m);
    assert s[m] == ':';
    assert s[m + 1..] == rest;
  }
}
