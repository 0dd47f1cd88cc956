/** The class-based variant of a selector (`classSelector` in `rewriteRule`)
    and the exclusion of pseudo-elements (`isExcludedPseudoElement`).

    The source builds `classSelector` by folding over the extracted states,
    each step replacing every unescaped `:<state>` of the string built so far
    by `.pseudo-<state>`, and giving up (the empty string) as soon as the
    original selector ends with `<excluded element>:<state>`. The main result
    here, `ClassSelectorReplacesEveryState`, shows that when no exclusion
    applies and the state names are plain identifiers, the fold is the same as
    one left-to-right pass that replaces each matched `:<state>` token. */
module ClassSelector {
  import opened Text
  import opened Escapes
  import opened Matcher

  /** `isExcludedPseudoElement(selector, state)`: the selector ends with
      `<element>:<state>` for one of the excluded pseudo-elements. */
  predicate IsExcludedPseudoElement(selector: string, state: string, excluded: seq<string>) {
    exists i :: 0 <= i < |excluded| && EndsWith(selector, excluded[i] + ":" + state)
  }

  /** `acc.replace(new RegExp("(?<=(?<!\\)(?:\\\\)*):" + state, "g"), ".pseudo-" + state)` */
  function ReplaceState(acc: string, state: string): string {
    Render(Tokenize(acc, [state]), Class)
  }

  /** The reducer of `states.reduce(..., selector)`, applied from `acc` on. */
  function ClassFold(selector: string, excluded: seq<string>, states: seq<string>, acc: string): string {
    if |states| == 0 then acc
    else
      var next := if IsExcludedPseudoElement(selector, states[0], excluded) then "" else ReplaceState(acc, states[0]);
      ClassFold(selector, excluded, states[1..], next)
  }

  /** `classSelector` for a selector and the states extracted from it. */
  function ClassSelectorOf(selector: string, states: seq<string>, excluded: seq<string>): string {
    ClassFold(selector, excluded, states, selector)
  }

  /** A state name as the configuration spells them: lower-case letters,
      digits and hyphens (`hover`, `focus-visible`). */
  predicate StateName(n: string) {
    forall k :: 0 <= k < |n| ==> ('a' <= n[k] <= 'z') || ('0' <= n[k] <= '9') || n[k] == '-'
  }

  predicate StateNames(names: seq<string>) {
    forall k :: 0 <= k < |names| ==> StateName(names[k])
  }

  /** No backslash and no colon: such text never changes the escape state of
      what follows and never starts a match. */
  predicate Inert(w: string) {
    forall k :: 0 <= k < |w| ==> w[k] != '\\' && w[k] != ':'
  }

  // ---------------------------------------------------------------------------
  // Giving up is final.

  lemma ReplaceStateOfEmpty(state: string)
    ensures ReplaceState("", state) == ""
  {
    assert Tokenize("", [state]) == [];
  }

  lemma {:induction false} FoldOfEmpty(selector: string, excluded: seq<string>, states: seq<string>)
    ensures ClassFold(selector, excluded, states, "") == ""
  {
    if |states| > 0 {
      ReplaceStateOfEmpty(states[0]);
      FoldOfEmpty(selector, excluded, states[1..]);
    }
  }

  /** If any extracted state sits on an excluded pseudo-element at the end of
      the original selector, `classSelector` is the empty string, whatever
      the other states are. */
  lemma {:induction false} ExcludedStateEmptiesClass(selector: string, excluded: seq<string>, states: seq<string>, acc: string)
    requires exists k :: 0 <= k < |states| && IsExcludedPseudoElement(selector, states[k], excluded)
    ensures ClassFold(selector, excluded, states, acc) == ""
  {
    if IsExcludedPseudoElement(selector, states[0], excluded) {
      FoldOfEmpty(selector, excluded, states[1..]);
    } else {
      var k :| 0 <= k < |states| && IsExcludedPseudoElement(selector, states[k], excluded);
      assert states[1..][k - 1] == states[k];
      ExcludedStateEmptiesClass(selector, excluded, states[1..], ReplaceState(acc, states[0]));
    }
  }

  // ---------------------------------------------------------------------------
  // Proof device: a one-pass rewriting that carries the escape parity.

  /** Replace each unescaped colon followed by one of `names` by `.pseudo-`,
      left to right; `odd` says whether an odd run of backslashes ends here. */
  ghost function Swap(s: string, names: seq<string>, odd: bool): string
    decreases |s|
  {
    if |s| == 0 then ""
    else if s[0] == '\\' then "\\" + Swap(s[1..], names, !odd)
    else if s[0] == ':' && !odd && FirstPrefix(names, s[1..]).Some? then ".pseudo-" + Swap(s[1..], names, false)
    else [s[0]] + Swap(s[1..], names, false)
  }

  lemma {:induction false} SwapNoNames(s: string, odd: bool)
    ensures Swap(s, [], odd) == s
    decreases |s|
  {
    if |s| > 0 {
      SwapNoNames(s[1..], if s[0] == '\\' then !odd else false);
      assert s == [s[0]] + s[1..];
    }
  }

  /** Inert text passes through unchanged and resets the parity. */
  lemma {:induction false} SwapInert(w: string, x: string, names: seq<string>, odd: bool)
    requires Inert(w)
    ensures Swap(w + x, names, odd) == w + Swap(x, names, if |w| == 0 then odd else false)
    decreases |w|
  {
    if |w| > 0 {
      var c := w[0];
      var y := w + x;
      assert y[0] == c && c != '\\' && c != ':';
      assert y[1..] == w[1..] + x;
      var tail := Swap(w[1..] + x, names, false);
      assert Swap(y, names, odd) == [c] + tail;
      SwapInert(w[1..], x, names, false);
      assert tail == w[1..] + Swap(x, names, false);
      ConcatAssoc([c], w[1..], Swap(x, names, false));
      assert w == [c] + w[1..];
    } else {
      assert w + x == x;
    }
  }

  lemma StateNameIsInert(n: string)
    requires StateName(n)
    ensures Inert(n)
  {
  }

  lemma StartsWithCons(c: char, x: string, n: string)
    requires |n| > 0
    ensures StartsWith([c] + x, n) <==> n[0] == c && StartsWith(x, n[1..])
  {
    if n[0] == c && StartsWith(x, n[1..]) {
      assert ([c] + x)[..|n|] == [c] + x[..|n| - 1];
      assert n == [n[0]] + n[1..];
    }
    if StartsWith([c] + x, n) {
      assert ([c] + x)[..|n|] == [c] + x[..|n| - 1];
      assert n[1..] == ([c] + x)[..|n|][1..];
    }
  }

  /** A state name starts the text after a pass exactly when it started the
      text before: the pass only turns colons into `.pseudo-`, and a state
      name contains neither a colon nor a dot. */
  lemma {:induction false} SwapKeepsNamePrefix(t: string, names: seq<string>, odd: bool, n: string)
    requires StateName(n)
    ensures StartsWith(Swap(t, names, odd), n) <==> StartsWith(t, n)
    decreases |t|
  {
    if |n| > 0 && |t| > 0 {
      var c := t[0];
      var odd' := if c == '\\' then !odd else false;
      var rest := Swap(t[1..], names, odd');
      assert t == [c] + t[1..];
      StartsWithCons(c, t[1..], n);
      if c == '\\' {
        assert Swap(t, names, odd) == "\\" + rest;
        StartsWithCons('\\', rest, n);
      } else if c == ':' && !odd && FirstPrefix(names, t[1..]).Some? {
        assert Swap(t, names, odd) == ['.'] + ("pseudo-" + rest);
        StartsWithCons('.', "pseudo-" + rest, n);
      } else {
        assert Swap(t, names, odd) == [c] + rest;
        StartsWithCons(c, rest, n);
        SwapKeepsNamePrefix(t[1..], names, odd', n[1..]);
      }
    }
  }

  lemma FirstPrefixAfterSwap(t: string, a: seq<string>, b: seq<string>, odd: bool)
    requires StateNames(b)
    ensures FirstPrefix(b, Swap(t, a, odd)).Some? <==> FirstPrefix(b, t).Some?
  {
    forall k | 0 <= k < |b|
      ensures StartsWith(Swap(t, a, odd), b[k]) <==> StartsWith(t, b[k])
    {
      SwapKeepsNamePrefix(t, a, odd, b[k]);
    }
  }

  /** The alternation over `a + b` finds a name exactly when one of the two
      lists does. */
  lemma FirstPrefixConcat(a: seq<string>, b: seq<string>, t: string)
    ensures FirstPrefix(a + b, t).Some? <==> FirstPrefix(a, t).Some? || FirstPrefix(b, t).Some?
  {
    var r := FirstPrefix(a + b, t);
    if r.Some? {
      if r.value < |a| {
        assert (a + b)[r.value] == a[r.value];
      } else {
        assert (a + b)[r.value] == b[r.value - |a|];
      }
    }
    var ra := FirstPrefix(a, t);
    if ra.Some? {
      assert (a + b)[ra.value] == a[ra.value];
    }
    var rb := FirstPrefix(b, t);
    if rb.Some? {
      assert (a + b)[|a| + rb.value] == b[rb.value];
    }
  }

  /** Two passes, first over `a` then over `b`, equal one pass over `a + b`. */
  lemma {:induction false} SwapCompose(s: string, a: seq<string>, b: seq<string>, odd: bool)
    requires StateNames(b)
    ensures Swap(Swap(s, a, odd), b, odd) == Swap(s, a + b, odd)
    decreases |s|
  {
    if |s| > 0 {
      var c := s[0];
      var t := s[1..];
      FirstPrefixConcat(a, b, t);
      if c == '\\' {
        var y := Swap(t, a, !odd);
        assert Swap(s, a, odd) == "\\" + y;
        assert ("\\" + y)[0] == '\\' && ("\\" + y)[1..] == y;
        SwapCompose(t, a, b, !odd);
      } else if c == ':' && !odd && FirstPrefix(a, t).Some? {
        var y := Swap(t, a, false);
        assert Swap(s, a, odd) == ".pseudo-" + y;
        SwapInert(".pseudo-", y, b, odd);
        SwapCompose(t, a, b, false);
      } else {
        var y := Swap(t, a, false);
        assert Swap(s, a, odd) == [c] + y;
        assert ([c] + y)[0] == c && ([c] + y)[1..] == y;
        FirstPrefixAfterSwap(t, a, b, false);
        SwapCompose(t, a, b, false);
      }
    }
  }

  /** Odd parity of the backslash run ending before `p`. */
  ghost predicate OddAt(s: string, p: nat)
    requires p <= |s|
  {
    !Unescaped(s, p)
  }

  lemma ParityStep(s: string, p: nat)
    requires p < |s|
    ensures s[p] == '\\' ==> OddAt(s, p + 1) == !OddAt(s, p)
    ensures s[p] != '\\' ==> !OddAt(s, p + 1)
  {
  }

  lemma SwapUnfold(t: string, names: seq<string>, odd: bool)
    requires |t| > 0
    ensures t[0] == ':' && !odd && FirstPrefix(names, t[1..]).Some? ==>
              Swap(t, names, odd) == ".pseudo-" + Swap(t[1..], names, false)
    ensures t[0] == '\\' ==> Swap(t, names, odd) == "\\" + Swap(t[1..], names, !odd)
    ensures t[0] != '\\' && !(t[0] == ':' && !odd && FirstPrefix(names, t[1..]).Some?) ==>
              Swap(t, names, odd) == [t[0]] + Swap(t[1..], names, false)
  {
  }

  /** The replacing scan of the matcher is the one-pass rewriting. */
  lemma {:induction false} SwapTokens(s: string, names: seq<string>, p: nat)
    requires StateNames(names) && p <= |s|
    ensures Render(TokensFrom(s, names, p), Class) == Swap(s[p..], names, OddAt(s, p))
    decreases |s| - p, 1
  {
    if p < |s| {
      if IsMatchAt(s, names, p) {
        MatchCaseSwap(s, names, p);
      } else {
        LitCaseSwap(s, names, p);
      }
    }
  }

  lemma {:induction false} MatchCaseSwap(s: string, names: seq<string>, p: nat)
    requires StateNames(names) && IsMatchAt(s, names, p)
    ensures Render(TokensFrom(s, names, p), Class) == Swap(s[p..], names, OddAt(s, p))
    decreases |s| - p, 0
  {
    var n := MatchedName(s, names, p);
    var q := p + 1 + |n|;
    assert StateName(n);
    var tail := Render(TokensFrom(s, names, q), Class);
    SwapTokens(s, names, q);
    EvenAfterName(s, p, n);
    assert tail == Swap(s[q..], names, false);
    SwapTokensAtMatch(s, names, p, n, tail);
  }

  lemma {:induction false} LitCaseSwap(s: string, names: seq<string>, p: nat)
    requires StateNames(names) && p < |s| && !IsMatchAt(s, names, p)
    ensures Render(TokensFrom(s, names, p), Class) == Swap(s[p..], names, OddAt(s, p))
    decreases |s| - p, 0
  {
    var tail := Render(TokensFrom(s, names, p + 1), Class);
    SwapTokens(s, names, p + 1);
    assert tail == Swap(s[p + 1..], names, OddAt(s, p + 1));
    LitSwapStep(s, names, p, tail);
  }

  lemma SwapTokensAtMatch(s: string, names: seq<string>, p: nat, n: string, tail: string)
    requires StateNames(names)
    requires IsMatchAt(s, names, p) && n == MatchedName(s, names, p)
    requires tail == Render(TokensFrom(s, names, p + 1 + |n|), Class)
    requires tail == Swap(s[p + 1 + |n|..], names, false)
    ensures Render(TokensFrom(s, names, p), Class) == Swap(s[p..], names, OddAt(s, p))
  {
    TokensAtMatch(s, names, p, n);
    assert StateName(n);
    StateNameIsInert(n);
    assert s[p + 1..p + 1 + |n|] == n;
    MatchSwapStep(s, names, p, n, tail);
  }

  /** After a matched name the parity is even again. */
  lemma EvenAfterName(s: string, p: nat, n: string)
    requires StateName(n) && p + 1 + |n| <= |s| && s[p] == ':' && s[p + 1..p + 1 + |n|] == n
    ensures !OddAt(s, p + 1 + |n|)
  {
    var q := p + 1 + |n|;
    if |n| > 0 {
      assert s[q - 1] == s[p + 1..q][|n| - 1];
      assert s[q - 1] != '\\';
    }
    ParityStep(s, q - 1);
  }

  lemma MatchSwapStep(s: string, names: seq<string>, p: nat, n: string, tail: string)
    requires p + 1 + |n| <= |s| && s[p] == ':' && !OddAt(s, p)
    requires FirstPrefix(names, s[p + 1..]).Some?
    requires s[p + 1..p + 1 + |n|] == n && Inert(n)
    requires TokensFrom(s, names, p) == [State(n)] + TokensFrom(s, names, p + 1 + |n|)
    requires tail == Render(TokensFrom(s, names, p + 1 + |n|), Class)
    requires tail == Swap(s[p + 1 + |n|..], names, false)
    ensures Render(TokensFrom(s, names, p), Class) == Swap(s[p..], names, OddAt(s, p))
  {
    RenderClassCons(n, TokensFrom(s, names, p + 1 + |n|));
    SwapAtMatch(s, names, p, n, OddAt(s, p), tail);
  }

  lemma SwapAtMatch(s: string, names: seq<string>, p: nat, n: string, odd: bool, tail: string)
    requires p + 1 + |n| <= |s| && s[p] == ':' && !odd
    requires FirstPrefix(names, s[p + 1..]).Some?
    requires s[p + 1..p + 1 + |n|] == n && Inert(n)
    requires tail == Swap(s[p + 1 + |n|..], names, false)
    ensures Swap(s[p..], names, odd) == ".pseudo-" + n + tail
  {
    var q := p + 1 + |n|;
    SuffixCons(s, p);
    SwapUnfold(s[p..], names, odd);
    SplitTail(s, p + 1, q);
    SwapInert(n, s[q..], names, false);
    ConcatAssoc(".pseudo-", n, tail);
  }

  lemma LitSwapStep(s: string, names: seq<string>, p: nat, tail: string)
    requires StateNames(names)
    requires p < |s| && !IsMatchAt(s, names, p)
    requires tail == Render(TokensFrom(s, names, p + 1), Class)
    requires tail == Swap(s[p + 1..], names, OddAt(s, p + 1))
    ensures Render(TokensFrom(s, names, p), Class) == Swap(s[p..], names, OddAt(s, p))
  {
    var rest := TokensFrom(s, names, p + 1);
    TokensAtLit(s, names, p);
    RenderCons(Lit(s[p]), rest, Class);
    ParityStep(s, p);
    SuffixCons(s, p);
    SwapUnfold(s[p..], names, OddAt(s, p));
  }

  /** A pass over the captured states alone rewrites the same colons as a
      pass over all names: wherever the alternation matched, the name it
      captured is among the states. */
  lemma {:induction false} SwapAgrees(s: string, sub: seq<string>, names: seq<string>, p: nat)
    requires StateNames(names) && p <= |s|
    requires forall x :: x in sub ==> x in names
    requires forall x :: x in StatesOf(TokensFrom(s, names, p)) ==> x in sub
    ensures Swap(s[p..], sub, OddAt(s, p)) == Swap(s[p..], names, OddAt(s, p))
    decreases |s| - p, 1
  {
    if p < |s| {
      if IsMatchAt(s, names, p) {
        MatchAgrees(s, sub, names, p);
      } else {
        LitAgrees(s, sub, names, p);
      }
    }
  }

  lemma {:induction false} MatchAgrees(s: string, sub: seq<string>, names: seq<string>, p: nat)
    requires StateNames(names) && IsMatchAt(s, names, p)
    requires forall x :: x in sub ==> x in names
    requires forall x :: x in StatesOf(TokensFrom(s, names, p)) ==> x in sub
    ensures Swap(s[p..], sub, OddAt(s, p)) == Swap(s[p..], names, OddAt(s, p))
    decreases |s| - p, 0
  {
    var n := MatchedName(s, names, p);
    var q := p + 1 + |n|;
    var rest := TokensFrom(s, names, q);
    TokensAtMatch(s, names, p, n);
    assert StatesOf([State(n)] + rest) == [n] + StatesOf(rest) by {
      assert ([State(n)] + rest)[1..] == rest;
    }
    assert n in sub;
    var i :| 0 <= i < |sub| && sub[i] == n;
    assert StartsWith(s[p + 1..], sub[i]);
    assert StateName(n);
    EvenAfterName(s, p, n);
    var tail := Swap(s[q..], names, false);
    SwapAgrees(s, sub, names, q);
    assert Swap(s[q..], sub, false) == tail;
    assert StateName(n);
    StateNameIsInert(n);
    SwapAtMatch(s, sub, p, n, OddAt(s, p), tail);
    SwapAtMatch(s, names, p, n, OddAt(s, p), tail);
  }

  lemma {:induction false} LitAgrees(s: string, sub: seq<string>, names: seq<string>, p: nat)
    requires StateNames(names) && p < |s| && !IsMatchAt(s, names, p)
    requires forall x :: x in sub ==> x in names
    requires forall x :: x in StatesOf(TokensFrom(s, names, p)) ==> x in sub
    ensures Swap(s[p..], sub, OddAt(s, p)) == Swap(s[p..], names, OddAt(s, p))
    decreases |s| - p, 0
  {
    var rest := TokensFrom(s, names, p + 1);
    TokensAtLit(s, names, p);
    assert StatesOf([Lit(s[p])] + rest) == StatesOf(rest) by {
      assert ([Lit(s[p])] + rest)[1..] == rest;
    }
    var tail := Swap(s[p + 1..], names, OddAt(s, p + 1));
    SwapAgrees(s, sub, names, p + 1);
    assert Swap(s[p + 1..], sub, OddAt(s, p + 1)) == tail;
    var r := FirstPrefix(sub, s[p + 1..]);
    if r.Some? {
      assert sub[r.value] in sub;
      var i :| 0 <= i < |names| && names[i] == sub[r.value];
      assert StartsWith(s[p + 1..], names[i]);
    }
    ParityStep(s, p);
    SuffixCons(s, p);
    SwapUnfold(s[p..], sub, OddAt(s, p));
    SwapUnfold(s[p..], names, OddAt(s, p));
  }

  /** The fold, while no exclusion fires, is a pass over the states seen so far. */
  lemma {:induction false} FoldIsSwap(selector: string, excluded: seq<string>, done: seq<string>, rest: seq<string>, acc: string)
    requires StateNames(rest)
    requires forall k :: 0 <= k < |rest| ==> !IsExcludedPseudoElement(selector, rest[k], excluded)
    requires acc == Swap(selector, done, false)
    ensures ClassFold(selector, excluded, rest, acc) == Swap(selector, done + rest, false)
    decreases |rest|
  {
    if |rest| == 0 {
      assert done + rest == done;
    } else {
      var st := rest[0];
      assert StateNames([st]);
      SwapTokens(acc, [st], 0);
      assert acc[0..] == acc;
      SwapCompose(selector, done, [st], false);
      assert done + [st] + rest[1..] == done + rest;
      FoldIsSwap(selector, excluded, done + [st], rest[1..], ReplaceState(acc, st));
    }
  }

  /** `classSelector` is the selector with each unescaped `:<state>` occurrence
      found by the matcher replaced by `.pseudo-<state>`, provided no
      extracted state sits on an excluded pseudo-element and the state names
      are plain identifiers. */
  lemma ClassSelectorReplacesEveryState(selector: string, names: seq<string>, excluded: seq<string>)
    requires StateNames(names)
    requires forall k :: 0 <= k < |StatesOf(Tokenize(selector, names))| ==>
               !IsExcludedPseudoElement(selector, StatesOf(Tokenize(selector, names))[k], excluded)
    ensures ClassSelectorOf(selector, StatesOf(Tokenize(selector, names)), excluded)
         == Render(Tokenize(selector, names), Class)
  {
    var states := StatesOf(Tokenize(selector, names));
    StatesAreNames(selector, names, 0);
    assert StateNames(states) by {
      forall k | 0 <= k < |states| ensures StateName(states[k]) {
        assert states[k] in states;
        var i :| 0 <= i < |names| && names[i] == states[k];
      }
    }
    SwapNoNames(selector, false);
    assert [] + states == states;
    FoldIsSwap(selector, excluded, [], states, selector);
    assert selector[0..] == selector;
    SwapAgrees(selector, states, names, 0);
    SwapTokens(selector, names, 0);
  }
}
