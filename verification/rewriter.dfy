/** The per-selector rewrite (the `flatMap` callback of `rewriteRule`) and
    the rewrite of a whole selector list. */
module Rewriter {
  import opened Text
  import opened Matcher
  import opened ClassSelector

  /** `plainSelector`: the selector with every matched `:<state>` removed. */
  function PlainSelector(selector: string, names: seq<string>): string {
    Render(Tokenize(selector, names), Strip)
  }

  /** `states`: the matched names, left to right, one per match. */
  function ExtractedStates(selector: string, names: seq<string>): seq<string> {
    StatesOf(Tokenize(selector, names))
  }

  /** `states.map((s) => ".pseudo-" + s).join("")` */
  function PseudoClasses(states: seq<string>): string {
    if |states| == 0 then "" else ".pseudo-" + states[0] + PseudoClasses(states[1..])
  }

  /** `ancestorSelector`: the forcing classes on an ancestor (or, inside a
      shadow root, on the host), then a descendant combinator and the plain
      selector. */
  function AncestorSelector(states: seq<string>, plain: string, inShadowRoot: bool): string {
    if inShadowRoot then ":host(" + PseudoClasses(states) + ") " + plain
    else PseudoClasses(states) + " " + plain
  }

  /** The selector is scoped by `:host(` or `::slotted(`. */
  predicate IsScoped(selector: string) {
    StartsWith(selector, ":host(") || StartsWith(selector, "::slotted(")
  }

  /** A candidate survives the final filter: non-empty and without an empty
      negation anywhere in it. */
  predicate Acceptable(candidate: string) {
    candidate != "" && !Includes(candidate, ":not()")
  }

  /** `xs.filter(Boolean)` */
  function NonEmptyOnly(xs: seq<string>): (r: seq<string>)
    ensures |r| <= |xs|
    ensures forall x :: x in r <==> x in xs && x != ""
    ensures (forall k :: 0 <= k < |xs| ==> xs[k] != "") ==> r == xs
  {
    if |xs| == 0 then []
    else if xs[0] != "" then [xs[0]] + NonEmptyOnly(xs[1..])
    else NonEmptyOnly(xs[1..])
  }

  /** Filtering keeps order and multiplicity: it distributes over concatenation. */
  lemma {:induction false} NonEmptyOnlyAppend(a: seq<string>, b: seq<string>)
    ensures NonEmptyOnly(a + b) == NonEmptyOnly(a) + NonEmptyOnly(b)
  {
    if |a| == 0 {
      assert a + b == b;
    } else {
      assert (a + b)[0] == a[0];
      assert (a + b)[1..] == a[1..] + b;
      NonEmptyOnlyAppend(a[1..], b);
    }
  }

  /** `xs.filter((s) => s && !s.includes(":not()"))` */
  function AcceptableOnly(xs: seq<string>): (r: seq<string>)
    ensures |r| <= |xs|
    ensures forall x :: x in r <==> x in xs && Acceptable(x)
    ensures (forall k :: 0 <= k < |xs| ==> Acceptable(xs[k])) ==> r == xs
  {
    if |xs| == 0 then []
    else if Acceptable(xs[0]) then [xs[0]] + AcceptableOnly(xs[1..])
    else AcceptableOnly(xs[1..])
  }

  /** Filtering keeps order and multiplicity: it distributes over concatenation. */
  lemma {:induction false} AcceptableOnlyAppend(a: seq<string>, b: seq<string>)
    ensures AcceptableOnly(a + b) == AcceptableOnly(a) + AcceptableOnly(b)
  {
    if |a| == 0 {
      assert a + b == b;
    } else {
      assert (a + b)[0] == a[0];
      assert (a + b)[1..] == a[1..] + b;
      AcceptableOnlyAppend(a[1..], b);
    }
  }

  /** The alternatives written for one top-level selector. */
  function RewriteSelector(selector: string, names: seq<string>, excluded: seq<string>, inShadowRoot: bool): (r: seq<string>)
    ensures Includes(selector, ".pseudo-") ==> r == []
    ensures !Includes(selector, ".pseudo-") && !HasMatch(selector, names) ==> r == [selector]
    ensures HasMatch(selector, names) ==> forall x :: x in r ==> x != ""
    ensures HasMatch(selector, names) && !IsScoped(selector) ==> forall x :: x in r ==> !Includes(x, ":not()")
    ensures HasMatch(selector, names) && IsScoped(selector) ==> |r| <= 2
    ensures |r| <= 3
  {
    if Includes(selector, ".pseudo-") then []
    else if !HasMatch(selector, names) then [selector]
    else
      var states := ExtractedStates(selector, names);
      var plain := PlainSelector(selector, names);
      var classSelector := ClassSelectorOf(selector, states, excluded);
      if IsScoped(selector) then NonEmptyOnly([selector, classSelector])
      else AcceptableOnly([selector, classSelector, AncestorSelector(states, plain, inShadowRoot)])
  }

  /** `selectors.flatMap(rewrite)`: all alternatives, selector by selector. */
  function RewriteAll(selectors: seq<string>, names: seq<string>, excluded: seq<string>, inShadowRoot: bool): seq<string> {
    if |selectors| == 0 then []
    else RewriteSelector(selectors[0], names, excluded, inShadowRoot) + RewriteAll(selectors[1..], names, excluded, inShadowRoot)
  }

  /** `splitSelectors(selectorText).flatMap(...).join(", ")` once the list is split. */
  function RewriteSelectors(selectors: seq<string>, names: seq<string>, excluded: seq<string>, inShadowRoot: bool): string {
    Join(RewriteAll(selectors, names, excluded, inShadowRoot), ", ")
  }

  // ---------------------------------------------------------------------------
  // The variants, stated without the fold.

  /** The class-based variant as a single pass: every matched `:<state>`
      becomes `.pseudo-<state>`, unless an extracted state sits on an excluded
      pseudo-element at the end of the selector, in which case there is none. */
  function ClassVariant(selector: string, names: seq<string>, excluded: seq<string>): string {
    var states := ExtractedStates(selector, names);
    if exists k :: 0 <= k < |states| && IsExcludedPseudoElement(selector, states[k], excluded) then ""
    else Render(Tokenize(selector, names), Class)
  }

  lemma ClassSelectorIsClassVariant(selector: string, names: seq<string>, excluded: seq<string>)
    requires StateNames(names)
    ensures ClassSelectorOf(selector, ExtractedStates(selector, names), excluded) == ClassVariant(selector, names, excluded)
  {
    var states := ExtractedStates(selector, names);
    if exists k :: 0 <= k < |states| && IsExcludedPseudoElement(selector, states[k], excluded) {
      ExcludedStateEmptiesClass(selector, excluded, states, selector);
    } else {
      ClassSelectorReplacesEveryState(selector, names, excluded);
    }
  }

  /** A selector with a pseudo-state that is neither marked nor scoped yields,
      in this order, itself, its class-based variant and its ancestor variant,
      each kept only when non-empty and free of `:not()`. */
  lemma RewriteUnscopedSelector(selector: string, names: seq<string>, excluded: seq<string>, inShadowRoot: bool)
    requires StateNames(names)
    requires HasMatch(selector, names) && !Includes(selector, ".pseudo-") && !IsScoped(selector)
    ensures RewriteSelector(selector, names, excluded, inShadowRoot)
         == AcceptableOnly([selector, ClassVariant(selector, names, excluded),
                            AncestorSelector(ExtractedStates(selector, names), PlainSelector(selector, names), inShadowRoot)])
  {
    ClassSelectorIsClassVariant(selector, names, excluded);
  }

  /** A selector scoped by `:host(` or `::slotted(` yields itself and its
      class-based variant when there is one, and never an ancestor variant. */
  lemma RewriteScopedSelector(selector: string, names: seq<string>, excluded: seq<string>, inShadowRoot: bool)
    requires StateNames(names)
    requires HasMatch(selector, names) && !Includes(selector, ".pseudo-") && IsScoped(selector)
    ensures RewriteSelector(selector, names, excluded, inShadowRoot)
         == if ClassVariant(selector, names, excluded) == "" then [selector]
            else [selector, ClassVariant(selector, names, excluded)]
  {
    ClassSelectorIsClassVariant(selector, names, excluded);
    var cv := ClassVariant(selector, names, excluded);
    assert selector != "";
    assert [selector, cv][1..] == [cv];
    assert [cv][1..] == [];
    assert NonEmptyOnly([cv]) == if cv == "" then [] else [cv];
    assert NonEmptyOnly([selector, cv]) == [selector] + NonEmptyOnly([cv]);
  }

  // ---------------------------------------------------------------------------
  // Whole selector lists.

  /** Identity law: when no top-level selector has a pseudo-state or a
      `.pseudo-` marker, the list is rejoined unchanged. */
  lemma {:induction false} UntouchedList(selectors: seq<string>, names: seq<string>, excluded: seq<string>, inShadowRoot: bool)
    requires forall k :: 0 <= k < |selectors| ==> !HasMatch(selectors[k], names) && !Includes(selectors[k], ".pseudo-")
    ensures RewriteAll(selectors, names, excluded, inShadowRoot) == selectors
    ensures RewriteSelectors(selectors, names, excluded, inShadowRoot) == Join(selectors, ", ")
  {
    if |selectors| > 0 {
      UntouchedList(selectors[1..], names, excluded, inShadowRoot);
      assert selectors == [selectors[0]] + selectors[1..];
    }
  }

  lemma {:induction false} RewriteAllAppend(a: seq<string>, b: seq<string>, names: seq<string>, excluded: seq<string>, inShadowRoot: bool)
    ensures RewriteAll(a + b, names, excluded, inShadowRoot)
         == RewriteAll(a, names, excluded, inShadowRoot) + RewriteAll(b, names, excluded, inShadowRoot)
  {
    if |a| == 0 {
      assert a + b == b;
    } else {
      var head := RewriteSelector(a[0], names, excluded, inShadowRoot);
      assert (a + b)[0] == a[0];
      assert (a + b)[1..] == a[1..] + b;
      RewriteAllAppend(a[1..], b, names, excluded, inShadowRoot);
      ConcatAssoc(head, RewriteAll(a[1..], names, excluded, inShadowRoot), RewriteAll(b, names, excluded, inShadowRoot));
    }
  }

  /** A top-level selector carrying a `.pseudo-` marker contributes nothing:
      the list rewrites as if it were absent. */
  lemma MarkedSelectorDropped(before: seq<string>, marked: string, after: seq<string>,
                              names: seq<string>, excluded: seq<string>, inShadowRoot: bool)
    requires Includes(marked, ".pseudo-")
    ensures RewriteSelectors(before + [marked] + after, names, excluded, inShadowRoot)
         == RewriteSelectors(before + after, names, excluded, inShadowRoot)
  {
    MarkedAlternativesDropped(before, marked, after, names, excluded, inShadowRoot);
  }

  lemma MarkedAlternativesDropped(before: seq<string>, marked: string, after: seq<string>,
                                  names: seq<string>, excluded: seq<string>, inShadowRoot: bool)
    requires Includes(marked, ".pseudo-")
    ensures RewriteAll(before + [marked] + after, names, excluded, inShadowRoot)
         == RewriteAll(before + after, names, excluded, inShadowRoot)
  {
    var head := RewriteAll(before, names, excluded, inShadowRoot);
    var rest := RewriteAll(after, names, excluded, inShadowRoot);
    RewriteAllAppend(before + [marked], after, names, excluded, inShadowRoot);
    RewriteAllAppend(before, [marked], names, excluded, inShadowRoot);
    RewriteAllSingle(marked, names, excluded, inShadowRoot);
    assert RewriteAll(before + [marked], names, excluded, inShadowRoot) == head;
    RewriteAllAppend(before, after, names, excluded, inShadowRoot);
  }

  lemma RewriteAllSingle(x: string, names: seq<string>, excluded: seq<string>, inShadowRoot: bool)
    ensures RewriteAll([x], names, excluded, inShadowRoot) == RewriteSelector(x, names, excluded, inShadowRoot)
  {
    assert [x][1..] == [];
  }

  // ---------------------------------------------------------------------------
  // Selectors with a single pseudo-state.

  /** A compound selector without colons, escapes, classes or functional
      notation, such as `a` or `button`. */
  predicate Simple(t: string) {
    Lacks(t, ':') && Lacks(t, '\\') && Lacks(t, '.') && Lacks(t, '(')
  }

  lemma StateNameLacks(n: string)
    requires StateName(n)
    ensures Lacks(n, ':') && Lacks(n, '\\') && Lacks(n, '.') && Lacks(n, '(')
  {
  }

  lemma LacksDotHasNoMarker(t: string)
    requires Lacks(t, '.')
    ensures !Includes(t, ".pseudo-")
  {
    forall i | 0 <= i <= |t| - 8 ensures !StartsWith(t[i..], ".pseudo-") {
      assert t[i..][0] == t[i];
    }
  }

  lemma LacksParenHasNoNegation(t: string)
    requires Lacks(t, '(')
    ensures !Includes(t, ":not()")
  {
    forall i | 0 <= i <= |t| - 6 ensures !StartsWith(t[i..], ":not()") {
      assert t[i..][4] == t[i + 4];
    }
  }

  lemma LacksParenIsUnscoped(t: string)
    requires Lacks(t, '(')
    ensures !IsScoped(t)
  {
    if |t| >= 6 {
      assert t[..6][5] == t[5];
    }
    if |t| >= 10 {
      assert t[..10][9] == t[9];
    }
  }

  /** Inside a shadow root the ancestor variant starts with `:host(`; with no
      further colon it has no empty negation. */
  lemma HostHasNoNegation(x: string)
    requires Lacks(x, ':')
    ensures !Includes(":host(" + x, ":not()")
  {
    var t := ":host(" + x;
    forall i | 0 <= i <= |t| - 6 ensures !StartsWith(t[i..], ":not()") {
      assert t[i..][0] == t[i] && t[i..][1] == t[i + 1];
      if i >= 6 {
        assert t[i] == x[i - 6];
      }
    }
  }

  lemma SimpleHasNoEarlyMatch(pre: string, n: string)
    requires Lacks(pre, ':')
    ensures forall i :: 0 <= i < |pre| ==> !IsMatchAt(pre + ":" + n, [n], i)
  {
    forall i | 0 <= i < |pre| ensures !IsMatchAt(pre + ":" + n, [n], i) {
      assert (pre + ":" + n)[i] == pre[i];
    }
  }

  /** What the rewrite sees in `sel + ":" + n`: the one state, the selector
      without it, and the single-pass class-based variant. */
  lemma OneStateParts(sel: string, n: string, excluded: seq<string>)
    requires Lacks(sel, '\\')
    requires forall i :: 0 <= i < |sel| ==> !IsMatchAt(sel + ":" + n, [n], i)
    ensures HasMatch(sel + ":" + n, [n])
    ensures ExtractedStates(sel + ":" + n, [n]) == [n]
    ensures PlainSelector(sel + ":" + n, [n]) == sel
    ensures Render(Tokenize(sel + ":" + n, [n]), Class) == sel + ".pseudo-" + n
  {
    ScanOneState(sel, n);
    SingleState(sel, n, Tokenize(sel + ":" + n, [n]));
  }

  lemma AncestorOfOne(n: string, plain: string, inShadowRoot: bool)
    ensures AncestorSelector([n], plain, inShadowRoot)
         == if inShadowRoot then ":host(" + (".pseudo-" + n) + ") " + plain else ".pseudo-" + n + " " + plain
  {
    assert [n][1..] == [];
    assert PseudoClasses([n]) == ".pseudo-" + n + "";
    assert ".pseudo-" + n + "" == ".pseudo-" + n;
  }

  /** A simple selector with one pseudo-state, `pre:n`, yields in this order
      itself, `pre.pseudo-n`, and the ancestor variant `.pseudo-n pre` (or,
      inside a shadow root, `:host(.pseudo-n) pre`). */
  lemma SimpleSelectorRewrite(pre: string, n: string, inShadowRoot: bool)
    requires Simple(pre) && StateName(n)
    ensures RewriteSelector(pre + ":" + n, [n], [], inShadowRoot)
         == [pre + ":" + n, pre + ".pseudo-" + n,
             if inShadowRoot then ":host(" + (".pseudo-" + n) + ") " + pre else ".pseudo-" + n + " " + pre]
  {
    var s := pre + ":" + n;
    var cls := pre + ".pseudo-" + n;
    var anc := if inShadowRoot then ":host(" + (".pseudo-" + n) + ") " + pre else ".pseudo-" + n + " " + pre;
    StateNameLacks(n);
    SimpleHasNoEarlyMatch(pre, n);
    OneStateParts(pre, n, []);
    assert ClassVariant(s, [n], []) == cls;
    AncestorOfOne(n, pre, inShadowRoot);
    assert StateNames([n]) by {
      assert [n][0] == n;
    }
    SimpleTexts(pre, n);
    LacksDotHasNoMarker(s);
    LacksParenIsUnscoped(s);
    RewriteUnscopedSelector(s, [n], [], inShadowRoot);
    SimpleAncestorAcceptable(pre, n, inShadowRoot);
    AcceptableOnlyOfThree(s, cls, anc);
    assert Acceptable(s) && Acceptable(cls) && Acceptable(anc);
  }

  lemma SimpleTexts(pre: string, n: string)
    requires Simple(pre) && StateName(n)
    ensures Lacks(pre + ":" + n, '.') && Lacks(pre + ":" + n, '(')
    ensures Acceptable(pre + ":" + n) && Acceptable(pre + ".pseudo-" + n)
  {
    StateNameLacks(n);
    LacksConcat(pre, ":", '.');
    LacksConcat(pre + ":", n, '.');
    LacksConcat(pre, ":", '(');
    LacksConcat(pre + ":", n, '(');
    LacksConcat(pre, ".pseudo-", '(');
    LacksConcat(pre + ".pseudo-", n, '(');
    LacksParenHasNoNegation(pre + ":" + n);
    LacksParenHasNoNegation(pre + ".pseudo-" + n);
  }

  lemma SimpleAncestorAcceptable(pre: string, n: string, inShadowRoot: bool)
    requires Simple(pre) && StateName(n)
    ensures Acceptable(if inShadowRoot then ":host(" + (".pseudo-" + n) + ") " + pre else ".pseudo-" + n + " " + pre)
  {
    StateNameLacks(n);
    if inShadowRoot {
      var x := ".pseudo-" + n + ") " + pre;
      LacksConcat(".pseudo-", n, ':');
      LacksConcat(".pseudo-" + n, ") ", ':');
      LacksConcat(".pseudo-" + n + ") ", pre, ':');
      HostHasNoNegation(x);
      ConcatAssoc(":host(", ".pseudo-" + n, ") ");
      ConcatAssoc(":host(", ".pseudo-" + n + ") ", pre);
    } else {
      LacksConcat(".pseudo-", n, '(');
      LacksConcat(".pseudo-" + n, " ", '(');
      LacksConcat(".pseudo-" + n + " ", pre, '(');
      LacksParenHasNoNegation(".pseudo-" + n + " " + pre);
    }
  }

  /** A state on an excluded pseudo-element has no class-based variant; only
      the ancestor variant is added to `el:n`. */
  lemma ExcludedElementRewrite(el: string, n: string)
    requires StateName(n) && Lacks(el, '\\') && Lacks(el, '.') && Lacks(el, '(')
    requires forall i :: 0 <= i < |el| ==> !IsMatchAt(el + ":" + n, [n], i)
    ensures RewriteSelector(el + ":" + n, [n], [el], false) == [el + ":" + n, ".pseudo-" + n + " " + el]
  {
    var s := el + ":" + n;
    var anc := ".pseudo-" + n + " " + el;
    OneStateParts(el, n, [el]);
    ExcludedClassVariant(el, n);
    AncestorOfOne(n, el, false);
    assert StateNames([n]) by {
      assert [n][0] == n;
    }
    ExcludedTexts(el, n);
    LacksDotHasNoMarker(s);
    LacksParenIsUnscoped(s);
    RewriteUnscopedSelector(s, [n], [el], false);
    AcceptableOnlyOfThree(s, "", anc);
  }

  lemma ExcludedClassVariant(el: string, n: string)
    requires ExtractedStates(el + ":" + n, [n]) == [n]
    ensures ClassVariant(el + ":" + n, [n], [el]) == ""
  {
    var s := el + ":" + n;
    assert IsExcludedPseudoElement(s, n, [el]) by {
      assert [el][0] + ":" + n == s;
      assert s[|s| - |s|..] == s;
    }
    var states := ExtractedStates(s, [n]);
    assert states[0] == n;
  }

  lemma ExcludedTexts(el: string, n: string)
    requires StateName(n) && Lacks(el, '.') && Lacks(el, '(')
    ensures Lacks(el + ":" + n, '.') && Lacks(el + ":" + n, '(')
    ensures Acceptable(el + ":" + n) && Acceptable(".pseudo-" + n + " " + el)
  {
    StateNameLacks(n);
    LacksConcat(el, ":", '.');
    LacksConcat(el + ":", n, '.');
    LacksConcat(el, ":", '(');
    LacksConcat(el + ":", n, '(');
    LacksConcat(".pseudo-", n, '(');
    LacksConcat(".pseudo-" + n, " ", '(');
    LacksConcat(".pseudo-" + n + " ", el, '(');
    LacksParenHasNoNegation(el + ":" + n);
    LacksParenHasNoNegation(".pseudo-" + n + " " + el);
  }

  lemma AcceptableOnlyOfThree(a: string, b: string, c: string)
    ensures AcceptableOnly([a, b, c])
         == (if Acceptable(a) then [a] else []) + (if Acceptable(b) then [b] else []) + (if Acceptable(c) then [c] else [])
  {
    assert [c][1..] == [];
    assert AcceptableOnly([c]) == if Acceptable(c) then [c] else [];
    assert [b, c][1..] == [c];
    assert AcceptableOnly([b, c]) == (if Acceptable(b) then [b] else []) + AcceptableOnly([c]);
    assert [a, b, c][1..] == [b, c];
    assert AcceptableOnly([a, b, c]) == (if Acceptable(a) then [a] else []) + AcceptableOnly([b, c]);
  }

  // ---------------------------------------------------------------------------
  // Worked examples.

  lemma HoverIsStateName()
    ensures StateName("hover")
  {
    forall k | 0 <= k < 5 ensures 'a' <= "hover"[k] <= 'z' {
    }
  }

  /** `a:hover` outside a shadow root gives `a:hover`, `a.pseudo-hover` and
      `.pseudo-hover a`, in that order. */
  lemma LightDomExample()
    ensures RewriteSelector("a" + ":" + "hover", ["hover"], [], false)
         == ["a" + ":" + "hover", "a" + ".pseudo-" + "hover", ".pseudo-" + "hover" + " " + "a"]
  {
    HoverIsStateName();
    assert Simple("a");
    SimpleSelectorRewrite("a", "hover", false);
  }

  /** Inside a shadow root the ancestor variant puts the forcing class on the
      host: `a:hover` gives `a:hover`, `a.pseudo-hover` and
      `:host(.pseudo-hover) a`. */
  lemma ShadowDomExample()
    ensures RewriteSelector("a" + ":" + "hover", ["hover"], [], true)
         == ["a" + ":" + "hover", "a" + ".pseudo-" + "hover", ":host(" + (".pseudo-" + "hover") + ") " + "a"]
  {
    HoverIsStateName();
    assert Simple("a");
    SimpleSelectorRewrite("a", "hover", true);
  }

  /** `::placeholder:hover`, with `::placeholder` excluded, gives itself and
      `.pseudo-hover ::placeholder`. */
  lemma PlaceholderExample()
    ensures RewriteSelector("::placeholder" + ":" + "hover", ["hover"], ["::placeholder"], false)
         == ["::placeholder" + ":" + "hover", ".pseudo-" + "hover" + " " + "::placeholder"]
  {
    var el := "::placeholder";
    HoverIsStateName();
    assert Lacks(el, '\\') && Lacks(el, '.') && Lacks(el, '(');
    forall i | 0 <= i < |el| ensures !IsMatchAt(el + ":" + "hover", ["hover"], i) {
      var s := el + ":" + "hover";
      assert s[i] == el[i];
      if i < 2 {
        assert s[i + 1..][0] == s[i + 1];
      }
    }
    ExcludedElementRewrite(el, "hover");
  }
}
