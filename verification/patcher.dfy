/** The sheet patcher (`rewriteStyleSheet` and `rewriteRule`): a once-only
    pass over the rules of a style sheet that replaces every style rule whose
    selector text has a pseudo-state by its rewritten form, up to a cap. */
module Patcher {
  import opened Text
  import opened Matcher
  import opened Rewriter
  import opened Warnings

  /** A rule of a sheet: a rule with a selector text (style rules), or any
      other rule (`@media`, `@font-face`, ...), which the patcher skips. */
  datatype Rule = StyleRule(selectorText: string, body: string) | OtherRule(cssText: string)

  /** `rewritten` is the `__pseudoStatesRewritten` flag; `readable` is false
      for a sheet whose rules cannot be read (a cross-origin sheet). */
  datatype Sheet = Sheet(rules: seq<Rule>, rewritten: bool, readable: bool, href: string)

  /** The configured state names and excluded pseudo-elements, and the
      top-level selector splitter, which is not part of this model. */
  datatype Config = Config(names: seq<string>, excluded: seq<string>, split: string -> seq<string>)

  /** The sheet afterwards, the warning log afterwards, and whether the
      shadow host was added to the set of hosts. */
  datatype Outcome = Outcome(sheet: Sheet, log: Log, hostAdded: bool)

  const MaxRules: nat := 1000
  const CapWarning := "Reached maximum of 1000 pseudo selectors per sheet, skipping the rest."

  function CorsWarning(href: string): string {
    "Can't access cssRules, likely due to CORS restrictions: " + href
  }

  /** The rule is a style rule whose selector text has a pseudo-state. */
  predicate Qualifies(rule: Rule, cfg: Config) {
    rule.StyleRule? && HasMatch(rule.selectorText, cfg.names)
  }

  /** `rewriteRule`: the selector text is replaced by the rewritten selector
      list; the declarations are kept. */
  function RewriteRule(rule: Rule, cfg: Config, inShadowRoot: bool): (r: Rule)
    requires rule.StyleRule?
    ensures r.StyleRule? && r.body == rule.body
  {
    StyleRule(RewriteSelectors(cfg.split(rule.selectorText), cfg.names, cfg.excluded, inShadowRoot), rule.body)
  }

  /** When no top-level selector of a rule has a pseudo-state or a `.pseudo-`
      marker, the rule gets back its selectors joined with `, `. */
  lemma UntouchedRule(rule: Rule, cfg: Config, inShadowRoot: bool)
    requires rule.StyleRule?
    requires forall k :: 0 <= k < |cfg.split(rule.selectorText)| ==>
               !HasMatch(cfg.split(rule.selectorText)[k], cfg.names) && !Includes(cfg.split(rule.selectorText)[k], ".pseudo-")
    ensures RewriteRule(rule, cfg, inShadowRoot) == StyleRule(Join(cfg.split(rule.selectorText), ", "), rule.body)
  {
    UntouchedList(cfg.split(rule.selectorText), cfg.names, cfg.excluded, inShadowRoot);
  }

  // ---------------------------------------------------------------------------
  // The rule list operations of the CSS object model.

  /** `sheet.deleteRule(i)` */
  function DeleteRule(rules: seq<Rule>, i: nat): (r: seq<Rule>)
    requires i < |rules|
    ensures |r| == |rules| - 1
    ensures forall k :: 0 <= k < i ==> r[k] == rules[k]
    ensures forall k :: i <= k < |r| ==> r[k] == rules[k + 1]
  {
    rules[..i] + rules[i + 1..]
  }

  /** `sheet.insertRule(rule, i)` */
  function InsertRule(rules: seq<Rule>, rule: Rule, i: nat): (r: seq<Rule>)
    requires i <= |rules|
    ensures |r| == |rules| + 1 && r[i] == rule
    ensures forall k :: 0 <= k < i ==> r[k] == rules[k]
    ensures forall k :: i < k < |r| ==> r[k] == rules[k - 1]
  {
    rules[..i] + [rule] + rules[i..]
  }

  /** Deleting a rule and inserting another at the same index replaces it. */
  lemma DeleteThenInsert(rules: seq<Rule>, rule: Rule, i: nat)
    requires i < |rules|
    ensures InsertRule(DeleteRule(rules, i), rule, i) == rules[i := rule]
  {
  }

  // ---------------------------------------------------------------------------
  // Counting style rules.

  /** The rules that have a selector text, in sheet order. */
  function StyleRules(rules: seq<Rule>): (r: seq<Rule>)
    ensures |r| <= |rules|
    ensures forall x :: x in r ==> x in rules && x.StyleRule?
    ensures forall k :: 0 <= k < |rules| && rules[k].StyleRule? ==> rules[k] in r
  {
    if |rules| == 0 then []
    else if rules[0].StyleRule? then [rules[0]] + StyleRules(rules[1..])
    else StyleRules(rules[1..])
  }

  lemma {:induction false} StyleRulesAppend(a: seq<Rule>, b: seq<Rule>)
    ensures StyleRules(a + b) == StyleRules(a) + StyleRules(b)
  {
    if |a| == 0 {
      assert a + b == b;
    } else {
      assert (a + b)[1..] == a[1..] + b;
      StyleRulesAppend(a[1..], b);
    }
  }

  /** One more rule of the sheet adds itself to the style rules when it is one. */
  lemma StyleRulesStep(rules: seq<Rule>, p: nat)
    requires p < |rules|
    ensures StyleRules(rules[..p + 1]) == StyleRules(rules[..p]) + (if rules[p].StyleRule? then [rules[p]] else [])
  {
    assert rules[..p + 1] == rules[..p] + [rules[p]];
    StyleRulesAppend(rules[..p], [rules[p]]);
    assert [rules[p]][1..] == [];
  }

  /** The style rules before position `p` open the list of all style rules. */
  lemma StyleRulesPrefix(rules: seq<Rule>, p: nat)
    requires p <= |rules|
    ensures |StyleRules(rules[..p])| <= |StyleRules(rules)|
    ensures StyleRules(rules[..p]) == StyleRules(rules)[..|StyleRules(rules[..p])|]
  {
    assert rules == rules[..p] + rules[p..];
    StyleRulesAppend(rules[..p], rules[p..]);
  }

  /** Style rules before `q` are at least those before `p <= q`. */
  lemma StyleRulesMonotone(rules: seq<Rule>, p: nat, q: nat)
    requires p <= q <= |rules|
    ensures |StyleRules(rules[..p])| <= |StyleRules(rules[..q])|
  {
    assert rules[..q] == rules[..p] + rules[p..q];
    StyleRulesAppend(rules[..p], rules[p..q]);
  }

  /** Every rule is a style rule: the style rules are the sheet. */
  lemma {:induction false} AllStyleRules(rules: seq<Rule>)
    requires forall k :: 0 <= k < |rules| ==> rules[k].StyleRule?
    ensures StyleRules(rules) == rules
  {
    if |rules| > 0 {
      AllStyleRules(rules[1..]);
    }
  }

  // ---------------------------------------------------------------------------
  // The effect of the loop, stated without it.

  /** The number of style rules the loop looks at: all of them, but at most
      one more than the cap, since the counter is tested after it grows. */
  function Examined(rules: seq<Rule>): nat {
    var n := |StyleRules(rules)|;
    if n <= MaxRules then n else MaxRules + 1
  }

  /** The rules as the loop leaves them: the rewrite of the `k`-th style rule
      is written at position `k` of the sheet, whatever rule stands there. */
  function CounterIndexedRules(rules: seq<Rule>, cfg: Config, inShadowRoot: bool): (r: seq<Rule>)
    ensures |r| == |rules|
  {
    var styles := StyleRules(rules);
    seq(|rules|, k requires 0 <= k < |rules| =>
      if k < Examined(rules) && Qualifies(styles[k], cfg) then RewriteRule(styles[k], cfg, inShadowRoot)
      else rules[k])
  }

  /** The rules as evidently intended: each qualifying style rule among the
      first `MaxRules + 1` style rules is replaced where it stands. */
  function PositionedRules(rules: seq<Rule>, cfg: Config, inShadowRoot: bool): (r: seq<Rule>)
    ensures |r| == |rules|
    ensures forall k :: 0 <= k < |rules| ==> r[k].StyleRule? == rules[k].StyleRule?
    ensures forall k :: 0 <= k < |rules| && !Qualifies(rules[k], cfg) ==> r[k] == rules[k]
    ensures forall k :: 0 <= k < |rules| && r[k] != rules[k] ==> Qualifies(rules[k], cfg) && r[k] == RewriteRule(rules[k], cfg, inShadowRoot)
    ensures forall k :: 0 <= k < |rules| && Qualifies(rules[k], cfg) && |StyleRules(rules[..k])| <= MaxRules ==>
      r[k] == RewriteRule(rules[k], cfg, inShadowRoot)
  {
    seq(|rules|, k requires 0 <= k < |rules| =>
      if Qualifies(rules[k], cfg) && |StyleRules(rules[..k])| <= MaxRules then RewriteRule(rules[k], cfg, inShadowRoot)
      else rules[k])
  }

  /** What the intended loop leaves at position `k`. */
  function PositionedEntry(rules: seq<Rule>, k: nat, cfg: Config, inShadowRoot: bool): Rule
    requires k < |rules|
  {
    if Qualifies(rules[k], cfg) && |StyleRules(rules[..k])| <= MaxRules then RewriteRule(rules[k], cfg, inShadowRoot)
    else rules[k]
  }

  /** Some examined style rule has a pseudo-state. */
  predicate AnyRewritten(rules: seq<Rule>, cfg: Config) {
    exists k :: 0 <= k < Examined(rules) && Qualifies(StyleRules(rules)[k], cfg)
  }

  /** Some of the first `n` style rules has a pseudo-state, computed the way
      the loop finds out. */
  predicate AnyQualifies(styles: seq<Rule>, n: nat, cfg: Config)
    requires n <= |styles|
  {
    n > 0 && (AnyQualifies(styles, n - 1, cfg) || Qualifies(styles[n - 1], cfg))
  }

  lemma {:induction false} AnyQualifiesIsExists(styles: seq<Rule>, n: nat, cfg: Config)
    requires n <= |styles|
    ensures AnyQualifies(styles, n, cfg) <==> exists k :: 0 <= k < n && Qualifies(styles[k], cfg)
  {
    if n > 0 {
      AnyQualifiesIsExists(styles, n - 1, cfg);
    }
  }

  // ---------------------------------------------------------------------------
  // The patcher.

  /** `rewriteStyleSheet(sheet, shadowRoot, shadowHosts)`: a flagged sheet is
      left alone; otherwise the flag is set first, an unreadable sheet only
      raises the CORS warning, and a readable one has its rules patched. */
  method RewriteStyleSheet(sheet: Sheet, log: Log, cfg: Config, inShadowRoot: bool, hostsGiven: bool)
    returns (out: Outcome)
    ensures out.sheet.rewritten
    ensures sheet.rewritten ==> out == Outcome(sheet, log, false)
    ensures !sheet.rewritten && !sheet.readable ==>
              out == Outcome(sheet.(rewritten := true), WarnOnce(log, CorsWarning(sheet.href)), false)
    ensures !sheet.rewritten && sheet.readable ==>
              out.sheet == sheet.(rewritten := true, rules := CounterIndexedRules(sheet.rules, cfg, inShadowRoot))
    ensures !sheet.rewritten && sheet.readable ==>
              out.log == if |StyleRules(sheet.rules)| > MaxRules then WarnOnce(log, CapWarning) else log
    ensures !sheet.rewritten && sheet.readable ==>
              (out.hostAdded <==> inShadowRoot && hostsGiven && AnyRewritten(sheet.rules, cfg))
  {
    if sheet.rewritten {
      return Outcome(sheet, log, false);
    }
    if !sheet.readable {
      return Outcome(sheet.(rewritten := true), WarnOnce(log, CorsWarning(sheet.href)), false);
    }
    var rules, w, host := RewriteRulesByCounter(sheet.rules, log, cfg, inShadowRoot, hostsGiven);
    return Outcome(sheet.(rewritten := true, rules := rules), w, host);
  }

  /** The patcher with each rewritten rule put back where it was read. */
  method RewriteStyleSheetAtPosition(sheet: Sheet, log: Log, cfg: Config, inShadowRoot: bool, hostsGiven: bool)
    returns (out: Outcome)
    ensures out.sheet.rewritten
    ensures sheet.rewritten ==> out == Outcome(sheet, log, false)
    ensures !sheet.rewritten && !sheet.readable ==>
              out == Outcome(sheet.(rewritten := true), WarnOnce(log, CorsWarning(sheet.href)), false)
    ensures !sheet.rewritten && sheet.readable ==>
              out.sheet == sheet.(rewritten := true, rules := PositionedRules(sheet.rules, cfg, inShadowRoot))
    ensures !sheet.rewritten && sheet.readable ==>
              out.log == if |StyleRules(sheet.rules)| > MaxRules then WarnOnce(log, CapWarning) else log
    ensures !sheet.rewritten && sheet.readable ==>
              (out.hostAdded <==> inShadowRoot && hostsGiven && AnyRewritten(sheet.rules, cfg))
  {
    if sheet.rewritten {
      return Outcome(sheet, log, false);
    }
    if !sheet.readable {
      return Outcome(sheet.(rewritten := true), WarnOnce(log, CorsWarning(sheet.href)), false);
    }
    var rules, w, host := RewriteRulesInPlace(sheet.rules, log, cfg, inShadowRoot, hostsGiven);
    return Outcome(sheet.(rewritten := true, rules := rules), w, host);
  }

  /** The state the loop carries: the live rule list, the counter `index`,
      the warning log, whether a host was recorded, and whether the cap was hit. */
  datatype Walk = Walk(rules: seq<Rule>, index: nat, log: Log, host: bool, capped: bool)

  /** One pass of the loop body for a style rule: when its selector text has
      a pseudo-state, `deleteRule(at)` and `insertRule(newRule, at)` replace
      the rule at `at` and the host is recorded; then the counter grows and
      is tested against the cap. */
  function VisitStyleRule(w: Walk, rule: Rule, at: nat, cfg: Config, inShadowRoot: bool, hostsGiven: bool): (r: Walk)
    requires rule.StyleRule? && at < |w.rules|
    ensures |r.rules| == |w.rules| && r.index == w.index + 1
    ensures r.capped <==> r.index > MaxRules
    ensures r.rules == if HasMatch(rule.selectorText, cfg.names) then w.rules[at := RewriteRule(rule, cfg, inShadowRoot)] else w.rules
    ensures r.log == if r.capped then WarnOnce(w.log, CapWarning) else w.log
    ensures r.host == (w.host || (HasMatch(rule.selectorText, cfg.names) && inShadowRoot && hostsGiven))
  {
    var matched := HasMatch(rule.selectorText, cfg.names);
    var rules := if matched then InsertRule(DeleteRule(w.rules, at), RewriteRule(rule, cfg, inShadowRoot), at) else w.rules;
    var host := w.host || (matched && inShadowRoot && hostsGiven);
    var index := w.index + 1;
    if index > MaxRules then Walk(rules, index, WarnOnce(w.log, CapWarning), host, true)
    else Walk(rules, index, w.log, host, false)
  }

  /** The loop body as written: rules without a selector text are skipped,
      and a style rule is written back at the counter. */
  function CounterStep(w: Walk, p: nat, cfg: Config, inShadowRoot: bool, hostsGiven: bool): Walk
    requires w.index <= p < |w.rules|
  {
    if w.rules[p].StyleRule? then VisitStyleRule(w, w.rules[p], w.index, cfg, inShadowRoot, hostsGiven) else w
  }

  /** The loop body with a style rule written back where it was read. */
  function PlaceStep(w: Walk, p: nat, cfg: Config, inShadowRoot: bool, hostsGiven: bool): Walk
    requires p < |w.rules|
  {
    if w.rules[p].StyleRule? then VisitStyleRule(w, w.rules[p], p, cfg, inShadowRoot, hostsGiven) else w
  }

  /** The loop of `rewriteStyleSheet` as written: the counter of style rules
      is also the index at which `deleteRule` and `insertRule` replace a rule
      of the sheet. The loop stops at the end of the list or at the cap. */
  method RewriteRulesByCounter(orig: seq<Rule>, log: Log, cfg: Config, inShadowRoot: bool, hostsGiven: bool)
    returns (rules: seq<Rule>, w: Log, host: bool)
    ensures rules == CounterIndexedRules(orig, cfg, inShadowRoot)
    ensures w == if |StyleRules(orig)| > MaxRules then WarnOnce(log, CapWarning) else log
    ensures host <==> inShadowRoot && hostsGiven && AnyRewritten(orig, cfg)
  {
    var walk := Walk(orig, 0, log, false, false);
    var p := 0;
    while p < |walk.rules| && !walk.capped
      invariant WalkInv(orig, log, walk, p, cfg, inShadowRoot, hostsGiven)
      invariant CounterInv(orig, walk.rules, walk.index, p, cfg, inShadowRoot)
    {
      CounterStepKeeps(orig, log, walk, p, cfg, inShadowRoot, hostsGiven);
      walk := CounterStep(walk, p, cfg, inShadowRoot, hostsGiven);
      p := p + 1;
    }
    CounterWalkDone(orig, log, walk, p, cfg, inShadowRoot, hostsGiven);
    return walk.rules, walk.log, walk.host;
  }

  /** The loop with each rewritten rule written at the position it was read from. */
  method RewriteRulesInPlace(orig: seq<Rule>, log: Log, cfg: Config, inShadowRoot: bool, hostsGiven: bool)
    returns (rules: seq<Rule>, w: Log, host: bool)
    ensures rules == PositionedRules(orig, cfg, inShadowRoot)
    ensures w == if |StyleRules(orig)| > MaxRules then WarnOnce(log, CapWarning) else log
    ensures host <==> inShadowRoot && hostsGiven && AnyRewritten(orig, cfg)
  {
    var walk := Walk(orig, 0, log, false, false);
    var p := 0;
    while p < |walk.rules| && !walk.capped
      invariant WalkInv(orig, log, walk, p, cfg, inShadowRoot, hostsGiven)
      invariant PlaceInv(orig, walk.rules, walk.index, p, cfg, inShadowRoot)
    {
      PlaceStepKeeps(orig, log, walk, p, cfg, inShadowRoot, hostsGiven);
      walk := PlaceStep(walk, p, cfg, inShadowRoot, hostsGiven);
      p := p + 1;
    }
    PlaceWalkDone(orig, log, walk, p, cfg, inShadowRoot, hostsGiven);
    return walk.rules, walk.log, walk.host;
  }

  /** What both loops keep: the counter, the log and the host flag. */
  ghost predicate WalkInv(orig: seq<Rule>, log: Log, w: Walk, p: nat, cfg: Config, inShadowRoot: bool, hostsGiven: bool) {
    && |w.rules| == |orig| && w.index <= p <= |orig|
    && w.index == |StyleRules(orig[..p])| && w.index <= |StyleRules(orig)|
    && w.index <= MaxRules + 1
    && (w.capped <==> w.index > MaxRules)
    && w.log == (if w.capped then WarnOnce(log, CapWarning) else log)
    && w.host == (inShadowRoot && hostsGiven && AnyQualifies(StyleRules(orig), w.index, cfg))
  }

  /** The rules of the counter loop before position `p`: the first `index`
      places written, the rest as in the sheet. */
  ghost predicate CounterInv(orig: seq<Rule>, rules: seq<Rule>, index: nat, p: nat, cfg: Config, inShadowRoot: bool) {
    && |rules| == |orig| && index <= |StyleRules(orig)|
    && (forall k :: index <= k < |rules| ==> rules[k] == orig[k])
    && (forall k :: 0 <= k < index ==> rules[k] == CounterIndexedEntry(orig, k, cfg, inShadowRoot))
  }

  /** What the counter loop writes at index `k < |StyleRules(orig)|`. */
  function CounterIndexedEntry(orig: seq<Rule>, k: nat, cfg: Config, inShadowRoot: bool): Rule
    requires k < |StyleRules(orig)|
  {
    var styles := StyleRules(orig);
    if Qualifies(styles[k], cfg) then RewriteRule(styles[k], cfg, inShadowRoot) else orig[k]
  }

  /** The rules of the in-place loop before position `p`: every place before
      `p` final, the rest as in the sheet. */
  ghost predicate PlaceInv(orig: seq<Rule>, rules: seq<Rule>, index: nat, p: nat, cfg: Config, inShadowRoot: bool) {
    && |rules| == |orig| && p <= |orig|
    && (forall k :: p <= k < |rules| ==> rules[k] == orig[k])
    && (forall k :: 0 <= k < p ==> rules[k] == PositionedEntry(orig, k, cfg, inShadowRoot))
  }

  /** The style rule at position `p` is the next one the counter has not seen. */
  lemma NextStyleRule(orig: seq<Rule>, index: nat, p: nat)
    requires p < |orig| && index == |StyleRules(orig[..p])|
    ensures |StyleRules(orig[..p + 1])| == index + (if orig[p].StyleRule? then 1 else 0)
    ensures |StyleRules(orig[..p + 1])| <= |StyleRules(orig)|
    ensures orig[p].StyleRule? ==> index < |StyleRules(orig)| && StyleRules(orig)[index] == orig[p]
  {
    var before := StyleRules(orig[..p]);
    var upto := StyleRules(orig[..p + 1]);
    var all := StyleRules(orig);
    StyleRulesStep(orig, p);
    assert upto == before + (if orig[p].StyleRule? then [orig[p]] else []);
    StyleRulesPrefix(orig, p + 1);
    assert |upto| <= |all| && upto == all[..|upto|];
    if orig[p].StyleRule? {
      assert upto[index] == orig[p];
      assert all[index] == upto[index];
    }
  }

  lemma AnyQualifiesStep(styles: seq<Rule>, n: nat, cfg: Config)
    requires n < |styles|
    ensures AnyQualifies(styles, n + 1, cfg) == (AnyQualifies(styles, n, cfg) || Qualifies(styles[n], cfg))
  {
  }

  /** Either loop body, wherever it writes, keeps the counter, the log and
      the host flag. */
  lemma WalkStep(orig: seq<Rule>, log: Log, w: Walk, p: nat, at: nat, cfg: Config, inShadowRoot: bool, hostsGiven: bool)
    requires WalkInv(orig, log, w, p, cfg, inShadowRoot, hostsGiven)
    requires p < |orig| && !w.capped && w.rules[p] == orig[p] && at < |w.rules|
    ensures WalkInv(orig, log, if w.rules[p].StyleRule? then VisitStyleRule(w, w.rules[p], at, cfg, inShadowRoot, hostsGiven) else w,
                    p + 1, cfg, inShadowRoot, hostsGiven)
  {
    NextStyleRule(orig, w.index, p);
    if w.rules[p].StyleRule? {
      AnyQualifiesStep(StyleRules(orig), w.index, cfg);
    }
  }

  lemma CounterStepKeeps(orig: seq<Rule>, log: Log, w: Walk, p: nat, cfg: Config, inShadowRoot: bool, hostsGiven: bool)
    requires WalkInv(orig, log, w, p, cfg, inShadowRoot, hostsGiven) && CounterInv(orig, w.rules, w.index, p, cfg, inShadowRoot)
    requires p < |orig| && !w.capped
    ensures WalkInv(orig, log, CounterStep(w, p, cfg, inShadowRoot, hostsGiven), p + 1, cfg, inShadowRoot, hostsGiven)
    ensures CounterInv(orig, CounterStep(w, p, cfg, inShadowRoot, hostsGiven).rules,
                       CounterStep(w, p, cfg, inShadowRoot, hostsGiven).index, p + 1, cfg, inShadowRoot)
  {
    assert w.rules[p] == orig[p];
    WalkStep(orig, log, w, p, w.index, cfg, inShadowRoot, hostsGiven);
    if w.rules[p].StyleRule? {
      NextStyleRule(orig, w.index, p);
      CounterVisit(orig, w.rules, CounterStep(w, p, cfg, inShadowRoot, hostsGiven).rules, w.index, p, cfg, inShadowRoot);
    }
  }

  lemma CounterVisit(orig: seq<Rule>, before: seq<Rule>, rules: seq<Rule>, index: nat, p: nat, cfg: Config, inShadowRoot: bool)
    requires CounterInv(orig, before, index, p, cfg, inShadowRoot) && index <= p < |orig|
    requires before[p].StyleRule? && index < |StyleRules(orig)| && StyleRules(orig)[index] == before[p]
    requires rules == if HasMatch(before[p].selectorText, cfg.names)
                      then InsertRule(DeleteRule(before, index), RewriteRule(before[p], cfg, inShadowRoot), index)
                      else before
    ensures CounterInv(orig, rules, index + 1, p + 1, cfg, inShadowRoot)
  {
    var x := if HasMatch(before[p].selectorText, cfg.names) then RewriteRule(before[p], cfg, inShadowRoot) else before[index];
    if HasMatch(before[p].selectorText, cfg.names) {
      DeleteThenInsert(before, x, index);
    }
    assert rules == before[index := x];
    assert x == CounterIndexedEntry(orig, index, cfg, inShadowRoot);
    forall k | 0 <= k < index + 1 ensures rules[k] == CounterIndexedEntry(orig, k, cfg, inShadowRoot) {
      if k < index {
        assert rules[k] == before[k];
      }
    }
  }

  lemma PlaceStepKeeps(orig: seq<Rule>, log: Log, w: Walk, p: nat, cfg: Config, inShadowRoot: bool, hostsGiven: bool)
    requires WalkInv(orig, log, w, p, cfg, inShadowRoot, hostsGiven) && PlaceInv(orig, w.rules, w.index, p, cfg, inShadowRoot)
    requires p < |orig| && !w.capped
    ensures WalkInv(orig, log, PlaceStep(w, p, cfg, inShadowRoot, hostsGiven), p + 1, cfg, inShadowRoot, hostsGiven)
    ensures PlaceInv(orig, PlaceStep(w, p, cfg, inShadowRoot, hostsGiven).rules,
                     PlaceStep(w, p, cfg, inShadowRoot, hostsGiven).index, p + 1, cfg, inShadowRoot)
  {
    assert w.rules[p] == orig[p];
    WalkStep(orig, log, w, p, p, cfg, inShadowRoot, hostsGiven);
    var next := PlaceStep(w, p, cfg, inShadowRoot, hostsGiven);
    if w.rules[p].StyleRule? {
      assert next == VisitStyleRule(w, w.rules[p], p, cfg, inShadowRoot, hostsGiven);
      PlaceVisit(orig, w.rules, next.rules, w.index, p, cfg, inShadowRoot);
    } else {
      assert next == w;
      PlaceSkip(orig, w.rules, w.index, p, cfg, inShadowRoot);
    }
  }

  lemma PlaceSkip(orig: seq<Rule>, rules: seq<Rule>, index: nat, p: nat, cfg: Config, inShadowRoot: bool)
    requires PlaceInv(orig, rules, index, p, cfg, inShadowRoot) && p < |orig| && !orig[p].StyleRule?
    ensures PlaceInv(orig, rules, index, p + 1, cfg, inShadowRoot)
  {
    assert rules[p] == orig[p] == PositionedEntry(orig, p, cfg, inShadowRoot);
  }

  lemma PlaceVisit(orig: seq<Rule>, before: seq<Rule>, rules: seq<Rule>, index: nat, p: nat, cfg: Config, inShadowRoot: bool)
    requires PlaceInv(orig, before, index, p, cfg, inShadowRoot) && p < |orig|
    requires before[p].StyleRule? && index == |StyleRules(orig[..p])| && index <= MaxRules
    requires rules == if HasMatch(before[p].selectorText, cfg.names)
                      then InsertRule(DeleteRule(before, p), RewriteRule(before[p], cfg, inShadowRoot), p)
                      else before
    ensures PlaceInv(orig, rules, index + 1, p + 1, cfg, inShadowRoot)
  {
    if HasMatch(before[p].selectorText, cfg.names) {
      DeleteThenInsert(before, RewriteRule(before[p], cfg, inShadowRoot), p);
    }
  }

  lemma CounterWalkDone(orig: seq<Rule>, log: Log, w: Walk, p: nat, cfg: Config, inShadowRoot: bool, hostsGiven: bool)
    requires WalkInv(orig, log, w, p, cfg, inShadowRoot, hostsGiven) && CounterInv(orig, w.rules, w.index, p, cfg, inShadowRoot)
    requires p == |orig| || w.capped
    ensures w.rules == CounterIndexedRules(orig, cfg, inShadowRoot)
    ensures w.log == if |StyleRules(orig)| > MaxRules then WarnOnce(log, CapWarning) else log
    ensures w.host <==> inShadowRoot && hostsGiven && AnyRewritten(orig, cfg)
  {
    WalkDone(orig, log, w, p, cfg, inShadowRoot, hostsGiven);
    forall k | 0 <= k < |orig| ensures w.rules[k] == CounterIndexedRules(orig, cfg, inShadowRoot)[k] {
    }
  }

  lemma PlaceWalkDone(orig: seq<Rule>, log: Log, w: Walk, p: nat, cfg: Config, inShadowRoot: bool, hostsGiven: bool)
    requires WalkInv(orig, log, w, p, cfg, inShadowRoot, hostsGiven) && PlaceInv(orig, w.rules, w.index, p, cfg, inShadowRoot)
    requires p == |orig| || w.capped
    ensures w.rules == PositionedRules(orig, cfg, inShadowRoot)
    ensures w.log == if |StyleRules(orig)| > MaxRules then WarnOnce(log, CapWarning) else log
    ensures w.host <==> inShadowRoot && hostsGiven && AnyRewritten(orig, cfg)
  {
    WalkDone(orig, log, w, p, cfg, inShadowRoot, hostsGiven);
    if w.capped {
      PastTheCap(orig, cfg, inShadowRoot, p);
    }
  }

  /** When the loop stops, the counter has seen `Examined` style rules. */
  lemma WalkDone(orig: seq<Rule>, log: Log, w: Walk, p: nat, cfg: Config, inShadowRoot: bool, hostsGiven: bool)
    requires WalkInv(orig, log, w, p, cfg, inShadowRoot, hostsGiven)
    requires p == |orig| || w.capped
    ensures w.index == Examined(orig)
    ensures w.capped <==> |StyleRules(orig)| > MaxRules
    ensures w.log == if |StyleRules(orig)| > MaxRules then WarnOnce(log, CapWarning) else log
    ensures w.host <==> inShadowRoot && hostsGiven && AnyRewritten(orig, cfg)
  {
    if !w.capped {
      assert orig[..p] == orig;
    }
    HostResult(orig, w.index, cfg);
  }

  /** The loop's running test for a rewrite, once it stops, is `AnyRewritten`. */
  lemma HostResult(orig: seq<Rule>, index: nat, cfg: Config)
    requires index == Examined(orig)
    ensures index <= |StyleRules(orig)|
    ensures AnyQualifies(StyleRules(orig), index, cfg) <==> AnyRewritten(orig, cfg)
  {
    AnyQualifiesIsExists(StyleRules(orig), index, cfg);
  }

  /** Once `MaxRules + 1` style rules lie before `p`, the intended result
      leaves every rule from `p` on as it is. */
  lemma PastTheCap(rules: seq<Rule>, cfg: Config, inShadowRoot: bool, p: nat)
    requires p <= |rules| && |StyleRules(rules[..p])| > MaxRules
    ensures forall k :: p <= k < |rules| ==> PositionedRules(rules, cfg, inShadowRoot)[k] == rules[k]
  {
    forall k | p <= k < |rules| ensures PositionedRules(rules, cfg, inShadowRoot)[k] == rules[k] {
      StyleRulesMonotone(rules, p, k);
    }
  }

  // ---------------------------------------------------------------------------
  // Properties of the two results.

  /** On a sheet of style rules only, counter and position coincide, and the
      loop as written does what was intended. */
  lemma CounterMatchesPositionOnStyleRules(rules: seq<Rule>, cfg: Config, inShadowRoot: bool)
    requires forall k :: 0 <= k < |rules| ==> rules[k].StyleRule?
    ensures CounterIndexedRules(rules, cfg, inShadowRoot) == PositionedRules(rules, cfg, inShadowRoot)
  {
    AllStyleRules(rules);
    forall k | 0 <= k < |rules|
      ensures CounterIndexedRules(rules, cfg, inShadowRoot)[k] == PositionedRules(rules, cfg, inShadowRoot)[k]
    {
      assert forall j :: 0 <= j < |rules[..k]| ==> rules[..k][j].StyleRule?;
      AllStyleRules(rules[..k]);
      CounterMatchesPositionAt(rules, cfg, inShadowRoot, k);
    }
  }

  /** At one position of a sheet whose style rules are all its rules. */
  lemma CounterMatchesPositionAt(rules: seq<Rule>, cfg: Config, inShadowRoot: bool, k: nat)
    requires k < |rules| && StyleRules(rules) == rules && StyleRules(rules[..k]) == rules[..k]
    ensures CounterIndexedRules(rules, cfg, inShadowRoot)[k] == PositionedRules(rules, cfg, inShadowRoot)[k]
  {
    assert |StyleRules(rules[..k])| == k;
    assert k < Examined(rules) <==> k <= MaxRules;
  }

  /** A sheet whose first rule is not a style rule: the loop as written
      overwrites that rule with the rewrite of the style rule after it and
      leaves the style rule itself untouched; the intended result keeps the
      first rule and rewrites the second. */
  lemma CounterIndexClobbersRule(cfg: Config, inShadowRoot: bool)
    requires cfg.names == ["hover"]
    ensures var rules := [OtherRule("@font-face {}"), StyleRule("a" + ":" + "hover", "{}")];
            var asWritten := CounterIndexedRules(rules, cfg, inShadowRoot);
            var intended := PositionedRules(rules, cfg, inShadowRoot);
            && asWritten == [RewriteRule(rules[1], cfg, inShadowRoot), rules[1]]
            && OtherRule("@font-face {}") !in asWritten
            && intended == [rules[0], RewriteRule(rules[1], cfg, inShadowRoot)]
  {
    var rules := [OtherRule("@font-face {}"), StyleRule("a" + ":" + "hover", "{}")];
    HoverIsStateName();
    assert Simple("a");
    SimpleHasNoEarlyMatch("a", "hover");
    ScanOneState("a", "hover");
    assert Qualifies(rules[1], cfg);
    assert rules[1..] == [rules[1]];
    assert [rules[1]][1..] == [];
    assert StyleRules(rules) == [rules[1]];
    assert rules[..1] == [rules[0]];
    assert StyleRules(rules[..1]) == [];
  }
}
