# Pseudo-state style sheet rewriter, modelled in Dafny

This project models `src/preview/rewriteStyleSheet.ts` of
storybook-addon-pseudo-states. That file forces CSS pseudo-states such as
`:hover` and `:focus-visible` by rewriting style sheets. For every rule whose
selector text has a pseudo-state, each top-level selector gets alternatives
that use a class instead:

- `a:hover` becomes `a:hover, a.pseudo-hover, .pseudo-hover a`;
- inside a shadow root it becomes `a:hover, a.pseudo-hover, :host(.pseudo-hover) a`.

The modules follow the structure of the file:

| module | models |
|---|---|
| `Text` | the JavaScript string operations used: `startsWith`, `endsWith`, `includes`, `join` |
| `Escapes` | the lookbehind `(?<=(?<!\\)(?:\\\\)*)`, which lets a colon count only when the backslashes in front of it pair up |
| `Matcher` | `matchOne` and `matchAll` as an explicit left-to-right scan. The scan yields tokens: literal characters and matched `:<state>` occurrences. A token list can be written back as the original text, as the plain selector, or as the class-based selector |
| `ClassSelector` | `isExcludedPseudoElement`, and the `states.reduce` that builds `classSelector` one state at a time |
| `Rewriter` | the `flatMap` callback of `rewriteRule` for one selector, the flat map over a selector list, and the final `join(", ")` |
| `Warnings` | `warnOnce`, with its set of seen messages and the console |
| `Patcher` | `rewriteRule` on a rule, and `rewriteStyleSheet`: the once-only flag, the unreadable-sheet warning, the loop with `deleteRule` and `insertRule`, the host bookkeeping, and the cap of 1000 |

The model keeps these behaviours of the code:

- A selector that already contains `.pseudo-` gives no alternative at all.
- The final filter rejects any candidate that contains `:not()` anywhere.
- For `:host(` and `::slotted(` selectors, only empty candidates are removed.
- The cap is checked after the counter grows. Up to 1001 style rules are
  therefore examined, and the warning is raised as soon as a sheet has more
  than 1000 style rules.

## Model

| member | source | states |
|---|---|---|
| Matcher.FirstPrefix | src/preview/rewriteStyleSheet.ts:14-15 | The alternation of the state names picks the first state name, in list order, that the text after the colon starts with. It finds none exactly when no name is a prefix of that text. |
| Matcher.MatchedName | src/preview/rewriteStyleSheet.ts:41-42 | The captured `state` is one of the configured names and is exactly the text that follows the colon. |
| Escapes.LookbehindIsEvenRun | src/preview/rewriteStyleSheet.ts:5-15 | The lookbehind accepts a position exactly when the maximal run of backslashes before it has even length. It therefore agrees with the parity scan that the matcher uses. |
| Escapes.OddRunIsParity | src/preview/rewriteStyleSheet.ts:14 | Flipping a bit per backslash, walking backwards, yields the parity of the maximal backslash run. |
| Escapes.BackslashRunIsMaximal | src/preview/rewriteStyleSheet.ts:14 | The measured run consists of backslashes only, and it is not preceded by another backslash. |
| Matcher.EscapeParity | src/preview/rewriteStyleSheet.ts:5-14 | A colon after `m` backslashes starts a match exactly when `m` is even and a state name follows: `\:` and `\\\:` are skipped, while `:`, `\\:` and `\\\\:` are kept. |
| Matcher.ScanRoundTrip | src/preview/rewriteStyleSheet.ts:15 | The global scan loses nothing. Writing every match back as `:<state>` gives back the scanned selector. |
| Matcher.StatesAreNames | src/preview/rewriteStyleSheet.ts:40-44 | Every state pushed by the `matchAll` replacement is one of the configured names. |
| Matcher.HasMatchIffStates | src/preview/rewriteStyleSheet.ts:36-44 | `matchOne.test(selector)` holds exactly when the `matchAll` replacement collects at least one state. |
| Matcher.ScanToFinalMatch | src/preview/rewriteStyleSheet.ts:41-44 | When a text's only match is a name that ends it, the scan is literals followed by that one state. |
| ClassSelector.ExcludedStateEmptiesClass | src/preview/rewriteStyleSheet.ts:25-26 | Once any extracted state sits on an excluded pseudo-element at the end of the selector, `classSelector` is the empty string, whatever the other states are. |
| ClassSelector.ClassSelectorReplacesEveryState | src/preview/rewriteStyleSheet.ts:45-48 | Suppose no exclusion applies. Then the fold, which does one global replace per state, equals a single left-to-right pass that turns each matched `:<state>` into `.pseudo-<state>`. |
| Rewriter.NonEmptyOnly | src/preview/rewriteStyleSheet.ts:51 | `filter(Boolean)` keeps exactly the non-empty candidates. A list with no empty candidate comes back unchanged. |
| Rewriter.NonEmptyOnlyAppend | src/preview/rewriteStyleSheet.ts:51 | `filter(Boolean)` keeps order and multiplicity: filtering two lists one after the other gives the two filtered lists one after the other. |
| Rewriter.AcceptableOnly | src/preview/rewriteStyleSheet.ts:58-60 | The final filter keeps exactly the candidates that are non-empty and free of `:not()`. A list of acceptable candidates comes back unchanged. |
| Rewriter.AcceptableOnlyAppend | src/preview/rewriteStyleSheet.ts:58-60 | The final filter keeps order and multiplicity: it distributes over concatenation, so the original selector stays first. |
| Rewriter.RewriteSelector | src/preview/rewriteStyleSheet.ts:32-60 | A selector marked with `.pseudo-` gives nothing, and a selector without a pseudo-state gives itself. Otherwise every alternative is non-empty, unscoped alternatives are free of `:not()`, a scoped selector gives at most two alternatives, and no selector gives more than three. |
| Rewriter.ClassSelectorIsClassVariant | src/preview/rewriteStyleSheet.ts:45-48 | `classSelector` is empty when a state sits on an excluded pseudo-element. Otherwise it is the single-pass class rendering. |
| Rewriter.RewriteUnscopedSelector | src/preview/rewriteStyleSheet.ts:54-60 | An unscoped selector with a pseudo-state gives, in order, itself, its class variant and its ancestor variant, each kept only when acceptable. |
| Rewriter.RewriteScopedSelector | src/preview/rewriteStyleSheet.ts:50-52 | A `:host(` or `::slotted(` selector gives itself, followed by its class variant when that is non-empty, and never an ancestor variant. |
| Rewriter.UntouchedList | src/preview/rewriteStyleSheet.ts:31-37 | When no top-level selector has a pseudo-state or a marker, the flat map is the identity and the join rebuilds the list. |
| Rewriter.RewriteAllAppend | src/preview/rewriteStyleSheet.ts:31-32 | The flat map over two lists, one after the other, is the concatenation of the flat maps. |
| Rewriter.MarkedSelectorDropped | src/preview/rewriteStyleSheet.ts:33-35 | A top-level selector carrying `.pseudo-` contributes nothing. The rewritten list is the same as if it were absent. |
| Rewriter.SimpleSelectorRewrite | src/preview/rewriteStyleSheet.ts:40-60 | Take a simple selector `pre:n` (no colon, backslash, dot or parenthesis in `pre`). It gives `pre:n`, then `pre.pseudo-n`, then `.pseudo-n pre`. Inside a shadow root the last one is `:host(.pseudo-n) pre`. |
| Rewriter.ExcludedElementRewrite | src/preview/rewriteStyleSheet.ts:45-58 | When the state of `el:n` sits on the excluded element `el`, the result is `el:n` and `.pseudo-n el`, with no class variant. |
| Rewriter.LightDomExample | src/preview/rewriteStyleSheet.ts:56-58 | `a:hover` gives `a:hover`, `a.pseudo-hover`, `.pseudo-hover a`. |
| Rewriter.ShadowDomExample | src/preview/rewriteStyleSheet.ts:54-55 | In a shadow root, `a:hover` gives `a:hover`, `a.pseudo-hover`, `:host(.pseudo-hover) a`. |
| Rewriter.PlaceholderExample | src/preview/rewriteStyleSheet.ts:45-58 | With `::placeholder` excluded, `::placeholder:hover` gives itself and `.pseudo-hover ::placeholder`. |
| Text.JoinAppend | src/preview/rewriteStyleSheet.ts:62 | Joining two non-empty lists puts exactly one `, ` between their joins. |
| Warnings.WarnOnce | src/preview/rewriteStyleSheet.ts:17-23 | The message is seen afterwards. The console grows by that one message exactly when it was not seen before, and earlier output is kept. A message already seen changes nothing, so raising it twice is the same as raising it once. |
| Warnings.WarnAllConsistent | src/preview/rewriteStyleSheet.ts:17-23 | After any sequence of warnings, the console holds each message that was seen before or raised since, exactly once. |
| Patcher.RewriteRule | src/preview/rewriteStyleSheet.ts:28-30 | `rewriteRule` yields a style rule with the same declarations. |
| Patcher.UntouchedRule | src/preview/rewriteStyleSheet.ts:28-37 | A rule none of whose selectors has a pseudo-state or marker gets back its selectors joined with `, `. |
| Patcher.DeleteRule | src/preview/rewriteStyleSheet.ts:85 | `deleteRule(i)` removes the rule at `i` and shifts the later rules down. |
| Patcher.InsertRule | src/preview/rewriteStyleSheet.ts:86 | `insertRule(rule, i)` puts the rule at `i` and shifts the later rules up. |
| Patcher.StyleRules | src/preview/rewriteStyleSheet.ts:80-82 | The loop counts exactly the rules that have a selector text: every such rule is among them, and nothing else is. |
| Patcher.StyleRulesAppend | src/preview/rewriteStyleSheet.ts:80-82 | The style rules keep sheet order: those of two lists one after the other are the two lists' style rules one after the other. |
| Patcher.NextStyleRule | src/preview/rewriteStyleSheet.ts:80-89 | When the loop reaches a style rule at position `p`, the counter names that rule: it is the counter-th style rule of the sheet. Any other rule leaves the count unchanged. |
| Patcher.VisitStyleRule | src/preview/rewriteStyleSheet.ts:83-93 | One visit of a style rule with a pseudo-state replaces the rule at the write index by its rewrite, and leaves the list alone otherwise. The host is recorded exactly when the rule had a pseudo-state inside a shadow root when a host set was passed. The counter grows by one, and the stop flag is set and the cap warning raised once exactly when the counter passes 1000. |
| Patcher.RewriteRulesByCounter | src/preview/rewriteStyleSheet.ts:79-94 | The loop as written: the rewrite of the `k`-th style rule lands at position `k`. The cap warning is raised exactly when there are more than 1000 style rules. The host is added exactly when some examined style rule had a pseudo-state. |
| Patcher.RewriteStyleSheet | src/preview/rewriteStyleSheet.ts:68-102 | A flagged sheet is left alone. Otherwise the flag is set, an unreadable sheet only raises the CORS warning once, and a readable sheet gets the rules, log and host flag of the loop. |
| Patcher.PositionedRules | src/preview/rewriteStyleSheet.ts:80-89 | In the intended result every rule keeps its kind, and rules without a pseudo-state are untouched. Every style rule with a pseudo-state that has at most 1000 style rules before it is replaced by its rewrite. Every changed rule is the rewrite of the rule that stood there. |
| Patcher.RewriteRulesInPlace | src/preview/rewriteStyleSheet.ts:79-94 | The loop with each rewrite written where its rule was read computes the intended rules, with the same log and host flag. |
| Patcher.RewriteStyleSheetAtPosition | src/preview/rewriteStyleSheet.ts:68-102 | The whole patcher with the corrected write position. |
| Patcher.CounterMatchesPositionOnStyleRules | src/preview/rewriteStyleSheet.ts:80-89 | On a sheet made only of style rules, the counter and the position coincide, so the loop as written is correct there. |
| Patcher.AnyQualifiesIsExists | src/preview/rewriteStyleSheet.ts:87 | The host flag, accumulated rule by rule, is set exactly when some examined style rule has a pseudo-state. |
| Patcher.CounterIndexClobbersRule | src/preview/rewriteStyleSheet.ts:85-89 | On `[@font-face {}, a:hover {}]` the loop as written overwrites `@font-face` and leaves `a:hover` as it was, while the intended result keeps `@font-face` and rewrites `a:hover`. |

## Left out

- `splitSelectors` (`src/preview/splitSelectors.ts`) is not part of this model. It is the parameter `Config.split`, and the rewrite works on the list it returns.
- `PSEUDO_STATES` and `EXCLUDED_PSEUDO_ELEMENTS` (`src/constants.ts`) are not part of this model. They are the parameters `Config.names` and `Config.excluded`.
- State names are matched as literal text. The source splices them into a regular expression, and a name containing a regex metacharacter would change the pattern. The configured names contain none.
- `cssText.replace(selectorText, …)` is modelled as a rule whose selector text is replaced and whose declarations are kept. Two behaviours are not modelled: the first-occurrence search inside the whole rule text, and `$` replacement patterns.
- The `console.error` branch for exceptions other than unreadable rules is not modelled. Neither is an exception from `insertRule` rejecting a rewritten rule. An unreadable sheet is the flag `Sheet.readable`: reading its rules throws before any rule is touched.
- `shadowHosts.add(shadowRoot.host)` is modelled as the boolean `Outcome.hostAdded`. Host identity and set contents are not modelled.
- The module-level `warnings` set and the console are a `Log` value threaded through the calls, not global state.
- The loop iterates over the live `cssRules` list. The model reads the rule at the current position of the list as modified so far. Every write lands at an index no greater than the current position, so the rules still to be read are those of the original sheet.
- Strings are sequences of characters. UTF-16 code units and case sensitivity rules of CSS are not modelled.
- ClassSelector.ClassSelectorReplacesEveryState: proved only for state names made of lower-case letters, digits and hyphens, as all configured names are. A name containing `:` or `\` could let one replacement create or hide a match for the next.
- Rewriter.SimpleSelectorRewrite: covers only selectors whose prefix has no colon, backslash, dot or parenthesis, only the state list `[n]`, and no excluded pseudo-element. With a longer list, an earlier name that is a prefix of `n` would be captured instead. The general case is stated by Rewriter.RewriteUnscopedSelector and Rewriter.RewriteScopedSelector.
- Rewriter.ExcludedElementRewrite: covers only the light-DOM case outside a shadow root, only the state list `[n]`, and only the excluded list `[el]`.
- `Config.names` is taken to be non-empty, as the configured `PSEUDO_STATES` list is. With no names the source would build the pattern `:()`, which matches every unescaped colon with an empty state. The model then matches nothing.
- Patcher.RewriteRule: its contract states only that the kind and the declarations are kept. The new selector text is stated by the Rewriter lemmas about `RewriteSelectors` and by Patcher.UntouchedRule.

## Findings

| source | as written | input that shows it | evidently intended | confidence | as-written member | corrected member |
|---|---|---|---|---|---|---|
| src/preview/rewriteStyleSheet.ts:79-89 | `deleteRule(index)` and `insertRule(newRule, index)` use `index`, which counts only the rules with a selector text, as a position in the whole rule list | the sheet `@font-face {} a:hover {}` with the state `hover`: the rewrite of `a:hover` replaces the `@font-face` rule at position 0, and `a:hover` stays at position 1 unrewritten | each rewrite replaces the rule it was made from, at that rule's own position | not executed | Patcher.RewriteRulesByCounter, Patcher.CounterIndexClobbersRule | Patcher.RewriteRulesInPlace |
