/** Escape parity of a character position: a colon is a real pseudo-class
    marker only when the backslashes directly before it pair up. */
module Escapes {

  /** Every character of `t` is a backslash. */
  predicate AllBackslashes(t: string) {
    forall j :: 0 <= j < |t| ==> t[j] == '\\'
  }

  /** Length of the run of backslashes that ends just before position `i`. */
  function BackslashRun(s: string, i: nat): nat
    requires i <= |s|
  {
    if i == 0 || s[i - 1] != '\\' then 0 else 1 + BackslashRun(s, i - 1)
  }

  /** `BackslashRun` measures the maximal run: the `n` characters before `i`
      are backslashes and the one before them (if any) is not. */
  lemma {:induction false} BackslashRunIsMaximal(s: string, i: nat)
    requires i <= |s|
    ensures BackslashRun(s, i) <= i
    ensures AllBackslashes(s[i - BackslashRun(s, i)..i])
    ensures BackslashRun(s, i) < i ==> s[i - BackslashRun(s, i) - 1] != '\\'
  {
    if i > 0 && s[i - 1] == '\\' {
      BackslashRunIsMaximal(s, i - 1);
      var m := BackslashRun(s, i - 1);
      assert s[i - 1 - m..i] == s[i - 1 - m..i - 1] + [s[i - 1]];
    }
  }

  /** An odd number of backslashes ends just before position `i`; computed
      by flipping a bit per backslash, as a backward scan would. */
  predicate OddRun(s: string, i: nat)
    requires i <= |s|
  {
    if i == 0 || s[i - 1] != '\\' then false else !OddRun(s, i - 1)
  }

  /** The character at `i` is not escaped: the backslashes before it pair up. */
  predicate Unescaped(s: string, i: nat)
    requires i <= |s|
  {
    !OddRun(s, i)
  }

  lemma {:induction false} OddRunIsParity(s: string, i: nat)
    requires i <= |s|
    ensures OddRun(s, i) <==> BackslashRun(s, i) % 2 == 1
  {
    if i > 0 && s[i - 1] == '\\' {
      OddRunIsParity(s, i - 1);
    }
  }

  /** The reading of the lookbehind `(?<!\\)(?:\\\\)*` used by the matcher:
      an even-length block of backslashes ends at `i` (possibly empty), and
      no backslash stands directly before that block. */
  ghost predicate LookbehindAccepts(s: string, i: nat)
    requires i <= |s|
  {
    exists j :: 0 <= j <= i && (i - j) % 2 == 0 && AllBackslashes(s[j..i]) && (j == 0 || s[j - 1] != '\\')
  }

  /** A block of backslashes that is not preceded by a backslash is the maximal run. */
  lemma RunIsUnique(s: string, i: nat, j: nat)
    requires j <= i <= |s|
    requires AllBackslashes(s[j..i])
    requires j == 0 || s[j - 1] != '\\'
    ensures BackslashRun(s, i) == i - j
  {
    var n := BackslashRun(s, i);
    BackslashRunIsMaximal(s, i);
    forall k | j <= k < i ensures s[k] == '\\' {
      assert s[k] == s[j..i][k - j];
    }
    forall k | i - n <= k < i ensures s[k] == '\\' {
      assert s[k] == s[i - n..i][k - (i - n)];
    }
  }

  /** Escape parity: the lookbehind accepts a position exactly when the
      maximal backslash run before it has even length (0, 2, 4, ...). */
  lemma LookbehindIsEvenRun(s: string, i: nat)
    requires i <= |s|
    ensures LookbehindAccepts(s, i) <==> BackslashRun(s, i) % 2 == 0
    ensures LookbehindAccepts(s, i) <==> Unescaped(s, i)
  {
    OddRunIsParity(s, i);
    if LookbehindAccepts(s, i) {
      var j :| 0 <= j <= i && (i - j) % 2 == 0 && AllBackslashes(s[j..i]) && (j == 0 || s[j - 1] != '\\');
      RunIsUnique(s, i, j);
    }
    if BackslashRun(s, i) % 2 == 0 {
      BackslashRunIsMaximal(s, i);
      var j := i - BackslashRun(s, i);
      assert AllBackslashes(s[j..i]) && (j == 0 || s[j - 1] != '\\');
    }
  }

  /** `n` backslashes. */
  function Backslashes(n: nat): (r: string)
    ensures |r| == n && AllBackslashes(r)
  {
    if n == 0 then "" else Backslashes(n - 1) + "\\"
  }

  /** Writing `n` backslashes in front of a text that starts with a non-backslash
      character gives that character a run of exactly `n`. */
  lemma BackslashesBefore(n: nat, s: string)
    requires |s| > 0 && s[0] != '\\'
    ensures BackslashRun(Backslashes(n) + s, n) == n
  {
    var t := Backslashes(n) + s;
    assert t[0..n] == Backslashes(n);
    RunIsUnique(t, n, 0);
  }
}
