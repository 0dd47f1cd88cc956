/** String operations with the meaning of the JavaScript `String` and `Array`
    methods the rewriter relies on. Strings are sequences of characters. */
module Text {

  datatype Option<T> = None | Some(value: T)

  /** `s.startsWith(p)` */
  predicate StartsWith(s: string, p: string) {
    |p| <= |s| && s[..|p|] == p
  }

  /** `s.endsWith(suffix)` */
  predicate EndsWith(s: string, suffix: string) {
    |suffix| <= |s| && s[|s| - |suffix|..] == suffix
  }

  /** `s.includes(sub)` */
  predicate Includes(s: string, sub: string) {
    exists i :: 0 <= i <= |s| - |sub| && StartsWith(s[i..], sub)
  }

  /** Cutting a text after its first character and again at `q`. */
  lemma SplitAt<T>(s: seq<T>, p: nat, q: nat)
    requires p < q <= |s|
    ensures s[p..] == [s[p]] + s[p + 1..q] + s[q..]
  {
  }

  lemma SplitTail<T>(s: seq<T>, a: nat, b: nat)
    requires a <= b <= |s|
    ensures s[a..] == s[a..b] + s[b..]
  {
  }

  lemma SuffixCons<T>(s: seq<T>, p: nat)
    requires p < |s|
    ensures |s[p..]| > 0 && s[p..][0] == s[p] && s[p..][1..] == s[p + 1..]
  {
  }

  lemma ConcatAssoc<T>(a: seq<T>, b: seq<T>, c: seq<T>)
    ensures a + (b + c) == a + b + c
  {
  }

  /** The character `c` does not occur in `t`. */
  predicate Lacks(t: string, c: char) {
    forall k :: 0 <= k < |t| ==> t[k] != c
  }

  lemma LacksConcat(a: string, b: string, c: char)
    requires Lacks(a, c) && Lacks(b, c)
    ensures Lacks(a + b, c)
  {
  }

  /** `parts.join(sep)` */
  function Join(parts: seq<string>, sep: string): string {
    if |parts| == 0 then ""
    else if |parts| == 1 then parts[0]
    else parts[0] + sep + Join(parts[1..], sep)
  }

  /** Joining two non-empty lists puts exactly one separator between them. */
  lemma {:induction false} JoinAppend(a: seq<string>, b: seq<string>, sep: string)
    requires |a| > 0 && |b| > 0
    ensures Join(a + b, sep) == Join(a, sep) + sep + Join(b, sep)
  {
    if |a| == 1 {
      assert a + b == [a[0]] + b;
      assert (a + b)[1..] == b;
    } else {
      assert (a + b)[1..] == a[1..] + b;
      JoinAppend(a[1..], b, sep);
    }
  }
}
