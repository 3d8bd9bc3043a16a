/** Optional values, standing for JavaScript's `null` / `undefined` results. */
module Wrappers {
  datatype Option<T> = None | Some(value: T)
}

/**
 * The string primitives the engine uses: JavaScript's `toLowerCase`, `trim`,
 * `includes`, `startsWith`, `endsWith` and the first fields of `split`,
 * written out on `seq<char>`.
 */
module Text {
  import opened Wrappers

  /** The characters that `String.prototype.trim` removes and the regex class `\s` matches. */
  predicate IsSpace(c: char) {
    c == ' ' || c == '\t' || c == '\n' || c == '\r' || c == '\U{B}' || c == '\U{C}'
    || c == '\U{A0}' || c == '\U{1680}' || ('\U{2000}' <= c <= '\U{200A}')
    || c == '\U{2028}' || c == '\U{2029}' || c == '\U{202F}' || c == '\U{205F}'
    || c == '\U{3000}' || c == '\U{FEFF}'
  }

  predicate IsUpper(c: char) { 'A' <= c <= 'Z' }

  predicate IsLowerCase(s: string) { forall i :: 0 <= i < |s| ==> !IsUpper(s[i]) }

  function LowerChar(c: char): (r: char)
    ensures !IsUpper(r)
    ensures !IsUpper(c) ==> r == c
  {
    if IsUpper(c) then (c as int + 32) as char else c
  }

  /** `toLowerCase`, restricted to the ASCII letters. */
  function Lower(s: string): (r: string)
    ensures |r| == |s|
    ensures IsLowerCase(r)
  {
    if s == [] then [] else [LowerChar(s[0])] + Lower(s[1..])
  }

  lemma {:induction false} LowerOfLowerCase(s: string)
    requires IsLowerCase(s)
    ensures Lower(s) == s
  {
    if s != [] {
      LowerOfLowerCase(s[1..]);
    }
  }

  lemma {:induction false} LowerAt(s: string)
    ensures forall i :: 0 <= i < |s| ==> Lower(s)[i] == LowerChar(s[i])
  {
    if s != [] {
      LowerAt(s[1..]);
      assert forall i :: 1 <= i < |s| ==> s[1..][i - 1] == s[i];
    }
  }

  lemma LowerSlice(s: string, i: int, j: int)
    requires 0 <= i <= j <= |s|
    ensures Lower(s)[i..j] == Lower(s[i..j])
  {
    var p := s[..j];
    LowerPrefix(s, j);
    LowerSuffix(p, i);
    assert Lower(s)[i..j] == Lower(s)[..j][i..];
    assert p[i..] == s[i..j];
  }

  lemma LowerPrefix(s: string, j: int)
    requires 0 <= j <= |s|
    ensures Lower(s)[..j] == Lower(s[..j])
  {
    assert s == s[..j] + s[j..];
    LowerConcat(s[..j], s[j..]);
  }

  lemma LowerSuffix(s: string, i: int)
    requires 0 <= i <= |s|
    ensures Lower(s)[i..] == Lower(s[i..])
  {
    assert s == s[..i] + s[i..];
    LowerConcat(s[..i], s[i..]);
  }

  lemma {:induction false} LowerConcat(a: string, b: string)
    ensures Lower(a + b) == Lower(a) + Lower(b)
  {
    if a == [] {
      assert a + b == b;
    } else {
      assert (a + b)[0] == a[0];
      assert (a + b)[1..] == a[1..] + b;
      LowerConcat(a[1..], b);
    }
  }

  /** The length of the longest prefix of `s` whose characters all satisfy `p`. */
  function LeadingRun(s: string, p: char -> bool): (n: nat)
    ensures n <= |s|
    ensures forall i :: 0 <= i < n ==> p(s[i])
    ensures n < |s| ==> !p(s[n])
  {
    if s != [] && p(s[0]) then 1 + LeadingRun(s[1..], p) else 0
  }

  /** A prefix that passes, followed by a character that fails, is the whole run. */
  lemma {:induction false} LeadingRunThrough(pre: string, s: string, p: char -> bool)
    requires forall i :: 0 <= i < |pre| ==> p(pre[i])
    requires s != [] && !p(s[0])
    ensures LeadingRun(pre + s, p) == |pre|
  {
    if pre != [] {
      assert (pre + s)[1..] == pre[1..] + s;
      LeadingRunThrough(pre[1..], s, p);
    } else {
      assert pre + s == s;
    }
  }

  /** Where the longest suffix of `s` whose characters all satisfy `p` begins. */
  function TrailingRunStart(s: string, p: char -> bool): (n: nat)
    ensures n <= |s|
    ensures forall i :: n <= i < |s| ==> p(s[i])
    ensures n > 0 ==> !p(s[n - 1])
  {
    if s != [] && p(s[|s| - 1]) then TrailingRunStart(s[..|s| - 1], p) else |s|
  }

  /** Drops the longest prefix of `s` whose characters all satisfy `p`. */
  function TrimStartBy(s: string, p: char -> bool): string {
    s[LeadingRun(s, p)..]
  }

  /** Drops the longest suffix of `s` whose characters all satisfy `p`. */
  function TrimEndBy(s: string, p: char -> bool): string {
    s[..TrailingRunStart(s, p)]
  }

  lemma TrimByKeepsLowerCase(s: string, p: char -> bool)
    requires IsLowerCase(s)
    ensures IsLowerCase(TrimStartBy(s, p)) && IsLowerCase(TrimEndBy(s, p))
  {
    var a := TrimStartBy(s, p);
    assert forall i :: 0 <= i < |a| ==> a[i] == s[LeadingRun(s, p) + i];
  }

  /** `String.prototype.trim`. */
  function Trim(s: string): string {
    TrimEndBy(TrimStartBy(s, IsSpace), IsSpace)
  }

  lemma TrimKeepsLowerCase(s: string)
    requires IsLowerCase(s)
    ensures IsLowerCase(Trim(s))
  {
    TrimByKeepsLowerCase(s, IsSpace);
    TrimByKeepsLowerCase(TrimStartBy(s, IsSpace), IsSpace);
  }

  lemma TrimOfSpaceFree(s: string)
    requires s == [] || (!IsSpace(s[0]) && !IsSpace(s[|s| - 1]))
    ensures Trim(s) == s
  {
    assert LeadingRun(s, IsSpace) == 0;
    assert TrimStartBy(s, IsSpace) == s;
  }

  predicate StartsWith(s: string, prefix: string) {
    |prefix| <= |s| && s[..|prefix|] == prefix
  }

  lemma LowerCaseConcat(a: string, b: string)
    ensures IsLowerCase(a + b) <==> IsLowerCase(a) && IsLowerCase(b)
  {
    var c := a + b;
    assert forall i :: 0 <= i < |a| ==> c[i] == a[i];
    assert forall i :: 0 <= i < |b| ==> c[|a| + i] == b[i];
  }

  lemma PrefixOfConcat(p: string, s: string)
    ensures StartsWith(p + s, p) && (p + s)[|p|..] == s
  {
    assert (p + s)[..|p|] == p;
  }

  predicate EndsWith(s: string, suffix: string) {
    |suffix| <= |s| && s[|s| - |suffix|..] == suffix
  }

  /** `sub` occurs in `s` starting at index `i`. */
  predicate OccursAt(s: string, sub: string, i: int) {
    0 <= i <= |s| - |sub| && s[i..i + |sub|] == sub
  }

  /** `s.includes(sub)`. */
  predicate Contains(s: string, sub: string) {
    exists i :: 0 <= i <= |s| - |sub| && OccursAt(s, sub, i)
  }

  /** `s.indexOf(c)`, with `None` for -1. */
  function IndexOf(s: string, c: char): (r: Option<nat>)
    ensures r.None? <==> c !in s
    ensures r.Some? ==> r.value < |s| && s[r.value] == c && c !in s[..r.value]
  {
    if s == [] then None
    else if s[0] == c then Some(0)
    else match IndexOf(s[1..], c)
      case None => None
      case Some(i) => assert s[1..][..i] == s[1..i + 1]; Some(i + 1)
  }

  /** `s.split(c)[0]`: everything before the first `c`. */
  function FieldBefore(s: string, c: char): (r: string)
    ensures c !in r
    ensures StartsWith(s, r)
    ensures c !in s ==> r == s
    ensures c in s ==> |r| < |s| && s[|r|] == c
  {
    match IndexOf(s, c)
      case None => s
      case Some(i) => s[..i]
  }

  /** `s.split(c)[1]`: the text between the first and the second `c`. */
  function FieldAfter(s: string, c: char): (r: string)
    requires c in s
    ensures c !in r
    ensures var i := IndexOf(s, c).value;
      StartsWith(s[i + 1..], r) && (i + 1 + |r| == |s| || s[i + 1 + |r|] == c)
  {
    var i := IndexOf(s, c).value;
    FieldBefore(s[i + 1..], c)
  }

  lemma {:induction false} FieldBeforeConcat(a: string, c: char, b: string)
    requires c !in a
    ensures FieldBefore(a + [c] + b, c) == a
  {
    var s := a + [c] + b;
    assert s[|a|] == c;
    assert s[..|a|] == a;
    assert c !in s[..|a|];
  }

  lemma FieldAfterConcat(a: string, c: char, b: string)
    requires c !in a && c !in b
    ensures FieldAfter(a + [c] + b, c) == b
  {
    var s := a + [c] + b;
    FieldBeforeConcat(a, c, b);
    var i := IndexOf(s, c).value;
    assert s[..|a|] == a;
    assert s[i + 1..] == b;
  }

  /** With a second `c`, the second field stops right before it. */
  lemma FieldAfterOfTwo(a: string, c: char, b: string, t: string)
    requires c !in a && c !in b
    ensures FieldAfter(a + [c] + b + [c] + t, c) == b
  {
    var s := a + [c] + b + [c] + t;
    assert s == a + [c] + (b + [c] + t);
    FieldBeforeConcat(a, c, b + [c] + t);
    var i := IndexOf(s, c).value;
    assert s[..|a|] == a;
    assert s[i + 1..] == b + [c] + t;
    FieldBeforeConcat(b, c, t);
  }
}
