/**
 * Sequence helpers shared by the engine: JavaScript's `[...new Set(s)]`
 * (`Dedup`), `Array.prototype.filter` (`Filter`) and flattening of nested
 * arrays, with the order facts the engine relies on.
 */
module Seqs {
  /** No element occurs twice. */
  predicate Distinct<T(==)>(s: seq<T>) {
    forall i, j :: 0 <= i < j < |s| ==> s[i] != s[j]
  }

  /** A sequence without repetitions has as many elements as its set. */
  lemma {:induction false} DistinctCard<T>(s: seq<T>)
    requires Distinct(s)
    ensures |set x | x in s| == |s|
  {
    if s != [] {
      var init := s[..|s| - 1];
      DistinctCard(init);
      assert (set x | x in s) == (set x | x in init) + {s[|s| - 1]};
    }
  }

  /** Index of the first occurrence of `x` in `s`, or `|s|` when absent. */
  function FirstIndex<T(==)>(s: seq<T>, x: T): (r: nat)
    ensures r <= |s|
    ensures r < |s| <==> x in s
    ensures r < |s| ==> s[r] == x
    ensures x !in s[..r]
  {
    if s == [] then 0 else if s[0] == x then 0 else 1 + FirstIndex(s[1..], x)
  }

  lemma {:induction false} FirstIndexPrefix<T>(s: seq<T>, y: T, x: T)
    requires x in s
    ensures FirstIndex(s + [y], x) == FirstIndex(s, x)
  {
    if s[0] != x {
      assert (s + [y])[1..] == s[1..] + [y];
      FirstIndexPrefix(s[1..], y, x);
    }
  }

  lemma FirstIndexPrefixAll<T>(s: seq<T>, y: T)
    ensures forall x :: x in s ==> FirstIndex(s + [y], x) == FirstIndex(s, x)
  {
    forall x | x in s ensures FirstIndex(s + [y], x) == FirstIndex(s, x) {
      FirstIndexPrefix(s, y, x);
    }
  }

  lemma {:induction false} FirstIndexFresh<T>(s: seq<T>, x: T)
    requires x !in s
    ensures FirstIndex(s + [x], x) == |s|
  {
    if s != [] {
      assert (s + [x])[1..] == s[1..] + [x];
      FirstIndexFresh(s[1..], x);
    }
  }

  /** Elements of `s` listed by the position of their first occurrence in `ref`. */
  predicate InFirstSeenOrder<T(==)>(s: seq<T>, ref: seq<T>) {
    forall i, j :: 0 <= i < j < |s| ==> FirstIndex(ref, s[i]) < FirstIndex(ref, s[j])
  }

  /** `[...new Set(s)]`: each element once, in the order it was first seen. */
  function Dedup<T(==,!new)>(s: seq<T>): (r: seq<T>)
    ensures Distinct(r)
    ensures forall x :: x in r <==> x in s
    ensures InFirstSeenOrder(r, s)
  {
    if s == [] then []
    else
      var init := s[..|s| - 1];
      var last := s[|s| - 1];
      var p := Dedup(init);
      assert s == init + [last];
      FirstIndexPrefixAll(init, last);
      if last in p then p
      else
        FirstIndexFresh(init, last);
        p + [last]
  }


  lemma DedupSnoc<T(!new)>(s: seq<T>, x: T)
    ensures Dedup(s + [x]) == (if x in s then Dedup(s) else Dedup(s) + [x])
  {
    assert (s + [x])[..|s|] == s;
  }

  lemma {:induction false} DedupConstant<T(!new)>(s: seq<T>, a: T)
    requires a in s && forall x :: x in s ==> x == a
    ensures Dedup(s) == [a]
  {
    var init := s[..|s| - 1];
    assert s == init + [s[|s| - 1]];
    if init != [] {
      assert init[0] in s;
      assert forall x :: x in init ==> x in s;
      DedupConstant(init, a);
      assert s[|s| - 1] in s;
      assert Dedup(s) == Dedup(init);
    } else {
      assert Dedup(init) == [];
    }
  }

  /** `s.filter(p)`. */
  function Filter<T>(s: seq<T>, p: T -> bool): (r: seq<T>)
    ensures |r| <= |s|
  {
    if s == [] then []
    else
      var init := s[..|s| - 1];
      var last := s[|s| - 1];
      var f := Filter(init, p);
      if p(last) then f + [last] else f
  }

  /** The kept elements are exactly the elements of `s` that satisfy `p`. */
  lemma {:induction false} FilterMembers<T>(s: seq<T>, p: T -> bool)
    ensures forall i :: 0 <= i < |Filter(s, p)| ==> Filter(s, p)[i] in s && p(Filter(s, p)[i])
    ensures forall i :: 0 <= i < |s| && p(s[i]) ==> s[i] in Filter(s, p)
  {
    if s != [] {
      var init := s[..|s| - 1];
      var last := s[|s| - 1];
      assert s == init + [last];
      FilterMembers(init, p);
      assert forall i :: 0 <= i < |init| ==> init[i] == s[i];
    }
  }

  lemma FilterHas<T>(s: seq<T>, p: T -> bool, x: T)
    ensures x in Filter(s, p) <==> x in s && p(x)
  {
    FilterMembers(s, p);
    if x in s && p(x) {
      var k :| 0 <= k < |s| && s[k] == x;
    }
  }

  lemma FilterSnoc<T>(s: seq<T>, x: T, p: T -> bool)
    ensures Filter(s + [x], p) == Filter(s, p) + (if p(x) then [x] else [])
  {
    assert (s + [x])[..|s|] == s;
  }

  lemma {:induction false} FilterConcat<T>(a: seq<T>, b: seq<T>, p: T -> bool)
    ensures Filter(a + b, p) == Filter(a, p) + Filter(b, p)
  {
    if b != [] {
      var init := b[..|b| - 1];
      var last := b[|b| - 1];
      assert b == init + [last];
      assert a + b == (a + init) + [last];
      FilterConcat(a, init, p);
      FilterSnoc(a + init, last, p);
      FilterSnoc(init, last, p);
    } else {
      assert a + b == a;
    }
  }

  /** Two complementary filters split `s` without loss: lengths and multisets add up. */
  lemma {:induction false} FilterPartition<T>(s: seq<T>, p: T -> bool, q: T -> bool)
    requires forall x :: q(x) == !p(x)
    ensures |Filter(s, p)| + |Filter(s, q)| == |s|
    ensures multiset(Filter(s, p)) + multiset(Filter(s, q)) == multiset(s)
  {
    if s != [] {
      var init := s[..|s| - 1];
      var last := s[|s| - 1];
      assert s == init + [last];
      FilterPartition(init, p, q);
      FilterSnoc(init, last, p);
      FilterSnoc(init, last, q);
    }
  }

  /** A filter keeps the relative order of what it keeps. */
  lemma {:induction false} FilterOrder<T>(s: seq<T>, p: T -> bool, ref: seq<T>)
    requires Distinct(s) && InFirstSeenOrder(s, ref)
    ensures Distinct(Filter(s, p)) && InFirstSeenOrder(Filter(s, p), ref)
  {
    if s != [] {
      var init := s[..|s| - 1];
      var last := s[|s| - 1];
      assert s == init + [last];
      InitOrdered(s, ref);
      FilterOrder(init, p, ref);
      if p(last) {
        LastAfterInit(s, ref);
        FilterMembers(init, p);
        SnocOrdered(Filter(init, p), last, ref);
      }
    }
  }

  lemma InitOrdered<T>(s: seq<T>, ref: seq<T>)
    requires s != [] && Distinct(s) && InFirstSeenOrder(s, ref)
    ensures Distinct(s[..|s| - 1]) && InFirstSeenOrder(s[..|s| - 1], ref)
  {
    var t := s[..|s| - 1];
    forall i, j | 0 <= i < j < |t| ensures t[i] != t[j] && FirstIndex(ref, t[i]) < FirstIndex(ref, t[j]) {
      assert t[i] == s[i] && t[j] == s[j];
    }
  }

  lemma LastAfterInit<T>(s: seq<T>, ref: seq<T>)
    requires s != [] && Distinct(s) && InFirstSeenOrder(s, ref)
    ensures forall y :: y in s[..|s| - 1] ==> s[|s| - 1] != y && FirstIndex(ref, y) < FirstIndex(ref, s[|s| - 1])
  {
    var t := s[..|s| - 1];
    forall y | y in t ensures s[|s| - 1] != y && FirstIndex(ref, y) < FirstIndex(ref, s[|s| - 1]) {
      var k :| 0 <= k < |t| && t[k] == y;
      assert s[k] == y;
    }
  }

  lemma SnocOrdered<T>(t: seq<T>, x: T, ref: seq<T>)
    requires Distinct(t) && InFirstSeenOrder(t, ref)
    requires forall y :: y in t ==> x != y && FirstIndex(ref, y) < FirstIndex(ref, x)
    ensures Distinct(t + [x]) && InFirstSeenOrder(t + [x], ref)
  {
    var r := t + [x];
    forall i, j | 0 <= i < j < |r| ensures r[i] != r[j] && FirstIndex(ref, r[i]) < FirstIndex(ref, r[j]) {
      assert r[i] == t[i];
      if j < |t| {
        assert r[j] == t[j];
      } else {
        assert r[i] in t;
      }
    }
  }

  /** The concatenation of a sequence of sequences. */
  function Flatten<T>(ss: seq<seq<T>>): (r: seq<T>)
    ensures forall i :: 0 <= i < |ss| ==> |ss[i]| <= |r|
  {
    if ss == [] then [] else ss[0] + Flatten(ss[1..])
  }

  lemma {:induction false} FlattenConcat<T>(a: seq<seq<T>>, b: seq<seq<T>>)
    ensures Flatten(a + b) == Flatten(a) + Flatten(b)
  {
    if a == [] {
      assert a + b == b;
    } else {
      assert (a + b)[1..] == a[1..] + b;
      FlattenConcat(a[1..], b);
    }
  }

  /** The number of positions of `s` holding `x`. */
  function Count<T(==)>(s: seq<T>, x: T): (r: nat)
    ensures r <= |s|
    ensures r == 0 <==> x !in s
  {
    if s == [] then 0 else (if s[0] == x then 1 else 0) + Count(s[1..], x)
  }

  /** A sequence without repeats lists its elements in first-seen order of itself. */
  lemma FirstIndexSelf<T>(s: seq<T>)
    requires Distinct(s)
    ensures InFirstSeenOrder(s, s)
    ensures forall i :: 0 <= i < |s| ==> FirstIndex(s, s[i]) == i
  {
    forall i | 0 <= i < |s| ensures FirstIndex(s, s[i]) == i {
      assert s[i] in s[..i + 1];
    }
  }

  /** The values `f` takes on the elements of `s`. */
  function Image<T, U>(s: seq<T>, f: T -> U): set<U> {
    set k | 0 <= k < |s| :: f(s[k])
  }

  /** The values `f` takes on the elements of the sequences in `ss`. */
  function NestedImage<T, U>(ss: seq<seq<T>>, f: T -> U): set<U> {
    set i, k | 0 <= i < |ss| && 0 <= k < |ss[i]| :: f(ss[i][k])
  }

  lemma ImageSnoc<T, U>(s: seq<T>, j: int, f: T -> U)
    requires 0 <= j < |s|
    ensures Image(s[..j + 1], f) == Image(s[..j], f) + {f(s[j])}
  {
    var q, r := s[..j + 1], s[..j];
    assert forall k :: 0 <= k < j ==> q[k] == r[k];
    assert q[j] == s[j];
  }

  lemma NestedImageSnoc<T, U>(ss: seq<seq<T>>, p: int, f: T -> U)
    requires 0 <= p < |ss|
    ensures NestedImage(ss[..p + 1], f) == NestedImage(ss[..p], f) + Image(ss[p], f)
  {
    var q := ss[..p + 1];
    assert forall i :: 0 <= i < p ==> q[i] == ss[..p][i];
    assert q[p] == ss[p];
    forall e | e in NestedImage(q, f) ensures e in NestedImage(ss[..p], f) + Image(ss[p], f) {
      var i, k :| 0 <= i < |q| && 0 <= k < |q[i]| && f(q[i][k]) == e;
      if i == p { assert e in Image(ss[p], f); }
    }
    forall e | e in Image(ss[p], f) ensures e in NestedImage(q, f) {
      var k :| 0 <= k < |ss[p]| && f(ss[p][k]) == e;
      assert f(q[p][k]) == e;
    }
  }
}
