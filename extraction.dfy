/**
 * Address extraction (app.js:166-172): the regex match list is lower-cased,
 * trimmed and stripped of leading and trailing runs of `-` and `.`, then
 * deduplicated in first-seen order (`[...new Set(...)]`), and the entries that
 * lost their `@` are dropped.  The regex match itself is an input.
 */
module Extraction {
  import opened Text
  import opened Seqs

  predicate IsJunk(c: char) { c == '-' || c == '.' }

  /** `.replace(/^[-.]+/, '').replace(/[-.]+$/, '')`. */
  function StripJunk(t: string): (r: string)
    ensures r == [] || (!IsJunk(r[0]) && !IsJunk(r[|r| - 1]))
    ensures IsLowerCase(t) ==> IsLowerCase(r)
  {
    var a := TrimStartBy(t, IsJunk);
    var r := TrimEndBy(a, IsJunk);
    assert IsLowerCase(t) ==> IsLowerCase(r) by {
      if IsLowerCase(t) {
        TrimByKeepsLowerCase(t, IsJunk);
        TrimByKeepsLowerCase(a, IsJunk);
      }
    }
    r
  }

  /** The per-match clean-up of app.js:168-170. */
  function Normalize(m: string): (r: string)
    ensures IsLowerCase(r)
    ensures r == [] || (!IsJunk(r[0]) && !IsJunk(r[|r| - 1]))
  {
    TrimKeepsLowerCase(Lower(m));
    StripJunk(Trim(Lower(m)))
  }

  /** The shape every extracted address has: an `@`, lower case, no junk at either end. */
  predicate IsCleanAddress(a: string) {
    '@' in a && IsLowerCase(a) && !IsJunk(a[0]) && !IsJunk(a[|a| - 1])
  }

  function NormalizeAll(matches: seq<string>): (r: seq<string>)
    ensures |r| == |matches|
    ensures forall i :: 0 <= i < |matches| ==> r[i] == Normalize(matches[i])
  {
    seq(|matches|, i requires 0 <= i < |matches| => Normalize(matches[i]))
  }

  /** The test of `.filter(e => e.includes('@'))`. */
  predicate HasAt(x: string) { '@' in x }

  /** `rawUniqueEmails` of app.js:167-172. */
  function UniqueAddresses(matches: seq<string>): (u: seq<string>)
    ensures forall k :: 0 <= k < |u| ==> '@' in u[k]
  {
    FilterMembers(Dedup(NormalizeAll(matches)), HasAt);
    Filter(Dedup(NormalizeAll(matches)), HasAt)
  }

  /** `x` is the clean-up of one of the matches. */
  predicate IsMatchOf(matches: seq<string>, x: string) {
    exists i :: 0 <= i < |matches| && Normalize(matches[i]) == x
  }

  /** The unique addresses are pairwise distinct and in first-seen order. */
  lemma UniqueAddressesOrdered(matches: seq<string>)
    ensures var u := UniqueAddresses(matches); Distinct(u) && InFirstSeenOrder(u, NormalizeAll(matches))
  {
    var ns := NormalizeAll(matches);
    FilterOrder(Dedup(ns), HasAt, ns);
  }

  /** Every unique address is the clean-up of some match and contains `@`. */
  lemma UniqueAddressFromMatch(matches: seq<string>, x: string)
    requires x in UniqueAddresses(matches)
    ensures '@' in x && IsMatchOf(matches, x)
  {
    var ns := NormalizeAll(matches);
    FilterMembers(Dedup(ns), HasAt);
    assert x in ns by {
      assert x in Dedup(ns);
    }
    MemberIsMatch(matches, x);
  }

  lemma MemberIsMatch(matches: seq<string>, x: string)
    requires x in NormalizeAll(matches)
    ensures IsMatchOf(matches, x)
  {
    var ns := NormalizeAll(matches);
    var i :| 0 <= i < |ns| && ns[i] == x;
    assert Normalize(matches[i]) == x;
  }

  /** Every match whose clean-up still contains `@` is kept. */
  lemma MatchGivesUniqueAddress(matches: seq<string>, x: string, i: int)
    requires 0 <= i < |matches| && Normalize(matches[i]) == x && '@' in x
    ensures x in UniqueAddresses(matches)
  {
    var ns := NormalizeAll(matches);
    var d := Dedup(ns);
    FilterMembers(d, HasAt);
    assert ns[i] == x;
    assert x in d;
  }

  /** What the list of unique addresses holds, and in what order. */
  lemma UniqueAddressesSpec(matches: seq<string>)
    ensures var u := UniqueAddresses(matches);
      && Distinct(u)
      && InFirstSeenOrder(u, NormalizeAll(matches))
      && (forall x :: x in u <==> '@' in x && IsMatchOf(matches, x))
      && (forall k :: 0 <= k < |u| ==> IsCleanAddress(u[k]))
  {
    UniqueAddressesOrdered(matches);
    UniqueAddressesClean(matches);
    var u := UniqueAddresses(matches);
    forall x ensures x in u <==> '@' in x && IsMatchOf(matches, x) {
      if x in u { UniqueAddressFromMatch(matches, x); }
      if '@' in x && IsMatchOf(matches, x) {
        var i :| 0 <= i < |matches| && Normalize(matches[i]) == x;
        MatchGivesUniqueAddress(matches, x, i);
      }
    }
  }

  /** Every unique address is lower case, has `@` and no `-`/`.` at either end. */
  lemma UniqueAddressesClean(matches: seq<string>)
    ensures var u := UniqueAddresses(matches); (forall k :: 0 <= k < |u| ==> IsCleanAddress(u[k]))
  {
    var ns := NormalizeAll(matches);
    var u := UniqueAddresses(matches);
    FilterMembers(Dedup(ns), HasAt);
    forall k | 0 <= k < |u| ensures IsCleanAddress(u[k]) {
      var d := Dedup(ns);
      assert u == Filter(d, HasAt);
      assert u[k] in u;
      assert u[k] in d;
      assert u[k] in ns;
      var i :| 0 <= i < |ns| && ns[i] == u[k];
      assert u[k] == Normalize(matches[i]);
    }
  }

  /** An address already in clean form is its own clean-up, with or without upper case. */
  lemma NormalizeOfClean(a: string, shouting: string)
    requires IsCleanAddress(a) && forall i :: 0 <= i < |a| ==> !IsSpace(a[i])
    requires Lower(shouting) == a
    ensures Normalize(shouting) == a
  {
    TrimOfSpaceFree(a);
    assert LeadingRun(a, IsJunk) == 0;
    assert TrimStartBy(a, IsJunk) == a;
  }

  /**
   * A run of `-`/`.` in front of the local part, which the address pattern can
   * match (as in `.foo@bar.com`), is stripped.
   */
  lemma NormalizeOfLeadingJunk(junk: string, a: string)
    requires IsCleanAddress(a) && forall i :: 0 <= i < |a| ==> !IsSpace(a[i])
    requires forall i :: 0 <= i < |junk| ==> IsJunk(junk[i])
    ensures Normalize(junk + a) == a
  {
    var t := junk + a;
    assert IsLowerCase(t) by {
      assert forall i :: 0 <= i < |junk| ==> t[i] == junk[i];
      assert forall i :: |junk| <= i < |t| ==> t[i] == a[i - |junk|];
    }
    LowerOfLowerCase(t);
    TrimOfSpaceFree(t);
    LeadingRunThrough(junk, a, IsJunk);
    assert t[|junk|..] == a;
    assert TrailingRunStart(a, IsJunk) == |a|;
  }

  /**
   * Case differences and leading punctuation collapse: `Foo@Bar.com`,
   * `foo@bar.com` and `.foo@bar.com` give one address.
   */
  lemma CaseAndJunkCollapse(a: string, shouting: string)
    requires IsCleanAddress(a) && forall i :: 0 <= i < |a| ==> !IsSpace(a[i])
    requires Lower(shouting) == a
    ensures UniqueAddresses([shouting, a, "." + a]) == [a]
  {
    NormalizeOfClean(a, shouting);
    LowerOfLowerCase(a);
    NormalizeOfClean(a, a);
    NormalizeOfLeadingJunk(".", a);
    ThreeCollapse(shouting, a, "." + a, a);
  }

  lemma ThreeCollapse(x: string, y: string, z: string, a: string)
    requires '@' in a && Normalize(x) == a && Normalize(y) == a && Normalize(z) == a
    ensures UniqueAddresses([x, y, z]) == [a]
  {
    var ms := [x, y, z];
    forall i | 0 <= i < |ms| ensures Normalize(ms[i]) == a {
      if i == 0 {
        assert ms[i] == x;
      } else if i == 1 {
        assert ms[i] == y;
      } else {
        assert ms[i] == z;
      }
    }
    SameNormalFormCollapses(ms, a);
  }

  /** Matches that all clean up to one address give exactly that address. */
  lemma SameNormalFormCollapses(ms: seq<string>, a: string)
    requires ms != [] && '@' in a
    requires forall i :: 0 <= i < |ms| ==> Normalize(ms[i]) == a
    ensures UniqueAddresses(ms) == [a]
  {
    var ns := NormalizeAll(ms);
    NormalizeAllConstant(ms, a);
    DedupConstant(ns, a);
    assert Filter([a], HasAt) == [a] by {
      assert [a][..0] == [];
    }
  }

  lemma NormalizeAllConstant(ms: seq<string>, a: string)
    requires ms != []
    requires forall i :: 0 <= i < |ms| ==> Normalize(ms[i]) == a
    ensures a in NormalizeAll(ms) && forall x :: x in NormalizeAll(ms) ==> x == a
  {
    assert NormalizeAll(ms)[0] == a;
  }


}
