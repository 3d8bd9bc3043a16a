/**
 * Rule-list editing (app.js:512-604, 653-689): `smartCleanDomain`, the
 * splitting of pasted text into entries, the dedup-append of the block and
 * allow lists, the keyword and TLD additions and the `remove*` filters, all as
 * functions on the lists.  The methods of `AppState` assign their results.
 */
module Rules {
  import opened Wrappers
  import opened Text
  import opened Seqs

  /** `DEFAULTS.keywords` (app.js:3). */
  const DefaultKeywords: seq<string> :=
    ["consultancy", "manpower", "recruitment", "recruit", "agency", "recruiting", "placement",
     "hire", "talent", "job", "staff", "people", "jobs", "search", "human"]

  /** `DEFAULTS.tlds` (app.js:4). */
  const DefaultTlds: seq<string> := [".edu", ".ac.in", ".edu.in", ".education"]

  /** `d.replace(/^https?:\/\//, '')`. */
  function StripScheme(d: string): (r: string)
    ensures |r| <= |d| && r == d[|d| - |r|..]
  {
    if StartsWith(d, "https://") then d[8..]
    else if StartsWith(d, "http://") then d[7..]
    else d
  }

  /** `d.replace(/^www\./, '')`. */
  function StripWww(d: string): (r: string)
    ensures |r| <= |d| && r == d[|d| - |r|..]
  {
    if StartsWith(d, "www.") then d[4..] else d
  }

  /** Step 1 of `smartCleanDomain`: `d.split('@')[1]` when `d` has an `@`. */
  function AfterAt(d: string): (r: string)
    ensures '@' !in r
    ensures '@' !in d ==> r == d
  {
    if '@' in d then FieldAfter(d, '@') else d
  }

  /** Step 2: the `http://` added for the URL parser. */
  function WithScheme(d: string): string {
    if StartsWith(d, "http") then d else "http://" + d
  }

  /** The fallback's host: scheme stripped, cut at the first `/` and then at the first `?`. */
  function HostOf(d: string): (r: string)
    ensures '/' !in r && '?' !in r
  {
    FieldBefore(FieldBefore(StripScheme(d), '/'), '?')
  }

  /**
   * `smartCleanDomain` (app.js:512-537) along its string fallback: trim and
   * lower-case, keep the part after the first `@`, add `http://` unless the
   * text starts with `http`, strip the scheme, cut at the first `/` and then at
   * the first `?`, drop one leading `www.`; an empty result is `null`.
   */
  function SmartCleanDomain(input: string): (r: Option<string>)
    ensures input == [] ==> r.None?
    ensures r.Some? ==> r.value != [] && '/' !in r.value && '?' !in r.value
  {
    if input == [] then None
    else
      var d := StripWww(HostOf(WithScheme(AfterAt(Lower(Trim(input))))));
      if d == [] then None else Some(d)
  }

  /** Whatever is returned is lower case and holds no `@`. */
  lemma SmartCleanShape(input: string)
    ensures var r := SmartCleanDomain(input); r.Some? ==> IsLowerCase(r.value) && '@' !in r.value
  {
    if input != [] {
      var d0 := Lower(Trim(input));
      var d1 := AfterAt(d0);
      assert IsLowerCase(d1) by {
        if '@' in d0 { FieldAfterLowerCase(d0, '@'); }
      }
      var d2 := WithScheme(d1);
      SchemeKeepsShape(d1);
      var host := HostOf(d2);
      SuffixShape(d2, StripScheme(d2));
      PrefixShape(StripScheme(d2), FieldBefore(StripScheme(d2), '/'));
      PrefixShape(FieldBefore(StripScheme(d2), '/'), host);
      SuffixShape(host, StripWww(host));
    }
  }

  lemma SchemeKeepsShape(d: string)
    requires IsLowerCase(d) && '@' !in d
    ensures IsLowerCase(WithScheme(d)) && '@' !in WithScheme(d)
  {
    var w := WithScheme(d);
    if !StartsWith(d, "http") {
      assert forall i :: 7 <= i < |w| ==> w[i] == d[i - 7];
    }
  }

  /** Lower case and the absence of `@` pass to a suffix ... */
  lemma SuffixShape(s: string, t: string)
    requires |t| <= |s| && t == s[|s| - |t|..]
    ensures IsLowerCase(s) ==> IsLowerCase(t)
    ensures '@' !in s ==> '@' !in t
  {
    assert forall i :: 0 <= i < |t| ==> t[i] == s[|s| - |t| + i];
  }

  /** ... and to a prefix. */
  lemma PrefixShape(s: string, t: string)
    requires StartsWith(s, t)
    ensures IsLowerCase(s) ==> IsLowerCase(t)
    ensures '@' !in s ==> '@' !in t
  {
    assert forall i :: 0 <= i < |t| ==> t[i] == s[i];
  }

  lemma FieldAfterLowerCase(s: string, c: char)
    requires c in s && IsLowerCase(s)
    ensures IsLowerCase(FieldAfter(s, c))
  {
    var i := IndexOf(s, c).value;
    var t := s[i + 1..];
    assert forall k :: 0 <= k < |t| ==> t[k] == s[i + 1 + k];
    PrefixShape(t, FieldBefore(t, c));
  }

  /** Empty or blank input gives `null`. */
  lemma SmartCleanBlank(input: string)
    requires forall i :: 0 <= i < |input| ==> IsSpace(input[i])
    ensures SmartCleanDomain(input).None?
  {
    if input != [] {
      assert LeadingRun(input, IsSpace) == |input|;
      assert Trim(input) == [];
      assert Lower([]) == [];
      assert WithScheme([]) == "http://";
      assert StripScheme("http://") == [];
    }
  }

  /** What a bare domain must look like to come through unchanged. */
  predicate IsPlainDomain(d: string) {
    d != [] && IsLowerCase(d) && !IsSpace(d[0]) && !IsSpace(d[|d| - 1])
    && '@' !in d && '/' !in d && '?' !in d
    && !StartsWith(d, "http") && !StartsWith(d, "www.")
  }

  /** Text already trimmed and lower case is left alone by the first step. */
  lemma CleanText(s: string)
    requires s != [] && IsLowerCase(s) && !IsSpace(s[0]) && !IsSpace(s[|s| - 1])
    ensures Lower(Trim(s)) == s
  {
    TrimOfSpaceFree(s);
    LowerOfLowerCase(s);
  }

  /** The fallback gives back what follows an added `http://`, up to any `/` or `?`. */
  lemma HostOfSchemed(x: string)
    requires '/' !in x && '?' !in x
    ensures HostOf("http://" + x) == x
  {
    var d2 := "http://" + x;
    assert !StartsWith(d2, "https://") by {
      assert d2[4] == ':';
    }
    PrefixOfConcat("http://", x);
  }

  /** The steps after the `@` split, for a plain domain. */
  lemma HostOfPlain(d: string)
    requires IsPlainDomain(d)
    ensures StripWww(HostOf(WithScheme(d))) == d
  {
    assert WithScheme(d) == "http://" + d;
    HostOfSchemed(d);
  }

  lemma SmartCleanPlain(d: string)
    requires IsPlainDomain(d)
    ensures SmartCleanDomain(d) == Some(d)
  {
    CleanText(d);
    HostOfPlain(d);
  }

  /** `www.` is dropped once. */
  lemma SmartCleanWww(d: string)
    requires IsPlainDomain(d)
    ensures SmartCleanDomain("www." + d) == Some(d)
  {
    var w := "www." + d;
    WwwShape(d);
    CleanText(w);
    HostOfSchemed(w);
    PrefixOfConcat("www.", d);
  }

  lemma WwwShape(d: string)
    requires IsPlainDomain(d)
    ensures var w := "www." + d;
      && IsLowerCase(w) && !IsSpace(w[0]) && !IsSpace(w[|w| - 1])
      && AfterAt(w) == w && WithScheme(w) == "http://" + w && '/' !in w && '?' !in w
  {
    var w := "www." + d;
    assert forall i :: 4 <= i < |w| ==> w[i] == d[i - 4];
    assert !StartsWith(w, "http") by {
      assert w[0] == 'w';
    }
  }

  /** An address gives its domain. */
  lemma SmartCleanEmail(local: string, d: string)
    requires IsPlainDomain(d) && IsLowerCase(local) && '@' !in local
    requires local == [] || !IsSpace(local[0])
    ensures SmartCleanDomain(local + "@" + d) == Some(d)
  {
    var e := local + "@" + d;
    EmailShape(local, d);
    CleanText(e);
    assert e == local + ['@'] + d;
    FieldAfterConcat(local, '@', d);
    HostOfPlain(d);
  }

  /**
   * With a second `@`, only the text between the first two counts:
   * `a@b.com@c.com` gives `b.com`.
   */
  lemma SmartCleanTwoAts(local: string, d: string, rest: string)
    requires IsPlainDomain(d) && IsLowerCase(local) && '@' !in local && IsLowerCase(rest)
    requires local == [] || !IsSpace(local[0])
    requires rest == [] || !IsSpace(rest[|rest| - 1])
    ensures SmartCleanDomain(local + "@" + d + "@" + rest) == Some(d)
  {
    var e := local + "@" + d + "@" + rest;
    TwoAtsShape(local, d, rest);
    CleanText(e);
    AfterAtOfTwo(local, d, rest);
    HostOfPlain(d);
    assert StripWww(HostOf(WithScheme(AfterAt(Lower(Trim(e)))))) == d;
  }

  lemma AfterAtOfTwo(local: string, d: string, rest: string)
    requires '@' !in local && '@' !in d
    ensures AfterAt(local + "@" + d + "@" + rest) == d
  {
    var e := local + "@" + d + "@" + rest;
    assert e == local + ['@'] + d + ['@'] + rest;
    assert e[|local|] == '@';
    FieldAfterOfTwo(local, '@', d, rest);
  }

  lemma TwoAtsShape(local: string, d: string, rest: string)
    requires IsPlainDomain(d) && IsLowerCase(local) && IsLowerCase(rest)
    requires local == [] || !IsSpace(local[0])
    requires rest == [] || !IsSpace(rest[|rest| - 1])
    ensures var e := local + "@" + d + "@" + rest; IsLowerCase(e) && !IsSpace(e[0]) && !IsSpace(e[|e| - 1])
  {
    LowerCaseConcat(local, "@");
    LowerCaseConcat(local + "@", d);
    LowerCaseConcat(local + "@" + d, "@");
    LowerCaseConcat(local + "@" + d + "@", rest);
  }

  lemma EmailShape(local: string, d: string)
    requires IsPlainDomain(d) && IsLowerCase(local) && '@' !in local
    requires local == [] || !IsSpace(local[0])
    ensures var e := local + "@" + d; IsLowerCase(e) && !IsSpace(e[0]) && !IsSpace(e[|e| - 1])
  {
    var e := local + "@" + d;
    assert forall i :: 0 <= i < |local| ==> e[i] == local[i];
    assert forall i :: |local| < i < |e| ==> e[i] == d[i - |local| - 1];
  }

  /** A pasted `https://` link gives its host. */
  lemma SmartCleanUrl(d: string, path: string)
    requires IsPlainDomain(d) && IsLowerCase(path) && '@' !in path
    requires path == [] || !IsSpace(path[|path| - 1])
    ensures SmartCleanDomain("https://" + d + "/" + path) == Some(d)
  {
    var rest := d + ['/'] + path;
    var u := "https://" + rest;
    assert u == "https://" + d + "/" + path;
    UrlShape(d, path);
    CleanText(u);
    UrlHost(d, path);
  }

  lemma UrlHost(d: string, path: string)
    requires IsPlainDomain(d)
    ensures StripWww(HostOf(WithScheme("https://" + (d + ['/'] + path)))) == d
  {
    var rest := d + ['/'] + path;
    var u := "https://" + rest;
    PrefixOfConcat("http", "s://" + rest);
    assert "http" + ("s://" + rest) == u;
    assert WithScheme(u) == u;
    PrefixOfConcat("https://", rest);
    assert StripScheme(u) == rest;
    FieldBeforeConcat(d, '/', path);
  }

  lemma UrlShape(d: string, path: string)
    requires IsPlainDomain(d) && IsLowerCase(path) && '@' !in path
    requires path == [] || !IsSpace(path[|path| - 1])
    ensures var u := "https://" + (d + ['/'] + path);
      IsLowerCase(u) && !IsSpace(u[0]) && !IsSpace(u[|u| - 1]) && AfterAt(u) == u
  {
    var rest := d + ['/'] + path;
    var u := "https://" + rest;
    UrlLowerCase(d, path);
    assert u[|u| - 1] == rest[|rest| - 1];
    assert rest[|rest| - 1] == (if path == [] then '/' else path[|path| - 1]);
    assert '@' !in u;
  }

  lemma UrlLowerCase(d: string, path: string)
    requires IsLowerCase(d) && IsLowerCase(path)
    ensures IsLowerCase("https://" + (d + ['/'] + path))
  {
    LowerCaseConcat(d, ['/']);
    LowerCaseConcat(d + ['/'], path);
    LowerCaseConcat("https://", d + ['/'] + path);
  }

  /** The separators of `/[\s,\n]+/`. */
  predicate IsSeparator(c: char) { IsSpace(c) || c == ',' }

  predicate IsEntryChar(c: char) { !IsSeparator(c) }

  /** An entry as the splitter yields it: non-empty, without separators. */
  predicate IsEntry(w: string) {
    w != [] && forall i :: 0 <= i < |w| ==> IsEntryChar(w[i])
  }

  /** `raw.split(/[\s,\n]+/).filter(e => e.trim())`: the maximal runs of non-separators. */
  function Entries(raw: string): (r: seq<string>)
    ensures forall k :: 0 <= k < |r| ==> IsEntry(r[k])
    decreases |raw|
  {
    var t := raw[LeadingRun(raw, IsSeparator)..];
    if t == [] then []
    else
      var n := LeadingRun(t, IsEntryChar);
      [t[..n]] + Entries(t[n..])
  }

  /** Entries joined with commas. */
  function JoinComma(ws: seq<string>): string {
    if ws == [] then [] else if |ws| == 1 then ws[0] else ws[0] + "," + JoinComma(ws[1..])
  }

  /** Splitting undoes joining. */
  lemma {:induction false} EntriesOfJoin(ws: seq<string>)
    requires forall k :: 0 <= k < |ws| ==> IsEntry(ws[k])
    ensures Entries(JoinComma(ws)) == ws
  {
    if ws != [] {
      if |ws| == 1 {
        JoinSingle(ws);
      } else {
        EntriesOfJoin(ws[1..]);
        JoinStep(ws);
      }
    }
  }

  /** A single entry splits into itself. */
  lemma JoinSingle(ws: seq<string>)
    requires |ws| == 1 && IsEntry(ws[0])
    ensures Entries(JoinComma(ws)) == ws
  {
    EntryHead(ws[0], []);
    assert Entries([]) == [];
    assert ws[0] + [] == ws[0];
  }

  /** The first entry of a joined list of two or more is split off whole, and the rest as before. */
  lemma JoinStep(ws: seq<string>)
    requires |ws| >= 2 && IsEntry(ws[0]) && Entries(JoinComma(ws[1..])) == ws[1..]
    ensures Entries(JoinComma(ws)) == ws
  {
    var rest := JoinComma(ws[1..]);
    assert JoinComma(ws) == ws[0] + ([','] + rest);
    EntryHead(ws[0], [','] + rest);
    SkipSeparator(',', rest);
    assert ws == [ws[0]] + ws[1..];
  }

  /** An entry followed by a separator (or nothing) is split off whole. */
  lemma EntryHead(w: string, rest: string)
    requires IsEntry(w) && (rest == [] || IsSeparator(rest[0]))
    ensures Entries(w + rest) == [w] + Entries(rest)
  {
    var s := w + rest;
    assert LeadingRun(s, IsSeparator) == 0;
    assert s[0..] == s;
    LeadingRunUpTo(s, IsEntryChar, |w|);
    PrefixOfConcat(w, rest);
    assert s[..|w|] == w;
  }

  /** A run of `p` up to `n` that stops at `n`. */
  lemma {:induction false} LeadingRunUpTo(s: string, p: char -> bool, n: nat)
    requires n <= |s| && (forall i :: 0 <= i < n ==> p(s[i])) && (n < |s| ==> !p(s[n]))
    ensures LeadingRun(s, p) == n
  {
    if n > 0 {
      assert forall i :: 0 <= i < n - 1 ==> s[1..][i] == s[i + 1];
      LeadingRunUpTo(s[1..], p, n - 1);
    }
  }

  /** A separator in front changes nothing. */
  lemma SkipSeparator(c: char, rest: string)
    requires IsSeparator(c)
    ensures Entries([c] + rest) == Entries(rest)
  {
    var t := [c] + rest;
    assert t[1..] == rest;
    assert LeadingRun(t, IsSeparator) == 1 + LeadingRun(rest, IsSeparator);
    assert t[LeadingRun(t, IsSeparator)..] == rest[LeadingRun(rest, IsSeparator)..];
  }

  /** The membership test that `addToBlockList` and `addToAllowList` apply. */
  function Absent(list: seq<string>): string -> bool {
    x => x !in list
  }

  /**
   * The list after pushing each entry of `xs` that is not yet present, in
   * order (app.js:548-553, 582-588).
   */
  function AddAll(list: seq<string>, xs: seq<string>): seq<string> {
    if xs == [] then list
    else
      var r := AddAll(list, xs[..|xs| - 1]);
      var x := xs[|xs| - 1];
      if x in r then r else r + [x]
  }

  /**
   * The reference reading of dedup-append: the old list followed by the new
   * entries, each once, in first-seen order.
   */
  lemma {:induction false} AddAllIsAppendOfNew(list: seq<string>, xs: seq<string>)
    ensures AddAll(list, xs) == list + Filter(Dedup(xs), Absent(list))
  {
    if xs != [] {
      var ys := xs[..|xs| - 1];
      AddAllIsAppendOfNew(list, ys);
      AddAllStep(list, ys, xs[|xs| - 1]);
      assert xs == ys + [xs[|xs| - 1]];
    }
  }

  lemma AddAllStep(list: seq<string>, ys: seq<string>, y: string)
    requires AddAll(list, ys) == list + Filter(Dedup(ys), Absent(list))
    ensures AddAll(list, ys + [y]) == list + Filter(Dedup(ys + [y]), Absent(list))
  {
    AddAllSnoc(list, ys, y);
    DedupSnoc(ys, y);
    var d := Dedup(ys);
    var f := Filter(d, Absent(list));
    FilterHas(d, Absent(list), y);
    if y in ys {
      assert y in list + f;
    } else {
      FilterSnoc(d, y, Absent(list));
      if y !in list {
        assert (list + f) + [y] == list + (f + [y]);
      }
    }
  }

  /** Dedup-append keeps the old list as a prefix and introduces no duplicates. */
  lemma AddAllKeepsList(list: seq<string>, xs: seq<string>)
    ensures var r := AddAll(list, xs); |list| <= |r| && r[..|list|] == list
    ensures Distinct(list) ==> Distinct(AddAll(list, xs))
  {
    AddAllIsAppendOfNew(list, xs);
    var f := Filter(Dedup(xs), Absent(list));
    assert (list + f)[..|list|] == list;
    if Distinct(list) {
      NewEntriesDistinct(list, xs);
    }
  }

  lemma NewEntriesDistinct(list: seq<string>, xs: seq<string>)
    requires Distinct(list)
    ensures Distinct(list + Filter(Dedup(xs), Absent(list)))
  {
    var d := Dedup(xs);
    FilterOrder(d, Absent(list), xs);
    FilterMembers(d, Absent(list));
    DistinctConcat(list, Filter(d, Absent(list)));
  }

  /** Exactly the old entries and the new ones are present afterwards. */
  lemma AddAllMembers(list: seq<string>, xs: seq<string>, x: string)
    ensures x in AddAll(list, xs) <==> x in list || x in xs
  {
    AddAllIsAppendOfNew(list, xs);
    var d := Dedup(xs);
    if x in xs && x !in list {
      var k :| 0 <= k < |d| && d[k] == x;
    }
  }

  lemma DistinctConcat(a: seq<string>, b: seq<string>)
    requires Distinct(a) && Distinct(b)
    requires forall k :: 0 <= k < |b| ==> b[k] !in a
    ensures Distinct(a + b)
  {
    var c := a + b;
    forall i, j | 0 <= i < j < |c| ensures c[i] != c[j] {
      if j >= |a| && i < |a| {
        assert c[j] == b[j - |a|] && c[i] in a;
      }
    }
  }

  /** The non-null results of `smartCleanDomain` over the entries, in order. */
  function Cleaned(entries: seq<string>): (r: seq<string>)
    ensures forall k :: 0 <= k < |r| ==> r[k] != []
  {
    if entries == [] then []
    else
      var c := SmartCleanDomain(entries[|entries| - 1]);
      Cleaned(entries[..|entries| - 1]) + (if c.Some? then [c.value] else [])
  }

  /**
   * The loop of `addToBlockList`/`addToAllowList` (app.js:547-553, 581-588):
   * push each cleaned entry that is not yet present and count the pushes.
   */
  method AddEntries(list: seq<string>, entries: seq<string>) returns (r: seq<string>, added: nat)
    ensures r == AddAll(list, Cleaned(entries))
    ensures added == |r| - |list|
  {
    r := list;
    added := 0;
    var i := 0;
    while i < |entries|
      invariant 0 <= i <= |entries|
      invariant r == AddAll(list, Cleaned(entries[..i]))
      invariant |list| <= |r| && added == |r| - |list|
    {
      var cleaned := SmartCleanDomain(entries[i]);
      AddEntriesStep(list, entries, i, r);
      if cleaned.Some? && cleaned.value !in r {
        r := r + [cleaned.value];
        added := added + 1;
      }
      i := i + 1;
    }
    assert entries[..i] == entries;
  }

  /** One pass of the loop of `AddEntries`. */
  lemma AddEntriesStep(list: seq<string>, entries: seq<string>, i: nat, r: seq<string>)
    requires i < |entries| && r == AddAll(list, Cleaned(entries[..i]))
    ensures var c := SmartCleanDomain(entries[i]);
      AddAll(list, Cleaned(entries[..i + 1])) == (if c.Some? && c.value !in r then r + [c.value] else r)
  {
    var cleaned := SmartCleanDomain(entries[i]);
    CleanedSnoc(entries, i);
    if cleaned.Some? {
      AddAllSnoc(list, Cleaned(entries[..i]), cleaned.value);
    } else {
      assert Cleaned(entries[..i + 1]) == Cleaned(entries[..i]);
    }
  }

  lemma CleanedSnoc(entries: seq<string>, i: nat)
    requires i < |entries|
    ensures var c := SmartCleanDomain(entries[i]);
      Cleaned(entries[..i + 1]) == Cleaned(entries[..i]) + (if c.Some? then [c.value] else [])
  {
    assert entries[..i + 1][..i] == entries[..i];
  }

  lemma AddAllSnoc(list: seq<string>, xs: seq<string>, x: string)
    ensures AddAll(list, xs + [x]) == (if x in AddAll(list, xs) then AddAll(list, xs) else AddAll(list, xs) + [x])
  {
    assert (xs + [x])[..|xs|] == xs;
  }

  /** The raw text the list editors read: the clicked domain, else the input box. */
  function RawValue(domain: string, inputValue: string): string {
    if domain != [] then domain else inputValue
  }

  /** The test of `filter(d => d !== x)`. */
  function Other(x: string): string -> bool {
    y => y != x
  }

  /** `removeFromBlockList`, `removeFromAllowList`, `removeKeyword`, `removeTLD`. */
  function Remove(list: seq<string>, x: string): seq<string> {
    Filter(list, Other(x))
  }

  /** Removal deletes every copy of `x`, keeps everything else, and keeps the order. */
  lemma RemoveSpec(list: seq<string>, x: string)
    ensures x !in Remove(list, x)
    ensures forall y :: y != x ==> (y in Remove(list, x) <==> y in list)
    ensures |Remove(list, x)| == |list| - Count(list, x)
    ensures x !in list ==> Remove(list, x) == list
    ensures Distinct(list) ==> InFirstSeenOrder(Remove(list, x), list)
    ensures multiset(Remove(list, x)) == multiset(list)[x := 0]
    ensures forall i :: 0 <= i <= |list| ==> Remove(list, x) == Remove(list[..i], x) + Remove(list[i..], x)
  {
    RemoveMembers(list, x);
    RemoveCount(list, x);
    if x !in list { RemoveAbsent(list, x); }
    if Distinct(list) {
      FirstIndexSelf(list);
      FilterOrder(list, Other(x), list);
    }
    RemoveMultiset(list, x);
    RemoveSplits(list, x);
  }

  lemma RemoveMembers(list: seq<string>, x: string)
    ensures x !in Remove(list, x)
    ensures forall y :: y != x ==> (y in Remove(list, x) <==> y in list)
  {
    var r := Remove(list, x);
    FilterMembers(list, Other(x));
    forall y | y != x && y in list ensures y in r {
      var k :| 0 <= k < |list| && list[k] == y;
    }
  }

  /** Removal works piecewise: the order of what is kept is the order of the list. */
  lemma RemoveSplits(list: seq<string>, x: string)
    ensures forall i :: 0 <= i <= |list| ==> Remove(list, x) == Remove(list[..i], x) + Remove(list[i..], x)
  {
    forall i | 0 <= i <= |list| ensures Remove(list, x) == Remove(list[..i], x) + Remove(list[i..], x) {
      assert list == list[..i] + list[i..];
      FilterConcat(list[..i], list[i..], Other(x));
    }
  }

  /** Every copy of `x` goes, and every other entry keeps its number of copies. */
  lemma {:induction false} RemoveMultiset(list: seq<string>, x: string)
    ensures multiset(Remove(list, x)) == multiset(list)[x := 0]
  {
    if list != [] {
      var init := list[..|list| - 1];
      var last := list[|list| - 1];
      assert list == init + [last];
      RemoveMultiset(init, x);
      FilterSnoc(init, last, Other(x));
      assert multiset(list) == multiset(init) + multiset{last};
    }
  }

  lemma {:induction false} RemoveCount(list: seq<string>, x: string)
    ensures |Remove(list, x)| == |list| - Count(list, x)
  {
    if list != [] {
      var init := list[..|list| - 1];
      var last := list[|list| - 1];
      assert list == init + [last];
      RemoveCount(init, x);
      CountSnoc(init, last, x);
    }
  }

  lemma {:induction false} CountSnoc(s: seq<string>, y: string, x: string)
    ensures Count(s + [y], x) == Count(s, x) + (if y == x then 1 else 0)
  {
    if s != [] {
      assert (s + [y])[1..] == s[1..] + [y];
      CountSnoc(s[1..], y, x);
    } else {
      assert [y][1..] == [];
    }
  }

  lemma {:induction false} RemoveAbsent(list: seq<string>, x: string)
    requires x !in list
    ensures Remove(list, x) == list
  {
    if list != [] {
      var init := list[..|list| - 1];
      assert list == init + [list[|list| - 1]];
      RemoveAbsent(init, x);
    }
  }

  /** `addKeyword` (app.js:653-661): the trimmed, lower-cased text once. */
  function WithKeyword(list: seq<string>, inputValue: string): seq<string> {
    var v := Lower(Trim(inputValue));
    if v != [] && v !in list then list + [v] else list
  }

  lemma WithKeywordSpec(list: seq<string>, inputValue: string)
    ensures var v := Lower(Trim(inputValue)); var r := WithKeyword(list, inputValue);
      && (v != [] ==> v in r)
      && (forall y :: y in r <==> y in list || (y == v && v != []))
      && (Distinct(list) ==> Distinct(r))
      && |r| <= |list| + 1 && r[..|list|] == list
      && (|r| == |list| + 1 <==> v != [] && v !in list)
      && (|r| == |list| + 1 ==> r[|list|] == v)
      && WithKeyword(r, inputValue) == r
  {
    var v := Lower(Trim(inputValue));
    if v != [] && v !in list {
      assert (list + [v])[..|list|] == list;
    }
    if v != [] && v !in list && Distinct(list) {
      DistinctConcat(list, [v]);
    }
  }

  /** `addTLD` (app.js:672-680): lower-cased, dotted, appended even when present. */
  function WithTld(list: seq<string>, inputValue: string): seq<string> {
    var v := Lower(Trim(inputValue));
    if v == [] then list else list + [if StartsWith(v, ".") then v else "." + v]
  }

  lemma WithTldSpec(list: seq<string>, inputValue: string)
    ensures var v := Lower(Trim(inputValue)); var r := WithTld(list, inputValue);
      && (v == [] ==> r == list)
      && (v != [] ==> |r| == |list| + 1 && r[..|list|] == list && StartsWith(r[|list|], ".")
                       && EndsWith(r[|list|], v) && |r[|list|]| <= |v| + 1
                       && (StartsWith(v, ".") ==> r[|list|] == v))
      && (v != [] ==> |WithTld(r, inputValue)| == |list| + 2)
  {
    var v := Lower(Trim(inputValue));
    if v != [] {
      var r := WithTld(list, inputValue);
      var t := r[|list|];
      assert (list + [t])[..|list|] == list;
      if !StartsWith(v, ".") {
        assert t == "." + v;
        assert t[|t| - |v|..] == v;
      }
    }
  }
}
