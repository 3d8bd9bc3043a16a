/**
 * The derived views: the "new domains" statistic (app.js:266-268), the
 * database merge and sort (app.js:724-747), the status label of a database
 * row (app.js:777-778, 831) and the page clamp (app.js:763-769).
 */
module Reporting {
  import opened Wrappers
  import opened Text
  import opened Seqs
  import opened Cooldown
  import opened Classification
  import opened Batching

  // ---------------------------------------------------------------------
  // New domains

  /** The test of app.js:267: matched a filter and not yet on the block list. */
  function IsNewBlock(blockList: seq<string>): EmailItem -> bool {
    (it: EmailItem) => (it.verdict.isEdu || it.verdict.hasKeyword) && it.verdict.domain !in blockList
  }

  function DomainsOf(items: seq<EmailItem>): (r: seq<string>)
    ensures |r| == |items|
    ensures forall i :: 0 <= i < |items| ==> r[i] == items[i].verdict.domain
  {
    seq(|items|, i requires 0 <= i < |items| => items[i].verdict.domain)
  }

  /** `newBlocks` of app.js:266-268: the distinct domains that could be added to the block list. */
  function NewDomains(blocked: seq<EmailItem>, blockList: seq<string>): seq<string> {
    Dedup(DomainsOf(Filter(blocked, IsNewBlock(blockList))))
  }

  /**
   * A domain is counted iff some blocked record with that domain matched a TLD
   * or keyword filter and the domain is not on the block list yet; each is
   * counted once.
   */
  lemma NewDomainsSpec(blocked: seq<EmailItem>, blockList: seq<string>)
    ensures var r := NewDomains(blocked, blockList);
      && Distinct(r)
      && (forall d :: d in r <==>
            exists i :: 0 <= i < |blocked| && blocked[i].verdict.domain == d
              && (blocked[i].verdict.isEdu || blocked[i].verdict.hasKeyword) && d !in blockList)
      && (forall d :: d in r ==> d !in blockList)
  {
    var f := Filter(blocked, IsNewBlock(blockList));
    FilterMembers(blocked, IsNewBlock(blockList));
    var ds := DomainsOf(f);
    var r := NewDomains(blocked, blockList);
    forall d ensures d in r <==>
        exists i :: 0 <= i < |blocked| && blocked[i].verdict.domain == d
          && (blocked[i].verdict.isEdu || blocked[i].verdict.hasKeyword) && d !in blockList
    {
      if d in r {
        assert d in ds;
        var k :| 0 <= k < |ds| && ds[k] == d;
        assert f[k] in f;
        var i :| 0 <= i < |blocked| && blocked[i] == f[k];
      }
      if exists i :: 0 <= i < |blocked| && blocked[i].verdict.domain == d
          && (blocked[i].verdict.isEdu || blocked[i].verdict.hasKeyword) && d !in blockList {
        var i :| 0 <= i < |blocked| && blocked[i].verdict.domain == d
          && (blocked[i].verdict.isEdu || blocked[i].verdict.hasKeyword) && d !in blockList;
        assert IsNewBlock(blockList)(blocked[i]);
        assert blocked[i] in f;
        var k :| 0 <= k < |f| && f[k] == blocked[i];
        assert ds[k] == d;
      }
    }
  }

  // ---------------------------------------------------------------------
  // Database rows

  /** A row of the database view; `lastSent` is `null` for addresses never sent. */
  datatype DbEntry = DbEntry(email: string, lastSent: Option<int>, expiresAt: Extended)

  datatype Status = New | OnCooldownLabel | CooldownOver

  /** `!item.lastSent`: no date, or the falsy date 0. */
  predicate NeverSent(e: DbEntry) { e.lastSent.None? || e.lastSent.value == 0 }

  /** The status label of app.js:777-778 (and the export of app.js:831). */
  function StatusOf(e: DbEntry, now: int): Status {
    if NeverSent(e) then New
    else if e.expiresAt.Finite? && now > e.expiresAt.ms then CooldownOver
    else OnCooldownLabel
  }

  /** The row made for an address of the send history (app.js:724-731). */
  function FromRecord(email: string, rec: SentRecord): DbEntry {
    DbEntry(email, Some(rec.lastSent), rec.expiresAt)
  }

  /**
   * Away from the boundary instant, the label of a sent address agrees with
   * classification: `On Cooldown` iff the address would be held back.
   */
  lemma StatusAgreesWithCooldown(email: string, rec: SentRecord, now: int)
    requires rec.lastSent != 0
    requires rec.expiresAt.Finite? ==> now != rec.expiresAt.ms
    ensures StatusOf(FromRecord(email, rec), now) != New
    ensures StatusOf(FromRecord(email, rec), now) == OnCooldownLabel <==> OnCooldown(Some(rec), now)
  {
  }

  /**
   * At the expiry instant itself the two disagree: the label still says
   * `On Cooldown` while classification already lets the address through.
   */
  lemma StatusAtExpiryInstant(email: string, rec: SentRecord)
    requires rec.lastSent != 0 && rec.expiresAt.Finite?
    ensures StatusOf(FromRecord(email, rec), rec.expiresAt.ms) == OnCooldownLabel
    ensures !OnCooldown(Some(rec), rec.expiresAt.ms)
  {
  }

  /** A record dated at time 0 is labelled `New`, because 0 is falsy. */
  lemma StatusOfEpochRecord(email: string, expiresAt: Extended, now: int)
    ensures StatusOf(FromRecord(email, SentRecord(0, expiresAt)), now) == New
  {
  }

  // ---------------------------------------------------------------------
  // Sorting by address

  /** `a` sorts strictly before `b` in code-unit order. */
  predicate Less(a: string, b: string) {
    if a == [] then b != []
    else if b == [] then false
    else if a[0] != b[0] then a[0] < b[0]
    else Less(a[1..], b[1..])
  }

  lemma {:induction false} LessIrreflexive(a: string)
    ensures !Less(a, a)
  {
    if a != [] { LessIrreflexive(a[1..]); }
  }

  lemma {:induction false} LessTotal(a: string, b: string)
    requires a != b
    ensures Less(a, b) || Less(b, a)
  {
    if a != [] && b != [] && a[0] == b[0] {
      assert a == [a[0]] + a[1..] && b == [b[0]] + b[1..];
      LessTotal(a[1..], b[1..]);
    }
  }

  lemma {:induction false} LessTransitive(a: string, b: string, c: string)
    requires Less(a, b) && Less(b, c)
    ensures Less(a, c)
  {
    if a != [] && a[0] == b[0] && b[0] == c[0] {
      LessTransitive(a[1..], b[1..], c[1..]);
    }
  }

  lemma LessAsymmetric(a: string, b: string)
    requires Less(a, b)
    ensures !Less(b, a)
  {
    if Less(b, a) {
      LessTransitive(a, b, a);
      LessIrreflexive(a);
    }
  }

  /** Neighbouring rows are in strictly increasing address order. */
  predicate Sorted(s: seq<DbEntry>) {
    forall i :: 0 <= i < |s| - 1 ==> Less(s[i].email, s[i + 1].email)
  }

  function Emails(s: seq<DbEntry>): (r: set<string>)
    ensures forall i :: 0 <= i < |s| ==> s[i].email in r
    ensures forall x :: x in r ==> exists i :: 0 <= i < |s| && s[i].email == x
  {
    set i | 0 <= i < |s| :: s[i].email
  }

  /** Inserts `e` at its place in a sorted list of rows. */
  function Insert(s: seq<DbEntry>, e: DbEntry): (r: seq<DbEntry>)
    requires Sorted(s) && e.email !in Emails(s)
    ensures Sorted(r) && |r| == |s| + 1
    ensures r[0] == e || (s != [] && r[0] == s[0])
    ensures forall x :: x in r <==> x in s || x == e
  {
    if s == [] then [e]
    else if Less(e.email, s[0].email) then [e] + s
    else
      assert e.email != s[0].email;
      LessTotal(e.email, s[0].email);
      assert Sorted(s[1..]) && e.email !in Emails(s[1..]) by {
        assert forall i :: 0 <= i < |s| - 1 ==> s[1..][i] == s[i + 1];
      }
      var t := Insert(s[1..], e);
      assert forall i :: 0 <= i < |t| - 1 ==> ([s[0]] + t)[i + 1] == t[i];
      [s[0]] + t
  }

  /** Adjacent order gives order between every two rows, so addresses are distinct. */
  lemma {:induction false} SortedIsStrict(s: seq<DbEntry>, i: int, j: int)
    requires Sorted(s) && 0 <= i < j < |s|
    ensures Less(s[i].email, s[j].email)
    decreases j - i
  {
    if j > i + 1 {
      SortedIsStrict(s, i + 1, j);
      LessTransitive(s[i].email, s[i + 1].email, s[j].email);
    }
  }

  lemma SortedEmailsDistinct(s: seq<DbEntry>)
    requires Sorted(s)
    ensures forall i, j :: 0 <= i < j < |s| ==> s[i].email != s[j].email
  {
    forall i, j | 0 <= i < j < |s| ensures s[i].email != s[j].email {
      SortedIsStrict(s, i, j);
      LessIrreflexive(s[i].email);
    }
  }

  // ---------------------------------------------------------------------
  // The merge of app.js:724-747

  /** `email.toLowerCase().trim()` (app.js:736). */
  function Canonical(m: string): string { Trim(Lower(m)) }

  /** The addresses of one project's match list, lower-cased and trimmed (app.js:736). */
  function AddressesOf(found: seq<string>): set<string> {
    Image(found, Canonical)
  }

  /** The addresses of every project. */
  function ProjectAddresses(projectMatches: seq<seq<string>>): set<string> {
    NestedImage(projectMatches, Canonical)
  }

  /** The row the merge keeps for `e`: the history record wins, otherwise a never-sent row. */
  function MergedEntry(history: map<string, SentRecord>, e: string): DbEntry {
    if e in history then FromRecord(e, history[e]) else DbEntry(e, None, Finite(0))
  }

  /** Every row of `db` is the one the merge keeps for its address. */
  predicate RowsMerged(db: map<string, DbEntry>, history: map<string, SentRecord>) {
    forall e :: e in db ==> db[e] == MergedEntry(history, e)
  }

  lemma InsertEmails(s: seq<DbEntry>, e: DbEntry)
    requires Sorted(s) && e.email !in Emails(s)
    ensures Emails(Insert(s, e)) == Emails(s) + {e.email}
  {
    var r := Insert(s, e);
    var er, es := Emails(r), Emails(s);
    forall x | x in er ensures x in es + {e.email} {
      var i :| 0 <= i < |r| && r[i].email == x;
      assert r[i] in r;
    }
    forall x | x in es ensures x in er {
      var i :| 0 <= i < |s| && s[i].email == x;
      assert s[i] in s;
    }
    assert e in r;
    assert e.email in er;
  }

  lemma NeverSentRow(db: map<string, DbEntry>, history: map<string, SentRecord>, e: string)
    requires RowsMerged(db, history) && e !in history
    ensures RowsMerged(db[e := DbEntry(e, None, Finite(0))], history)
  {
  }

  /** The inner `forEach` of app.js:735-743: adds the addresses of one project not yet present. */
  method AddProjectAddresses(db0: map<string, DbEntry>, history: map<string, SentRecord>, found: seq<string>)
    returns (db: map<string, DbEntry>)
    requires RowsMerged(db0, history)
    requires history.Keys <= db0.Keys
    ensures db.Keys == db0.Keys + AddressesOf(found)
    ensures RowsMerged(db, history)
  {
    db := db0;
    var j := 0;
    ghost var seen: set<string> := {};
    while j < |found|
      invariant 0 <= j <= |found|
      invariant seen == AddressesOf(found[..j])
      invariant db.Keys == db0.Keys + seen
      invariant RowsMerged(db, history)
    {
      var e := Canonical(found[j]);
      if e !in db {
        NeverSentRow(db, history, e);
        db := db[e := DbEntry(e, None, Finite(0))];
      }
      ImageSnoc(found, j, Canonical);
      seen := seen + {e};
      j := j + 1;
    }
    assert found[..j] == found;
  }

  /** The rows made from the send history (app.js:724-731), keyed by address. */
  function HistoryRows(history: map<string, SentRecord>): (db: map<string, DbEntry>)
    ensures db.Keys == history.Keys
    ensures RowsMerged(db, history)
  {
    map e | e in history :: FromRecord(e, history[e])
  }

  /** The map `dbMap` once every project has been added (app.js:722-743). */
  method MergeProjects(history: map<string, SentRecord>, projectMatches: seq<seq<string>>)
    returns (db: map<string, DbEntry>)
    ensures db.Keys == history.Keys + ProjectAddresses(projectMatches)
    ensures RowsMerged(db, history)
  {
    db := HistoryRows(history);
    var p := 0;
    ghost var seen: set<string> := {};
    while p < |projectMatches|
      invariant 0 <= p <= |projectMatches|
      invariant seen == ProjectAddresses(projectMatches[..p])
      invariant db.Keys == history.Keys + seen
      invariant RowsMerged(db, history)
    {
      db := AddProjectAddresses(db, history, projectMatches[p]);
      NestedImageSnoc(projectMatches, p, Canonical);
      seen := seen + AddressesOf(projectMatches[p]);
      p := p + 1;
    }
    assert projectMatches[..p] == projectMatches;
  }

  /**
   * `renderDatabaseView`: every history record, then every project address not
   * yet present, sorted by address.  The result holds exactly one row per address
   * of the history or of a project, in strictly increasing order.
   */
  method CompileDatabase(history: map<string, SentRecord>, projectMatches: seq<seq<string>>)
    returns (entries: seq<DbEntry>)
    ensures Sorted(entries)
    ensures Emails(entries) == history.Keys + ProjectAddresses(projectMatches)
    ensures forall x :: x in entries ==> x == MergedEntry(history, x.email)
  {
    var db := MergeProjects(history, projectMatches);
    entries := SortByEmail(db);
  }

  /** `Array.from(dbMap.values()).sort(...)` of app.js:747, by address. */
  method SortByEmail(db: map<string, DbEntry>) returns (entries: seq<DbEntry>)
    requires forall e :: e in db ==> db[e].email == e
    ensures Sorted(entries)
    ensures Emails(entries) == db.Keys
    ensures forall x :: x in entries ==> x.email in db && x == db[x.email]
  {
    entries := [];
    var rest := db.Keys;
    while rest != {}
      invariant rest <= db.Keys
      invariant Sorted(entries)
      invariant Emails(entries) == db.Keys - rest
      invariant forall x :: x in entries ==> x.email in db && x == db[x.email]
      decreases rest
    {
      var k :| k in rest;
      InsertEmails(entries, db[k]);
      entries := Insert(entries, db[k]);
      assert db.Keys - (rest - {k}) == (db.Keys - rest) + {k};
      rest := rest - {k};
    }
  }

  // ---------------------------------------------------------------------
  // Pages

  const PageSize: nat := 25

  /** `Math.ceil(n / DB_PAGE_SIZE) || 1`. */
  function TotalPages(n: nat): (r: nat)
    ensures r >= 1
    ensures n > 0 ==> (r - 1) * PageSize < n <= r * PageSize
  {
    if n == 0 then 1 else (n + PageSize - 1) / PageSize
  }

  /** The clamp of app.js:764-765. */
  function ClampPage(page: int, n: nat): (r: int)
    ensures 1 <= r <= TotalPages(n)
    ensures 1 <= page <= TotalPages(n) ==> r == page
    ensures page > TotalPages(n) ==> r == TotalPages(n)
    ensures page < 1 ==> r == 1
  {
    var total := TotalPages(n);
    var p := if page > total then total else page;
    if p < 1 then 1 else p
  }

  /** `slice(start, start + DB_PAGE_SIZE)` for page `page` (app.js:767-769). */
  function PageData<T>(list: seq<T>, page: int): seq<T>
    requires page >= 1
  {
    var start := (page - 1) * PageSize;
    if start >= |list| then [] else Slice(list, start, PageSize)
  }

  /**
   * After clamping, the page shown is the matching chunk of 25 rows, and it
   * is empty only when the list is.
   */
  lemma PageIsChunk<T>(list: seq<T>, page: int)
    requires list != []
    ensures var p := ClampPage(page, |list|);
      && p - 1 < |Chunks(list, PageSize)|
      && PageData(list, p) == Chunks(list, PageSize)[p - 1]
      && PageData(list, p) != []
  {
    var p := ClampPage(page, |list|);
    var r := Chunks(list, PageSize);
    ChunksShape(list, PageSize);
    assert |r| == TotalPages(|list|);
    ChunkAt(list, PageSize, p - 1);
  }

  /** An empty list still has one page, and it shows nothing. */
  lemma EmptyListOnePage<T>(list: seq<T>, page: int)
    requires list == []
    ensures ClampPage(page, |list|) == 1 && PageData(list, 1) == []
  {
  }
}
