/**
 * The mutable application state of app.js:8-22 and the operations that
 * update it in place: `processEmails` (app.js:148-250), `createBatches`
 * (app.js:252-258), `markBatchAsSent` (app.js:435-448), `markAsUnsent`
 * (app.js:463-482) and the rule-list editors (app.js:540-604, 653-700).
 *
 * The records are objects shared between `allEmails`, `validEmails`,
 * `blockedEmails` and the batches, so marking one as sent is seen through
 * every list that holds it.  The IndexedDB `sentEmails` store is the field
 * `sentEmails`; clocks are the parameter `now`.
 */
module Engine {
  import opened Wrappers
  import opened Text
  import opened Seqs
  import opened Cooldown
  import opened Extraction
  import opened Classification
  import opened Batching
  import opened Rules

  /** `state.activeProject`, less its generated id and display name. */
  datatype Project = Project(rawInput: string, timestamp: int, sentCount: nat, totalValid: nat)

  /** `parseInt(value) || 25`: an unparsable (`NaN`) or zero size falls back to 25. */
  function EffectiveBatchSize(parsed: Option<int>): int {
    if parsed.None? || parsed.value == 0 then 25 else parsed.value
  }

  /** `batch.every(item => item.isSent)` (app.js:292). */
  predicate BatchCompleted(batch: seq<EmailItem>)
    reads batch
  {
    forall k :: 0 <= k < |batch| ==> batch[k].isSent
  }

  /** The records of `batch` not yet marked as sent. */
  function Pending(batch: seq<EmailItem>): set<EmailItem>
    reads batch
  {
    set x | x in batch && !x.isSent
  }

  function EmailsOf(items: set<EmailItem>): set<string> {
    set x | x in items :: x.email
  }

  /** The store entries that `saveSentEmail` writes, one per address. */
  function Upserts(keys: set<string>, rec: SentRecord): map<string, SentRecord> {
    map e | e in keys :: rec
  }

  /** The number of positions of `items` holding a record for `email`. */
  function Matching(items: seq<EmailItem>, email: string): nat {
    if items == [] then 0
    else Matching(items[..|items| - 1], email) + (if items[|items| - 1].email == email then 1 else 0)
  }

  /** `Math.max(0, n)`. */
  function Floor0(n: int): nat { if n < 0 then 0 else n }

  /** The project with its `sentCount` replaced, or no project. */
  function WithSentCount(p: Option<Project>, count: nat): Option<Project> {
    if p.None? then None else Some(p.value.(sentCount := count))
  }

  lemma UpsertStep(m: map<string, SentRecord>, keys: set<string>, e: string, rec: SentRecord, cur: map<string, SentRecord>)
    requires cur == m + Upserts(keys, rec)
    ensures cur[e := rec] == m + Upserts(keys + {e}, rec)
  {
  }

  lemma CountStep(p0: Option<Project>, n: nat, cur: Option<Project>)
    requires cur == (if p0.None? then None else WithSentCount(p0, p0.value.sentCount + n))
    ensures cur.Some? ==>
      Some(cur.value.(sentCount := cur.value.sentCount + 1)) == WithSentCount(p0, p0.value.sentCount + (n + 1))
    ensures cur.None? ==> p0.None?
  {
  }

  /** Two successive decrements floored at 0 are one decrement by the sum. */
  lemma FloorStep(p0: Option<Project>, a: nat, b: nat, mid: Option<Project>, cur: Option<Project>)
    requires mid == (if p0.None? then None else WithSentCount(p0, Floor0(p0.value.sentCount - a)))
    requires cur == (if mid.None? then None else WithSentCount(mid, Floor0(mid.value.sentCount - b)))
    ensures cur == (if p0.None? then None else WithSentCount(p0, Floor0(p0.value.sentCount - (a + b))))
  {
  }

  lemma EmailsOfStep(items: set<EmailItem>, x: EmailItem)
    ensures EmailsOf(items + {x}) == EmailsOf(items) + {x.email}
  {
  }

  lemma MatchingSnoc(items: seq<EmailItem>, x: EmailItem, email: string)
    ensures Matching(items + [x], email) == Matching(items, email) + (if x.email == email then 1 else 0)
  {
    assert (items + [x])[..|items|] == items;
  }

  lemma {:induction false} MatchingConcat(a: seq<EmailItem>, b: seq<EmailItem>, email: string)
    ensures Matching(a + b, email) == Matching(a, email) + Matching(b, email)
    decreases |b|
  {
    if b == [] {
      assert a + b == a;
    } else {
      var init := b[..|b| - 1];
      assert a + b == (a + init) + [b[|b| - 1]];
      assert b == init + [b[|b| - 1]];
      MatchingConcat(a, init, email);
      MatchingSnoc(a + init, b[|b| - 1], email);
      MatchingSnoc(init, b[|b| - 1], email);
    }
  }

  lemma FlattenSnoc<T>(ss: seq<seq<T>>, b: int)
    requires 0 <= b < |ss|
    ensures Flatten(ss[..b + 1]) == Flatten(ss[..b]) + ss[b]
  {
    assert ss[..b + 1] == ss[..b] + [ss[b]];
    FlattenConcat(ss[..b], [ss[b]]);
    assert Flatten([ss[b]]) == ss[b] + Flatten([]);
  }

  lemma {:induction false} FlattenMember<T>(ss: seq<seq<T>>, b: int, k: int)
    requires 0 <= b < |ss| && 0 <= k < |ss[b]|
    ensures ss[b][k] in Flatten(ss)
  {
    if b > 0 {
      FlattenMember(ss[1..], b - 1, k);
    }
  }

  /** Every element of the concatenation comes from some inner sequence. */
  lemma {:induction false} FlattenFind<T>(ss: seq<seq<T>>, x: T) returns (b: nat, k: nat)
    requires x in Flatten(ss)
    ensures b < |ss| && k < |ss[b]| && ss[b][k] == x
  {
    if x in ss[0] {
      b := 0;
      k :| 0 <= k < |ss[0]| && ss[0][k] == x;
    } else {
      var b', k' := FlattenFind(ss[1..], x);
      b, k := b' + 1, k';
    }
  }

  /** Records built one per address of a list without repetitions are for distinct addresses. */
  lemma EmailsFromDistinct(all: seq<EmailItem>, u: seq<string>)
    requires Distinct(u) && |all| == |u|
    requires forall k :: 0 <= k < |u| ==> all[k].email == u[k]
    ensures DistinctEmails(all)
  {
  }

  /**
   * No address appears twice across the batches of one run: the batches
   * concatenate to `validEmails`, part of records for distinct addresses.
   */
  lemma BatchesHaveDistinctEmails(all: seq<EmailItem>, size: nat)
    requires size >= 1 && DistinctEmails(all)
    ensures DistinctEmails(Flatten(Chunks(ValidOf(all), size)))
  {
    FilterDistinctEmails(all, IsValidItem);
    ChunksFlatten(ValidOf(all), size);
  }

  /**
   * A record already flagged as sent is not pending, so `markBatchAsSent`
   * neither stores its address again nor counts it (app.js:443).  This is the
   * case of an address whose history record has expired: classification lets
   * it through (app.js:191), yet `isSent` is `!!sentRecord` (app.js:206).
   */
  lemma SentItemIsSkipped(batch: seq<EmailItem>, x: EmailItem)
    requires x in batch && x.isSent && DistinctEmails(batch)
    ensures x !in Pending(batch)
    ensures x.email !in EmailsOf(Pending(batch))
  {
  }

  /**
   * The loop of app.js:441-447: each record of `batch` not yet sent is
   * written to `store`, flagged and counted once on the project.
   */
  method SendAll(batch: seq<EmailItem>, store: map<string, SentRecord>, project: Option<Project>, rec: SentRecord)
    returns (store': map<string, SentRecord>, project': Option<Project>)
    modifies batch
    ensures BatchCompleted(batch)
    ensures store' == store + Upserts(EmailsOf(old(Pending(batch))), rec)
    ensures project' == (if project.None? then None
      else WithSentCount(project, project.value.sentCount + |old(Pending(batch))|))
  {
    ghost var pend := Pending(batch);
    ghost var newly: seq<EmailItem> := [];
    ghost var done: set<EmailItem> := {};
    ghost var keys: set<string> := {};
    store', project' := store, project;
    var i := 0;
    while i < |batch|
      invariant 0 <= i <= |batch|
      invariant forall k :: 0 <= k < i ==> batch[k] in done && batch[k].isSent
      invariant forall k :: i <= k < |batch| ==> (batch[k].isSent <==> batch[k] in done || batch[k] !in pend)
      invariant Distinct(newly)
      invariant forall x :: x in newly <==> x in pend && x in done
      invariant keys == EmailsOf(set x | x in newly)
      invariant store' == store + Upserts(keys, rec)
      invariant project' == (if project.None? then None else WithSentCount(project, project.value.sentCount + |newly|))
    {
      var item := batch[i];
      if !item.isSent {
        UpsertStep(store, keys, item.email, rec, store');
        EmailsOfStep((set x | x in newly), item);
        CountStep(project, |newly|, project');
        assert (set x | x in newly + [item]) == (set x | x in newly) + {item};
        newly := newly + [item];
        keys := keys + {item.email};
        store' := store'[item.email := rec];
        item.isSent := true;
        if project'.Some? {
          project' := Some(project'.value.(sentCount := project'.value.sentCount + 1));
        }
      } else {
        assert item in done || item !in pend;
      }
      done := done + {item};
      i := i + 1;
    }
    assert (set x | x in newly) == pend;
    DistinctCard(newly);
  }

  /**
   * The loop of app.js:182-222: one fresh record per address, classified
   * against `rules` and the store, pushed to `all` and to `valid` or
   * `blocked` by its verdict.
   */
  method ClassifyAll(u: seq<string>, rules: RuleSet, history: map<string, SentRecord>, now: int)
    returns (all: seq<EmailItem>, valid: seq<EmailItem>, blocked: seq<EmailItem>)
    requires forall k :: 0 <= k < |u| ==> '@' in u[k]
    ensures |all| == |u|
    ensures forall k :: 0 <= k < |u| ==>
      && fresh(all[k])
      && all[k].email == u[k]
      && all[k].verdict == Classify(u[k], rules, history, now)
      && all[k].isSent == (u[k] in history)
    ensures valid == ValidOf(all) && blocked == BlockedOf(all)
  {
    all, valid, blocked := [], [], [];
    var i := 0;
    while i < |u|
      invariant 0 <= i <= |u| && |all| == i
      invariant forall k :: 0 <= k < i ==> fresh(all[k])
      invariant forall k :: 0 <= k < i ==> all[k].email == u[k]
      invariant forall k {:trigger Classify(u[k], rules, history, now)} :: 0 <= k < i ==>
        all[k].verdict == Classify(u[k], rules, history, now)
      invariant forall k :: 0 <= k < i ==> all[k].isSent == (u[k] in history)
      invariant valid == ValidOf(all) && blocked == BlockedOf(all)
    {
      var email := u[i];
      var item := NewRecord(email, rules, history, now);
      all, valid, blocked := Push(all, valid, blocked, item);
      i := i + 1;
    }
  }

  /** app.js:217-222: the record goes to `valid` or `blocked` by its verdict, and to `all`. */
  method Push(all: seq<EmailItem>, valid: seq<EmailItem>, blocked: seq<EmailItem>, item: EmailItem)
    returns (all': seq<EmailItem>, valid': seq<EmailItem>, blocked': seq<EmailItem>)
    requires valid == ValidOf(all) && blocked == BlockedOf(all)
    ensures all' == all + [item]
    ensures valid' == ValidOf(all') && blocked' == BlockedOf(all')
  {
    PartitionSnoc(all, item);
    valid', blocked' := valid, blocked;
    if item.verdict.isValid {
      valid' := valid + [item];
    } else {
      blocked' := blocked + [item];
    }
    all' := all + [item];
  }

  /** One record of app.js:198-209: the address, its verdict and whether the store knows it. */
  method NewRecord(email: string, rules: RuleSet, history: map<string, SentRecord>, now: int) returns (item: EmailItem)
    requires '@' in email
    ensures fresh(item)
    ensures item.email == email && item.verdict == Classify(email, rules, history, now)
    ensures item.isSent == (email in history)
  {
    item := new EmailItem(email, Classify(email, rules, history, now), email in history);
  }

  class AppState {
    var allEmails: seq<EmailItem>
    var validEmails: seq<EmailItem>
    var blockedEmails: seq<EmailItem>
    var masterBlockList: seq<string>
    var masterAllowList: seq<string>
    var keywordsList: seq<string>
    var tldList: seq<string>
    var batches: seq<seq<EmailItem>>
    var currentBatchIndex: int
    var activeProject: Option<Project>
    /** The `sentEmails` object store, keyed by address. */
    var sentEmails: map<string, SentRecord>

    /**
     * The initial `state` (app.js:8-22): the lists come from local storage
     * when present there, the keyword and TLD lists otherwise from `DEFAULTS`.
     */
    constructor (storedBlockList: Option<seq<string>>, storedAllowList: Option<seq<string>>,
                 storedKeywords: Option<seq<string>>, storedTlds: Option<seq<string>>,
                 history: map<string, SentRecord>)
      ensures allEmails == [] && validEmails == [] && blockedEmails == []
      ensures masterBlockList == (if storedBlockList.Some? then storedBlockList.value else [])
      ensures masterAllowList == (if storedAllowList.Some? then storedAllowList.value else [])
      ensures keywordsList == (if storedKeywords.Some? then storedKeywords.value else DefaultKeywords)
      ensures tldList == (if storedTlds.Some? then storedTlds.value else DefaultTlds)
      ensures batches == [] && currentBatchIndex == 0 && activeProject == None
      ensures sentEmails == history
    {
      allEmails, validEmails, blockedEmails := [], [], [];
      masterBlockList := if storedBlockList.Some? then storedBlockList.value else [];
      masterAllowList := if storedAllowList.Some? then storedAllowList.value else [];
      keywordsList := if storedKeywords.Some? then storedKeywords.value else DefaultKeywords;
      tldList := if storedTlds.Some? then storedTlds.value else DefaultTlds;
      batches, currentBatchIndex, activeProject := [], 0, None;
      sentEmails := history;
    }

    /** The four rule lists classification reads. */
    function CurrentRules(): RuleSet
      reads this`masterBlockList, this`masterAllowList, this`keywordsList, this`tldList
    {
      RuleSet(masterBlockList, masterAllowList, keywordsList, tldList)
    }

    /** `validEmails` and `blockedEmails` split `allEmails` by validity, in order. */
    predicate Partitioned()
      reads this`allEmails, this`validEmails, this`blockedEmails
    {
      validEmails == ValidOf(allEmails) && blockedEmails == BlockedOf(allEmails)
    }

    /** `state.batches[state.currentBatchIndex]`, or nothing when the index is out of range. */
    function CurrentBatch(): seq<EmailItem>
      reads this`batches, this`currentBatchIndex
    {
      if 0 <= currentBatchIndex < |batches| then batches[currentBatchIndex] else []
    }

    /**
     * `processEmails`: with blank input nothing changes; otherwise one fresh
     * record per unique address, classified against the current rules and
     * history, split into `validEmails`/`blockedEmails`, a project on first
     * use, and the batches rebuilt.  `matches` is the regex match list of
     * `input`.
     */
    method ProcessEmails(input: string, matches: seq<string>, parsedBatchSize: Option<int>, now: int)
      requires parsedBatchSize.None? || parsedBatchSize.value >= 0
      modifies this`allEmails, this`validEmails, this`blockedEmails, this`activeProject,
               this`batches, this`currentBatchIndex
      ensures Trim(input) == [] ==> unchanged(this)
      ensures Trim(input) != [] ==>
        var u := UniqueAddresses(matches);
        && |allEmails| == |u|
        && (forall k :: 0 <= k < |u| ==>
              && fresh(allEmails[k])
              && allEmails[k].email == u[k]
              && allEmails[k].verdict == Classify(u[k], old(CurrentRules()), old(sentEmails), now)
              && allEmails[k].isSent == (u[k] in old(sentEmails)))
      ensures Trim(input) != [] ==> Partitioned()
      ensures Trim(input) != [] ==>
        activeProject == (if old(activeProject).None? then Some(Project(input, now, 0, |validEmails|)) else old(activeProject))
      ensures Trim(input) != [] ==>
        batches == Chunks(validEmails, EffectiveBatchSize(parsedBatchSize)) && currentBatchIndex == 0
      ensures Trim(input) != [] ==> DistinctEmails(Flatten(batches))
    {
      if Trim(input) == [] {
        return;
      }
      UniqueAddressesOrdered(matches);
      LoadAddresses(input, UniqueAddresses(matches), EffectiveBatchSize(parsedBatchSize), now);
    }

    /**
     * The non-blank branch of `processEmails` for the unique addresses `u`:
     * classify each, start the project if there is none, rebuild the batches.
     */
    method LoadAddresses(input: string, u: seq<string>, size: int, now: int)
      requires size >= 1
      requires forall k :: 0 <= k < |u| ==> '@' in u[k]
      modifies this`allEmails, this`validEmails, this`blockedEmails, this`activeProject,
               this`batches, this`currentBatchIndex
      ensures |allEmails| == |u|
      ensures forall k :: 0 <= k < |u| ==>
        && fresh(allEmails[k])
        && allEmails[k].email == u[k]
        && allEmails[k].verdict == Classify(u[k], old(CurrentRules()), old(sentEmails), now)
        && allEmails[k].isSent == (u[k] in old(sentEmails))
      ensures Partitioned()
      ensures activeProject == (if old(activeProject).None? then Some(Project(input, now, 0, |validEmails|)) else old(activeProject))
      ensures batches == Chunks(validEmails, size) && currentBatchIndex == 0
      ensures Distinct(u) ==> DistinctEmails(Flatten(batches))
    {
      allEmails, validEmails, blockedEmails := ClassifyAll(u, CurrentRules(), sentEmails, now);
      if activeProject.None? {
        activeProject := Some(Project(input, now, 0, |validEmails|));
      }
      CreateBatches(size);
      if Distinct(u) {
        EmailsFromDistinct(allEmails, u);
        BatchesHaveDistinctEmails(allEmails, size);
      }
    }

    /**
     * `createBatches`: consecutive slices of `size` valid records, the last
     * possibly shorter, with the first batch selected.
     */
    method CreateBatches(size: int)
      requires size >= 1
      modifies this`batches, this`currentBatchIndex
      ensures batches == Chunks(validEmails, size) && currentBatchIndex == 0
      ensures Flatten(batches) == validEmails
    {
      var s := validEmails;
      var out: seq<seq<EmailItem>> := [];
      var i := 0;
      while i < |s|
        invariant 0 <= i
        invariant out + Chunks(s[Min(i, |s|)..], size) == Chunks(s, size)
        decreases |s| - i
      {
        ChunksAppendStep(s, i, size, out);
        out := out + [Slice(s, i, size)];
        i := i + size;
      }
      ChunksDone(s, i, size, out);
      batches := out;
      currentBatchIndex := 0;
      ChunksFlatten(validEmails, size);
    }

    /**
     * `markBatchAsSent`: every record of the current batch not yet sent is
     * written to the store with the cooldown's expiry, marked as sent and
     * counted once on the project; a missing or empty batch changes nothing.
     */
    method MarkBatchAsSent(cooldown: string, now: int)
      modifies this`sentEmails, this`activeProject, CurrentBatch()
      ensures BatchCompleted(CurrentBatch())
      ensures sentEmails == old(sentEmails)
        + Upserts(EmailsOf(old(Pending(CurrentBatch()))), SentRecord(now, ExpiryFor(cooldown, now)))
      ensures activeProject == (if old(activeProject).None? then None
        else WithSentCount(old(activeProject), old(activeProject).value.sentCount + |old(Pending(CurrentBatch()))|))
    {
      var batch := CurrentBatch();
      if |batch| == 0 {
        return;
      }
      sentEmails, activeProject := SendAll(batch, sentEmails, activeProject, SentRecord(now, ExpiryFor(cooldown, now)));
    }

    /**
     * `markAsUnsent`: the address's store record is deleted, every record for
     * it in the batches and in `allEmails` is marked unsent, and the project's
     * `sentCount` drops by one per batch position holding it, never below 0.
     */
    method MarkAsUnsent(email: string)
      modifies this`sentEmails, this`activeProject, Flatten(batches), allEmails
      ensures sentEmails == old(sentEmails) - {email}
      ensures forall i, k :: 0 <= i < |batches| && 0 <= k < |batches[i]| ==>
        batches[i][k].isSent == (batches[i][k].email != email && old(batches[i][k].isSent))
      ensures forall j :: 0 <= j < |allEmails| ==>
        allEmails[j].isSent == (allEmails[j].email != email && old(allEmails[j].isSent))
      ensures activeProject == (if old(activeProject).None? then None
        else WithSentCount(old(activeProject), Floor0(old(activeProject).value.sentCount - Matching(Flatten(batches), email))))
    {
      sentEmails := sentEmails - {email};
      UnmarkBatches(batches, email);
      forall j | 0 <= j < |allEmails| && allEmails[j].email != email
        ensures allEmails[j].isSent == old(allEmails[j].isSent)
      {
        if allEmails[j] in Flatten(batches) {
          var b, k := FlattenFind(batches, allEmails[j]);
        }
      }
      ClearSent(allEmails, email);
    }

    /**
     * The `state.batches.forEach` of app.js:469-476: every record of the
     * batches for `email` is marked unsent, each one lowering `sentCount`.
     */
    method UnmarkBatches(bs: seq<seq<EmailItem>>, email: string)
      modifies this`activeProject, Flatten(bs)
      ensures forall i, k :: 0 <= i < |bs| && 0 <= k < |bs[i]| ==>
        bs[i][k].isSent == (bs[i][k].email != email && old(bs[i][k].isSent))
      ensures activeProject == (if old(activeProject).None? then None
        else WithSentCount(old(activeProject), Floor0(old(activeProject).value.sentCount - Matching(Flatten(bs), email))))
    {
      ghost var p0 := activeProject;
      var b := 0;
      while b < |bs|
        invariant 0 <= b <= |bs|
        invariant forall i, k :: 0 <= i < |bs| && 0 <= k < |bs[i]| ==>
          bs[i][k].isSent == (if bs[i][k].email == email && bs[i][k] in Flatten(bs[..b]) then false else old(bs[i][k].isSent))
        invariant activeProject == (if p0.None? then None
          else WithSentCount(p0, Floor0(p0.value.sentCount - Matching(Flatten(bs[..b]), email))))
      {
        forall k | 0 <= k < |bs[b]| ensures bs[b][k] in Flatten(bs) {
          FlattenMember(bs, b, k);
        }
        ghost var mid := activeProject;
        UnmarkBatch(bs[b], email);
        FloorStep(p0, Matching(Flatten(bs[..b]), email), Matching(bs[b], email), mid, activeProject);
        FlattenSnoc(bs, b);
        MatchingConcat(Flatten(bs[..b]), bs[b], email);
        b := b + 1;
      }
      assert bs[..b] == bs;
      forall i, k | 0 <= i < |bs| && 0 <= k < |bs[i]| ensures bs[i][k] in Flatten(bs) {
        FlattenMember(bs, i, k);
      }
    }

    /**
     * The inner `forEach` of app.js:469-476: each record of `batch` for
     * `email` is marked unsent and lowers `sentCount` by one, never below 0.
     */
    method UnmarkBatch(batch: seq<EmailItem>, email: string)
      modifies this`activeProject, batch
      ensures forall x :: x in batch ==> x.isSent == (x.email != email && old(x.isSent))
      ensures activeProject == (if old(activeProject).None? then None
        else WithSentCount(old(activeProject), Floor0(old(activeProject).value.sentCount - Matching(batch, email))))
    {
      ghost var p0 := activeProject;
      var k := 0;
      while k < |batch|
        invariant 0 <= k <= |batch|
        invariant forall x :: x in batch ==>
          x.isSent == (if x.email == email && x in batch[..k] then false else old(x.isSent))
        invariant activeProject == (if p0.None? then None
          else WithSentCount(p0, Floor0(p0.value.sentCount - Matching(batch[..k], email))))
      {
        var item := batch[k];
        assert batch[..k + 1] == batch[..k] + [item];
        MatchingSnoc(batch[..k], item, email);
        if item.email == email {
          item.isSent := false;
          if activeProject.Some? {
            activeProject := Some(activeProject.value.(sentCount := Floor0(activeProject.value.sentCount - 1)));
          }
        }
        k := k + 1;
      }
      assert batch[..k] == batch;
    }

    /** The `allEmails.forEach` of app.js:478-482: every record for `email` is marked unsent. */
    method ClearSent(items: seq<EmailItem>, email: string)
      modifies items
      ensures forall x :: x in items ==> x.isSent == (x.email != email && old(x.isSent))
    {
      var j := 0;
      while j < |items|
        invariant 0 <= j <= |items|
        invariant forall x :: x in items ==>
          x.isSent == (if x.email == email && x in items[..j] then false else old(x.isSent))
      {
        var item := items[j];
        assert items[..j + 1] == items[..j] + [item];
        if item.email == email {
          item.isSent := false;
        }
        j := j + 1;
      }
      assert items[..j] == items;
    }

    /** `addToBlockList` (app.js:540-563): returns `addedCount`. */
    method AddToBlockList(domain: string, inputValue: string) returns (added: nat)
      modifies this`masterBlockList
      ensures masterBlockList == AddAll(old(masterBlockList), Cleaned(Entries(RawValue(domain, inputValue))))
      ensures added == |masterBlockList| - |old(masterBlockList)|
    {
      masterBlockList, added := AddEntries(masterBlockList, Entries(RawValue(domain, inputValue)));
    }

    /** `removeFromBlockList` (app.js:567-572). */
    method RemoveFromBlockList(domain: string)
      modifies this`masterBlockList
      ensures masterBlockList == Remove(old(masterBlockList), domain)
    {
      masterBlockList := Remove(masterBlockList, domain);
    }

    /** `addToAllowList` (app.js:575-597): returns `addedCount`. */
    method AddToAllowList(domain: string, inputValue: string) returns (added: nat)
      modifies this`masterAllowList
      ensures masterAllowList == AddAll(old(masterAllowList), Cleaned(Entries(RawValue(domain, inputValue))))
      ensures added == |masterAllowList| - |old(masterAllowList)|
    {
      masterAllowList, added := AddEntries(masterAllowList, Entries(RawValue(domain, inputValue)));
    }

    /** `removeFromAllowList` (app.js:599-604). */
    method RemoveFromAllowList(domain: string)
      modifies this`masterAllowList
      ensures masterAllowList == Remove(old(masterAllowList), domain)
    {
      masterAllowList := Remove(masterAllowList, domain);
    }

    /** `addKeyword` (app.js:653-661). */
    method AddKeyword(inputValue: string)
      modifies this`keywordsList
      ensures keywordsList == WithKeyword(old(keywordsList), inputValue)
    {
      keywordsList := WithKeyword(keywordsList, inputValue);
    }

    /** `removeKeyword` (app.js:662-666). */
    method RemoveKeyword(kw: string)
      modifies this`keywordsList
      ensures keywordsList == Remove(old(keywordsList), kw)
    {
      keywordsList := Remove(keywordsList, kw);
    }

    /** `addKeywordFromLibrary` (app.js:667-671): appended as is, without a duplicate test. */
    method AddKeywordFromLibrary(kw: string)
      modifies this`keywordsList
      ensures keywordsList == old(keywordsList) + [kw]
    {
      keywordsList := keywordsList + [kw];
    }

    /** `addTLD` (app.js:672-680). */
    method AddTld(inputValue: string)
      modifies this`tldList
      ensures tldList == WithTld(old(tldList), inputValue)
    {
      tldList := WithTld(tldList, inputValue);
    }

    /** `removeTLD` (app.js:681-685). */
    method RemoveTld(tld: string)
      modifies this`tldList
      ensures tldList == Remove(old(tldList), tld)
    {
      tldList := Remove(tldList, tld);
    }

    /** `addTLDFromLibrary` (app.js:686-690): appended as is, without a duplicate test. */
    method AddTldFromLibrary(tld: string)
      modifies this`tldList
      ensures tldList == old(tldList) + [tld]
    {
      tldList := tldList + [tld];
    }

    /** `resetToDefaults` (app.js:692-700), once confirmed. */
    method ResetToDefaults()
      modifies this`keywordsList, this`tldList
      ensures keywordsList == DefaultKeywords && tldList == DefaultTlds
    {
      keywordsList := DefaultKeywords;
      tldList := DefaultTlds;
    }
  }
}
