/**
 * Per-address classification, the body of the loop in `processEmails`
 * (app.js:182-216): the domain, four independent flags, the cooldown test, the
 * validity formula and the ordered list of reasons.  The extracted record is an
 * `EmailItem` object, shared between `allEmails`, `validEmails` and the batches.
 */
module Classification {
  import opened Wrappers
  import opened Text
  import opened Seqs
  import opened Cooldown

  /** The four rule lists the classification reads from `state`. */
  datatype RuleSet = RuleSet(blockList: seq<string>, allowList: seq<string>,
                             keywords: seq<string>, tlds: seq<string>)

  /**
   * `eduTldRegex.test(domain)` for the pattern `(t1$|t2$|…)` with flag `i`
   * (app.js:125-126): some TLD is a suffix of the domain, ignoring case.  An
   * empty list gives the pattern `()`, which matches every domain.
   */
  predicate MatchesTld(domain: string, tlds: seq<string>) {
    |tlds| == 0 || exists k :: 0 <= k < |tlds| && EndsWith(Lower(domain), Lower(tlds[k]))
  }

  /**
   * `keywordRegex.test(domain)` for the pattern `(k1|k2|…)` with flag `i`
   * (app.js:123-124): some keyword occurs in the domain, ignoring case.  An
   * empty list gives `()`, which matches every domain.
   */
  predicate MatchesKeyword(domain: string, keywords: seq<string>) {
    |keywords| == 0 || exists k :: 0 <= k < |keywords| && Contains(Lower(domain), Lower(keywords[k]))
  }

  /** Why an address is blocked (or let through), in the words of app.js:211-215. */
  datatype Reason = ManualBlock | TldEdu | Keyword | Sent(lastSent: int) | AllowedException

  /** The position of each reason in the fixed order of app.js:211-215. */
  function Rank(r: Reason): nat {
    match r
      case ManualBlock => 0
      case TldEdu => 1
      case Keyword => 2
      case Sent(_) => 3
      case AllowedException => 4
  }

  /** A record's fields other than `email` and `isSent`. */
  datatype Verdict = Verdict(domain: string, isEdu: bool, hasKeyword: bool, inBlockList: bool,
                             isAllowed: bool, onCooldown: bool, isValid: bool, reasons: seq<Reason>)

  /** The history record of an address, `sentMap.get(email)`. */
  function Lookup(history: map<string, SentRecord>, email: string): (r: Option<SentRecord>)
    ensures r.Some? <==> email in history
    ensures r.Some? ==> r.value == history[email]
  {
    if email in history then Some(history[email]) else None
  }

  /** Reasons listed in strictly increasing rank. */
  predicate Ordered(r: seq<Reason>) {
    forall i, j :: 0 <= i < j < |r| ==> Rank(r[i]) < Rank(r[j])
  }

  /** The reason list of app.js:211-215, built from the flags; `lastSent` is the history record's. */
  function ReasonsFor(inBlockList: bool, isEdu: bool, hasKeyword: bool, isAllowed: bool,
                      onCooldown: bool, lastSent: int): seq<Reason>
  {
    (if inBlockList then [ManualBlock] else [])
    + (if isEdu && !isAllowed then [TldEdu] else [])
    + (if hasKeyword && !isAllowed then [Keyword] else [])
    + (if onCooldown then [Sent(lastSent)] else [])
    + (if isAllowed then [AllowedException] else [])
  }

  lemma ReasonsOrdered(inBlockList: bool, isEdu: bool, hasKeyword: bool, isAllowed: bool,
                       onCooldown: bool, lastSent: int)
    ensures Ordered(ReasonsFor(inBlockList, isEdu, hasKeyword, isAllowed, onCooldown, lastSent))
  {
  }

  /** Each reason is listed exactly when its condition holds. */
  lemma ReasonsMembership(inBlockList: bool, isEdu: bool, hasKeyword: bool, isAllowed: bool,
                          onCooldown: bool, lastSent: int)
    ensures var r := ReasonsFor(inBlockList, isEdu, hasKeyword, isAllowed, onCooldown, lastSent);
      && (ManualBlock in r <==> inBlockList)
      && (TldEdu in r <==> isEdu && !isAllowed)
      && (Keyword in r <==> hasKeyword && !isAllowed)
      && (Sent(lastSent) in r <==> onCooldown)
      && (AllowedException in r <==> isAllowed)
  {
  }

  /** No reason names any other send date. */
  lemma ReasonsSentDate(inBlockList: bool, isEdu: bool, hasKeyword: bool, isAllowed: bool,
                        onCooldown: bool, lastSent: int, t: int)
    requires t != lastSent
    ensures Sent(t) !in ReasonsFor(inBlockList, isEdu, hasKeyword, isAllowed, onCooldown, lastSent)
  {
  }

  /** Nothing but `Allowed Exception` is listed exactly when nothing disqualifies. */
  lemma ReasonsClear(inBlockList: bool, isEdu: bool, hasKeyword: bool, isAllowed: bool,
                     onCooldown: bool, lastSent: int)
    ensures var r := ReasonsFor(inBlockList, isEdu, hasKeyword, isAllowed, onCooldown, lastSent);
      (r == [] || r == [AllowedException])
      <==> (!inBlockList && !(isEdu && !isAllowed) && !(hasKeyword && !isAllowed) && !onCooldown)
  {
    var r := ReasonsFor(inBlockList, isEdu, hasKeyword, isAllowed, onCooldown, lastSent);
    ReasonsMembership(inBlockList, isEdu, hasKeyword, isAllowed, onCooldown, lastSent);
    if !inBlockList && !(isEdu && !isAllowed) && !(hasKeyword && !isAllowed) && !onCooldown {
      var tail: seq<Reason> := if isAllowed then [AllowedException] else [];
      assert r == [] + [] + [] + [] + tail;
    }
  }

  /** The record that `processEmails` builds for one address, less its `isSent` (app.js:183-215). */
  function Classify(email: string, rules: RuleSet, history: map<string, SentRecord>, now: int): (v: Verdict)
    requires '@' in email
    ensures v.domain == FieldAfter(email, '@') && '@' !in v.domain
    ensures v.onCooldown <==> OnCooldown(Lookup(history, email), now)
    ensures v.isValid <==> (v.reasons == [] || v.reasons == [AllowedException])
  {
    var domain := FieldAfter(email, '@');
    var isEdu := MatchesTld(domain, rules.tlds);
    var hasKeyword := MatchesKeyword(domain, rules.keywords);
    var inBlockList := domain in rules.blockList;
    var isAllowed := domain in rules.allowList;
    var sent := Lookup(history, email);
    var onCooldown := OnCooldown(sent, now);
    var isValid := !inBlockList && (isAllowed || !(isEdu || hasKeyword)) && !onCooldown;
    var lastSent := if sent.Some? then sent.value.lastSent else 0;
    var reasons := ReasonsFor(inBlockList, isEdu, hasKeyword, isAllowed, onCooldown, lastSent);
    ReasonsClear(inBlockList, isEdu, hasKeyword, isAllowed, onCooldown, lastSent);
    Verdict(domain, isEdu, hasKeyword, inBlockList, isAllowed, onCooldown, isValid, reasons)
  }

  lemma BlockListWins(email: string, rules: RuleSet, history: map<string, SentRecord>, now: int)
    requires '@' in email && FieldAfter(email, '@') in rules.blockList
    ensures var v := Classify(email, rules, history, now); !v.isValid && v.reasons[0] == ManualBlock
  {
  }

  lemma AllowListOverridesFilters(email: string, rules: RuleSet, history: map<string, SentRecord>, now: int)
    requires '@' in email
    requires FieldAfter(email, '@') in rules.allowList && FieldAfter(email, '@') !in rules.blockList
    requires email !in history
    ensures var v := Classify(email, rules, history, now); v.isValid && v.reasons == [AllowedException]
  {
  }

  lemma FilterMatchBlocks(email: string, rules: RuleSet, history: map<string, SentRecord>, now: int)
    requires '@' in email && FieldAfter(email, '@') !in rules.allowList
    requires MatchesTld(FieldAfter(email, '@'), rules.tlds) || MatchesKeyword(FieldAfter(email, '@'), rules.keywords)
    ensures !Classify(email, rules, history, now).isValid
  {
  }

  /** A live cooldown disqualifies even an allow-listed domain, and says when the address was sent. */
  lemma CooldownDisqualifies(email: string, rules: RuleSet, history: map<string, SentRecord>, now: int)
    requires '@' in email && email in history && Before(now, history[email].expiresAt)
    ensures var v := Classify(email, rules, history, now);
      !v.isValid && v.onCooldown && Sent(history[email].lastSent) in v.reasons
  {
  }

  /** An expired record no longer blocks: the address is judged by its domain alone. */
  lemma ExpiredRecordIsIgnored(email: string, rules: RuleSet, history: map<string, SentRecord>, now: int)
    requires '@' in email && email in history && !Before(now, history[email].expiresAt)
    ensures Classify(email, rules, history, now) == Classify(email, rules, history - {email}, now)
  {
  }

  /** Once its record is deleted an address is not on cooldown, so only its domain can block it. */
  lemma UnmarkedIsNotOnCooldown(email: string, rules: RuleSet, history: map<string, SentRecord>, now: int)
    requires '@' in email
    ensures var v := Classify(email, rules, history - {email}, now);
      !v.onCooldown && (v.isValid <==> !v.inBlockList && (v.isAllowed || !(v.isEdu || v.hasKeyword)))
  {
  }

  /** With empty keyword and TLD lists every domain counts as a filter match. */
  lemma EmptyFilterListsMatchAll(domain: string)
    ensures MatchesTld(domain, []) && MatchesKeyword(domain, [])
  {
  }

  /** The containment test ignores case on both sides. */
  lemma KeywordMatchIgnoresCase(domain: string, keyword: string, shouted: string)
    requires Contains(domain, keyword) && Lower(shouted) == Lower(keyword)
    ensures MatchesKeyword(domain, [shouted])
  {
    var i :| 0 <= i <= |domain| - |keyword| && OccursAt(domain, keyword, i);
    LowerSlice(domain, i, i + |keyword|);
    var ks := [shouted];
    assert OccursAt(Lower(domain), Lower(ks[0]), i);
  }


  /**
   * One extracted record.  `processEmails` pushes the same object into
   * `allEmails` and one of `validEmails`/`blockedEmails`, and `createBatches`
   * slices `validEmails`, so the send actions that flip `isSent` are seen
   * through every list.
   */
  class EmailItem {
    const email: string
    const verdict: Verdict
    var isSent: bool

    constructor (email: string, verdict: Verdict, isSent: bool)
      ensures this.email == email && this.verdict == verdict && this.isSent == isSent
    {
      this.email := email;
      this.verdict := verdict;
      this.isSent := isSent;
    }
  }

  predicate IsValidItem(it: EmailItem) { it.verdict.isValid }

  predicate IsBlockedItem(it: EmailItem) { !it.verdict.isValid }

  /** What ends up in `validEmails` when the records are pushed in order. */
  function ValidOf(all: seq<EmailItem>): seq<EmailItem> {
    Filter(all, IsValidItem)
  }

  /** What ends up in `blockedEmails`. */
  function BlockedOf(all: seq<EmailItem>): seq<EmailItem> {
    Filter(all, IsBlockedItem)
  }

  /** Pushing one more record extends exactly the list its verdict picks (app.js:217-222). */
  lemma PartitionSnoc(all: seq<EmailItem>, item: EmailItem)
    ensures ValidOf(all + [item]) == ValidOf(all) + (if item.verdict.isValid then [item] else [])
    ensures BlockedOf(all + [item]) == BlockedOf(all) + (if item.verdict.isValid then [] else [item])
  {
    FilterSnoc(all, item, IsValidItem);
    FilterSnoc(all, item, IsBlockedItem);
  }

  /**
   * The partition of app.js:217-222: every record is in exactly one of the two
   * lists, nothing is lost or duplicated, and both keep the order of `allEmails`.
   */
  lemma Partition(all: seq<EmailItem>)
    ensures |ValidOf(all)| + |BlockedOf(all)| == |all|
    ensures multiset(ValidOf(all)) + multiset(BlockedOf(all)) == multiset(all)
    ensures forall k :: 0 <= k < |all| ==> (all[k] in ValidOf(all) <==> all[k].verdict.isValid)
    ensures forall k :: 0 <= k < |all| ==> (all[k] in BlockedOf(all) <==> !all[k].verdict.isValid)
    ensures Distinct(all) ==> Distinct(ValidOf(all)) && InFirstSeenOrder(ValidOf(all), all)
    ensures Distinct(all) ==> Distinct(BlockedOf(all)) && InFirstSeenOrder(BlockedOf(all), all)
    ensures forall k :: 0 <= k < |ValidOf(all)| ==> ValidOf(all)[k].verdict.isValid
    ensures forall k :: 0 <= k < |BlockedOf(all)| ==> !BlockedOf(all)[k].verdict.isValid
  {
    FilterMembers(all, IsValidItem);
    FilterMembers(all, IsBlockedItem);
    FilterPartition(all, IsValidItem, IsBlockedItem);
    if Distinct(all) {
      FirstIndexSelf(all);
      FilterOrder(all, IsValidItem, all);
      FilterOrder(all, IsBlockedItem, all);
    }
  }

  /** No two records are for the same address. */
  predicate DistinctEmails(items: seq<EmailItem>) {
    forall i, j :: 0 <= i < j < |items| ==> items[i].email != items[j].email
  }

  /** A filter of records for distinct addresses is again for distinct addresses. */
  lemma {:induction false} FilterDistinctEmails(items: seq<EmailItem>, p: EmailItem -> bool)
    requires DistinctEmails(items)
    ensures DistinctEmails(Filter(items, p))
  {
    if items != [] {
      var init := items[..|items| - 1];
      var last := items[|items| - 1];
      assert items == init + [last];
      assert forall i :: 0 <= i < |init| ==> init[i] == items[i];
      FilterDistinctEmails(init, p);
      if p(last) {
        var f := Filter(init, p);
        FilterMembers(init, p);
        forall i | 0 <= i < |f| ensures f[i].email != last.email {
          var k :| 0 <= k < |init| && init[k] == f[i];
          assert items[k] == f[i];
        }
      }
    }
  }
}
