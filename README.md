# EmailMaster engine, modelled in Dafny

EmailMaster is a single-page tool for cold-email campaigns. The user pastes text, and the tool:
- extracts and normalises the e-mail addresses;
- classifies each address against a block list, an allow list, keyword and TLD filters, and a send history with cooldowns;
- splits the valid addresses into batches of a chosen size;
- records sends, each with a cooldown expiry;
- derives some reports: the "new domains" statistic, a merged and sorted database of every known address with a status label, and its pages.

The project models the deterministic engine of `app.js`. The application state (`state`, app.js:8-22) is the class `Engine.AppState`. Its operations are its methods:
- `processEmails`, `createBatches`, `markBatchAsSent`, `markAsUnsent`;
- the rule-list editors.

Each extracted record is an `EmailItem` object. The same object sits in `allEmails`, in `validEmails` or `blockedEmails`, and in a batch, so flipping `isSent` is seen through every list, as in the source. The IndexedDB `sentEmails` store is the field `AppState.sentEmails`, a map from address to `SentRecord`. Every use of the clock is the parameter `now`, and JavaScript's `Infinity` is `Extended.Forever`.

The pure parts are functions with lemmas about them:
- address normalisation (`Extraction`);
- per-address classification and the reason list (`Classification`);
- `parseDuration` and the expiry rule (`Cooldown`);
- chunking (`Batching`);
- `smartCleanDomain`, entry splitting and list edits (`Rules`);
- reports (`Reporting`).

`Seqs` and `Text` hold the sequence and string primitives of JavaScript that the engine uses: `new Set`, `filter`, `toLowerCase`, `trim`, `split`, `includes`.

Where the code does something other than what one would assume from its UI or comments, the model follows the code:
- `isSent` is `!!sentRecord` (app.js:206). It holds whenever a history record exists, also after the cooldown has expired.
- An empty keyword or TLD list builds the regex `()`, which matches every domain (app.js:123-126). Such a domain counts as a filter match.
- The TLD test and the keyword test ignore case (flag `i`). Block-list and allow-list membership is exact (`includes`).
- The domain of an address is `split('@')[1]`: the text between the first and the second `@` (app.js:183, 518).
- `totalValid` is set only when a project is created. A re-run that finds more valid addresses leaves it as it was (app.js:226-236).
- The database merge lower-cases and trims project addresses but does not strip `-`/`.` as `processEmails` does (app.js:736).
- Classification uses `now < expiresAt` (app.js:191), while the database label uses `now > expiresAt` (app.js:777). At the expiry instant itself they disagree: classification already lets the address through, and the label still says "On Cooldown".
- Each batch position holding the address lowers `sentCount` by one, whether or not that record was marked as sent (app.js:471-473). Unmarking twice therefore lowers it twice, floored at 0.
- A record dated at time 0 is labelled "New", because `!item.lastSent` treats 0 as false (app.js:778).
- `parseInt(value) || 25`: an unparsable or zero batch size falls back to 25 (app.js:151). A negative one is kept. The loop of `createBatches` then never ends when some address is valid, and ends at once with no batches when none is (see "Left out").
- `addKeyword` deduplicates (app.js:656), while `addTLD`, `addKeywordFromLibrary` and `addTLDFromLibrary` append even when the entry is already present (app.js:667-690).

## Model

| member | source | states |
|---|---|---|
| Text.Lower | app.js:168 | lower-casing keeps the length and leaves no upper-case ASCII letter |
| Text.LowerAt | app.js:168 | lower-casing works character by character |
| Text.LowerConcat | app.js:168 | lower-casing distributes over concatenation |
| Text.LeadingRun | app.js:170 | the length of the longest prefix satisfying the test: every character before it passes, the one at it fails |
| Text.TrailingRunStart | app.js:170 | the start of the longest suffix satisfying the test: every character from it passes, the one before fails |
| Text.Trim | app.js:168 | `trim`: the model drops the longest white-space prefix and suffix; its properties are TrimKeepsLowerCase and TrimOfSpaceFree |
| Text.LeadingRunThrough | app.js:170 | a passing prefix followed by a failing character is exactly the leading run |
| Text.TrimKeepsLowerCase | app.js:168 | trimming lower-case text leaves lower-case text |
| Text.TrimOfSpaceFree | app.js:168 | text with no white space at either end is its own trim |
| Text.IndexOf | app.js:183 | `indexOf`: none iff the character is absent, else its first position |
| Text.FieldBefore | app.js:530 | `split(c)[0]`: a prefix without `c`, the whole text when `c` is absent, else stopping right at the first `c` |
| Text.FieldAfter | app.js:183 | `split(c)[1]`: the text right after the first `c`, up to the second `c` or the end, and holding no `c` |
| Text.FieldBeforeConcat | app.js:530 | for `a + c + b` with no `c` in `a`, the first field is `a` |
| Text.FieldAfterConcat | app.js:183 | for `local@domain` with one `@`, the second field is the domain |
| Text.FieldAfterOfTwo | app.js:518 | for `a@b@t` with no `@` in `a` or `b`, the second field is `b` |
| Seqs.Dedup | app.js:167 | `[...new Set(s)]`: every element once, exactly the elements of `s`, in the order each was first seen |
| Seqs.Filter | app.js:172 | `filter(p)`: never longer than its input; its properties are FilterMembers and FilterHas |
| Seqs.FilterMembers | app.js:172 | every kept element is from the input and passes the test, and every passing element is kept |
| Seqs.FilterHas | app.js:172 | an element is kept iff it is in the input and passes the test |
| Cooldown.UnitMillis | app.js:113-118 | each unit of `msMap` is a positive whole number of days |
| Cooldown.DigitsRoundTrip | app.js:111 | `parseInt` of the decimal spelling of `n` is `n` |
| Cooldown.ParseDuration | app.js:107-120 | infinite exactly for `never`; finite results are non-negative; a nonzero result only comes from a `<digits><unit>` token |
| Cooldown.ParseCountToken | app.js:109-119 | `N` followed by `d`/`w`/`m`/`y` parses to `N` times 1, 7, 30 or 365 days of milliseconds |
| Cooldown.ParseMalformed | app.js:110 | every other token gives 0 |
| Cooldown.ExpiryFor | app.js:60 | `Infinity` exactly for `never`, otherwise `now + parseDuration(token)`, never before `now` |
| Cooldown.Before | app.js:191 | `now < expiresAt`, with every instant before `Infinity`; definition |
| Cooldown.OnCooldown | app.js:191 | a record exists and `now` is before its expiry; characterised by DaysCooldownWindow, NeverIsForever and FreshSendOnCooldown |
| Cooldown.NeverIsForever | app.js:60 | a send under `never` is on cooldown at every instant |
| Cooldown.DaysCooldownWindow | app.js:190-191 | after a send at `t0` under `<n>d`, the address is on cooldown exactly before `t0 + n` days |
| Cooldown.SevenDayRoundTrip | app.js:190-191 | under `7d` the address is held back six days later and eligible again eight days later |
| Cooldown.FreshSendOnCooldown | app.js:60 | right after a send the record holds the address back iff the cooldown is `never` or has a nonzero length |
| Extraction.StripJunk | app.js:170 | no `-` or `.` at either end; lower case is preserved |
| Extraction.NormalizeAll | app.js:167-171 | the clean-up of each match, position by position |
| Extraction.HasAt | app.js:172 | the test of `filter(e => e.includes('@'))`; definition |
| Extraction.Normalize | app.js:168-170 | the clean-up of a match is lower case with no `-`/`.` at either end |
| Extraction.UniqueAddresses | app.js:167-172 | every unique address contains `@` |
| Extraction.UniqueAddressesOrdered | app.js:167 | the addresses are pairwise distinct and in first-seen order |
| Extraction.UniqueAddressFromMatch | app.js:167-172 | every unique address is the clean-up of some match and contains `@` |
| Extraction.MatchGivesUniqueAddress | app.js:167-172 | every match whose clean-up still contains `@` yields that address |
| Extraction.UniqueAddressesSpec | app.js:167-172 | an address is listed iff it contains `@` and is the clean-up of a match; all are distinct, in first-seen order, lower case, with no junk at the ends |
| Extraction.UniqueAddressesClean | app.js:167-172 | every unique address is lower case, contains `@` and has no `-`/`.` at either end |
| Extraction.NormalizeOfClean | app.js:168-170 | an address already in clean form is its own clean-up, whatever its case |
| Extraction.NormalizeOfLeadingJunk | app.js:168-170 | a run of `-`/`.` in front of a clean address, as the address pattern can match it, is removed |
| Extraction.CaseAndJunkCollapse | app.js:167-172 | `Foo@Bar.com`, `foo@bar.com` and `.foo@bar.com` give exactly one address |
| Extraction.SameNormalFormCollapses | app.js:167-172 | matches that all clean up to one address give exactly that address |
| Classification.MatchesTld | app.js:125-126 | some TLD is a suffix of the domain, ignoring case, and an empty list matches everything; characterised by EmptyFilterListsMatchAll, FilterMatchBlocks |
| Classification.MatchesKeyword | app.js:123-124 | some keyword occurs in the domain, ignoring case, and an empty list matches everything; characterised by KeywordMatchIgnoresCase, EmptyFilterListsMatchAll |
| Classification.ReasonsFor | app.js:211-215 | the reason list built from the flags; its properties are ReasonsOrdered, ReasonsMembership, ReasonsSentDate, ReasonsClear |
| Classification.ReasonsOrdered | app.js:211-215 | reasons appear in the fixed order Manual Block, TLD/EDU, Keyword, Sent, Allowed Exception |
| Classification.ReasonsMembership | app.js:211-215 | each reason is listed iff its condition holds (TLD/EDU and Keyword only when not allowed) |
| Classification.ReasonsSentDate | app.js:214 | the Sent reason carries the record's own send date and no other |
| Classification.ReasonsClear | app.js:196-215 | the list is empty or only Allowed Exception iff nothing disqualifies |
| Classification.Classify | app.js:183-215 | the domain is the text after the first `@`; on cooldown iff a record exists with `now < expiresAt`; valid iff the reasons are empty or only Allowed Exception |
| Classification.BlockListWins | app.js:196-211 | a block-listed domain is never valid, even when allowed, and Manual Block comes first |
| Classification.AllowListOverridesFilters | app.js:195-215 | an allowed, unblocked, never-sent address is valid whatever the filters say, with only Allowed Exception |
| Classification.FilterMatchBlocks | app.js:195-196 | a TLD or keyword match blocks an address whose domain is not allowed |
| Classification.CooldownDisqualifies | app.js:191-214 | a live cooldown disqualifies even an allowed domain and records the send date |
| Classification.ExpiredRecordIsIgnored | app.js:190-191 | an expired record classifies as if there were none |
| Classification.UnmarkedIsNotOnCooldown | app.js:190-196 | once the record is deleted only the domain decides |
| Classification.EmptyFilterListsMatchAll | app.js:122-126 | empty keyword and TLD lists match every domain |
| Classification.KeywordMatchIgnoresCase | app.js:124 | a keyword matches whatever the case of the keyword |
| Classification.EmailItem.constructor | app.js:198-209 | the record holds the address, its verdict and `isSent` as given |
| Classification.PartitionSnoc | app.js:217-222 | pushing one record extends exactly the list its validity picks |
| Classification.Partition | app.js:174-222 | valid and blocked lists split all records: lengths add up, equal as multisets, membership iff validity, order of `allEmails` kept |
| Classification.FilterDistinctEmails | app.js:217-222 | keeping some of the records of distinct addresses keeps them distinct |
| Batching.Slice | app.js:255 | `slice(i, i + size)` has `min(size, n - i)` elements |
| Batching.Chunks | app.js:252-258 | the batches of a list, front to back; the specification of CreateBatches, characterised by ChunksFlatten, ChunksShape, ChunkAt |
| Batching.ChunksFlatten | app.js:252-258 | the batches concatenate back to `validEmails` |
| Batching.ChunksShape | app.js:252-258 | every batch but the last has `size` records and the last 1 to `size`; none for an empty list; the count is `ceil(n / size)` |
| Batching.ChunkAt | app.js:254-255 | batch `k` is the slice starting at `k * size` |
| Rules.StripScheme | app.js:530 | the result is a suffix of the input |
| Rules.StripWww | app.js:534 | the result is a suffix of the input |
| Rules.AfterAt | app.js:517-519 | no `@` is left; text without `@` is unchanged |
| Rules.HostOf | app.js:530 | the fallback host holds no `/` and no `?` |
| Rules.WithScheme | app.js:523-525 | `http://` is added unless the text starts with `http`; definition |
| Rules.SmartCleanDomain | app.js:512-537 | null for empty input; otherwise a non-empty host without `/` or `?` |
| Rules.SmartCleanShape | app.js:512-537 | a returned domain is lower case and holds no `@` |
| Rules.SmartCleanBlank | app.js:512-537 | blank input gives null |
| Rules.SmartCleanPlain | app.js:512-537 | a clean bare domain comes back unchanged |
| Rules.SmartCleanWww | app.js:534 | one leading `www.` is dropped |
| Rules.SmartCleanEmail | app.js:517-518 | an address gives its domain |
| Rules.SmartCleanTwoAts | app.js:517-518 | with two `@`, only the text between them counts: `a@b.com@c.com` gives `b.com` |
| Rules.SmartCleanUrl | app.js:522-531 | an `https://` link gives its host |
| Rules.Entries | app.js:545 | every entry is non-empty and holds no separator |
| Rules.EntriesOfJoin | app.js:545 | splitting entries joined by commas gives them back |
| Rules.RawValue | app.js:542 | the clicked domain, else the input text; definition |
| Rules.AddAll | app.js:548-553 | the dedup-append of entries to a list; characterised by AddAllIsAppendOfNew, AddAllKeepsList, AddAllMembers |
| Rules.AddAllIsAppendOfNew | app.js:548-553 | the list after adding is the old list followed by the new entries, each once, in first-seen order |
| Rules.AddAllKeepsList | app.js:548-553 | the old list stays as a prefix, and a list without duplicates stays without |
| Rules.AddAllMembers | app.js:548-553 | afterwards exactly the old entries and the added ones are present |
| Rules.Cleaned | app.js:549-550 | every cleaned entry kept is non-empty |
| Rules.AddEntries | app.js:547-554 | the loop yields the dedup-append of the cleaned entries and counts exactly the pushes |
| Rules.Remove | app.js:568 | `filter(d => d !== x)`; characterised by RemoveSpec |
| Rules.RemoveSpec | app.js:568 | removal deletes every copy of the entry, keeps every other entry with its number of copies (as multisets), keeps their order (removal splits over any cut of the list), and shortens the list by the count |
| Rules.RemoveMultiset | app.js:568 | every copy of the entry goes and every other entry keeps its number of copies |
| Rules.RemoveSplits | app.js:568 | removal from a list is removal from any two halves, concatenated, so the kept order is the list order |
| Rules.RemoveCount | app.js:568 | the list shrinks by the number of copies removed |
| Rules.RemoveAbsent | app.js:568 | removing an absent entry changes nothing |
| Rules.WithKeyword | app.js:653-661 | the `addKeyword` update of the keyword list; characterised by WithKeywordSpec |
| Rules.WithKeywordSpec | app.js:653-661 | the old list stays as a prefix; the trimmed lower-cased keyword is pushed at the end exactly when it is non-blank and absent; nothing else is added; no duplicate is introduced; adding again changes nothing |
| Rules.WithTld | app.js:672-680 | the `addTLD` update of the TLD list; characterised by WithTldSpec |
| Rules.WithTldSpec | app.js:672-680 | a non-blank TLD is pushed after the old list: the lower-cased text itself when it starts with `.`, else with one `.` in front; blank input changes nothing; adding again appends again |
| Reporting.NewDomains | app.js:266-268 | `newBlocks`: the distinct domains of blocked records that matched a filter and are not block-listed; characterised by NewDomainsSpec |
| Reporting.NewDomainsSpec | app.js:266-268 | a domain is counted iff some blocked record with it matched a filter and it is not block-listed; each once |
| Reporting.StatusOf | app.js:777-778 | the label of a row (also the export of app.js:831): "New" without a date or at date 0, "Cooldown Over" after a finite expiry, else "On Cooldown"; characterised by the three Status lemmas |
| Reporting.StatusAgreesWithCooldown | app.js:777-778 | away from the expiry instant, "On Cooldown" iff classification holds the address back |
| Reporting.StatusAtExpiryInstant | app.js:777-778 | at the expiry instant the label says "On Cooldown" while classification lets the address through |
| Reporting.StatusOfEpochRecord | app.js:778 | a record sent at time 0 is labelled "New" |
| Reporting.LessIrreflexive | app.js:747 | no address sorts before itself |
| Reporting.LessTotal | app.js:747 | of two different addresses one sorts first |
| Reporting.LessTransitive | app.js:747 | the order is transitive |
| Reporting.LessAsymmetric | app.js:747 | the order is asymmetric |
| Reporting.Insert | app.js:747 | inserting into sorted rows keeps them sorted and adds exactly the new row |
| Reporting.SortedIsStrict | app.js:747 | in sorted rows every earlier address sorts before every later one |
| Reporting.SortedEmailsDistinct | app.js:747 | sorted rows have distinct addresses |
| Reporting.InsertEmails | app.js:747 | inserting a row adds exactly its address |
| Reporting.Canonical | app.js:736 | `toLowerCase().trim()` of a project match; definition |
| Reporting.MergedEntry | app.js:724-743 | the row the merge keeps for an address: the history record, else a never-sent row; used by RowsMerged and CompileDatabase |
| Reporting.NeverSentRow | app.js:737-743 | a never-sent row for an address outside the history keeps every row as the merge defines it |
| Reporting.AddProjectAddresses | app.js:735-744 | one project's addresses are added and every row is the one the merge keeps |
| Reporting.HistoryRows | app.js:724-730 | one row per history record, carrying its dates |
| Reporting.MergeProjects | app.js:724-745 | the map holds exactly the history and project addresses, each with the history record if there is one, else a never-sent row |
| Reporting.CompileDatabase | app.js:719-747 | the database lists every history or project address exactly once, sorted, each row as the merge defines it |
| Reporting.SortByEmail | app.js:747 | the rows of the map in strictly increasing address order, one per key |
| Reporting.TotalPages | app.js:763 | at least one page; for a non-empty list, the least count of 25-row pages that holds it |
| Reporting.ClampPage | app.js:763-765 | the page is clamped into `1..totalPages`, unchanged when already inside |
| Reporting.PageData | app.js:767-769 | the 25-row slice of a page; characterised by PageIsChunk and EmptyListOnePage |
| Reporting.PageIsChunk | app.js:763-769 | the clamped page of a non-empty list is its matching 25-row chunk and is not empty |
| Reporting.EmptyListOnePage | app.js:763-769 | an empty list has the single page 1, showing nothing |
| Engine.FloorStep | app.js:473 | two successive decrements floored at 0 equal one decrement by their sum |
| Engine.EffectiveBatchSize | app.js:151 | the batch size read with `parseInt`, falling back to 25 when it is zero or unparsable; definition |
| Engine.BatchCompleted | app.js:292 | `batch.every(item => item.isSent)`; established by MarkBatchAsSent |
| Engine.Pending | app.js:443 | the batch records not yet sent; the set MarkBatchAsSent stores and counts |
| Engine.SentItemIsSkipped | app.js:441-447 | a record already flagged as sent, such as one whose history record has expired but still exists (app.js:206), is not pending, so its address is neither stored again nor counted |
| Engine.BatchesHaveDistinctEmails | app.js:252-258 | the batches built from records for distinct addresses hold no address twice |
| Engine.NewRecord | app.js:198-209 | a fresh record with the address, its classification and `isSent` iff the store has it |
| Engine.Push | app.js:217-222 | the record is appended to `allEmails` and to the list its validity picks, keeping the partition |
| Engine.ClassifyAll | app.js:182-223 | one fresh record per unique address, in order, classified against the rules and store, and the two lists are the partition of all records |
| Engine.SendAll | app.js:442-448 | every batch member is sent afterwards; the store gets the send record for the address of each previously unsent member and nothing else changes in it; `sentCount` grows by the number of those members |
| Engine.AppState.constructor | app.js:8-22 | empty runtime lists; rule lists from storage, keyword and TLD lists otherwise from `DEFAULTS` |
| Engine.AppState.ProcessEmails | app.js:148-250 | blank input changes nothing; otherwise one fresh classified record per unique address, the partition, a project on first use, the batches of the effective size, and no address twice across the batches |
| Engine.AppState.LoadAddresses | app.js:174-238 | the non-blank branch: classified records, the partition, a project on first use with `totalValid` set, the batches rebuilt, for distinct addresses no address twice across them |
| Engine.AppState.CreateBatches | app.js:252-258 | the batches are the chunks of `validEmails`, they concatenate back to it, and the first batch is selected |
| Engine.AppState.MarkBatchAsSent | app.js:435-448 | every member of the current batch is sent afterwards; only the previously unsent ones are stored and counted; a missing or empty batch changes nothing |
| Engine.AppState.MarkAsUnsent | app.js:463-482 | the store record is deleted; every record for the address in the batches and in `allEmails` is unsent and no other changes; `sentCount` drops by one per batch position, floored at 0 |
| Engine.AppState.UnmarkBatches | app.js:469-476 | every batch record for the address is unsent and no other changes; `sentCount` drops by the number of positions, floored at 0 |
| Engine.AppState.UnmarkBatch | app.js:470-475 | the same for one batch |
| Engine.AppState.ClearSent | app.js:478-482 | every record of the list for the address is unsent, the others unchanged |
| Engine.AppState.AddToBlockList | app.js:540-563 | the block list becomes the dedup-append of the cleaned entries; `addedCount` is the growth |
| Engine.AppState.RemoveFromBlockList | app.js:567-572 | the block list loses every copy of the domain |
| Engine.AppState.AddToAllowList | app.js:575-597 | the allow list becomes the dedup-append of the cleaned entries; `addedCount` is the growth |
| Engine.AppState.RemoveFromAllowList | app.js:599-604 | the allow list loses every copy of the domain |
| Engine.AppState.AddKeyword | app.js:653-661 | the keyword list gains the cleaned keyword unless blank or present |
| Engine.AppState.RemoveKeyword | app.js:662-666 | the keyword list loses every copy |
| Engine.AppState.AddKeywordFromLibrary | app.js:667-671 | the keyword is appended as is |
| Engine.AppState.AddTld | app.js:672-680 | the TLD list gains the dotted, lower-cased TLD unless blank |
| Engine.AppState.RemoveTld | app.js:681-685 | the TLD list loses every copy |
| Engine.AppState.AddTldFromLibrary | app.js:686-690 | the TLD is appended as is |
| Engine.AppState.ResetToDefaults | app.js:692-700 | the keyword and TLD lists are the defaults again |

## Left out

- DOM rendering, event wiring, button and spinner text, `setTimeout`, `switchTab`, `renderResults`, `renderProjectHistory`, `updateDomainFiltersUI`, `updateSettingsUI` and `updateStats`' text output. These are user interface; only the `newBlocks` value of `updateStats` is modelled.
- IndexedDB and `localStorage`: `initDB`, the transactions of `saveSentEmail`, `getAllSentEmails`, `saveProject`, `deleteSentEmail`, `getAllProjects` and every `localStorage.setItem`. The store is the `sentEmails` map, the stored lists are constructor parameters, and the project list is the parameter `projectMatches` of the database merge.
- `clearAllData`, `copyCurrentBatch` (clipboard) and `exportDatabase` (Blob download): browser I/O. The status label the CSV export writes (app.js:831) is `Reporting.StatusOf`.
- `filterDatabaseView` and `changeDatabasePage`: UI handlers. Their clamping is `Reporting.ClampPage`.
- `loadProject` and the project cards: UI. This includes the project id and name generated from the clock and the `Math.round` percentage.
- The JavaScript regex engine for address extraction. The match list of `CONFIG.emailRegex` is an input to `UniqueAddresses` and to the database merge.
- Regex metacharacters in keywords and TLDs. The model tests substring and suffix. `rebuildRegex` escapes only the first `.` of each TLD (app.js:125), so in the source a later `.` matches any character (`.ac.in` also matches `x.acxin`). The model treats it as a literal dot.
- The WHATWG `URL` constructor in `smartCleanDomain` (app.js:526). The model follows the string fallback of app.js:530 for every input. Inputs where `URL` gives a different hostname are not modelled; examples are a port, credentials, percent-encoding or IDNA.
- `toLowerCase` on characters outside ASCII, and the locale collation of `localeCompare`. Lower-casing is ASCII-only, and the sort compares Unicode code points. That differs from the UTF-16 code-unit order of JavaScript strings only between characters above U+FFFF and those in U+E000 to U+FFFF.
- Date formatting (`toLocaleDateString`, `toLocaleTimeString`). The Sent reason carries `lastSent` as a number.
- `alert` and `confirm`. `ResetToDefaults` models the confirmed branch, and `processEmails`' alert on blank input is the no-op branch. `MarkAsUnsent` likewise models the confirmed branch of app.js:464.
- `await` sequencing and re-entrancy, for example `processEmails(true)` triggered by the list editors. Each operation is atomic, and one `now` stands for every `Date.now()` of an operation.
- Engine.AppState.ProcessEmails requires that the parsed batch size is not negative. With a negative size the loop of app.js:254 never ends as soon as some address is valid, and a non-terminating run cannot be modelled. The requires also excludes the negative-size runs that do end: those where no address is valid, which leave `batches` empty.
- The reruns of `processEmails` after a list edit (app.js:559, 571, 593, 603) and the `rebuildRegex` calls. The editors only change the lists; the next `ProcessEmails` reads them.
- Cooldown.ParseDuration: JavaScript numbers are IEEE doubles and Dafny's `int` is unbounded. In the source, `parseInt(match[1]) * msMap[unit]` (app.js:111-119) rounds once the product passes 2^53, and a count of more than about 309 digits parses to `Infinity`. Such a token then holds the address forever and labels it "On Cooldown". The model gives the exact finite product, and `Forever` only for `never`.
- Cooldown.ExpiryFor: for the same reason, `now + parseDuration(token)` (app.js:60) is exact in the model. The source rounds it, and it is `Infinity` for a count that parses to `Infinity`.
