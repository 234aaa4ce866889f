# memini, modelled and proved in Dafny

memini is a memory store for agents: it keeps short texts with embeddings, lets
newer memories supersede older ones, ages and deduplicates them, and answers
recall. This project models the parts of it with the most state and arithmetic
and proves what they promise, for every input, every run or every reachable
state. `dafny verify dfyconfig.toml` checks all of it.

| file | models |
|---|---|
| `chunk.dfy` | the overlapping text splitter: two cursors, a floor, a cap |
| `json_text.dfy`, `json_recovery.dfy` | recovering a JSON object (RFC 8259, sections 2 to 7) from a model's reply |
| `mcnemar.dfy` | the exact two-sided McNemar test over exact reals |
| `store.dfy` | the storage contract as a class over a table in memory, with failing calls, deletions by others and concurrent expiry slides |
| `supersession.dfy`, `repair.dfy` | the supersession graph, reaching a live head, accounting for lost ones, repair of broken and cyclic chains |
| `unionfind.dfy`, `ranking.dfy`, `collapse.dfy`, `clustering.dfy`, `dedup_job.dfy` | similarity clustering, one survivor per cluster, the periodic pass |
| `tombstones.dfy`, `sweeper.dfy`, `confidence.dfy` | collection by age, expiry racing with recall, the short-term cap, corroboration and demotion |
| `store_runs.dfy` | whole runs of the store: writes, deletions, sweeps and passes in any order |
| `namespaces.dfy`, `renamespace.dfy`, `importer.dfy`, `import_lifetimes.dfy`, `merge_split.dfy` | canonical namespaces, move and split, bulk import, how long imports last, and the merge-then-split round trip |
| `batching.dfy`, `lru.dfy`, `caching.dfy`, `disk_caching.dfy`, `embedded_once.dfy` | the embedding stack: greedy requests, LRU cache, document prefix, disk cache under interleaving, and how often a text is sent |
| `api_auth.dfy` | bearer-token authentication and the cached reading of whether any key exists |
| `common.dfy`, `text.dfy` | shared types; trimming, prefixes, containment, UTF-8 (RFC 3629, section 3) |

The source changes state in place and so does the model: the store, the
union-find, the caches and the key-table cache are classes; loops are loops.
Each method is proved against a specification function or predicate, and what
the source promises is proved of those as lemmas, down to the fields of the
rows, keys and records that went in and came out. Calls of the store are
numbered. Before each one others may delete any rows, so every branch for a row
that is gone meanwhile is live, and any call may fail: a pass reports failure
only if one of its own calls failed. What a pass leaves is stated exactly in
terms of what others deleted between which of its calls.

## What turned out not to hold

The code is modelled as it is. Where it does less than its comments say, the
exact condition is proved, or a concrete run that shows it.

- A fact no longer than the overlap is not always whole in some window of the
  walk: it is exactly when it does not straddle the cut of a window that is
  itself no longer than the overlap (`Chunk.FactInWindow`). If it does not, and
  its ends are not white space, a returned chunk contains it
  (`Chunk.FactSurvives`); if it does, none may (`Chunk.ShortWindowLosesFact`).
- After an error-free pass a tombstone can still lack a live head, because the
  job takes no lock: it does exactly when its chain runs out at a row that was
  deleted after the repair listed its namespace (`StoreRuns.EveryPassHeals`,
  with such a run in `StoreRuns.DeletionDuringPassStrands`).
- Collecting tombstones by age can take the head from under a surviving row.
  It cannot, at any cutoff, exactly when tombstone times never decrease along
  a chain (`Tombstones.CollectionIsSafe`). A supersession keeps that order
  exactly when the row will be dated no earlier than the tombstones that point
  at it, and no later than its new head if that is a tombstone itself
  (`Tombstones.EventKeepsOrder`, `Tombstones.SupersedingIsSafe`). So it is
  certain as long as each memory is superseded while its `valid_to` is open and
  by one that is not itself superseded (`Tombstones.HistoriesCollectSafely`).
  It fails for a contradicted memory and for one written with a `valid_to`,
  because superseding keeps the date it finds (`Tombstones.ContradictionStrands`,
  `Tombstones.ExplicitEndStrands`), and for one superseded by an older tombstone,
  because the head is not looked at (`Tombstones.SupersededHeadStrands`).
- A supersession by a row that leads back to the one superseded costs that row
  its head with nothing deleted, until the next repair; every other head lost is
  accounted for by a row that is missing (`StoreRuns.LoopsAreExcepted`,
  `StoreRuns.LostHeadsAreAccounted`).
- The survivor of a similarity cluster is its only live member at the end of a
  tick, unless it is deleted before the repair lists the namespace: then every
  other member still there is live again (`DedupJob.OneSurvivorAtEnd`).
- `NormalizeNamespace` is idempotent exactly on the texts whose ends hold no
  white space once white space and then slashes are stripped off
  (`Namespaces.NormalizeIsIdempotent`, `Namespaces.NormalizeExposesSpace`).
- A merge is undone by a split record by record, exactly when the record's
  source namespace could be addressed as it stood (`MergeSplit.MergeThenSplit`;
  "a//b" could not, `MergeSplit.DoubledSlashIsNotRestored`); records already in the
  pool or without a namespace go wherever their own metadata points, and records
  without ids and of equal content collide (`MergeSplit.EqualContentsCollide`).
- A text is embedded more than once exactly when one call repeats it, or two
  calls send it and the later one looked it up in vain: before the earlier one
  asked, or while its answer was on its way, or although it had asked because
  it failed, or after the text was evicted or lost with the process
  (`EmbeddedOnce.SentMoreThanOnce`). Callers that come one at a time, repeat
  nothing, fail in nothing and lose no entry have each text sent at most once
  (`EmbeddedOnce.SentOnce`). The LRU keeps a key exactly while fewer
  other keys than it has room for were used since (`RecentUse.KeptWhileFewUsed`).
- Untyped imports age out after 30 days, the episodic time to live; the comment
  at internal/importer/importer.go:331 says 90 (`ImportLifetimes.UntypedImportsAgeOut`).
- The key-table reading can be staler than its TTL by the store's latency,
  because it is dated when it is recorded and not when the store looked; the
  documented window holds of every run exactly when that latency is zero
  (`ApiAuth.DocumentedWindowNeedsInstantStore`).

## Model

| member | source | states |
|---|---|---|
| Chunk.HasAt | internal/chunk/chunk.go:163-173 | true exactly when the separator occurs at that position, false and not a failure when it would run off either end |
| Chunk.Boundary | internal/chunk/chunk.go:148-160 | the latest eligible cut of the strongest separator that has one, or the end of the window when none has; always past both the window's start and the previous cut |
| Chunk.BoundaryIsUnique | internal/chunk/chunk.go:141-160 | that description fits only one cut |
| Chunk.BoundaryPreference | internal/chunk/chunk.go:72-75 | a cut is made after a paragraph if one can be, else after a line, else at the end of a sentence, else of a clause, and through a word only where no space could be cut after |
| Chunk.Split | internal/chunk/chunk.go:79-126 | terminates; a text longer than MinContent, and not empty, under a positive Size is walked: each window is begun below the cap, the chunks are the trimmed windows of the one walk the text and configuration determine, and unless the cap stopped it every non-space rune, and every fact no longer than the configured overlap that straddles no short cut, is whole in a chunk; stopped by the cap there are exactly MaxChunks chunks; any other text has none |
| Chunk.WalkIsUnique | internal/chunk/chunk.go:98-125 | two walks over one text agree wherever both are defined |
| Chunk.ResultIsUnique | internal/chunk/chunk.go:98-126 | that contract fits only one result: the chunks and whether the split was cut short are determined by the text and the configuration |
| Chunk.BothCursorsAdvance | internal/chunk/chunk.go:111-124 | starts and cuts both strictly increase, so no window contains another, and none leaves a gap |
| Chunk.FactInWindow | internal/chunk/chunk.go:115-124 | a span no longer than the overlap lies whole in a window if and only if it does not straddle the cut of a window no longer than the overlap |
| Chunk.FactSurvives | internal/chunk/chunk.go:19-20 | such a span that begins and ends on a non-space rune, anywhere the walk covered, is contained in one of the returned chunks |
| Chunk.NothingIsDropped | internal/chunk/chunk.go:98-126 | every non-space rune the walk covered, all of the text unless it was cut short, is in some chunk |
| Chunk.ChunksFit | internal/chunk/chunk.go:77-114 | every chunk is a non-empty piece of the text of at most Size runes with no white space at its ends |
| Chunk.ShortWindowLosesFact | internal/chunk/chunk.go:116-121 | a text and configuration whose split keeps a fact as long as the overlap in no chunk |
| JsonRecovery.ExtractJSON | internal/llm/llm.go:353-385 | the first balanced object: it starts at the first opening brace and ends where a string- and escape-aware scan first closes; empty exactly when there is none |
| JsonRecovery.FirstObjectIsUnique | internal/llm/llm.go:349-352 | a text has at most one such object, so the contract fixes the result |
| JsonRecovery.ExtractIsIdempotent | internal/llm/llm.go:353-385 | extracting from what was extracted changes nothing |
| JsonRecovery.FenceAround | internal/llm/llm.go:341-347 | fence trimming removes only text before an opening brace and after a closing one |
| JsonRecovery.FencedObjectUnwraps | internal/llm/llm.go:339-347 | an object in a code fence, with or without a language and with any white space in and around it, is unwrapped exactly |
| JsonRecovery.RunsValue | internal/llm/llm.go:359-383 | scanning any printed JSON value inside an object, with any layout and any escaping, leaves the scanner where it was and never closes the object |
| JsonRecovery.ObjectCloses | internal/llm/llm.go:377-382 | the scan of a printed object closes on its last brace and not before |
| JsonRecovery.RecoversPrinted | internal/llm/llm.go:341-385 | a printed object is recovered exactly, from any fences and any prose with no opening brace before it |
| JsonRecovery.UnmarshalLoose | internal/llm/llm.go:390-402 | the direct decoding of the trimmed text wins, else the decoding of its first object, else failure |
| JsonRecovery.LooseDecodingIsExact | internal/llm/llm.go:387-402 | for a decoder that reads one object, a reply holding a printed object decodes to that object by whichever attempt succeeds |
| McNemar.ChooseStep | bench/stats.go:39-42 | one multiply-then-divide step goes from one binomial coefficient to the next with no remainder |
| McNemar.ChooseSymmetric | bench/stats.go:36-38 | swapping k for n-k keeps the coefficient |
| McNemar.BinomCoeff | bench/stats.go:32-44 | exactly the entry of Pascal's triangle, and zero outside the row |
| McNemar.McNemarExact | bench/stats.go:14-28 | the probability, by definition, that b+c fair coins split at least as unevenly as b against c |
| McNemar.DoubledTail | bench/stats.go:20-25 | doubling the lower tail counts the lopsided outcomes, except that an even split counts its middle one twice |
| McNemar.ClampBites | bench/stats.go:26-27 | the doubled tail exceeds certainty exactly on an even split |
| McNemar.PValueIsProbability | bench/stats.go:5-13 | the value is positive, at most one, and symmetric in the two arms |
| McNemar.MoreLopsidedIsMoreSignificant | bench/stats.go:8-10 | with as many discordant pairs, a more uneven split has a strictly smaller value |
| Supersession.ReachesLive | internal/maintenance/repair.go:77-91 | terminates on any graph, with cycles and missing targets, and is true exactly when a finite chain ends at a live row |
| Supersession.RepairHeals | internal/maintenance/repair.go:19-24 | reviving the stranded rows gives every row a live head; doing it twice is doing it once; it changes nothing exactly when nothing was stranded |
| Supersession.CollapseKeepsReach | internal/maintenance/dedup.go:277-285 | superseding live rows by rows that stay live strands no row and rescues none |
| Supersession.CollapseClosesNoCycle | internal/maintenance/dedup.go:277-285 | and closes no cycle |
| Supersession.LostHead | internal/maintenance/repair.go:77-91 | a row whose chain comes to a live row or to a missing one of a given set lacks a live head exactly when the chain runs out at a row of that set |
| Supersession.DeletionAccounts | internal/store/store.go:172-173 | deleting any rows of any graph takes heads only from chains that then run out at a deleted row |
| Supersession.PurgeIsSafe | internal/maintenance/tombstone.go:30-50 | deleting tombstones by age keeps every surviving row's live head, at every cutoff, if and only if times never decrease along the chains |
| MemoryStore.Store.Get | internal/store/store.go:137-138 | after the deletions of others that come first: the row under that id and namespace, not found exactly when there is none, or failure |
| MemoryStore.Store.List | internal/store/store.go:206-210 | exactly the matching rows of the namespace that others have not deleted by then, each once |
| MemoryStore.Store.ListNamespaces | internal/store/store.go:212-213 | exactly the namespaces that hold a row by then, each once |
| MemoryStore.Store.SetSuperseded | internal/store/sqlitevec/store.go:782-796 | one row changes, if it is still there: it points at its head, and keeps an earlier end of validity if it had one |
| MemoryStore.Store.Restore | internal/store/sqlitevec/store.go:799-810 | one row changes, if it is still there: it is live again with its validity reopened |
| MemoryStore.Store.Delete | internal/store/store.go:172-173 | one row goes, and the deletion is recorded as made, or not found and nothing changes |
| MemoryStore.Store.ListExpired | internal/store/store.go:202-204 | expired rows up to the limit, all of them when fewer, after the slides and deletions that come first |
| MemoryStore.Store.DeleteIfExpiredBefore | internal/store/store.go:196-200 | removes the row, and records it as it was, only if it is still expired after the slides and deletions that came first |
| MemoryStore.Store.Retier | internal/store/store.go:225-228 | one row changes its tier and expiry, if it is still there |
| MemoryStore.Store.Upsert | internal/store/store.go:130-135 | inserts or replaces one row, a row that is replaced keeping its creation time; an id of another namespace is refused |
| MemoryStore.Store.Reassign | internal/store/store.go:219-223 | moves exactly the given rows that are in the source namespace and counts exactly those, whatever is absent or given twice, all or nothing; given no ids, or the same namespace twice, it makes no call |
| Repair.RepairNamespace | internal/maintenance/repair.go:50-73 | sets out to restore exactly the rows that had no path to a live row when they were listed, and counts them; a dry run only counts; it stops short only if one of its calls failed; rows deleted meanwhile stay deleted |
| Repair.RepairSupersession | internal/maintenance/repair.go:25-48 | over the namespaces given, or all that hold rows, in order: each is repaired from the table the one before it left, none is skipped unless one of its own calls failed, and the report is the sum of those that went through |
| Repair.RevivesKeepsHeads | internal/maintenance/repair.go:60-70 | restoring any rows takes no row's live head away |
| Repair.MendAccounts | internal/maintenance/repair.go:60-70 | a repair, whatever becomes of it, loses heads only to rows that others delete meanwhile, in every namespace |
| Repair.MendHeals | internal/maintenance/repair.go:19-24 | a repair that went through leaves every row of its namespace with a live head, whatever the graph was, but for chains that run out at a row deleted after it listed the namespace |
| Repair.MendsHeal | internal/maintenance/repair.go:37-47 | the same still holds at the end of the whole call, for deletions from that listing on |
| Repair.MendsGoThrough | internal/maintenance/repair.go:37-47 | every namespace goes through unless a call fails |
| Repair.RestoredIsRecalled | internal/store/sqlitevec/store.go:799-810 | after a repair that went through, a row it brought back and that is still there is superseded by nothing and its validity has no end, so recall shows it at every time before its expiry, and its other fields are as they were listed |
| Repair.QuietRepair | internal/maintenance/repair.go:25-48 | with no failures and no deletions a call restores exactly the stranded rows of its namespaces, counts each once however often its namespace is given, and counts the namespaces that had any; a dry run reports the same |
| Repair.RepairedScopeIsHealed | internal/maintenance/repair.go:19-24 | with the stranded rows of a scope restored, every row in it has a live head, rows that had one are untouched, and a second repair finds nothing |
| UnionFinding.UnionFind.constructor | internal/maintenance/dedup.go:363-369 | the labelling of a forest in which each id is alone |
| UnionFinding.UnionFind.Find | internal/maintenance/dedup.go:371-376 | terminates on every forest that union can build, returns the representative, compresses the path and changes no representative |
| UnionFinding.UnionFind.Union | internal/maintenance/dedup.go:378-383 | merges the classes of two ids and no others |
| UnionFinding.MergeRepresents | internal/maintenance/dedup.go:378-383 | merging two classes is connectivity after adding that pair |
| Ranking.SortOrders | internal/maintenance/dedup.go:257-259 | the stable sort by any strict weak order is ordered and a permutation |
| Ranking.SortPutsLeastFirst | internal/maintenance/dedup.go:256-261 | its head is the first of the best in the original order |
| Ranking.BetterIsWeakOrder | internal/maintenance/dedup.go:339-348 | betterRepresentative is a strict weak order |
| Ranking.UnbeatenIsBest | internal/maintenance/dedup.go:339-348 | a member that none beats has the highest score, on equal scores the latest update, and on equal updates the latest creation |
| ClusterCollapse.SupersedeRest | internal/maintenance/dedup.go:277-285 | the rest of a cluster points at its head, and the count is of the members that were still there; a failing call leaves a smaller cluster collapsed into the same head |
| ClusterCollapse.CollapsedGraph | internal/maintenance/dedup.go:277-285 | on every namespace's graph a whole pass points live rows at rows that stay live |
| Clustering.RestIsBelow | internal/maintenance/dedup.go:233-235 | stopping at the first candidate below the threshold loses no pair of a best-first list |
| Clustering.JoinCandidates | internal/maintenance/dedup.go:229-243 | adds exactly the anchor's pairs at or above the threshold within the snapshot |
| Clustering.JoinAll | internal/maintenance/dedup.go:213-244 | two ids share a root exactly when chains of candidate pairs at or above the threshold connect them; it stops only if a search fails |
| Clustering.Components | internal/maintenance/dedup.go:246-250 | groups the memories by representative, in listing order |
| Clustering.CollapseCluster | internal/maintenance/dedup.go:252-286 | one cluster: the member kept has the highest score, then the latest update, then the latest creation; the others are superseded by it, and those counted are the ones that were still there |
| Clustering.CollapseClusters | internal/maintenance/dedup.go:252-287 | every large enough cluster is resolved whatever the order they come in, small ones are left alone, and the counts leave out only members that others deleted; it stops short only if one of its calls failed |
| Clustering.SettledIsDeduped | internal/maintenance/dedup.go:246-286 | resolved groups are resolved similarity components |
| Clustering.DedupNamespace | internal/maintenance/dedup.go:179-288 | collapses every similarity component of at least MinClusterSize, as the namespace was listed, into a member none beats, and changes nothing else, whatever is deleted meanwhile; a dry run changes nothing and reports the same; it fails only if one of its calls did |
| Clustering.OneSurvivor | internal/maintenance/dedup.go:252-286 | after a pass no such component has more than one live member: one that has the highest score, then the latest update, then the latest creation is as it was, and at it point all the others, save those deleted meanwhile |
| Clustering.NearTogether | internal/maintenance/dedup.go:229-243 | two live, unexpired memories of the chosen tiers, one of which the search finds around the other at the threshold or above, are in one component |
| Clustering.LonerAlone | internal/maintenance/dedup.go:229-243 | one that no search finds around another, or another around it, is in a component of its own |
| DedupJob.OutcomeOnlyTombstones | internal/maintenance/dedup.go:277-285 | a namespace's pass deletes no row, changes only the supersession of live rows, gives no row a live head and takes one only as others delete rows, and closes no cycle |
| Clustering.ReportIsDetermined | internal/maintenance/dedup.go:45-46 | a dry run reports exactly what a run does that no deletion disturbs, and ties between members change no count |
| DedupJob.Dedup | internal/maintenance/dedup.go:98-165 | the given namespaces, or all that hold rows, have their turn in order, each from the table and the call the one before it left off at; a turn fails only if one of its calls did; each figure of the report is the sum of that figure over the turns that went through; a negative similarity does nothing |
| DedupJob.TurnsOnlyTombstone | internal/maintenance/dedup.go:135-155 | whatever turns fail, the whole call deletes no row, gives no live head and takes one only as others delete rows, closes no cycle, and on a dry run changes nothing |
| DedupJob.RepairCompletesPass | internal/maintenance/dedup.go:442-449 | after a pass no call of which failed, a row of a covered namespace lacks a live head if and only if its chain runs out at a row deleted after the repair listed that namespace |
| DedupJob.OneSurvivorAtEnd | internal/maintenance/dedup.go:430-450 | the exact state, at the end of a tick, of each memory that the last turn of its namespace listed: in too small a component it stays as it was; else one member with the highest score, then the latest update, then the latest creation stays as it was, and each other still there points at it, or is live again if that one was deleted before the last repair listed the namespace |
| DedupJob.TwinsAtEnd | internal/maintenance/dedup.go:100-116 | with pairs merged, two memories that the search finds alike, at 0.85 or the threshold given, are not both live at the end of a tick, unless others deleted the one both were merged into before the repair |
| DedupJob.LonerAtEnd | internal/maintenance/dedup.go:229-243 | a memory that the search finds nothing alike to is at the end of the tick as it was, unless others deleted it |
| DedupJob.PassTakesEach | internal/maintenance/dedup.go:430-450 | a tick no call of which fails gives every namespace it covers that still holds rows the turn and the repair this speaks of, both of which go through |
| DedupJob.Pass | internal/maintenance/dedup.go:430-450 | one tick is a dedup, then, unless that failed, a repair of all the namespaces the job covers, from the table the dedup left; it falls short of that only if one of its own calls failed |
| DedupJob.PassAccounts | internal/maintenance/dedup.go:430-450 | a tick, whatever fails in it, deletes no row itself and loses heads only to rows that others delete meanwhile |
| DedupJob.PassMends | internal/maintenance/dedup.go:442-449 | a namespace whose repair went through is healed at the end of the tick, but for what others deleted since, whatever else of the tick failed |
| DedupJob.PassRestores | internal/maintenance/dedup.go:442-449 | and that is how such a row stands at the end of the tick too |
| StoreRuns.EveryPassHeals | internal/maintenance/dedup.go:413-450 | in every run from the empty store, right after each pass no call of which failed, a memory of a covered namespace lacks a live head if and only if its chain runs out at a row others deleted after the repair listed that namespace; with no such deletion every one has a head |
| StoreRuns.DeletionDuringPassStrands | internal/maintenance/repair.go:37-47 | a run from the empty store with an error-free pass over two namespaces that leaves a memory of the first without a head, because the one that superseded it is deleted just before the second is listed |
| StoreRuns.RunsStayHealed | internal/maintenance/dedup.go:413-450 | at every moment of every run of writes, supersessions by any row, restores, contradictions, deletions, purges, evictions, collections and passes, every chain comes to a live row or runs out at a gap that came since the last repair of its namespace listed it: a row deleted, or one that was missing when a memory was superseded |
| StoreRuns.LostHeadsAreAccounted | internal/maintenance/maintenance.go:193-217 | so at any moment a memory lacks a live head if and only if its chain runs out at such a gap |
| StoreRuns.NoHeadIsLostOtherwise | internal/maintenance/maintenance.go:193-217 | a row that had a live head at one moment lacks one at a later moment if and only if its chain then runs out at a gap that came in between, whatever ran and failed meanwhile |
| StoreRuns.LoopsAreExcepted | internal/service/service.go:3771-3789 | while a namespace is accounted for, the supersessions these runs leave out are exactly those by a row whose chain leads back to the one superseded, and after one of them no set of missing rows accounts for that row |
| Tombstones.PurgeTombstones | internal/maintenance/tombstone.go:16-54 | deletes only superseded memories whose validity ended before the cutoff or, where it has no end, that were last updated before it, and counts what it deleted; without a failing call none such is left, whatever others delete meanwhile |
| Tombstones.CollectionIsSafe | internal/maintenance/tombstone.go:11-15 | it strands no survivor, at any cutoff, if and only if tombstone times never decrease along chains to a live row |
| Tombstones.SupersedingIsSafe | internal/store/sqlitevec/store.go:782-796 | superseding any row of a safe table by any head leaves it safe if and only if the row then has no live head, or its date is no earlier than that of any tombstone that points at it and no later than its head's if that is a tombstone, and it had a live head before or the chains that come to it ran forward already |
| Tombstones.EventKeepsOrder | internal/store/sqlitevec/store.go:782-796 | an ordered table stays ordered under a supersession, by any head, if and only if the row's date lies between those of its neighbours, under a write of a tombstone on the same terms, and under every other event |
| Tombstones.HistoryStaysInOrder | internal/store/sqlitevec/store.go:782-796 | along any history of writes, supersessions, restores, removals and contradictions no tombstone is dated later than the one it points at if and only if each supersession and each write in it kept that |
| Tombstones.HistoriesCollectSafely | internal/maintenance/tombstone.go:34-40 | collection is safe at every moment of every history in which each memory is superseded while its end of validity is open and by one that is not itself superseded, whatever ends memories are written with and whatever is contradicted, restored or removed |
| Tombstones.SupersededHeadStrands | internal/service/service.go:3771-3789 | with every end of validity open, a memory superseded by an older tombstone makes it fail |
| Tombstones.ContradictionStrands | internal/store/sqlitevec/store.go:1122-1133 | with a contradicted memory in the history it can fail |
| Tombstones.ExplicitEndStrands | internal/service/service.go:1928-1930 | without any contradiction two dedup passes over a memory written with a valid_to make it fail |
| Sweeper.PurgeBatch | internal/maintenance/maintenance.go:32-42 | after a batch none of it is expired, whatever slid and whatever others deleted meanwhile; each removal was of a row expired as the deletion found it, and the count is of those |
| Sweeper.PurgeExpired | internal/maintenance/maintenance.go:25-47 | terminates; every row it removes had slid no further than now when its deletion saw it, and is recorded as it was then; what is left has slid as recalls slid it and is otherwise unchanged; without a failing call nothing expired is left; counts what it removed |
| Sweeper.SlidPastSurvives | internal/store/store.go:196-200 | a memory that a recall slid past now before its turn is there at the end, unless others deleted it |
| Sweeper.FreshIsLeft | internal/maintenance/maintenance.go:25-47 | a memory that was not expired goes only if others delete it |
| Sweeper.CapNamespace | internal/maintenance/maintenance.go:62-80 | evicts exactly the excess of the namespace as it was listed, none of it outranking one that stays, and counts what was still there |
| Sweeper.EnforceShortTermCap | internal/maintenance/maintenance.go:52-83 | the same in every namespace; what it takes is live, unexpired working and episodic memories and no other, and after an error-free run no namespace holds more than the cap of them; stopped by a failing call it has evicted only what a whole run may; a cap of zero or less does nothing |
| Sweeper.OnlyPassingAreTaken | internal/maintenance/maintenance.go:20-21 | no durable, expired or superseded memory is evicted, even by a run that is stopped half way |
| Sweeper.CapIsKept | internal/maintenance/maintenance.go:49-51 | at the end of the whole run at most the cap of working and episodic memories of each namespace is there, whatever others delete meanwhile |
| Confidence.CorroborationClosesGap | internal/memory/types.go:357-360 | n corroborations take c to exactly 1 - (9/10)^n (1 - c), never reaching or passing one |
| Confidence.DecayIsMonotone | internal/memory/types.go:362-369 | from 0.05 up, decay only lowers, only deepens with time, spares the first week, and stops at 0.05 |
| Confidence.BelowFloor | internal/memory/types.go:345-355 | a memory is below the demotion floor exactly when it is durable, tracked, and never reached the floor or has been idle longer than its confidence buys |
| Confidence.CorroborationProtects | internal/memory/types.go:357-369 | each corroboration below one lengthens that protection by two weeks times the remaining gap, and no amount reaches 14 weeks |
| Confidence.DemoteStale | internal/maintenance/demote.go:44-94 | each row is as it was, or was debris and went to the episodic tier for thirty days from now with nothing else changed; it misses, and leaves out of its count, only what others delete first; without a failing call no debris is left |
| Confidence.DemotableIsDebris | internal/maintenance/demote.go:54-80 | debris is exactly a live, unexpired semantic or procedural memory never recalled, of importance below 0.75, neither pinned nor a handoff, last updated before the cut-off, whose tracked confidence c is below 0.35 or that was neither updated nor accessed for more than 1 + 20 (c - 0.35) weeks |
| Confidence.DemotionWaits | internal/maintenance/demote.go:75-77 | a fact with confidence at or above 0.35 is demoted only after it has been idle for more than 1 + 20 (c - 0.35) weeks, and no row is demoted twice |
| Namespaces.NormalizeNamespace | internal/httputil/httputil.go:29-36 | the join of the non-empty segments of the text with white space trimmed off its ends |
| Namespaces.SegmentsOfJoin | internal/httputil/httputil.go:25-28 | splitting a join of segments gives the segments back |
| Namespaces.NormalizeIsIdempotent | internal/httputil/httputil.go:29-36 | normalizing again changes nothing exactly when the text, with white space and then slashes stripped off its ends, has no white space there |
| Namespaces.NormalizeExposesSpace | internal/httputil/httputil.go:30-31 | an input for which it does change something |
| Namespaces.PlainIsCanonical | internal/httputil/httputil.go:25-51 | the valid namespaces that are their own canonical form are exactly those of 1 to 256 bytes of UTF-8 with no NUL, no white space or slash at either end and no doubled slash |
| Renamespace.GroupByTarget | internal/maintenance/renamespace.go:119-132 | each listed row is in the group of the canonical, addressable namespace its first key names, or counted as skipped |
| Renamespace.SentWhereNamed | internal/maintenance/renamespace.go:119-167 | a row is sent to a target exactly when that is the canonical form of what the first of the keys to hold a string that is not blank names, has 1 to 256 bytes, no NUL and no star, and is not where the row is |
| Renamespace.MoveGroups | internal/maintenance/renamespace.go:134-149 | after each group the table and the report are those of a split into the targets done so far, in any order, even when it stops on a failing call; each target counts the rows others had not deleted before its turn |
| Renamespace.Split | internal/maintenance/renamespace.go:109-150 | after an error-free split every listed row still there is where the first of its keys sends it, by default import_source_namespace, user_id, agent_id, run_id and project in that order, and otherwise as it was; a dry run moves none; a failing call leaves whole targets moved and reported |
| Renamespace.ReportAddsUp | internal/maintenance/renamespace.go:20-25 | moved plus skipped plus what others deleted before its turn is every row listed, the per-target counts sum to moved, and on a dry run or without deletions nothing is missed |
| Renamespace.Move | internal/maintenance/renamespace.go:43-69 | every row of one namespace, and no other, ends in the other, save those deleted meanwhile; it counts the rows it moved, a dry run those it listed |
| Renamespace.MoveBackRestores | internal/maintenance/renamespace.go:43-61 | moving back restores the table exactly when the destination was empty |
| Importer.FinalizeRecords | internal/importer/importer.go:210-240 | rewrites the array in place to the finalized records, and returns exactly how many land in each namespace |
| Importer.Screen | internal/importer/importer.go:258-305 | every record is pending, a duplicate or an error, each by what its own lookup found |
| Importer.Write | internal/importer/importer.go:257-328 | a batch ends as the run of its calls does: unwritten exactly when the embedder refuses the texts that are pending, else each pending record stored unless its call fails or its id is another namespace's |
| Importer.Import | internal/importer/importer.go:140-203 | every record is accounted for, the histogram is where the records land even on a dry run, the table and the counts are those of its batches run in order, and it stops exactly at a batch whose texts are refused; the skipped are the records left out, and after a run without errors every other record that others do not delete is in the table under its address; only rows of the records change, no undeleted row changes namespace or creation time, none changes under SkipExisting, and errors come only of its own failed calls or of ids two namespaces claim |
| Importer.PreparedAre | internal/importer/importer.go:149-240 | a record is left out exactly when what stripping leaves of it is framing, has fewer bytes than the minimum, or at least one, once trimmed, or when its importance is below the minimum; the others are written in order, each in the forced namespace, else its own, else the default, with its id or a derived one, its provenance tag once, the source and the namespace it was taken out of in its metadata, and the default importance if it had none |
| Importer.LetThroughLand | internal/importer/importer.go:189-202 | after a run of batches without errors no record that is not left out is missing from the table, under the id and in the namespace its own fields give, unless others deleted it |
| Importer.WrittenAreRecords | internal/importer/importer.go:335-387 | every row an import wrote is one of the records that were not left out, redacted, with its own times or else now, an expiry of its own or that of its tier, importance between 0 and 1, and a confidence, by default 0.25, exactly if it is durable; it is created when one of the records says, or when the row it replaced was |
| Importer.BatchesStage | internal/importer/importer.go:189-202 | that accounting and those limits hold of any run of batches, whatever fails and whatever others delete meanwhile |
| ImportLifetimes.UntypedImportsAgeOut | internal/importer/importer.go:330-373 | an untyped record survives an error-free purge only before its thirtieth day or if recalls slid its expiry past it, and goes before that day only if others delete it |
| ImportLifetimes.ImportsMustEarnTrust | internal/importer/importer.go:376-385 | a durable record imported without a confidence is demoted by the first sweep that finds it old, exactly unless importance, a pin or a handoff keeps it |
| Importer.ReimportChangesNothing | internal/importer/importer.go:57-61 | after an import without errors, importing the same records with SkipExisting writes nothing, on whatever day and so with whatever provenance, in batches of any two sizes and whatever calls then fail, unless others delete some of them |
| MergeSplit.BatchSizeIsImmaterial | internal/importer/importer.go:189-201 | without errors, records with new ids of their own land each as its own row whatever the batch size, and only what others delete is missing |
| MergeSplit.LandingIsUnique | internal/importer/importer.go:189-201 | when nothing is deleted that is one table, so any two batch sizes leave the same |
| MergeSplit.MergeThenSplit | internal/importer/importer.go:226-231 | a merged record that is still there, from a source namespace that is not blank, returns to it, whatever else its metadata names, if and only if that namespace has 1 to 256 bytes, no NUL and no star, neither white space nor a slash at its ends and no doubled slash, and nothing else about it changes |
| MergeSplit.DoubledSlashIsNotRestored | internal/maintenance/renamespace.go:119-132 | a record merged away from "a//b" is split into "a/b" |
| MergeSplit.MergeIsReversible | internal/importer/importer.go:43-47 | a merge of such records is undone whole |
| MergeSplit.UnstampedGoWhereMetadataPoints | internal/maintenance/renamespace.go:13-18 | a record already in the pool, or without a namespace, goes where its stored metadata names a target, and stays exactly when it names none |
| MergeSplit.EqualContentsCollide | internal/importer/importer.go:235-237 | two records without ids and of equal content get one id once merged, and the second replaces all of the first but its creation time |
| Batching.TruncateIsPrefix | internal/embed/batched.go:63-73 | the byte-length shortcut never lets too long a text through: the result is the longest prefix of at most n runes |
| Text.EncodingDecodes | internal/embed/batched.go:46-50 | the length the byte budget counts is that of the UTF-8 encoding (RFC 3629), which decodes back to the same code points |
| Batching.GreedyIsOptimal | internal/embed/batched.go:29-61 | no order-preserving split into requests of at most so many texts, and, if of more than one, of at most so many bytes of UTF-8, has fewer requests than the greedy one, which is such a split |
| Batching.LongestIsLongest | internal/embed/batched.go:33-52 | the greedy request is the longest prefix that fits |
| Batching.Batched.Gather | internal/embed/batched.go:33-52 | the inner loop takes that longest prefix of the truncated texts |
| Batching.Batched.Embed | internal/embed/batched.go:30-61 | answers the endpoint's function of each truncated text in order, with exactly the greedy requests; it fails exactly when one of them does, and that is the last one it makes |
| Caching.Lru.Get | internal/embed/cache.go:37-40 | a hit returns the entry and is a use of its key, which comes to the front; a miss changes nothing and means the key is not cached |
| Caching.Lru.Add | internal/embed/cache.go:53-53 | a use of the key: the entry comes to the front, and only the least recently used goes when there is one too many |
| RecentUse.KeptWhileFewUsed | internal/embed/cache.go:18-25 | a key that was just used is still cached, after any uses of others, if and only if fewer distinct keys than the cache holds were used since |
| Caching.Cached.Lookup | internal/embed/cache.go:36-43 | the hits are right and the misses are exactly the texts without an entry, in order |
| Caching.Cached.Embed | internal/embed/cache.go:31-57 | answers every text as the batcher would and sends it only the misses, whatever was cached or evicted before; it fails exactly when a request does, and then it has recorded nothing |
| Caching.MissCount | internal/embed/cache.go:11-12 | a text is sent once for each time it occurs in a call if the cache lacks it, and not at all otherwise |
| Caching.NewCached | internal/embed/cache.go:18-25 | a size that is not positive is refused |
| Caching.EmbedAll | internal/embed/prefixed.go:15-35 | the stack answers the endpoint's function of the prefixed and truncated text for documents, and of the truncated text for queries, with the greedy requests for the misses; it fails exactly when one of them does |
| Caching.WithDocumentPrefix | internal/embed/prefixed.go:17-24 | the pipeline's prefix is the one given, and an empty one adds no layer |
| Caching.EmbedQueryOne | internal/embed/prefixed.go:7-10 | a recall query is embedded without the prefix; one that is cached makes no request, and it fails exactly when a request does |
| DiskCaching.MergeIsMap | internal/embed/diskcache.go:51-89 | right answers for the hits and for the misses, put in their places, are right answers for all |
| DiskCaching.EveryRunIsRight | internal/embed/diskcache.go:51-89 | in every interleaving of lookups, requests, fills, evictions, saves, failures and restarts, every caller that returns has the pointwise map, and so has the file |
| DiskCaching.RecordedStaysRecorded | internal/embed/diskcache.go:11-12 | while nothing is evicted and the process lives, what was recorded once stays found |
| DiskCaching.CallRuns | internal/embed/diskcache.go:50-89 | a call that no other comes in between of is the run of a look-up, a request, a fill if anything was missing, perhaps a save, and a return; it ends with the misses recorded, the file as the save left it, and the right answers returned |
| EmbeddedOnce.SentMoreThanOnce | internal/embed/diskcache.go:11-12 | in every run a text is sent more than once if and only if one call repeats it, or two calls send it of which the later looked it up in vain before the earlier asked, after it failed, while its answer was on its way, or after the text was evicted or lost with the process |
| EmbeddedOnce.SentIsKept | internal/embed/diskcache.go:67-79 | after a request that succeeds the answer is on its way or recorded until it is evicted or the process ends |
| EmbeddedOnce.SentOnce | internal/embed/diskcache.go:11-12 | in every run in which no call begins before the earlier ones have come back, none repeats the text, no request fails and the text is not evicted or lost, it is sent at most once |
| EmbeddedOnce.OverlappingCallersEmbedTwice | internal/embed/diskcache.go:56-69 | a run in which two callers that both looked first both send the text |
| EmbeddedOnce.FailedCallEmbedsTwice | internal/embed/diskcache.go:68-71 | a run with no overlap and no repetition in which a failed call makes a later one send the text again, exactly if it had sent it before it failed |
| EmbeddedOnce.ForgottenTextEmbedsTwice | internal/embed/cache.go:18-25 | runs in which no call fails and the text is sent again because its entry was evicted, or lost with the process |
| DiskCaching.DiskCache.Lookup | internal/embed/diskcache.go:56-65 | the first critical section: the hits and exactly the missing texts |
| DiskCaching.DiskCache.Fill | internal/embed/diskcache.go:72-79 | the second: every missing text recorded and answered, and whether it is time to save |
| DiskCaching.DiskCache.Save | internal/embed/diskcache.go:91-118 | a success leaves the file equal to the cache, a failure leaves file and mark as they were; either is the save step of the interleaved runs |
| DiskCaching.DiskCache.Embed | internal/embed/diskcache.go:50-89 | pointwise right, only the misses sent, every text recorded, and fewer than 500 unsaved vectors unless saving failed; it is such a run of the state machine; it fails exactly when a request does, and then it has recorded nothing |
| ApiAuth.TableCache.TableNonEmpty | internal/apiauth/apiauth.go:186-200 | a probe is one run of the state machine, through exactly what the backend does while it waits, and answers what that run says; it asks the store unless the reading is fresh, and fails exactly when the store does |
| ApiAuth.TableCache.Invalidate | internal/apiauth/apiauth.go:241-245 | forgets the reading |
| ApiAuth.EmptyAnswerIsRecent | internal/apiauth/apiauth.go:44-50 | in every run, an answer that the table is empty is right about an instant less than TTL plus the store's latency ago, and after the last Invalidate |
| ApiAuth.DocumentedWindowNeedsInstantStore | internal/apiauth/apiauth.go:189-199 | the bound without the latency holds of every run if and only if the latency is zero |
| ApiAuth.WindowIsTight | internal/apiauth/apiauth.go:192-199 | for every latency a run that attains the bound |
| ApiAuth.EnforcedOnceInvalidated | internal/apiauth/apiauth.go:226-235 | once a key is there to stay and Invalidate has been called, no probe ever says the table is empty |
| ApiAuth.NextProbeAgrees | internal/apiauth/apiauth.go:226-240 | the probe right after an Invalidate asks the store and answers what the table is when it looks, or fails closed |
| ApiAuth.FailureIsRetried | internal/apiauth/apiauth.go:180-196 | an error answers that a key is required and the next probe asks again |
| ApiAuth.Authenticate | internal/apiauth/apiauth.go:146-178 | the verdict in every case: the admin key is admitted as such; a key the file lists, or else the table, is admitted with its name, its namespaces and its rights unless it is disabled; an unknown one is rejected; an error exactly when the table is asked and its call fails; no credential is enough only where nothing holds a key; so no token is admitted as an admin, or with write access, unless the key it hashes to has that right; what happens meanwhile is what the backend does |
| ApiAuth.TokenlessAdmission | internal/apiauth/apiauth.go:128-138 | after any past of the server, a request admitted on the probe's word means the table was empty that recently, in that past or while the probe ran |

## Left out

- Clustering.DedupNamespace: the merge of a cluster's texts by a language model, the embedding call's own results, and the list of actions in the report are not modelled.
- DedupJob.Pass: tickers and logging are left out.
- StoreRuns.RunsStayHealed: a step that is none of the listed ones, such as a move between namespaces, or a write or supersession by which a row's chain leads back to it, vouches for nothing until the next repair of the namespace; from there on everything holds again.
- StoreRuns.LostHeadsAreAccounted: the same, for the namespace in question.
- StoreRuns.NoHeadIsLostOtherwise: the same, for the steps in between.
- Sweeper.EnforceShortTermCap: ties are broken as by a stable sort, where the source leaves the order open.
- MemoryStore.Store.List: no order is promised, and no limit, since no modelled caller gives one.
- Tombstones.HistoriesCollectSafely: moves between namespaces, expiry slides and edits of other fields are not events, since they touch neither links nor dates.
- Renamespace.Move: the renames of links, API keys and pins that follow the move are not modelled.
- Importer.Import: exact-content dedup by fingerprint and the progress callback are left out; stripping and recognising runtime framing, redaction, ids derived by hashing and the embedder's failures are parameters.
- MergeSplit.MergeThenSplit: redaction is taken to leave the recorded source namespace alone, and records to have ids of their own that are new to the store.
- Caching.Cached.Embed: one call at a time; interleavings are in `DiskCaching`, whose steps allow lookups and fills one text at a time and evictions anywhere.
- DiskCaching.DiskCache.constructor: the file is required to hold this embedder's vectors, since nothing in the source detects one that does not.
- ApiAuth.Authenticate: constant-time comparison, hashing and the loading of the key file are not modelled.
- JsonRecovery.RecoversPrinted: texts are sequences of code points where the source scans bytes; all bytes it reacts to are ASCII, which UTF-8 never uses inside another character. Numbers are any text over the characters a number can hold.
- McNemar.McNemarExact: exact reals, no floating-point rounding; the same holds of `Confidence` and of scores.
- While a pass runs others only delete rows and slide expiries; what else they write meanwhile is not modelled, and the store's clock stands still.
- Retention and similarity scores are uninterpreted functions; only the order they induce is used. A vector search may return anything, best first.
- Contexts and cancellation, metrics, logging, goroutines and tickers, except where they appear as interleaved steps.
- The SQL drivers, the HTTP clients of embedders and language models, remote import, search, the service layer, configuration, the command line and the user interface.
