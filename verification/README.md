# Coodra: verified models of its local tables and derived views

Coodra keeps audit and memory tables on the machine, derives aggregates, version
histories and agent permissions from them, and prints and parses text around them.
This project models the places where a derived thing has to agree with a simple one,
and proves that it does: over every run, at every statement boundary, for every input.
Where the agreement is false, it proves the exact condition under which it holds.

Each file is one module. `Collections`, `StableSort`, `Text` and
`JsonRecords` hold the list, sorting, string and hashed-object facts the others share.

| part of the system | modules |
|---|---|
| memory rollup and prune: two aggregate tables recomputed by delete-then-insert, then a guarded prune, with no transaction around them | `MemoryTables`, `MemoryRollup`, `MemoryPasses`, `MemoryOverlap`, `MemoryWitnesses` |
| audit log: canonical serialiser, row hash, one hash chain per organisation | `CanonicalJson`, `AuditRows`, `AuditChain`, `AuditCalls` |
| policy versions: four mutators that each republish a snapshot | `PolicyTables`, `PolicyVersions`, `PolicyEffects`, `PolicyStore`, `PolicyAliases`, `PolicyCrashes` |
| policy projection and native permissions of Claude Code and Codex | `PolicyViews`, `ClaudePermissions`, `CodexPermissions`, `ProjectionPayload`, `PolicyProjection`, `RowOrder` |
| log pages: backward chunked reader, incremental tailer | `Utf8Chunks`, `LogTail`, `LogTailer` |
| run diffs: name-status parser, new-file stanza, files-changed join | `RunDiff` |
| graph refresh worker: coalescing, cooldown, stop | `GraphRefresh` |
| kill switches: table, pushed-down query, matcher, TTL cache | `KillSwitches`, `KillSwitchEvaluation` |
| run status: its writers and two clean-ups | `RunStatus` |
| sync notes section, recipe index, decision ids | `WorkPackSection`, `RecipesIndex`, `DecisionIds` |

Objects whose methods update fields are classes (`MemoryStore`, `AuditLog`, `Store`,
`TailWatcher`, `GraphRefreshWorker`, `KillSwitchTable`, `KillSwitchEvaluator`,
`RunStore`); loops are methods with invariants; SQL statements are functions on table
contents that the class methods execute one at a time. Concurrency is a state machine:
a step is one SQL statement, or the code between two awaits.

## Assumptions

- `sha256` and number printing are injective; a hash is a function of text, given as a
  parameter. The audit payload and the three projection payloads are written out as JSON
  and go through `CanonicalJson`; only the digest of a policy snapshot is of the
  snapshot itself.
- Generated ids are new. A policy is not created with a name that is an id of a policy,
  or an id that is a name of one (`Admissible`); `LookupSureExactly` and
  `NameAloneSteals` say what happens otherwise. `PolicyVersions` takes the first row in
  table order that a lookup by id or name fits.
- The statements of one policy call run together in `PolicyVersions`; `PolicyCrashes`
  lets a call be cut off between any two.
- In `MemoryRollup` and `MemoryPasses` one rollup pass runs at a time, with appends and
  crashes between its statements; nothing in the worker enforces that, and
  `MemoryOverlap` drops the assumption.
- The clock does not run backwards. `ChainedExactly` is for event times that increase
  per organisation; `InsertExtendsChainExactly` says when an insert is safe without that.
- `localeCompare` is a total preorder given as a parameter.

## Where the code does not do what it says

Each of these is a theorem with the exact condition.

- **Audit chain.** A call reads the latest hash and inserts its row in two statements
  with an await between them, no transaction and no unique index. Where times increase,
  the rows of an organisation are one chain if and only if no two completed calls of it
  overlap (`ChainedExactly`); two that do fork it (`OverlapForksTheChain`). `created_at`
  has whole seconds and is not hashed, and the hash is read by `ORDER BY created_at DESC
  LIMIT 1`: an insert extends the chain, whatever the database picks, if and only if at
  its read the tip was strictly the newest row and nothing was written since
  (`InsertExtendsChainExactly`). Three calls in one second, one after the other, can fork
  it too (`TieForksTheChain`).
- **Sync notes.** For all notes and texts, replacing the generated section twice equals
  replacing it once with the second text if and only if the notes have a start marker
  followed by the first end marker, or are non-blank text without markers, and the first
  text, trimmed, holds no end marker (`LastWriterWinsExactly`). The text embeds an
  excerpt verbatim (work-pack-session-update.ts:42-46), so it can.
- **Cancelling a run.** `cancelRun` reads the status and then updates by id alone, so a
  run closed in between ends cancelled (`CancelOverwritesClose`). The update finds the
  run open if and only if no writer or clean-up has hit it since the read
  (`CancelSparesClosedExactly`).
- **Rollup, second pass.** The comment at memory-rollup-worker.ts:101-103 calls the
  pass idempotent. A second pass changes the cohort table if and only if some cohort has
  raw events on both sides of the day the prune stops at (`SecondPassExactly`); for every
  retention such a state is reached (`SecondPassCanChange`). A cohort insert is refused
  if and only if an append revived a cohort whose raw events were gone
  (`CohortRecompute`), which happens (`CohortInsertCanBeRefused`).
- **Rollup, overlapping passes.** The timer and `runOnce` start a pass without looking
  whether one is running. When two passes both delete before either inserts, the second
  insert is refused if and only if an event completed for both has a project
  (`OverlappingPasses`). However passes overlap, a pruned day keeps whole copies of its
  rollup (`PrunedDaysAreCopies`), and one copy if an event of the day has a project
  (`ProjectDaysAreExact`). Without one the rows can stay doubled for good: for any first
  day's events one schedule ends so if and only if none has a project
  (`DuplicatesStayExactly`).
- **Graph refresh.** The cooldown counts rebuilds that returned, whether they succeeded
  or not, and none that threw: that is the exact condition for a request to lead to a
  rebuild (`RebuildStartsExactly`), so after a throw the next may start at once
  (`ThrownRebuildSkipsCooldown`). The shipped rebuild catches everything and returns
  false (graph-refresh-worker.ts:132-143); only an injected `runRebuild`, which the
  source marks as a test seam, can throw.
- **Kill switches.** A project whose id is the cache key of events without a project
  shares their list. Cached answers are right for every table if and only if the
  event's project is not that one (`SharedKeyHarmlessExactly`).
- **Policy lookup.** `getPolicy` takes one row whose id or name fits, without ORDER BY.
  A policy is sure to be found by its own id if and only if no other policy has that id
  as its name (`LookupSureExactly`); in table order, if and only if no earlier one has
  (`FindByIdExactly`). Naming a policy after another's id is enough for the publish of the
  other to be given the wrong one and leave it stale (`NameAloneSteals`).
- **Policy versions.** A publish retires the versions and inserts the new one in separate
  statements. However calls are cut off, versions stay numbered without gaps, at most the
  last is active and readers get the last (`HistorySurvives`). Cut off in between, a
  policy has no active version, and its next publish makes one if and only if the live
  rows differ from the last snapshot (`ActiveAgainExactly`): changing them back leaves
  none (`RevertLeavesNoneActive`).
- **Policy projection.** Sorting by `localeCompare` leaves different strings that
  compare as equal in input order. The published policy list forgets row order if and
  only if no two different entries tie (`EntryOrderExactly`); the Codex rules, for a
  list of any length, if and only if no two different rules outside the baseline compare
  as equal (`RulesOrderExactly`, `ProjectionOrderExactly`); the whole payload and its
  hash if and only if both hold (`PayloadOrderExactly`, `HashOrderExactly`). These are
  for any order of the listed rows; the list queries sort by name and by priority, and
  the order of the table rows themselves shows if and only if two different entries of
  one name tie, or two Codex rules that tie can each come first as far as names,
  priorities and times go (`RowOrderExactly`). One path is
  published twice if and only if two rules give it different access
  (`PathsRepeatExactly`).
- **Log pages.** A chunk is decoded by itself, so a character on a chunk boundary turns
  into replacement characters. The page equals the last lines of the file if and only if
  no boundary, counted in whole chunks from the end, cuts a character in those lines
  (`LastLinesExactly`). The page hands its byte size over as the start of the tail. The
  first poll that finds a line end leaves the offset just past it if and only if the file
  did not end inside a character then, and otherwise two bytes too far for every byte
  that was missing (`HandOverExactly`).
- **Decision ids.** The comment at resolve-decision-ids.ts:96-97 says no LIKE
  metacharacter can survive; the `_` of `dec_` does, and LIKE ignores letter case. The
  patterns find a stored string as prefixes would if and only if it is not confusable,
  which `dec_` followed by lowercase hex and dashes never is (`LikeIsPrefixExactly`).

## Model

| member | source | states |
|---|---|---|
| `MemoryTables.GroupByRows` | packages/lifecycle/src/memory-rollup-worker.ts:145-178 | a GROUP BY has one row per key that occurs, none twice, each computed from exactly the events of its key |
| `MemoryTables.RollupOfDay` | packages/lifecycle/src/memory-rollup-worker.ts:145-178 | the daily rows of one day depend on that day's events only |
| `MemoryTables.EventHasRow` | packages/lifecycle/src/memory-rollup-worker.ts:145-178 | every event, with or without a project or actor, falls under a row: same project, channel, site, type and day, its actor or `local` |
| `MemoryTables.DailyRowMeaning` | packages/lifecycle/src/memory-rollup-worker.ts:145-178 | a daily row says of exactly the events with its columns, between its midnights: how many, how many different items and runs (NULL not counted), their bytes and latencies, the greatest latency or 0, how many were stale, a greatest organisation; no two rows have the same columns |
| `MemoryTables.RollupConserves` | packages/lifecycle/src/memory-rollup-worker.ts:145-178 | access counts, bytes and latencies over all rows add up to those of the events |
| `MemoryTables.MaxIsGreatest` | packages/lifecycle/src/memory-rollup-worker.ts:154-170 | MAX is the value of an event and at least every other, NULL only when all are |
| `MemoryTables.EarliestIsFirst` | packages/lifecycle/src/memory-rollup-worker.ts:220-235 | the site and time of a channel come from its first event |
| `MemoryTables.CohortRollupOf` | packages/lifecycle/src/memory-rollup-worker.ts:199-249 | the cohort query yields for each run, generation, type and item the fold of its events, or nothing when there are none |
| `MemoryTables.CohortRowMeaning` | packages/lifecycle/src/memory-rollup-worker.ts:199-249 | a cohort row says of exactly the events of its run, generation and item: how many pushes and pulls, site and time of the first of each, the delay when there are both, staleness at some access, a greatest organisation and project; no two rows are of one cohort |
| `MemoryTables.EventHasCohort` | packages/lifecycle/src/memory-rollup-worker.ts:199-249 | every event with a run and an item is in a cohort row |
| `MemoryRollup.AppendInv` | packages/db/src/destinations.ts:80-92 | an append between any two statements keeps the invariant; a known id is ignored |
| `MemoryRollup.DailyInsertNeverCollides` | packages/lifecycle/src/memory-rollup-worker.ts:115-178 | the daily insert of a pass that overlaps no other never violates the unique index, appends since the delete included |
| `MemoryRollup.PruneDay` | packages/lifecycle/src/memory-rollup-worker.ts:251-261 | the guarded prune takes all raw events of a day or none |
| `MemoryRollup.ApplyInv` | packages/lifecycle/src/memory-rollup-worker.ts:115-261 | every statement, append, clock tick and crash keeps: each day is untouched, or gone with its rows final |
| `MemoryRollup.PrunedDaysAreExact` | packages/lifecycle/src/memory-rollup-worker.ts:115-261 | at every statement boundary of any run of appends, crashes and passes that do not overlap, a day that lost raw events has the group-by totals over all events ever recorded for it |
| `MemoryRollup.TablesStayKeyed` | packages/lifecycle/src/memory-rollup-worker.ts:137-249 | at every boundary of such a run no cohort has two rows and a pending daily insert cannot be refused |
| `MemoryPasses.PassPrunes` | packages/lifecycle/src/memory-rollup-worker.ts:107-261 | the five statements of a pass by itself all run, and leave the three tables in closed form |
| `MemoryPasses.PassTables` | packages/lifecycle/src/memory-rollup-worker.ts:107-261 | the guarded prune removes exactly the events of the days before the cutoff, or before today when retention is not positive |
| `MemoryPasses.PassDayRows` | packages/lifecycle/src/memory-rollup-worker.ts:137-178 | after a pass a completed day with raw events has their rollup, every other day its old rows |
| `MemoryPasses.PassCohortRows` | packages/lifecycle/src/memory-rollup-worker.ts:189-249 | after a pass a cohort with raw events has one row, their fold, and every other keeps what it had |
| `MemoryPasses.CohortRecompute` | packages/lifecycle/src/memory-rollup-worker.ts:189-249 | with appends between delete and insert: refused exactly when a cohort was revived, otherwise each cohort is recomputed |
| `MemoryPasses.SecondPassExactly` | packages/lifecycle/src/memory-rollup-worker.ts:101-106 | a second pass keeps events and daily rows, and the cohort rows exactly when no cohort straddles the cutoff |
| `MemoryPasses.MemoryStore.RunMemoryRollupOnce` | packages/lifecycle/src/memory-rollup-worker.ts:107-278 | the pass on the store: its new contents, the counts it reports, the invariant kept |
| `MemoryPasses.MemoryStore.InsertMemoryAccessEvent` | packages/db/src/destinations.ts:80-92 | a row stamped by the database clock is appended exactly when its id is not in the table |
| `MemoryOverlap.MoveKeeps` | packages/lifecycle/src/memory-rollup-worker.ts:137-261 | with any number of passes under way, every statement, arrival and abort keeps: each day's rows are whole copies of its rollup, its raw events all there or, after a copy, all gone; one copy at most where an event has a project |
| `MemoryOverlap.PrunedDaysAreCopies` | packages/lifecycle/src/memory-rollup-worker.ts:358-411 | however passes overlap, a day that lost raw events lost them all and has at least one whole copy of the group-by over everything ever recorded for it |
| `MemoryOverlap.ProjectDaysAreExact` | packages/lifecycle/src/memory-rollup-worker.ts:358-411 | and exactly one copy if any event of that day has a project |
| `MemoryOverlap.OverlappingPasses` | packages/lifecycle/src/memory-rollup-worker.ts:115-178 | two passes that both delete before either inserts, begun on any days, with other writers at every point: the second insert is refused exactly when an event completed for both has a project, else its rows are added to those of the first |
| `MemoryOverlap.DuplicatesStayExactly` | packages/lifecycle/src/memory-rollup-worker.ts:137-261 | for any events of a first day one schedule of two passes prunes them all and leaves their rows doubled exactly when none has a project |
| `MemoryWitnesses.SecondPassCanChange` | packages/lifecycle/src/memory-rollup-worker.ts:101-106 | for every retention a run from an empty database after which a second pass changes the cohort table |
| `MemoryWitnesses.CohortInsertCanBeRefused` | packages/lifecycle/src/memory-rollup-worker.ts:189-249 | a run from an empty database in which an access between the two cohort statements makes the insert fail |
| `CanonicalJson.StringifyCanonical` | packages/db/src/audit-events.ts:25-33 | equal text exactly when the values are equal up to object key order |
| `CanonicalJson.StringifyReadsBack` | packages/db/src/audit-events.ts:25-33 | the text is JSON: a reader written from the grammar of RFC 8259 gets the value back from it, the members of every object in ascending order of their names |
| `CanonicalJson.ReadsQuote` | packages/db/src/audit-events.ts:26-31 | every string reads back from its quoted form by the escapes of section 7 of RFC 8259 |
| `CanonicalJson.Unambiguous` | packages/db/src/audit-events.ts:25-33 | the text of a value followed by anything that can follow it determines both |
| `CanonicalJson.SameText` | packages/db/src/audit-events.ts:25-33 | values equal up to key order, at any depth, have the same text |
| `AuditRows.PayloadKeysDistinct` | packages/db/src/audit-events.ts:84-101 | the hashed object has sixteen different keys |
| `AuditRows.HashedText` | packages/db/src/audit-events.ts:83-102 | what is hashed reads back as an object of the sixteen columns under their names, missing ones null |
| `AuditRows.EqualHashEqualFields` | packages/db/src/audit-events.ts:83-102 | equal row hashes mean equal values of every hashed field |
| `AuditRows.RowHashCovers` | packages/db/src/audit-events.ts:61-102 | a row hash determines, and is determined by, all fields but the hash and the time |
| `AuditChain.LinkedRows` | packages/db/src/audit-events.ts:63-102 | in a chain each row carries its own hash and the hash of the row before it |
| `AuditChain.SameTipSameHistory` | packages/db/src/audit-events.ts:39-111 | two chains that end in one hash agree row by row in every hashed field |
| `AuditChain.HashFindsItsRow` | packages/db/src/audit-events.ts:39-111 | no hash repeats within a chain |
| `AuditChain.InsertExtendsChainExactly` | packages/db/src/audit-events.ts:39-105 | every choice the ORDER BY allows extends the chain exactly when at the read the tip was strictly newest and no row of the organisation was written between read and insert |
| `AuditCalls.ChainedExactly` | packages/db/src/audit-events.ts:61-111 | over every run of interleaved calls, some never finished, with increasing times: the rows of an organisation are one chain exactly when no two completed calls of it overlap |
| `AuditCalls.OverlapForksTheChain` | packages/db/src/audit-events.ts:61-111 | a run with strictly increasing times in which two calls read before either writes, and the rows are not a chain |
| `AuditCalls.TieForksTheChain` | packages/db/src/audit-events.ts:39-63 | a run of three calls in one second, none overlapping, whose rows are not a chain |
| `AuditCalls.SameLatestHashSameLog` | packages/db/src/audit-events.ts:25-111 | with sha256 injective, two runs without overlapping calls of an organisation, with increasing times, that end in the same latest hash have the same history of it |
| `AuditCalls.AuditLog.LatestAuditHash` | packages/db/src/audit-events.ts:39-59 | the hash of a newest row of the organisation, or none |
| `AuditCalls.AuditLog.BeginInsert` | packages/db/src/audit-events.ts:61-63 | up to the await: a latest hash is read and kept for the call |
| `AuditCalls.AuditLog.FinishInsert` | packages/db/src/audit-events.ts:64-111 | after the await, other calls having run: one row more, with every column the caller passed or its default (`__solo__`, `success`, `{}`), the hash that was read and its own hash, whatever was written since |
| `AuditCalls.AuditLog.InsertAuditEvent` | packages/db/src/audit-events.ts:61-111 | both halves of one call: one row more, with every column the caller passed or its default, linked to a newest row |
| `PolicyAliases.FindPolicyFirst` | packages/db/src/policies.ts:373-396 | the lookup gives the first row whose id or name is the identifier, in the project when one is given, and nothing exactly when there is none |
| `PolicyVersions.PublishInv` | packages/db/src/policies.ts:807-899 | publishing brings one policy's history up to date and leaves every other history and all other rows alone |
| `PolicyVersions.AddInv` | packages/db/src/policies.ts:489-590 | adding a rule, with or without a new policy, keeps every history faithful |
| `PolicyVersions.UpdateInv` | packages/db/src/policies.ts:655-721 | so does updating a rule |
| `PolicyVersions.DeleteInv` | packages/db/src/policies.ts:781-792 | so does deleting one |
| `PolicyVersions.EnableInv` | packages/db/src/policies.ts:723-749 | so does switching a policy on or off |
| `PolicyEffects.CallsTakeEffect` | packages/db/src/policies.ts:163-800 | which calls are refused and why; a call that succeeds makes the change asked for and no other, every stored column said from the arguments (verdict and mode by decision, priority behind all rules, a new policy's columns); a refused one changes nothing |
| `PolicyEffects.PublishDoes` | packages/db/src/policies.ts:807-899 | a publish changes nothing when the newest version already shows the live rows, and otherwise retires all versions of the policy now and adds one, numbered next, that does |
| `PolicyEffects.LiveShows` | packages/db/src/policies.ts:373-396 | a snapshot shows the policy and all its rules, by priority and then by creation |
| `PolicyEffects.ReaderGets` | packages/db/src/policies.ts:948-962 | a reader gets the newest active version, and the newest of all when none is active |
| `PolicyVersions.RunInv` | packages/db/src/policies.ts:489-899 | the invariant holds after every admissible sequence of calls from an empty store |
| `PolicyVersions.HistoryIsFaithful` | packages/db/src/policies.ts:807-962 | versions are 1..n, only n is active, neighbours differ, and the version a reader gets is n with the live policy and rules |
| `PolicyAliases.FindByIdExactly` | packages/db/src/policies.ts:373-396 | looking a policy up by id finds it exactly when no earlier row is named after that id |
| `PolicyAliases.LookupSureExactly` | packages/db/src/policies.ts:373-396 | whichever fitting row the database gives, looking a policy up by its id finds it exactly when no other policy has that id as its name |
| `PolicyAliases.AliasStealsPublish` | packages/db/src/policies.ts:807-899 | a publish that was given another policy leaves the history of the one that changed as it was |
| `PolicyAliases.NameAloneSteals` | packages/db/src/policies.ts:489-815 | two calls from an empty store, the second naming its policy after the first one's id; then a change to the first one can be published for the second, and the first is stale |
| `PolicyCrashes.HistorySurvives` | packages/db/src/policies.ts:489-899 | after any admissible calls, each cut off at any statement or not: versions 1..n, neighbours different, none but n active, readers get n, and n is live unless the last call on the policy was cut off |
| `PolicyCrashes.ActiveAgainExactly` | packages/db/src/policies.ts:807-899 | with no active version left, a publish makes one exactly when the live rows differ from the last snapshot; readers get the live snapshot either way |
| `PolicyCrashes.RevertLeavesNoneActive` | packages/db/src/policies.ts:655-899 | three calls, the second cut off behind the retiring and the third undoing it, after which no version is active |
| `PolicyStore.Store.PublishPolicyVersion` | packages/db/src/policies.ts:807-899 | the new version table and outcome are those of the specification |
| `PolicyStore.Store.AddRule` | packages/db/src/policies.ts:489-590 | the three tables after adding a rule, with every history faithful |
| `PolicyStore.Store.UpdateRule` | packages/db/src/policies.ts:655-721 | the three tables after an update |
| `PolicyStore.Store.DeleteRule` | packages/db/src/policies.ts:781-792 | the three tables after a deletion |
| `PolicyStore.Store.SetPolicyActivity` | packages/db/src/policies.ts:723-749 | the three tables after switching a policy |
| `PolicyViews.EachPermutes` | packages/db/src/policy-projection.ts:74-84 | reordering policies, and rules inside them, permutes what is collected from their rules |
| `PolicyViews.UniqueSortedExactly` | packages/db/src/claude-permissions.ts:32-34 | sort-and-dedupe of two lists agrees exactly when they have the same values |
| `PolicyViews.UniqueSortedShape` | packages/db/src/codex-permissions.ts:25-27 | the result is sorted, without repeats, and has the values of the input |
| `PolicyViews.SortedExactly` | packages/db/src/policy-projection.ts:74-76 | two id lists sort to one list exactly when they are permutations |
| `PolicyViews.CompilePolicies` | packages/db/src/codex-permissions.ts:103-114 | the double loop collects, from active policies only, the compiled rules and the two id lists |
| `PolicyViews.TranslationConserves` | packages/db/src/codex-permissions.ts:103-114 | each active rule is reported once, as translated or as untranslated |
| `ClaudePermissions.NormalizedIsAnchored` | packages/db/src/claude-permissions.ts:47-53 | `x` and `./x` become `/x`, an anchored path stays, and normalising again changes nothing |
| `ClaudePermissions.CompiledExactly` | packages/db/src/claude-permissions.ts:36-86 | which rules Claude Code can be given, said of their columns, and as what: the rule's own decision and id, and a command, an anchored path to edit or to read, or the tool |
| `ClaudePermissions.ListHoldsExactly` | packages/db/src/claude-permissions.ts:91-109 | each of the published allow, ask and deny holds exactly the texts of the translatable rules of that decision in policies that are switched on, once, in order |
| `ClaudePermissions.AllowIsNarrow` | packages/db/src/claude-permissions.ts:42-45 | no bare wildcard is pre-approved: it is behind a command, a path or one named MCP server |
| `ClaudePermissions.ReportsEveryRule` | packages/db/src/claude-permissions.ts:94-109 | the two id lists hold exactly the ids of the rules in force that are translatable and that are not, once, in order |
| `ClaudePermissions.PayloadIgnoresOrder` | packages/db/src/claude-permissions.ts:88-131 | the payload, and so its hash, forgets the order of policies and rules |
| `ClaudePermissions.EqualHashEqualPayload` | packages/db/src/claude-permissions.ts:119-131 | equal hashes of two Claude payloads mean equal lists of permissions and ids |
| `ClaudePermissions.HashedText` | packages/db/src/claude-permissions.ts:112-131 | what is hashed reads back as an object of the lists under their names |
| `ClaudePermissions.BuildClaudeNativePermissionsProjection` | packages/db/src/claude-permissions.ts:88-131 | the loops build the specified payload and its hash |
| `CodexPermissions.KeyInjective` | packages/db/src/codex-permissions.ts:17-20 | the map key determines path and access |
| `CodexPermissions.SortUniqueRules` | packages/db/src/codex-permissions.ts:15-23 | the keyed map and the sort give the distinct rules in comparator order |
| `CodexPermissions.CompiledExactly` | packages/db/src/codex-permissions.ts:29-87 | a rule becomes a filesystem rule exactly when it denies a file tool, in scope, with a path; which path and which access, sensitive words in either case and recursive globs included |
| `CodexPermissions.RootsExactly` | packages/db/src/codex-permissions.ts:89-127 | the published rules are the six fixed ones and what the rules in force become, each once |
| `CodexPermissions.RootsInOrder` | packages/db/src/codex-permissions.ts:15-23 | they are in the locale's order of paths, and within a path that ties with no other in the order of access |
| `CodexPermissions.NoReadAnywhere` | packages/db/src/codex-permissions.ts:51-67 | no published rule reads a recursive-anywhere glob, and none grants write |
| `CodexPermissions.PathsRepeatExactly` | packages/db/src/codex-permissions.ts:15-23 | a path is published twice exactly when two rules give it different access |
| `CodexPermissions.RulesOrderExactly` | packages/db/src/codex-permissions.ts:15-23 | for lists of any length, after any fixed rules: the sorted list forgets input order exactly when no two different rules outside the fixed ones compare as equal |
| `CodexPermissions.ProjectionOrderExactly` | packages/db/src/codex-permissions.ts:89-135 | the projection forgets the order of policies and of rules exactly when no two different compiled rules outside the baseline compare as equal |
| `CodexPermissions.ReportsEveryRule` | packages/db/src/codex-permissions.ts:103-131 | the two id lists hold exactly the ids of the rules in force that become a filesystem rule and that do not, once, in order |
| `CodexPermissions.EqualHashEqualRoots` | packages/shared/src/policy-projection-files.ts:252-274 | equal surface hashes mean the same filesystem rules |
| `CodexPermissions.HashedText` | packages/shared/src/policy-projection-files.ts:258-274 | what is hashed reads back as an object of what Codex reads, the rules in the comparator's order |
| `CodexPermissions.BuildCodexNativePermissionsProjection` | packages/db/src/codex-permissions.ts:89-135 | the loops build the specified projection and its hash |
| `PolicyProjection.ExceptionsExactly` | packages/db/src/policy-projection.ts:31-36 | the published exceptions are the project's active rows that have started and not expired |
| `PolicyProjection.GrantsExactly` | packages/db/src/policy-projection.ts:38-42 | the published grants are the project's unrevoked, unexpired rows |
| `PolicyProjection.RuleIdsExactly` | packages/db/src/policy-projection.ts:52-74 | the published rules are those of the project's active policies |
| `PolicyProjection.CapabilitiesExactly` | packages/db/src/policy-projection.ts:77-84 | a capability is published exactly when a rule in force names it or a grant in force activates it, and it is not empty |
| `PolicyProjection.EntriesDescribeLivePolicies` | packages/db/src/policy-projection.ts:60-72 | after any admissible policy calls each published entry names an active policy, its newest version and the hash of its live policy and rules |
| `PolicyProjection.EveryPolicyHasEntry` | packages/db/src/policy-projection.ts:55-70 | and every active policy of the project has an entry that describes it |
| `PolicyProjection.EntriesShowPolicies` | packages/db/src/policy-projection.ts:60-72 | whatever the tables hold, an entry shows the columns of an active policy of the project and the version a reader of it gets, or none |
| `PolicyProjection.VersionIdsExactly` | packages/db/src/policy-projection.ts:85-88 | a version id is listed exactly when a reader of an active policy of the project gets that version |
| `PolicyProjection.ListsInOrder` | packages/db/src/policy-projection.ts:72-95 | the entries are in the locale's order of policy ids and every id list in code-point order |
| `PolicyProjection.TiesComeByName` | packages/db/src/policy-projection.ts:50-95 | entries that tie for the locale come by name |
| `PolicyProjection.ClaudeExactly` | packages/db/src/policy-projection.ts:101-104 | each text of Claude Code's lists comes from a rule in force of the project |
| `PolicyProjection.CodexExactly` | packages/db/src/policy-projection.ts:101-104 | each filesystem rule of Codex is fixed or comes from a rule in force of the project |
| `PolicyProjection.EntryOrderExactly` | packages/db/src/policy-projection.ts:95 | the policy list forgets the order of policies exactly when no two different entries tie |
| `PolicyProjection.PayloadOrderExactly` | packages/db/src/policy-projection.ts:50-112 | the payload forgets the order of listed policies, rules, exceptions and grants exactly when the locale order ties no two different entries and no two different compiled Codex rules outside the baseline |
| `PolicyProjection.HashOrderExactly` | packages/db/src/policy-projection.ts:106-112 | and so does the published hash |
| `RowOrder.RowOrderExactly` | packages/db/src/policy-projection.ts:50-112 | version numbers distinct per policy: the payload forgets the order of all table rows exactly when no two different entries of one name tie, and no two different Codex rules outside the baseline that tie can each come first as names, priorities and times allow |
| `PolicyProjection.ClockReadsActivityOnly` | packages/db/src/policy-projection.ts:51-56 | time enters only through which exceptions and grants are active |
| `PolicyProjection.QuietInterval` | packages/db/src/policy-projection.ts:31-42 | the payload changes by the clock alone only when a start or an expiry is passed |
| `PolicyProjection.EqualHashEqualRows` | packages/db/src/policy-projection.ts:90-112 | equal hashes, through the printed JSON, mean the same policy entries, rules, exceptions and grants |
| `ProjectionPayload.EqualHashEqualPayload` | packages/db/src/policy-projection.ts:90-112 | and the same payload in every field |
| `ProjectionPayload.HashedText` | packages/db/src/policy-projection.ts:90-106 | what is hashed reads back as an object of the payload's columns under their names, entries and native permissions included |
| `PolicyProjection.BuildPolicyProjection` | packages/db/src/policy-projection.ts:50-112 | the builder computes the specified payload and hashes it |
| `LogTail.SuffixSuffices` | apps/web-v2/lib/log-tail.ts:68-82 | a suffix with more than n newlines has the same last n lines as the whole file |
| `Utf8Chunks.CollectedGlyphs` | apps/web-v2/lib/log-tail.ts:68-76 | decoding chunk by chunk gives each character, or for one on a boundary as many replacement characters as its pieces decode to |
| `LogTail.ReadLastLines` | apps/web-v2/lib/log-tail.ts:53-87 | for every chunk size and UTF-8 file the reader gives the last n lines of the text so decoded: drop one trailing newline, split, keep n |
| `LogTail.LastLinesExactly` | apps/web-v2/lib/log-tail.ts:68-82 | these are the last n lines of the file exactly when no chunk boundary cuts a character in them |
| `LogTailer.PollCatchesUp` | apps/web-v2/lib/log-tail.ts:94-128 | one poll of a file that has grown hands over exactly the missing complete lines |
| `LogTailer.TailDeliversEveryLineOnce` | apps/web-v2/lib/log-tail.ts:94-128 | from a start between characters, over any polls of a growing UTF-8 file, half-written characters and unreadable moments included: each non-empty terminated line is handed over once, in order, and the byte offset is the start or just past a newline |
| `LogTailer.RotationStartsOver` | apps/web-v2/lib/log-tail.ts:101-107 | a poll of a file that is no longer than the offset hands over nothing, and from its end on every later line is handed over once |
| `LogTailer.HandOverExactly` | apps/web-v2/lib/log-tail.ts:47-128 | from the byte size of the page reader, wherever the file ended: the offset after the first poll that finds a newline, which is just past it exactly when the file had not ended inside a character |
| `LogTailer.TailWatcher.Pump` | apps/web-v2/lib/log-tail.ts:145-184 | the offset kept across polls follows the tailer, and nothing happens once closed |
| `RunDiff.ParseNameStatus` | packages/lifecycle/src/run-diff-runner.ts:171-222 | the index-jumping loop terminates and reads the token grammar |
| `RunDiff.NameStatusRoundTrip` | packages/lifecycle/src/run-diff-runner.ts:171-222 | printing change records with NUL separators and parsing gives them back in order, renames and copies included, each with the kind its letter stands for in either case |
| `RunDiff.RowsAreTokens` | packages/lifecycle/src/run-diff-runner.ts:180-221 | for any input a reported path is a non-empty token of it |
| `RunDiff.NewFileStanzaFaithful` | packages/lifecycle/src/run-diff-runner.ts:254-266 | hunk count, `+` lines and recorded additions agree, and stripping the signs recovers the content, a final newline added if it had none |
| `RunDiff.StanzaByLine` | packages/lifecycle/src/run-diff-runner.ts:254-266 | the stanza line by line: five lines of header that name the path and the count, then the content's lines |
| `RunDiff.JoinFilesChanged` | packages/lifecycle/src/run-diff-runner.ts:465-494 | each path has one entry: kind from the last name-status row, counts from the last numstat row, an untracked file only where git has neither; in first-met order |
| `GraphRefresh.ApplyInv` | packages/lifecycle/src/graph-refresh-worker.ts:165-271 | every step between awaits keeps: one unreleased refresh per project, the log exact, rebuilds spaced |
| `GraphRefresh.RequestBeginsExactly` | packages/lifecycle/src/graph-refresh-worker.ts:221-237 | a request begins a refresh exactly when not stopping and no earlier one of the project is unreleased |
| `GraphRefresh.RebuildStartsExactly` | packages/lifecycle/src/graph-refresh-worker.ts:180-243 | over every run, with steps of others at every await: a request begins a refresh exactly when nothing of the project is in flight and stop was not called, and it rebuilds exactly when there is a graph, the drift is due, and every rebuild of the project that ever returned ended the cooldown before the commit was read |
| `GraphRefresh.RebuildsAreSpaced` | packages/lifecycle/src/graph-refresh-worker.ts:180-243 | over every interleaving two rebuilds of a project never overlap and one after a returned one, failed or not, waits the cooldown |
| `GraphRefresh.ThrownRebuildSkipsCooldown` | packages/lifecycle/src/graph-refresh-worker.ts:204-205 | a run in which the rebuild after one that threw starts at once |
| `GraphRefresh.ThrownRefreshFreesProject` | packages/lifecycle/src/graph-refresh-worker.ts:229-243 | a refresh that throws while the commit is read or the drift measured leaves the project to the next request |
| `GraphRefresh.StopAwaitsExactly` | packages/lifecycle/src/graph-refresh-worker.ts:264-271 | stop waits for exactly the unreleased refreshes |
| `GraphRefresh.StoppedStaysQuiet` | packages/lifecycle/src/graph-refresh-worker.ts:264-271 | once stop has resolved nothing is rebuilding and nothing ever starts |
| `GraphRefresh.GraphRefreshWorker.RequestRefresh` | packages/lifecycle/src/graph-refresh-worker.ts:221-237 | the worker's fields after a request |
| `GraphRefresh.GraphRefreshWorker.OnCommitRead` | packages/lifecycle/src/graph-refresh-worker.ts:181-193 | and after the commit is read |
| `GraphRefresh.GraphRefreshWorker.OnDriftMeasured` | packages/lifecycle/src/graph-refresh-worker.ts:195-204 | and after the drift is measured |
| `GraphRefresh.GraphRefreshWorker.OnRebuildEnded` | packages/lifecycle/src/graph-refresh-worker.ts:204-218 | and after a rebuild returned or threw |
| `GraphRefresh.GraphRefreshWorker.ReleaseEntry` | packages/lifecycle/src/graph-refresh-worker.ts:238-242 | and after the requester's finally block |
| `GraphRefresh.GraphRefreshWorker.BeginStop` | packages/lifecycle/src/graph-refresh-worker.ts:264-270 | and when stop begins |
| `KillSwitches.PushdownRefinesScan` | packages/db/src/kill-switches.ts:176-210 | the query's scope filter followed by the matcher finds what a scan of all active switches finds |
| `KillSwitches.AllActiveExactly` | packages/db/src/kill-switches.ts:224-247 | the whole-table query returns the switches that are neither resumed nor expired, each as often as it is there, by pause time |
| `KillSwitches.ActiveExactly` | packages/db/src/kill-switches.ts:176-210 | the query of one project leaves out those of other projects |
| `KillSwitches.ScanFindsOldest` | packages/db/src/kill-switches.ts:224-247 | the scan finds an active match paused no later than any other, or none when there is none |
| `KillSwitches.ScanFindsLeader` | packages/db/src/kill-switches.ts:224-247 | and it is the one row, by table order among equal pause times, that leads the active matches |
| `KillSwitches.FindMatchFirst` | packages/db/src/kill-switches.ts:448-459 | in a list ordered by pause time the matcher returns an earliest match, if there is any |
| `KillSwitches.ResumeAllSilences` | packages/db/src/kill-switches.ts:378-412 | after resuming all, no event ever matches |
| `KillSwitches.KillSwitchTable.Insert` | packages/db/src/kill-switches.ts:111-145 | a target exactly where the scope has one, and a reason, make the input valid; then the row described is appended, and otherwise nothing changes |
| `KillSwitches.KillSwitchTable.SoftResume` | packages/db/src/kill-switches.ts:320-353 | stamps exactly the unresumed row with the id and returns it as stamped, or nothing when there was none |
| `KillSwitches.KillSwitchTable.SoftResumeAll` | packages/db/src/kill-switches.ts:378-412 | stamps exactly the unresumed rows in the filter and returns them as stamped |
| `KillSwitchEvaluation.DecisionExactly` | packages/lifecycle/src/kill-switch-evaluator.ts:145-173 | the answer is null exactly when no active switch matches, and otherwise names the leading match, by pause time over the whole table, and denies exactly when it is hard |
| `KillSwitchEvaluation.KillSwitchEvaluator.BeginCheck` | packages/lifecycle/src/kill-switch-evaluator.ts:128-137 | up to the await: a live cache entry answers as a whole-table scan at a fetch within the cache time, and a fetch starts exactly when there is none |
| `KillSwitchEvaluation.KillSwitchEvaluator.FetchReturned` | packages/lifecycle/src/kill-switch-evaluator.ts:137-173 | after the await, other calls having run meanwhile: a fetch answers as a scan of what it read and is cached from the time the call began; a failed one answers null and caches nothing |
| `KillSwitchEvaluation.KillSwitchEvaluator.Check` | packages/lifecycle/src/kill-switch-evaluator.ts:127-173 | both halves of one call: the answer is that of a whole-table scan at a fetch within the cache time |
| `KillSwitchEvaluation.KillSwitchEvaluator.Invalidate` | packages/lifecycle/src/kill-switch-evaluator.ts:175-181 | drops one cache entry or all of them |
| `KillSwitchEvaluation.SharedKeyHarmlessExactly` | packages/lifecycle/src/kill-switch-evaluator.ts:106-108 | cached lists answer as the table would exactly when the event's project is not the sentinel |
| `RunStatus.StatusIsSound` | packages/db/src/runs-admin.ts:344-420 | over every run a row is open exactly when it has no end time, and a closed one never reopens |
| `RunStatus.LastWriterDecides` | packages/db/src/runs-admin.ts:344-420 | over every run a row is open exactly when no writer or clean-up has hit it since its insert, and otherwise has the status and time of the last one that did |
| `RunStatus.AbandonedWasSilent` | packages/lifecycle/src/abandon-stale-runs.ts:80-103 | over every run: a row that ended abandoned was, when another session of its project started, open and without an event in the window |
| `RunStatus.CancelledWasOpen` | packages/lifecycle/src/stale-runs-sweeper.ts:73-100 | over every run: a row that ended cancelled was last written by a cancel that had found it open at its read, or by a sweep when it was open, older than the threshold and silent for as long |
| `RunStatus.CancelSparesClosedExactly` | packages/db/src/runs-admin.ts:344-359 | whatever happens between the two statements of a cancel: the run ends cancelled as of the call's start, and was still open exactly when nothing had hit it since the read |
| `RunStatus.CancelOverwritesClose` | packages/db/src/runs-admin.ts:344-359 | a run from an empty database in which a completed run ends cancelled |
| `RunStatus.CleanUpsSpareLiveRuns` | packages/lifecycle/src/stale-runs-sweeper.ts:80-100 | no clean-up touches a run with an event in its window, or a closed one |
| `RunStatus.OpenRunsAreRecent` | packages/lifecycle/src/stale-runs-sweeper.ts:73-102 | with sweeps at most I apart every open run started or had an event within threshold plus I |
| `RunStatus.RunStore.AddRun` | packages/db/src/destinations.ts:111-128 | an open run is added exactly when neither its id nor its session in the project has one |
| `RunStatus.RunStore.AddEvent` | packages/db/src/destinations.ts:38-44 | an event is added exactly when its id is new |
| `RunStatus.RunStore.Close` | packages/db/src/destinations.ts:137-150 | the unconditional close of a session's run |
| `RunStatus.RunStore.BeginCancel` | packages/db/src/runs-admin.ts:346-352 | up to the await: whether there is such a run, and whether the call goes on |
| `RunStatus.RunStore.FinishCancel` | packages/db/src/runs-admin.ts:353-356 | the update by id alone, other writers having run meanwhile |
| `RunStatus.RunStore.Cancel` | packages/db/src/runs-admin.ts:344-359 | both halves of one call: cancels an open run and reports which of the three results it was |
| `RunStatus.RunStore.SweepOnce` | packages/lifecycle/src/stale-runs-sweeper.ts:73-102 | the table after a sweep, and the number of open runs that started before the threshold and had no event since |
| `RunStatus.RunStore.AbandonStale` | packages/lifecycle/src/abandon-stale-runs.ts:68-110 | the table after the clean-up, and the number of open runs of other sessions without an event in the window |
| `WorkPackSection.UpdateReadsBack` | packages/lifecycle/src/work-pack-session-update.ts:10-18 | after an update of notes with a section or without markers, by a text without the end marker, the section holds the new text and what is outside survives up to adjacent white space, two newlines in front |
| `WorkPackSection.FirstUpdateReadsBack` | packages/lifecycle/src/work-pack-session-update.ts:10-18 | the first update of blank notes leaves the section alone |
| `WorkPackSection.LastWriterWinsExactly` | packages/lifecycle/src/work-pack-session-update.ts:10-18 | for all notes and texts: a second update erases the first exactly when there is a section or non-blank text without markers, and the first text holds no end marker |
| `WorkPackSection.SessionOverviewLastWriterWins` | packages/lifecycle/src/work-pack-session-update.ts:7-18 | the same for the markers in use |
| `RecipesIndex.FillBudget` | packages/lifecycle/src/features-index-loader.ts:193-202 | the loop keeps the longest prefix that fits the limit |
| `RecipesIndex.NotAllFit` | packages/lifecycle/src/features-index-loader.ts:207-217 | what overflows in slug order cannot all fit the smaller budget newest first, so something is omitted |
| `RecipesIndex.FooterFits` | packages/lifecycle/src/features-index-loader.ts:184 | the reservation covers the footer for every number of omitted entries |
| `RecipesIndex.RenderForInjection` | packages/lifecycle/src/features-index-loader.ts:186-243 | all entries in slug order when they fit, else the longest newest-first prefix and a footer with the number omitted |
| `RecipesIndex.RenderingFitsCap` | packages/lifecycle/src/features-index-loader.ts:186-243 | the output is within the cap whenever the header fits the entry budget |
| `RecipesIndex.LoadedIndexFitsCap` | packages/lifecycle/src/features-index-loader.ts:156-163 | at the shipped cap the output fits for every project slug of up to ten thousand bytes |
| `RecipesIndex.NoOmittedIsNewer` | packages/lifecycle/src/features-index-loader.ts:214-226 | no omitted entry is newer than a shown one |
| `RecipesIndex.EntryByLine` | packages/lifecycle/src/features-index-loader.ts:253-272 | an entry is its lines: slug, maturity unless stable, when, not for, tags, files; a blank line behind |
| `RecipesIndex.NormalisedWords` | packages/lifecycle/src/features-index-loader.ts:284-286 | normalised text is the words with one space between two of them |
| `RecipesIndex.CountsAgree` | packages/lifecycle/src/features-index-loader.ts:245-282 | the count agrees with its noun in the heading and in the footer |
| `DecisionIds.LikeHead` | packages/db/src/resolve-decision-ids.ts:98-106 | what a pattern `id%` matches: a head equal up to letter case with `_` as a wildcard |
| `DecisionIds.ExpandableExactly` | packages/db/src/resolve-decision-ids.ts:48-49 | which ids are expanded: `dec_` and four or more of the sixteen digits and the dash |
| `DecisionIds.LikeIsPrefixExactly` | packages/db/src/resolve-decision-ids.ts:96-106 | every expandable id's pattern finds a string as a prefix would exactly when the string is not confusable |
| `DecisionIds.IdsAreNotConfusable` | packages/db/src/resolve-decision-ids.ts:49 | an id of the known shape is never confusable |
| `DecisionIds.UnderscoreIsWild` | packages/db/src/resolve-decision-ids.ts:96-98 | a stored string that a pattern finds and that does not extend the id |
| `DecisionIds.LikeScanIsPrefixScan` | packages/db/src/resolve-decision-ids.ts:90-120 | with no confusable id stored the query answers as a prefix scan |
| `DecisionIds.ResolveDecisionIds` | packages/db/src/resolve-decision-ids.ts:58-123 | the loops, with the query limited to two rows, answer as unlimited scans |
| `DecisionIds.OutputsPartition` | packages/db/src/resolve-decision-ids.ts:58-123 | the three outputs partition the trimmed distinct inputs, and each holds what the prefix scan says |

## Left out

- The Postgres branches, which repeat the SQLite ones, and the branches that do nothing on Postgres.
- Row ids and created/updated times of aggregates, policies and versions' actors and summaries; the audit event inserted by a publish.
- The queueing of rollup rows for synchronisation, and foreign-key effects of deleting runs and projects, whose schema is not part of this model.
- `MemoryTables.MakeCohort`: channels are text and only `push` and `pull` are counted; `SecondPassExactly` is for events on these two channels, the only ones the code writes.
- `Utf8Chunks.Decode`: files that are not valid UTF-8; a byte is given as its character and its place in it, not as a number.
- ORDER BY ties: the model breaks them by table order, except in the audit chain and in `LookupSureExactly`, where every choice is allowed; SQLite promises none.
- `AuditRows.Payload`: the metadata text is a given string; `JSON.stringify` of the metadata object is not modelled.
- `CanonicalJson.Stringify`: values of type `undefined` and lone surrogates are not modelled; a number is its printed numeral.
- `Text.StringLe`: JavaScript sorts by UTF-16 code unit, the model by code point; they differ only between characters above U+FFFF and those from U+E000 to U+FFFF.
- `PolicyTables.AddPolicyRule`: priorities are whole numbers, and the statements of one policy call are not interleaved with other calls.
- `CodexPermissions.Lower`: lower-casing is modelled on the characters whose lower case is an ASCII letter, which is all the searched words can meet.
- `LogTailer.TailDeliversEveryLineOnce`: polls after a start inside a character, once the offset has drifted as `HandOverExactly` says; after a file that has shrunk to inside a character likewise.
- `MemoryOverlap.Moved`: which pass `stop` awaits when two are under way.
- `KillSwitches.KillSwitchTable.Insert`: session ids of pausers are not columns.
- File watching, debouncing, poll timers and worker intervals: any sequence of polls, sweeps and steps stands for them.
- `GraphRefresh.AfterDrift`: the two git calls that measure drift are one await; reasons and log lines are not modelled.
- `RunStatus.Apply`: inserts take the default status, and the guard on completed runs that a header comment of destinations.ts describes is not in the code, so `CloseRun` is unconditional.
- `RunDiff.ParseNameStatus`: numstat and porcelain parsing, truncation of the unified diff and running git; upper-casing is ASCII.
- `RecipesIndex.RenderForInjection`: reading the index from disk, logging, and which locale orders the slugs.
- Rendering of the session overview and the update of the Work Pack row around the section replacement.
- `DecisionIds.Expand`: the project filter is applied before the model's stored ids, and LIKE is SQLite's.
