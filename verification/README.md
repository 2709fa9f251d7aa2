# Verified model of the data-operations backend

The backend takes uploaded CSV tables through profiling, cleaning, duplicate matching and
export, runs that work on leased task runs, and later deletes the files it produced. This
project models its four hardest parts in Dafny and proves what they promise. Check it with
`dafny verify dfyconfig.toml`.

**Matching and export.** `match` is a fast algorithm: it chains identical rows, scores one
representative per identical group inside blocks of equal blocking key, and joins duplicates
in a disjoint-set forest with path compression and union by rank. The model keeps that form
(`UnionFinds.UnionFind`, `MatchRecorder.Recorder`, the loops of `MatchChains`, `MatchBlocks`
and `MatchGroups`) and is proved equal to a simple one: the transitive closure of a pairwise
relation over all rows. `Export` and `ExportTheorems` carry that through storage, reload and
`materialize` to the deduplicated table.

**Lease protocol.** Claims, heartbeats, completions, failure reports (split into their read
and their guarded update) and reaps are steps of a transition system over rows, event log,
clock and tokens (`Lease`). `LeaseInvariant` proves one invariant of every step;
`LeaseTheorems`, `LeaseBackoff` and `LeaseExpiry` draw the guarantees for whole runs, and
`LeaseEngine` is the imperative form, each of whose methods is proved to be a run of those
steps.

**Scheduler.** `Scheduler` is the pass with its exclusion set; `SchedulerRaces` lets commits
of any number of passes interleave with edits and shows the pass to be a run of that system.

**Approval and retention.** `Retention` is the state machine of decision requests (split
into their unlocked read and their unguarded write), purge transactions and crashes over runs
and files. `RetentionDecisions` says what decisions are worth when requests overlap.
`RetentionPass` and `RetentionWorker` are the bounded pass over three tables with one budget,
and `RetentionRefinement` proves that pass to be a run of the state machine.

**Cleaning and profiling.** `CleaningRules` and `Cleaning` are the cell pipeline and its
change log, `CleaningReplay` replays and undoes that log, `Profiling` compares the counts
with the profiler's.

`MatchMeaning`, `LeaseOutcomes` and `RetentionCounts` tell what results, outcomes and counters
mean in terms of cells, settings and faults, without the functions that compute them.

`Wrappers`, `Sequences`, `Powers`, `Tables`, `Graph`, `Text` and `Batch` are shared
vocabulary: options, ascending lists, powers of two, rows, closure of an edge set, whitespace
and string order, and "the first k items in order".

## Assumptions

- Scores, weights and confidences are `real`. Field weights are positive wherever a result
  needs it, as the database demands of them.
- Every row has the width of the header, as the CSV loader guarantees.
- Case folding and the number and date parsers are parameters. Where a result depends on
  them, their contract is a hypothesis: `casefold` blanks nothing that is not blank, and
  canonical forms are printed without surrounding whitespace.
- A new lease token differs from every token generated or presented before. Callers present
  any token they like. A call reads the clock once, on entry; a claim may carry any clock
  reading up to the present. The clock never runs backwards. That nobody else writes a row
  between its selection and its claim is used for the backoff results only; it is a hypothesis
  about the schedule there (`LockingRun`), and `ClaimBatch` is proved to meet it.
- The modelled event log carries the token and the clock of the call that wrote the event, so
  that properties can speak of them.
- Schedule intervals are positive. A pass holds the row lock from selection to commit, so the
  interval it uses is the one in force; an edit of the interval may write long after it read the
  clock.
- An output path is used by one run only and no file is ever recreated. A purge transaction
  holds the lock of its row, so the write of a decision waits for it; reads do not. A decision
  is stamped with a clock reading made between its read and its write. Any file may be removed
  from outside at any time.
- What may go wrong (tasks whose transaction fails, deletions that fail or are interrupted)
  is a parameter. So are settings, clocks and fresh tokens.
- A dictionary whose insertion order the code relies on is a map beside a sequence of its keys.

## Where code and documentation disagree

The model follows the code.

- `backend/app/worker/reaper.py:7-11` says that the reclaiming update rechecks the expiry, so
  that a last-moment heartbeat defeats the reaper. The code rechecks only status and token.
  `LeaseExpiry.LiveLeaseReclaimed` gives a run in which the lease is expired at the scan, renewed
  and in force at the update, and reclaimed; `LeaseExpiry.ReapedStillExpiredIff` says exactly
  when a reaped lease is still expired. What does hold, that only one of the competing reports
  takes effect, is `LeaseTheorems.OneReleasePerToken`.
- The approve, reject and rollback endpoints document a state machine
  (`backend/app/api/tasks.py:638-640`, `662`, `684-687`) but read the row without a lock
  (`566-572`) and write it by primary key without checking the status again. Overlapping
  requests can reject what has been approved, with both timestamps set
  (`RetentionDecisions.RejectionOverwritesApproval`). The documented moves are kept exactly
  when no decision is written between the read and the write of another
  (`RetentionDecisions.DecisionsAreFinal`); retention's own guarantees do not depend on that.
- The change log names columns by header only, and the loader admits repeated headers. Replay
  therefore fails for some table under every repeated header
  (`CleaningReplay.RepeatedHeaderBreaksReplay`) and is right for all tables exactly when the
  headers are distinct (`CleaningReplay.ReplaysExactlyWhenDistinct`).
- Blocking by the heaviest field is described as a bound on work, but it also loses duplicates
  unless its column dominates. `Comparison.LosslessIffDominant` gives the exact condition on
  the weights and the threshold, and `Comparison.BlockingLosesOtherwise` the lost pair.

## Model

| member | source | states |
|---|---|---|
| Forests.CompressRoot | backend/app/matching/clustering.py:12-19 | path compression changes the root of no element, on or off the compressed chain |
| Forests.CompressExact | backend/app/matching/clustering.py:16-18 | after `find(x)` exactly the elements on x's parent chain point at its root; every other pointer is as before |
| Forests.LinkRoot | backend/app/matching/clustering.py:21-29 | linking two roots gives both trees the root of higher rank and leaves every other root alone |
| Forests.LinkSound | backend/app/matching/clustering.py:25-29 | linking by rank keeps ranks strictly increasing towards the parent and 2^rank within the size of each root's tree |
| Forests.UnionRoots | backend/app/matching/clustering.py:21-29 | after `union(a, b)` two elements share a root iff they did before or lie one in each of the two merged trees |
| Clustering.RootsAreComponents | backend/app/matching/clustering.py:12-29 | in a forest that represents a set of united pairs, same root iff connected by those pairs |
| Clustering.UnionRepresents | backend/app/matching/clustering.py:21-29 | a union extends the represented set of pairs by the pair united |
| Clustering.RunRepresents | backend/app/matching/clustering.py:8-29 | any sequence of finds and unions from singletons represents exactly the pairs united in it |
| Clustering.PartitionIsClosure | backend/app/matching/clustering.py:8-39 | after any such sequence the partition is that of the reflexive-symmetric-transitive closure of the united pairs |
| Clustering.OrderOfUnionsIrrelevant | backend/app/matching/clustering.py:8-39 | permuting the calls does not change the partition |
| Clustering.ChainsAreLogarithmic | backend/app/matching/clustering.py:12-29 | in every reachable forest 2^hops and 2^rank are at most the size of the tree, so chains have at most log2(n) hops |
| Forests.HopsLeadToRoot | backend/app/matching/clustering.py:12-15 | following that many pointers leads to the root and no fewer do |
| UnionFinds.UnionFind.constructor | backend/app/matching/clustering.py:8-10 | a new structure is singletons and represents no pair |
| UnionFinds.UnionFind.Find | backend/app/matching/clustering.py:12-19 | both loops end, the result is the root of the chain and the new state is the compressed forest |
| UnionFinds.UnionFind.Attach | backend/app/matching/clustering.py:25-29 | the second root is hung under the first unless it has the higher rank; on a tie, and only then, the rank of the first goes up by one |
| UnionFinds.UnionFind.Union | backend/app/matching/clustering.py:21-29 | the new state is the union of the forest model, and stays sound |
| UnionFinds.UnionFind.Components | backend/app/matching/clustering.py:31-39 | the dictionary lists every tree in full, ascending, under its root, and no root has changed |
| UnionFinds.ComponentsAreClasses | backend/app/matching/clustering.py:31-39 | two elements are listed together iff the united pairs connect them |
| Text.TrimProperties | backend/app/cleaning/rules.py:57-63 | trimming leaves no outer whitespace, is blank exactly on blank input and ignores outer whitespace |
| Text.StripExact | backend/app/cleaning/rules.py:60 | stripping takes away whitespace only, and all of it that stands at an end |
| Text.TrimKeepsWords | backend/app/cleaning/rules.py:57-63 | trimming keeps every visible character in order; neighbours that touch still touch, all others are one space apart, and no other whitespace is left |
| Text.Sort | backend/app/matching/engine.py:165 | the keys come out strictly ascending in code-point order, none lost or added |
| Text.LessMeaning | backend/app/matching/engine.py:165 | one key comes before another if it is cut short of it or has the smaller character where they first differ |
| Comparison.BlankKeyIffBlankCell | backend/app/matching/blocking.py:9-15 | a blocking key is blank exactly when the cell is |
| Comparison.FoldingsSee | backend/app/matching/blocking.py:9-15 | column names are folded with only outer whitespace gone, cells with their words one space apart |
| Comparison.ColumnIndex | backend/app/matching/blocking.py:32-37 | the first header equal to the name after strip and fold, or none if there is none |
| Comparison.ComparePair | backend/app/matching/comparison.py:17-63 | each audit entry tells of the last field of its name: raw cells and their equality for an exact field, foldings and theirs for a normalised one; the score is the weight of the matched fields over the weight of all |
| Comparison.ScoreMeaning | backend/app/matching/comparison.py:44-63 | the score adds up to what the comparisons of the single fields say |
| Comparison.ComparisonsAudit | backend/app/matching/comparison.py:55-61 | the audit dictionary has an entry for each field name and no other, each telling truly how the two cells compare |
| Comparison.ScoreRange | backend/app/matching/comparison.py:38-43 | scores lie in [0, 1] and are 1 on identical rows |
| Comparison.ScoreSymmetric | backend/app/matching/comparison.py:32-63 | the order of the two rows does not matter |
| Comparison.BlockingIndex | backend/app/matching/blocking.py:18-29 | the blocking field is the earliest of the heaviest |
| Comparison.SelectBlockingField | backend/app/matching/blocking.py:25-29 | the running-best loop finds that field |
| Comparison.BlockingIsLossless | backend/app/matching/blocking.py:18-58 | if the heaviest weight exceeds (1 - threshold) of the total, rows that score as duplicates have the same key, for both comparison types |
| Comparison.DominanceIsLossless | backend/app/matching/blocking.py:18-58 | if the fields that read the blocking column together exceed (1 - threshold) of the total, or the column is absent, rows that score as duplicates have the same key |
| Comparison.BlockingLosesOtherwise | backend/app/matching/comparison.py:17-63 | otherwise two rows can be given that score as duplicates under different non-blank keys |
| Comparison.LosslessIffDominant | backend/app/matching/blocking.py:18-58 | blocking loses no duplicate with usable keys iff the fields that read the blocking column dominate or it is absent, for every rule set |
| MatchRecorder.Recorder.constructor | backend/app/matching/engine.py:37-50 | a new recorder has decided nothing and tallied nothing |
| MatchRecorder.Recorder.Record | backend/app/matching/engine.py:52-88 | tallies count every decision; the stored list is the first `cap` of them and its duplicate positions are pending |
| MatchRecorder.Recorder.Decide | backend/app/matching/engine.py:185-220 | a duplicate is united, kept as an edge and recorded, an ambiguous pair only recorded, so the forest represents the duplicate decisions |
| MatchChains.GroupIdenticalRows | backend/app/matching/engine.py:99-101 | the dictionary lists the occurrences of each distinct row, in order of first occurrence, and the lists add up to all rows |
| MatchChains.OrderCountsDistinct | backend/app/matching/engine.py:99-101 | there are as many groups as distinct rows |
| MatchChains.ChainGroup | backend/app/matching/engine.py:113-141 | one group is chained by exactly its consecutive pairs, one comparison each |
| MatchChains.ChainIdenticalRows | backend/app/matching/engine.py:99-141 | the first stage decides exactly the consecutive identical pairs, in order, with n - d comparisons, and maps rows to their lowest copy |
| MatchBlocks.CandidateRows | backend/app/matching/engine.py:148-157 | the candidates are the first occurrences of the distinct rows, ascending |
| MatchBlocks.BuildBlocks | backend/app/matching/blocking.py:40-58 | each non-blank key has exactly its candidates, ascending; blank keys have no block |
| MatchBlocks.ScorePair | backend/app/matching/engine.py:178-220 | a pair yields a duplicate, an ambiguous or no decision according to the two thresholds |
| MatchBlocks.ScanBlock | backend/app/matching/engine.py:176-220 | all pairs of a block are scored once each, in order, in s(s-1)/2 comparisons, after everything decided before |
| MatchBlocks.ScoreBlocks | backend/app/matching/engine.py:147-220 | the second stage decides exactly the reported pairs of the kept blocks in key order; each oversized block is recorded with its size and lowest rows |
| MatchGroups.RootsByLowestRow | backend/app/matching/engine.py:233 | components come in order of their lowest row |
| MatchGroups.GroupsFromComponents | backend/app/matching/engine.py:230-243 | each tree of two or more rows becomes one group headed by its lowest row, with an inverse index |
| MatchGroups.CollectConfidences | backend/app/matching/engine.py:245-248 | under each root exactly the confidences of the duplicate edges of its tree |
| MatchGroups.SetConfidences | backend/app/matching/engine.py:250-259 | each group takes the least confidence collected under its root and is otherwise unchanged |
| MatchGroups.WireDecisions | backend/app/matching/engine.py:264-282 | stored duplicates get the group of their tree; ambiguous decisions and all other fields stay as they are |
| MatchGroups.OverallConfidence | backend/app/matching/engine.py:284 | the least group confidence, 1 if there is no group |
| MatchGroups.TreesAreGrouping | backend/app/matching/engine.py:230-259 | the groups are exactly the classes of two or more rows under the duplicate decisions, each with the minimum over all its edges |
| MatchEngine.Cluster | backend/app/matching/engine.py:230-282 | the clustering stage yields those groups and a correct wiring of the capped decisions |
| MatchEngine.Match | backend/app/matching/engine.py:31-298 | the whole result: full decision trace, groups, wiring, tallies, skipped blocks, confidence, and comparisons equal to n - d plus s(s-1)/2 over the kept blocks |
| MatchRefinement.RepConnected | backend/app/matching/engine.py:103-117 | the chain of decisions connects every row with its representative |
| MatchRefinement.MatchRefinesNaive | backend/app/matching/engine.py:99-243 | the decisions of the two stages connect two rows iff the simple relation over all rows does: identical, or same non-blank key in a kept block and score at the threshold |
| MatchRefinement.BlockingInvisible | backend/app/matching/engine.py:147-220 | with a dominant blocking column and no oversized block, neither representatives nor blocks show: the classes are those of the score alone |
| MatchRefinement.DecisionOrdered | backend/app/matching/engine.py:114-141 | every decision names two rows of the table in ascending order, and is a chain decision iff they are identical |
| MatchRefinement.NoPairTwice | backend/app/matching/engine.py:114-220 | no pair is decided twice, within a stage or across stages |
| MatchAudit.GroupsAreNaiveClasses | backend/app/matching/engine.py:230-243 | two rows share a group of the result iff the simple relation connects them |
| MatchAudit.NoSkipNoOversize | backend/app/matching/engine.py:165-175 | an empty list of skipped blocks means that every usable block was compared |
| MatchAudit.GroupsAreScoreClasses | backend/app/matching/engine.py:99-243 | with nothing skipped and a dominant blocking column, the groups are the classes of "scores as a duplicate, with a usable key, or is identical" |
| MatchAudit.GroupsDisjoint | backend/app/matching/engine.py:230-243 | no row is in two groups |
| MatchAudit.IdenticalRowsGrouped | backend/app/matching/engine.py:99-117 | identical rows share a group whatever the limits |
| MatchAudit.ConfidenceFloor | backend/app/matching/engine.py:245-284 | threshold <= overall confidence <= each group's confidence <= 1; exactly 1 without a rule set |
| MatchAudit.NamedIsMember | backend/app/matching/engine.py:261-282 | a stored decision never names a row outside the group it points at, whatever the cap dropped |
| MatchAudit.NamedExactly | backend/app/matching/engine.py:52-88 | if the cap was not exceeded, the decisions pointing at a group name exactly its members |
| MatchAudit.FirstsCount | backend/app/matching/engine.py:148-157 | there is one representative per distinct row |
| MatchAudit.VolumeBound | backend/app/matching/engine.py:159-166 | the blocks together hold at most d rows |
| MatchAudit.WorkBound | backend/app/matching/engine.py:106-182 | comparisons are at most (n - d) + d(M - 1)/2, and skipped blocks times (M + 1) at most d |
| MatchMeaning.NormalizedFieldGroups | backend/app/matching/comparison.py:24-29 | with one normalised field and nothing skipped, two rows share a group iff they are identical or their cells fold to the same usable key |
| MatchMeaning.ExactFieldGroups | backend/app/matching/comparison.py:24-29 | with one exact field the cells must be equal as they are, with a usable key |
| MatchMeaning.KeyMeaning | backend/app/matching/blocking.py:18-58 | a row's key is the folding of what the earliest heaviest field reads in it |
| MatchMeaning.DecisionsRecordTruly | backend/app/matching/engine.py:119-141 | every decision is a chain of two consecutive identical rows with certainty, or a pair of one block with its audit, its score and the verdict the thresholds give |
| MatchMeaning.ReportedExactly | backend/app/matching/engine.py:185-208 | a pair that meets in a kept block is a duplicate iff its score reaches the threshold, and ambiguous iff it lies between the two thresholds |
| MatchMeaning.DecisionsInOrder | backend/app/matching/engine.py:106-178 | decisions come chains first, by first row and along the chain, then pairs by key and rows |
| MatchMeaning.StoredAreFirst | backend/app/matching/engine.py:52-88 | the stored list is the first decisions up to the cap, changed in their group only |
| MatchMeaning.CountersCount | backend/app/matching/engine.py:52-88 | the counters are the numbers of duplicate, ambiguous and per-rule decisions of the full list |
| MatchMeaning.ComparisonsCounted | backend/app/matching/engine.py:118-182 | comparisons are one for each repeated row and one for each pair of distinct rows that meet in a kept block |
| MatchMeaning.SkippedExactly | backend/app/matching/engine.py:165-175 | a usable key is skipped iff more distinct rows share it than the limit allows, with that number and its lowest rows on record |
| Export.CollectMembers | backend/app/worker/handlers/export.py:284-287 | the canonical row and every row named by the group's decisions, nothing else |
| Export.SortRows | backend/app/worker/handlers/export.py:303 | the members ascending, none lost or added |
| Export.LoadGroups | backend/app/worker/handlers/export.py:258-306 | loading succeeds iff every group names as many rows as it records, and then returns those rows |
| Export.BuildExclusions | backend/app/export/engine.py:68-72 | a row is in the table iff some group has it as a non-canonical member, and the last such group is on record |
| Export.Materialize | backend/app/export/engine.py:53-112 | the rows no group excludes, in order: the source cells, then "True" under the canonical-record header, then a numeral that reads as the source index under its header; all counts; exactly the lowest excluded rows up to the cap, in row order, each with the group responsible |
| Export.OutputRowProvenance | backend/app/export/engine.py:95-99 | the row written carries its source cells and its provenance in that order |
| Export.DecimalRoundTrip | backend/app/export/engine.py:99 | the source index written to the provenance column reads back as the same number |
| ExportTheorems.LoadedGroupExact | backend/app/worker/handlers/export.py:284-296 | the count comparison is enough: if it passes, the rebuilt members are the members of the match, whatever the cap dropped |
| ExportTheorems.LoadsIffNamed | backend/app/worker/handlers/export.py:284-296 | the count comparison passes iff every member is canonical or named by a stored decision |
| ExportTheorems.LoadingSucceeds | backend/app/worker/handlers/export.py:261-268 | if the decision cap was not exceeded, no group fails to load |
| ExportTheorems.MatchAndLoad | backend/app/worker/handlers/export.py:258-306 | match, store, reload gives back the groups of the match or an error, the error exactly when some member was dropped |
| ExportTheorems.LowerMateExcludes | backend/app/export/engine.py:68-94 | a row with a lower row in its class is excluded |
| ExportTheorems.ExcludedHasLowerMate | backend/app/export/engine.py:68-94 | an excluded row has a lower row in its class |
| ExportTheorems.KeptIffLowest | backend/app/export/engine.py:68-99 | a row is kept iff it is the lowest of its class under the simple relation |
| ExportTheorems.KeptAreLowest | backend/app/export/engine.py:78-99 | the kept rows, as a list, are the lowest of every class in ascending order |
| ExportTheorems.OneRowPerClass | backend/app/export/engine.py:59-66 | every row has exactly one survivor in its class |
| ExportTheorems.NoDuplicateSurvives | backend/app/export/engine.py:59-66 | no two exported rows agree on all original columns |
| ExportTheorems.RowsConserved | backend/app/export/engine.py:101-102 | rows out plus the sum of (group size - 1) is rows in |
| ExportTheorems.DeduplicatedUnique | backend/app/export/engine.py:59-66 | the rows of the output are determined by the input and the simple relation alone |
| ExportTheorems.Deduplicate | backend/app/export/engine.py:53-112 | the whole pipeline: lowest row of each class in order with cells, flag and index under the two reserved headers, pairwise different, conserved in number; fails exactly when the cap lost a member |
| LeaseInvariant.RowsMatchStep | backend/app/worker/engine.py:92-293 | every step keeps each row equal to what its own event history dictates, including that running rows have no error message |
| LeaseInvariant.TokensSoundStep | backend/app/worker/engine.py:119-146 | every step keeps: a token has at most one claim and one release, and a released token is on no row |
| LeaseInvariant.CallsSoundStep | backend/app/worker/engine.py:154-187 | every step keeps: whoever presents a claimed token entered no earlier than its claim |
| LeaseInvariant.ReadsSoundStep | backend/app/worker/engine.py:230-237 | every step keeps: what a failure report read stays true for as long as its token is current |
| LeaseInvariant.AttemptsBoundedStep | backend/app/worker/engine.py:133-237 | every step keeps the attempt counts within the largest limit read, and below it while pending |
| LeaseInvariant.InvStep | backend/app/worker/engine.py:92-293 | every step of any caller keeps the whole invariant |
| LeaseInvariant.InvAlways | backend/app/worker/engine.py:92-293 | the invariant holds after every interleaving |
| LeaseTheorems.StaleTokenIsInert | backend/app/worker/engine.py:164-289 | a report under a token that is not the row's current one changes neither rows nor log; no report touches another row |
| LeaseTheorems.OneReleasePerToken | backend/app/worker/engine.py:187-289 | over every run each token is claimed at most once and released at most once |
| LeaseTheorems.ReleasedTokenIsDead | backend/app/worker/engine.py:187-289 | once released, a token holds no row |
| LeaseTheorems.StaleReadStillRight | backend/app/worker/engine.py:232-289 | whenever the guarded update takes effect, the attempt count read earlier is the current one and the retry decision is right for it |
| LeaseOutcomes.CreatedRunIsDue | backend/app/worker/engine.py:105-109 | a new run is pending, untried and due at once |
| LeaseOutcomes.LeaseTerm | backend/app/worker/engine.py:119-171 | a claim or heartbeat gives the lease for the task's own timeout, or the default where that is missing or zero |
| LeaseOutcomes.LimitRead | backend/app/worker/engine.py:232-236 | a failure report reads the row's attempts and the task's own limit, or the default where that is missing or zero |
| LeaseOutcomes.FailureOutcome | backend/app/worker/engine.py:236-292 | when the update takes effect the run is requeued iff the report is retryable and the row's own attempts are below the limit read, and given up otherwise, with one matching event |
| LeaseOutcomes.ReleasesJustified | backend/app/worker/engine.py:236-292 | over every run, a give-up comes from a report that was not retryable or had reached the limit it read, a requeue from one that was and had not |
| LeaseOutcomes.FailedAfterAllAttempts | backend/app/worker/engine.py:236-285 | if all reports of a run are retryable and read the limit m, it fails after exactly max(1, m) attempts |
| LeaseOutcomes.FixedLimitIsReached | backend/app/worker/engine.py:236-285 | so it does whenever its task's limit is fixed at m and its failures are retryable |
| LeaseExpiry.ExpiryFollowsRenewals | backend/app/worker/engine.py:154-176 | while a lease is held its expiry is the one set by the last heartbeat that took effect, over every run |
| LeaseExpiry.ReapedStillExpiredIff | backend/app/worker/reaper.py:36-63 | over every run, a lease expired at the scan and held at the update is expired then iff no heartbeat took effect in between or the last one set an expiry that has passed |
| LeaseExpiry.RenewalDoesNotStopReaper | backend/app/worker/reaper.py:46-63 | from every state with an expired lease, a heartbeat before or after the report's read can put it in force again, and the update still takes the run away |
| LeaseExpiry.LiveLeaseReclaimed | backend/app/worker/reaper.py:46-63 | a run from the empty store that shows it: expired at the scan, in force at the update, reclaimed |
| LeaseExpiry.ReportEndsLease | backend/app/worker/reaper.py:49-62 | in any interleaving, the lease a report was made about is over once its update was tried, for good |
| LeaseTheorems.ConstraintsAlwaysHold | backend/app/models/task_run.py:80-103 | every reachable row meets the status, lease and finished-after-started CHECK constraints |
| LeaseTheorems.LogDeterminesRow | backend/app/worker/engine.py:133-292 | a run's events are (claimed requeued)* then optionally claimed and succeeded or failed; replaying them gives status and attempt count, which is the number of claims |
| LeaseTheorems.LogAppendOnly | backend/app/worker/engine.py:70-89 | the log is only ever extended |
| LeaseTheorems.AttemptsWithinLimits | backend/app/worker/engine.py:236-237 | attempts never exceed max(1, largest limit ever read), under arbitrary edits of the limit |
| LeaseTheorems.TransitionsBounded | backend/app/worker/engine.py:133-285 | with limits at most m a run has at most 2*max(1, m) transitions, and is finished when it has made them |
| LeaseTheorems.TerminalForever | backend/app/worker/engine.py:124-289 | a finished run never changes and logs nothing more |
| LeaseBackoff.OnTimeIffRowAtomic | backend/app/worker/engine.py:105-126 | a claim after a failure respects the backoff iff the row is still due at the claim's clock, which the claim guard does not recheck |
| LeaseBackoff.LockedClaimsAreDue | backend/app/worker/engine.py:102-126 | if every claimed row was selected as due and written by nobody else since, every claim is of a due row |
| LeaseBackoff.LockingConcat | backend/app/worker/engine.py:112-148 | runs that lock can follow each other, so batches may alternate with any other steps |
| LeaseBackoff.ClaimsWait | backend/app/worker/engine.py:105-260 | when claims lock their rows, the (k+1)-th claim comes at least min(base*2^(k-1), cap) after the k-th failure |
| LeaseBackoff.DelaysGrowToCap | backend/app/worker/engine.py:240-243 | the delays never shrink, never exceed the cap and start at the base |
| LeaseBackoff.DelayDoubles | backend/app/worker/engine.py:240-243 | the first delay is the base, each next one twice the last, all capped |
| LeaseBackoff.TotalWaitIsSum | backend/app/worker/engine.py:240-243 | the total wait before an attempt is the sum of the delays before it |
| LeaseBackoff.DueIffWaited | backend/app/worker/engine.py:105-108 | a pending run is offered to claims iff it is new or has waited out the delay of its last failure |
| LeaseBackoff.FailureWaitedLongEnough | backend/app/worker/engine.py:239-282 | a run that failed for good has waited at least the sum of its delays |
| LeaseEngine.TaskRunStore.constructor | backend/app/worker/engine.py:92-151 | an empty store satisfies the invariant |
| LeaseEngine.TaskRunStore.Heartbeat | backend/app/worker/engine.py:154-176 | renews the lease for the timeout in force and changes nothing else; lease lost, and nothing changed, iff the token is not current |
| LeaseEngine.TaskRunStore.CompleteSuccess | backend/app/worker/engine.py:179-210 | the row succeeds with its output and end time, its lease is cleared and one event says so; lease lost, and nothing changed, iff the token is not current |
| LeaseEngine.TaskRunStore.WriteFailure | backend/app/worker/engine.py:239-292 | requeues iff the read was retryable and the row's attempts are below the limit it read, else fails for good; lease lost, and nothing changed, iff the token is no longer current |
| LeaseEngine.TaskRunStore.CompleteFailure | backend/app/worker/engine.py:217-292 | read and write together: requeues iff retryable and below the limit in force, else fails for good; lease lost, and nothing changed, iff the token is not current |
| LeaseEngine.TaskRunStore.NextCandidate | backend/app/worker/engine.py:102-110 | an oldest due run not yet taken, or none if all are taken |
| LeaseEngine.TaskRunStore.Candidates | backend/app/worker/engine.py:102-117 | the oldest due runs, at most the batch |
| LeaseEngine.TaskRunStore.ClaimBatch | backend/app/worker/engine.py:92-151 | claims exactly those candidates: each is leased under its token for the timeout in force with one attempt more and one event, no other row changes; a run of claim steps that locks its rows, so every row claimed is due |
| LeaseEngine.TaskRunStore.ScanExpired | backend/app/worker/reaper.py:36-47 | exactly the runs with an expired lease, once each, with their tokens |
| LeaseEngine.TaskRunStore.ReapExpiredRuns | backend/app/worker/reaper.py:28-70 | undisturbed, every expired run is requeued if its attempts are below the limit in force and failed otherwise, no other row changes, no expired lease remains and the count is that of events written |
| LeaseEngine.ReportEffect | backend/app/worker/engine.py:217-292 | a failure report by the holder writes one event, requeues or fails the run and leaves all others |
| LeaseExpiry.FreshLeaseOutlastsTimeout | backend/app/worker/engine.py:121-171 | over every run, a lease given or renewed and still held looks expired to a scan before its end iff the last heartbeat since set an earlier end |
| LeaseExpiry.LateHeartbeatShortens | backend/app/worker/engine.py:161-172 | a heartbeat that entered earlier and lands later sets the expiry back by the difference |
| Batch.FirstOfUnique | backend/app/worker/scheduler.py:98-113 | the first k items in (time, id) order are a single list: a pass has no freedom |
| Scheduler.TaskTable.constructor | backend/app/worker/scheduler.py:98-104 | a table of valid tasks with no runs yet |
| Scheduler.TaskTable.SelectDue | backend/app/worker/scheduler.py:98-113 | the earliest due active task not excluded, none only if there is none |
| Scheduler.TaskTable.Advance | backend/app/worker/scheduler.py:122-132 | compare-and-set on the time seen: advances iff the row is still as selected |
| Scheduler.TaskTable.RunDueSchedules | backend/app/worker/scheduler.py:72-170 | undisturbed, a pass attempts exactly the first min(batch, due) active tasks whose next run is past, in order of that time and identifier, each once; it creates one run at the pass clock and advances the task exactly for those that commit, and returns their number |
| Scheduler.Remaining | backend/app/worker/scheduler.py:97-164 | mid-pass, due and not excluded is the same as due at the start and not yet attempted |
| SchedulerRaces.SpacedStep | backend/app/worker/scheduler.py:121-148 | a step keeps the next run of a task a full interval after its last iff it is not an edit whose clock reading is older than a run of the task |
| SchedulerRaces.SpacedAlways | backend/app/worker/scheduler.py:92-164 | so does every interleaving without such a late edit |
| SchedulerRaces.RunsKeepTheirDistance | backend/app/worker/scheduler.py:92-164 | under any interleaving of passes and timely edits two runs of a task have pass clocks at least the interval in force apart |
| SchedulerRaces.NoEditsAreTimely | backend/app/worker/scheduler.py:92-164 | with the interval left alone nothing is assumed: every interleaving of passes keeps the distance |
| SchedulerRaces.LateEditBringsRunsTooClose | backend/app/api/tasks.py:301-307 | after a late edit of an active task there is always a continuation with two runs too close |
| SchedulerRaces.PassIsCommits | backend/app/worker/scheduler.py:97-164 | the specified effect of a pass is that of its commits one by one |
| SchedulerRaces.UndisturbedPassIsARun | backend/app/worker/scheduler.py:72-170 | the undisturbed pass is one run of the interleaved system |
| Retention.ReviewedRun.constructor | backend/app/api/tasks.py:638-641 | a run starts pending review with no decision timestamp |
| Retention.ReviewedRun.Approve | backend/app/api/tasks.py:632-650 | undisturbed, succeeds iff pending review, and the decision timestamp is then the call's clock |
| Retention.ReviewedRun.Reject | backend/app/api/tasks.py:656-672 | undisturbed, succeeds iff pending review, and the decision timestamp is then the call's clock |
| Retention.ReviewedRun.Rollback | backend/app/api/tasks.py:678-697 | undisturbed, succeeds iff approved; the decision timestamp becomes the call's clock while the approval timestamp stays |
| Retention.InvStep | backend/app/worker/retention.py:274-347 | every step keeps the lifecycle invariant of runs, files, locks, requests and events, with decision reads and writes as separate steps |
| Retention.InvAlways | backend/app/worker/retention.py:274-347 | so does every run of steps, with any overlap of requests, purges and crashes |
| Retention.DeletedMeansAbsent | backend/app/worker/retention.py:312-316 | over every run with crashes, a recorded deletion means that the file is absent |
| Retention.DeletedOnce | backend/app/worker/retention.py:313-318 | a recorded deletion is never recorded again or altered |
| Retention.DeletedOnlyWhenExpired | backend/app/worker/retention.py:146-159 | behind every recorded deletion is an event whose current-status decision was past the window when claimed |
| Retention.ClaimedStaysEligible | backend/app/worker/retention.py:275-296 | from claim to commit the run stays eligible and is never pending review |
| Retention.DryRunIsReadOnly | backend/app/worker/retention.py:424-440 | a dry run changes no run and no file and writes one event that finalises nothing |
| RetentionDecisions.AloneIsGuarded | backend/app/api/tasks.py:641-650 | a request with nothing between its read and its write changes the row iff it finds the status it requires |
| RetentionDecisions.DecisionsAreFinal | backend/app/api/tasks.py:631-699 | over every run, all decisions written on a run make documented moves iff none was written between the read and the write of another |
| RetentionDecisions.DecisionsStand | backend/app/api/tasks.py:684-687 | without such overlaps, from any moment to any later one the status only moves forward and timestamps once set stay |
| RetentionDecisions.RejectionOverwritesApproval | backend/app/api/tasks.py:664-672 | a run in which a rejection is written over an approval, both requests succeeding |
| Retention.AbsentStaysAbsent | backend/app/worker/retention.py:442-463 | a file once gone is never back |
| Retention.CrashedDeletionCompletes | backend/app/worker/retention.py:409-463 | after a crash between unlink and commit, whatever happens next, the run has a decision, and unless deleted or locked already any cutoff covering it lets a purge record the deletion as already missing |
| Retention.CrashedDeletionStaysClaimable | backend/app/worker/retention.py:274-296 | if nobody decides on the run or claims it meanwhile, the cutoff of the crashed pass is enough |
| Retention.PurgeOfMissing | backend/app/worker/retention.py:457-463 | purging a run whose file is missing commits as already missing |
| RetentionPass.ProcessAllRows | backend/app/worker/retention.py:300-347 | a row is marked deleted exactly where a transaction was carried through; other tables never change |
| RetentionPass.DryPassIsReadOnly | backend/app/worker/retention.py:424-440 | dry transactions change no row and no file |
| RetentionPass.ConsideredIsEvents | backend/app/worker/retention.py:361-369 | the four counters together count the audit events |
| RetentionPass.BytesConserved | backend/app/worker/retention.py:361-363 | bytes lost on disk are the bytes reported, unless a transaction was lost after its unlink |
| RetentionRefinement.TransactionIsProtocolRun | backend/app/worker/retention.py:297-380 | each transaction of a pass, with each fault, is a run of the lifecycle state machine with the same rows, files and events |
| RetentionRefinement.PassIsProtocolRun | backend/app/worker/retention.py:535-558 | the whole pass over all tables is, for each table, one run of that state machine |
| RetentionRefinement.PassKeepsInvariant | backend/app/worker/retention.py:535-558 | so the invariant survives the pass and, in every table, a recorded deletion means that the file is absent |
| RetentionWorker.ArtifactStore.constructor | backend/app/worker/retention.py:130-139 | the tables and files given, no event yet |
| RetentionWorker.ArtifactStore.SelectEligible | backend/app/worker/retention.py:274-296 | the eligible run with the oldest decision not excluded, none only if there is none |
| RetentionWorker.ArtifactStore.Act | backend/app/worker/retention.py:300-463 | one transaction: completed with its size iff the file was there, already missing iff not, or failed with the reason its fault gives; the row marked iff carried through |
| RetentionWorker.ArtifactStore.ProcessOneRunType | backend/app/worker/retention.py:244-382 | attempts exactly the first `budget` eligible runs of a table, each once; each counter is the number of attempts that ended its way, told from faults and files |
| RetentionCounts.TableCounts | backend/app/worker/retention.py:300-369 | purged and already missing count the fault-free attempts by whether the file was still there, failed counts those with a path or OS fault, would-purge those of a dry pass |
| RetentionCounts.FilesLeft | backend/app/worker/retention.py:446-463 | a file is left iff it was there and no attempt of a real pass unlinked it |
| RetentionCounts.RealOrDry | backend/app/worker/retention.py:361-369 | a real pass counts nothing as would-purge, a dry one nothing as purged |
| RetentionWorker.ArtifactStore.PurgeExpiredArtifacts | backend/app/worker/retention.py:473-595 | nothing if disabled; else each table in turn gets the sorted prefix the shared budget allows, and each counter of the result is the number of attempts of the whole pass that ended its way |
| RetentionWorker.DryPassChangesNothing | backend/app/worker/retention.py:535-558 | a whole dry pass leaves all rows and files as they were |
| RetentionWorker.PassConservesBytes | backend/app/worker/retention.py:535-567 | over the whole pass, bytes reported are bytes lost |
| RetentionWorker.AttemptsWithinBatch | backend/app/worker/retention.py:535-558 | the tables together see at most `batch` attempts |
| CleaningRules.RulesReportChanges | backend/app/cleaning/rules.py:57-147 | a rule that names nothing has changed nothing |
| CleaningRules.CoerceKeepsStripped | backend/app/cleaning/rules.py:78-147 | coercion introduces no outer whitespace |
| CleaningRules.CleanCellProperties | backend/app/cleaning/rules.py:57-147 | cleaning a cell ignores outer whitespace, leaves none, and keeps blanks blank |
| CleaningRules.CleanCellMeaning | backend/app/cleaning/rules.py:57-147 | a cleaned cell told from the trimmed text and the parsers: blanks and equivalents become blank, typed columns take the canonical form or true/false, all else is kept |
| CleaningRules.UntypedCellKeepsWords | backend/app/cleaning/rules.py:57-75 | a cell of an untyped column keeps its visible characters in order and its words apart by one space |
| CleaningRules.ConfidenceOrder | backend/app/cleaning/rules.py:36-45 | trimming alone is certain and dates are trusted least |
| Cleaning.CountDuplicates | backend/app/cleaning/engine.py:99-114 | rows minus distinct rows |
| Cleaning.ChangeLog.constructor | backend/app/cleaning/engine.py:36-37 | an empty log with an empty tally |
| Cleaning.ChangeLog.Record | backend/app/cleaning/engine.py:74-96 | one entry iff a rule fired and the value changed, and the tally by rule stays that of the log |
| Cleaning.CleanOneCell | backend/app/cleaning/engine.py:43-56 | the cell after three rules, and the changes of each on the log |
| Cleaning.CleanOneRow | backend/app/cleaning/engine.py:39-57 | the cleaned row and its changes in column order |
| Cleaning.MinimumConfidence | backend/app/cleaning/engine.py:62 | the least confidence of the changes, 1 if there are none |
| Cleaning.Clean | backend/app/cleaning/engine.py:23-71 | all cells cleaned, words of untyped columns kept; only the stored list is capped, every count is of the full log |
| Cleaning.ChangesExplained | backend/app/cleaning/engine.py:39-96 | every entry of the log is a true change to the cell of its row and column, made by the rule it names |
| Cleaning.ChangesByRow | backend/app/cleaning/engine.py:39-61 | the log goes through the table row by row, so a capped log covers its first rows |
| Cleaning.CountRuleExact | backend/app/cleaning/engine.py:96 | the tally by rule counts the entries that name the rule |
| CleaningReplay.UndoInvertsReplay | backend/app/cleaning/engine.py:83-96 | any log that replays can be taken back to the start |
| CleaningReplay.LogReplays | backend/app/cleaning/engine.py:39-62 | with distinct headers the log turns the input into the cleaned rows and, reversed, the cleaned rows into the input |
| CleaningReplay.RepeatedHeaderBreaksReplay | backend/app/cleaning/engine.py:42-54 | for every repeated header there is a table whose log does not replay |
| CleaningReplay.ReplaysExactlyWhenDistinct | backend/app/cleaning/engine.py:39-96 | the log replays for all tables iff the headers are distinct |
| Profiling.ProfileCounts | backend/app/profiling/csv_profiler.py:83-97 | the loops compute the duplicate count over stripped rows and the blank cells of all columns |
| Profiling.MissingTotalExact | backend/app/profiling/csv_profiler.py:93-97 | the missing total is the number of blank cells in the table |
| Profiling.DuplicateCountsAgree | backend/app/cleaning/engine.py:99-114 | on cleaned rows the cleaner's and the profiler's duplicate counts are equal |
| Profiling.DuplicatesNeverDrop | backend/app/profiling/csv_profiler.py:86-87 | cleaning never lowers the profiler's duplicate count |
| Profiling.MissingNeverDrops | backend/app/profiling/csv_profiler.py:93-97 | cleaning never lowers the missing total |

## Left out

- CSV reading, sniffing and writing, artifact download, hashing, HTTP routing, paging, authentication and tenancy: input and output around the modelled logic.
- Rounding of floating-point scores: scores are exact reals.
- The text of decision, exclusion and change reasons, and rule versions: no behaviour depends on them.
- `duplicate_group_count` and `skipped_block_count`: the lengths of lists that the result already holds.
- `find_reserved_column_collisions`: one comprehension; the export is modelled for any headers.
- The tables behind case folding, decimals and dates, and the profiler's type inference and samples: parameters, or not used by any property here.
- Standardization, detection, remediation, validation and quality rules: mostly single counting loops.
- Metrics and logging: the retry and failure counters are raised before the update is known to have taken effect, so they tally no transition.
- The worker main loop, the heartbeat thread, and the fallback for databases without row locks.
- Starvation-freedom of scheduler and retention passes: it does not hold, since enough permanently failing oldest items use up every batch.
- Retention's branch for a lost race on `output_deleted_at` and its backlog snapshot: the first cannot happen under the row lock, the second feeds metrics only.
- A file whose size cannot be read before deletion: it would be reported with no size, so the conservation of bytes is stated for readable sizes.
- LeaseEngine.TaskRunStore.ReapExpiredRuns: states the undisturbed sweep; interleavings with other callers are covered in LeaseTheorems and LeaseExpiry.
- Scheduler.TaskTable.RunDueSchedules: states the undisturbed pass; interleavings are covered in SchedulerRaces.
- RetentionWorker.ArtifactStore.PurgeExpiredArtifacts: states the undisturbed pass with one clock reading; interleavings and crashes are covered in Retention, to which RetentionRefinement ties the pass.
