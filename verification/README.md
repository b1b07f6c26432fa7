# Evidence and documentation tooling: a verified model

The repository's scripts measure, audit and document a governed agent runtime. This project models the parts of
those scripts that decide something (what was measured, what a claim proves, which text a rewriter leaves behind)
and proves what each of them promises. `dafny verify dfyconfig.toml` checks everything.

| file | what it models |
|---|---|
| `WorkerPool.dfy`, `StoreBenchmark.dfy` | the concurrent write/read benchmark: the pool as a step machine over every interleaving of its workers, and the runner that updates the shared variables in place |
| `Latency.dfy`, `PassCriteria.dfy` | nearest-rank percentiles, and what a passing benchmark scenario is |
| `ClaimAudit.dfy`, `AuditReport.dfy`, `AuditEngine.dfy`, `CacheKey.dfy` | capability claims, the audit that asks the world anew for every piece of evidence, what its report says, and the audit as it is, with its two caches, in a world that may change its answers |
| `SyntaxTree.dfy`, `JsDocVisitor.dfy`, `JsDocEdits.dfy`, `Splice.dfy`, `SharedStarts.dfy` | the rewriter that inserts and replaces doc comments: tree walk, order of the edits, splice loop and exactly when it is right |
| `Paths.dfy`, `TargetPaths.dfy` | paths in a tree, and by them which functions the rewriter finds and what it emits for each |
| `CommentText.dfy`, `CommentMeaning.dfy`, `CommentPlaces.dfy`, `RewrittenFile.dfy`, `DocumentedFile.dfy` | the text of a comment and what it says, what becomes of the old comment and what stands between the new one and its function, what survives of a file, and the whole rewriter |
| `OneFunction.dfy`, `SharedLine.dfy` | files that come out wrong |
| `Catalog.dfy`, `RecordPaths.dfy`, `TableCell.dfy` | the function catalog: the walk with its two stacks, collaborators, which nodes are recorded and as what, and the escaping of table cells |
| `Replies.dfy` | the coalescing capture of a stream of replies and what is computed from it |
| `ScenarioInventory.dfy`, `InventoryReport.dfy` | the diagnostics of a scenario inventory and the evidence report built from the same inventory, and what the two say |
| `TurnMonitor.dfy` | the polling loop that decides when a conversation turn is complete |
| `ProviderRetry.dfy` | running a child script again within a deadline, and the freshness of the artifact returned |
| `EnvOverrides.dfy` | overriding and restoring environment variables, nested and out of order |
| `CliArgs.dfy` | the command-line parser, with a printer for its commands |
| `ScenarioHash.dfy`, `ModelComparison.dfy` | the 32-bit scenario hash and its update id; model slugs and the search for the latest metadata |
| `Seqs.dfy`, `Sorting.dfy`, `Text.dfy`, `Runs.dfy`, `Options.dfy` | counting, stable sorting, ECMAScript string operations, the replacement of runs of characters, optional values |

Code that changes variables step by step is a class or a method with loops; each is proved equal to a function of its
inputs or of the old state. What such a function gives is then stated again without it: by the actions of a schedule,
by the claims and their evidence, by the nodes of a tree and the paths to them, by the scenarios, the replies or the
characters of the input. What the world decides (how an operation ends,
what a command answers, what the clock says, what a regular expression matches) is a parameter, so every statement
holds for all of its answers.

## What the proofs show about the code

- Under every interleaving the pool ends after the same number of steps, with every index written once. The latencies
  and failures it returns are those of the operations of its schedule, in settling order. The two count thresholds of
  the benchmark add nothing: they hold exactly when no operation failed. A read interval of zero never reads, since
  `i % 0` is not a number.
- The report of the audit with caches is the cache-free report for the first answer to each question, even when the
  world changes its answers; each command is run once per timeout and each ledger read once, while artifacts and test
  paths are looked at anew for every piece of evidence. It passes exactly when ids are distinct, every claim meets its
  contract and every piece of evidence is satisfied, commands and ledgers by their first answers, artifacts and test
  paths as they are when looked at; a verified claim then has a command that was run and exited as promised. What the
  report says of every claim, and its totals, hold as stated whether it passes or not.
- The rewriter's walk finds the functions, methods and constructors at all paths of the tree, and the catalog's walk
  those, the accessors and the variables with a function; neither finds anything else, or anything twice.
- The walk of a tree in which comments, tokens and children stand as the parser places them emits its edits one behind
  the other. The splice loop then equals substituting all of them at once exactly where no replacement does harm
  (`SharedStarts.SpliceIsExact`), and whatever the texts are exactly where no replacement comes after another edit
  with its start (`SharedStarts.SubstitutesEveryText`). An insertion emitted before a replacement with its start is in
  the way: the cut takes the length of the range off the inserted text and the range together, so that what is left of
  the two stays behind the replacement (`SharedStarts.InsertionThenReplacement`). Insertions at one place, as for
  functions that share a line, come out in reverse order (`SharedStarts.InsertionsStack`).
- The range of a rewritten doc comment that opens on the line of an earlier function covers that line. The edits spare
  the first token of every function exactly when no comment does so (`JsDocEdits.SparesTargetsMeaning`), and then the
  loop is right as well. The parser attaches only comments that come after a line break, so it takes a lone carriage
  return, which the line search does not know, to bring this about (`JsDocEdits.PlainFileSwallowsNone`). In a file
  without one, all text survives but what stands between a function whose comment is rewritten and the token before it
  (`RewrittenFile.PlainFileSparesCode`), so every name, literal and keyword does (`PlainFileKeepsLeaves`).
  `SharedLine.RewriteSharedLine` rewrites a file with one: the first new comment loses its head, and the old comment
  stays.
- That the code survives does not make the file right. The old comment is removed to its end exactly where a line feed
  stands between that end and the function (`CommentPlaces.OldCommentGoes`). Otherwise its closing pair stays behind
  the new comment (`CloserStays`), as in an ordinary comment of two lines that ends on the function's line
  (`OneFunction.RewriteClosedLate`). Where no comment covers an earlier function, every new comment stands right
  before its function exactly where every function that gets one begins its line (`DocumentedFile.DocumentsAttach`);
  where one does not, the comment may even land in a block comment (`OneFunction.InsertUnderBlock`). Whatever else
  stands on the lines from the old comment to the function goes with it (`CommentPlaces.TakesCommentAloneMeaning`), as
  an ordinary comment between the two (`OneFunction.RewriteNoted`).
- A table cell decodes to its value, and holds no raw markup. For a reader that takes a backslash as escaping the
  character after it, the cell still falls apart exactly where the value has a pipe after an odd number of backslashes
  (`TableCell.CellFallsApart`), as that of a backslash and a pipe does. A carriage return is in the cell exactly if
  the value has one that no line feed follows, between two characters that are no space
  (`TableCell.CellKeepsReturns`).
- An inventory is free of errors exactly when it is well made in the sense of `ScenarioInventory.WellMade`. The
  evidence step then cannot throw; whether it passes depends on the length of the opening prompts alone.
- A turn that is merely answered, without any work being seen, times out unless direct replies are allowed. The test
  of the status alone would let a job record that is still queued complete the turn
  (`TurnMonitor.QueuedRecordCompletes`); the runtime files a job as recent when it starts or is recovered
  (src/interfaces/conversationWorkerLifecycle.ts:1186-1218), and whether such a record can reach the loop is not
  shown.
- The artifact a retried script returns is its own, except exactly where the last attempt left a stale one in place
  that had not been removed (`ProviderRetry.ReturnedArtifactIsFresh`); a failed removal goes unnoticed. A caller can
  be sure of it exactly when no artifact is there at the start and the first attempt's can be removed
  (`ProviderRetry.FreshExactly`).
- Overrides restored in the wrong order leave the environment as it was exactly when the outer scope changed no key
  that the inner one overrides (`EnvOverrides.OutOfOrderRestores`; `OuterValueStays` shows an outer value left
  behind).
- The update id of a scenario can be 2^31, which a signed 32-bit integer does not hold
  (`ScenarioHash.UpdateIdLeavesInt32`).
- The second emptiness check of the parsed goal, and the return after the retry loop, are never reached.

## Model

| member | source | states |
|---|---|---|
| WorkerPool.InvariantHolds | scripts/evidence/ledgerStorageBenchmark.ts:228-278 | over every legal schedule: indexes are claimed in order by exactly one worker each, a worker waits only for an operation of its own that has not settled, and no operation settles twice |
| WorkerPool.ConservationHolds | scripts/evidence/ledgerStorageBenchmark.ts:228-278 | at every point of every schedule, latencies plus logged failures of each kind equal the operations settled, the cursor is the claims plus the workers that returned, and the schedule is as long as its starts and settlements |
| WorkerPool.ErrorsIdentifyOperations | scripts/evidence/ledgerStorageBenchmark.ts:228-278 | every logged failure names a settled operation of its kind, and no operation is logged twice |
| WorkerPool.RecordsAreOfSchedule | scripts/evidence/ledgerStorageBenchmark.ts:242-266 | the write and read latencies are the times that the operations of the schedule took, and the errors their messages with their indexes, in settling order |
| WorkerPool.OutcomesAreCounted | scripts/evidence/ledgerStorageBenchmark.ts:242-266 | every settled operation left a latency or a failure, and no failure is logged exactly if none failed |
| WorkerPool.SettlesLastClaim | scripts/evidence/ledgerStorageBenchmark.ts:236-267 | an operation that settles is that of the index its worker claimed last |
| WorkerPool.ReadIndexesAreExact | scripts/evidence/ledgerStorageBenchmark.ts:254-266 | the indexes after whose write a read is made are the multiples of the interval below the total, ceil(total / interval) of them |
| WorkerPool.JoinedHistory | scripts/evidence/ledgerStorageBenchmark.ts:228-278 | at the join each index has been claimed by one worker, written once, and read once exactly if it is a read index; the cursor is the total plus the number of workers |
| WorkerPool.JoinedCounts | scripts/evidence/ledgerStorageBenchmark.ts:228-278 | at the join writes plus write errors are the total, and reads plus read errors the number of read indexes, under every interleaving and every failure |
| WorkerPool.TerminatesInRunLength | scripts/evidence/ledgerStorageBenchmark.ts:228-278 | no schedule is longer than workers + writes + reads, and one has joined exactly when it is that long |
| WorkerPool.NeverStuck | scripts/evidence/ledgerStorageBenchmark.ts:228-278 | a worker that has not returned can always move |
| StoreBenchmark.StoreRunner.constructor | scripts/evidence/ledgerStorageBenchmark.ts:228-235 | the runner starts at the empty schedule |
| StoreBenchmark.StoreRunner.TakeIndex | scripts/evidence/ledgerStorageBenchmark.ts:236-240 | claiming an index changes the cursor and the worker as one step of the machine |
| StoreBenchmark.StoreRunner.StartWorker | scripts/evidence/ledgerStorageBenchmark.ts:234-246 | starting a worker extends the schedule by that step and keeps the fields what the schedule makes of them |
| StoreBenchmark.StoreRunner.SettleWrite | scripts/evidence/ledgerStorageBenchmark.ts:242-254 | settling a write, as a success or a failure, extends the schedule by that step |
| StoreBenchmark.StoreRunner.SettleRead | scripts/evidence/ledgerStorageBenchmark.ts:254-267 | settling a read extends the schedule by that step |
| StoreBenchmark.StoreRunner.Run | scripts/evidence/ledgerStorageBenchmark.ts:228-278 | for any choice of the next worker and any outcomes, the run ends joined with exact counts; the n-th operation to settle ended as `settle(n)`, and the result holds what these operations measured and threw |
| Latency.SortAscending | scripts/evidence/ledgerStorageBenchmark.ts:158-180 | sorting gives an ascending rearrangement |
| Latency.PercentileIsNearestRank | scripts/evidence/ledgerStorageBenchmark.ts:141-152 | at least p percent of the samples are at most the percentile, and fewer than p percent are below it |
| Latency.PercentileUnique | scripts/evidence/ledgerStorageBenchmark.ts:141-152 | it is the only sample of which that holds |
| Latency.PercentileWithin | scripts/evidence/ledgerStorageBenchmark.ts:141-152 | it is within a limit exactly when p percent of the samples are |
| Latency.LowestPercentile | scripts/evidence/ledgerStorageBenchmark.ts:141-152 | the percentile 0, or one below it, is the smallest sample |
| Latency.PercentileMonotone | scripts/evidence/ledgerStorageBenchmark.ts:141-152 | percentiles grow with p and lie between the smallest and the largest sample |
| Latency.SummaryIgnoresOrder | scripts/evidence/ledgerStorageBenchmark.ts:158-180 | the summary does not depend on the order of the samples |
| Latency.SummaryOrdered | scripts/evidence/ledgerStorageBenchmark.ts:158-180 | min <= p50 <= p95 <= max, the bounds are samples, and no sample lies outside them |
| Latency.SummaryMeaning | scripts/evidence/ledgerStorageBenchmark.ts:158-180 | the count, the extremes, and the median and 95th percentile as the nearest ranks of the unsorted samples; all absent without samples |
| Latency.P95Within | scripts/evidence/ledgerStorageBenchmark.ts:158-180 | the 95th percentile of unsorted samples is within a limit exactly when there are samples and 95 percent of them are |
| PassCriteria.CompletedCounts | scripts/evidence/ledgerStorageBenchmark.ts:32-41 | with the benchmark settings a store result has 80 writes and 20 reads, counting failures |
| PassCriteria.RunIsRecorded | scripts/evidence/ledgerStorageBenchmark.ts:32-34 | a run of the benchmark takes 104 steps and 100 operations, and its result is what they measured and threw |
| PassCriteria.CriteriaMeaning | scripts/evidence/ledgerStorageBenchmark.ts:298-329 | every criterion by what the operations of the runs did: none failed, 80 writes and 20 reads finished, and 95 percent of each took at most a second |
| PassCriteria.StoreMeetsThresholds | scripts/evidence/ledgerStorageBenchmark.ts:298-329 | a store meets both count thresholds exactly when it logged no error |
| PassCriteria.ThresholdsMeanNoErrors | scripts/evidence/ledgerStorageBenchmark.ts:298-329 | no errors if and only if both thresholds hold, for results of any interleaving |
| PassCriteria.OverallPassMeaning | scripts/evidence/ledgerStorageBenchmark.ts:298-329 | a scenario passes exactly when in every run no operation failed and at most 4 of the 80 writes and 1 of the 20 reads took over a second |
| CacheKey.KeyInjective | scripts/evidence/claimAuditCore.ts:558-558 | distinct (timeout, command) pairs have distinct cache keys, whatever colons the command contains |
| CacheKey.DecimalMeaning | scripts/evidence/claimAuditCore.ts:558-558 | a number is written as the digits that stand for it, without leading zeros, after a minus if it is negative |
| ClaimAudit.ContractIssuesSound | scripts/evidence/claimAuditCore.ts:432-465 | the contract check finds nothing exactly when the status fixes level and evidence as promised and command ids are distinct |
| ClaimAudit.FindStageIsFirst | scripts/evidence/claimAuditCore.ts:684-685 | the stage found is the first with the id, and none is found only if none has it |
| ClaimAudit.FindCheckpointIsFirst | scripts/evidence/claimAuditCore.ts:748-749 | the checkpoint found is the first with the id |
| ClaimAudit.VerdictSound | scripts/evidence/claimAuditCore.ts:550-805 | a piece of evidence is accepted exactly when the world is as it says |
| ClaimAudit.ClaimOkMeaning | scripts/evidence/claimAuditCore.ts:824-859 | a claim passes exactly when its id is new, it meets its contract and all its evidence is satisfied |
| ClaimAudit.OverallPassSound | scripts/evidence/claimAuditCore.ts:811-874 | the report passes exactly when ids are distinct and every claim holds; passed and failed claims add up |
| ClaimAudit.VerifiedClaimsRan | scripts/evidence/claimAuditCore.ts:811-874 | in a passing cache-free report a verified claim has a command that exits with the expected code |
| AuditReport.PieceIsReported | scripts/evidence/claimAuditCore.ts:550-770 | the result on a piece of evidence: whether it is as it says, the command with the exit code it had, or the file, and the first thing that is wrong |
| AuditReport.IssuesAre | scripts/evidence/claimAuditCore.ts:432-465 | the issues of a claim are exactly those whose condition holds, in their order; repeated command ids are listed once each, by their second use |
| AuditReport.ClaimIsReported | scripts/evidence/claimAuditCore.ts:824-859 | the result of a claim: its id, status and level, a result for every piece of evidence, the failures in order, and that it is ok exactly if its id is new and it holds |
| AuditReport.EveryClaimIsReported | scripts/evidence/claimAuditCore.ts:824-859 | the report has such a result for every claim, with its evidence looked at after that of the claims before |
| AuditReport.TotalsAreCounted | scripts/evidence/claimAuditCore.ts:861-873 | as failed count the claims that repeat an id, break their contract or have evidence that is not so; as passed all others; the report passes if none failed |
| AuditEngine.VerifiedClaimsReallyRan | scripts/evidence/claimAuditCore.ts:811-874 | in a passing report of the audit with caches it has a command that is in the log of runs and really exited with that code |
| AuditEngine.AskAllKeepsMemo | scripts/evidence/claimAuditCore.ts:527-564 | after any evidence both caches hold the answer to every logged question and nothing else, and no question was put twice |
| AuditEngine.CachedMeansRan | scripts/evidence/claimAuditCore.ts:556-564 | a cache hit is the answer to this very command and timeout |
| AuditEngine.VerdictsAreCacheFree | scripts/evidence/claimAuditCore.ts:777-805 | the verdicts of an evidence loop with caches are the cache-free verdicts under the first answers |
| AuditEngine.ClaimVerdictsAreCacheFree | scripts/evidence/claimAuditCore.ts:811-874 | so are the results of the whole claim loop, though later claims fill the caches further |
| AuditEngine.EachCommandOnce | scripts/evidence/claimAuditCore.ts:550-564 | a command is run with a timeout exactly when some evidence asks for it, and once |
| AuditEngine.EachLedgerOnce | scripts/evidence/claimAuditCore.ts:523-544 | a ledger is read exactly when some evidence asks for it, and once, also when it could not be read |
| AuditEngine.EachIsAskedFirst | scripts/evidence/claimAuditCore.ts:523-564 | every command was run and every ledger read when the first piece of evidence that asks for it was looked at |
| AuditEngine.AllEvidenceAt | scripts/evidence/claimAuditCore.ts:824-849 | the evidence of the manifest, claim after claim, stands where time counts it |
| AuditEngine.MemoIsReal | scripts/evidence/claimAuditCore.ts:523-564 | the answers the report rests on are those the world gave when asked |
| AuditEngine.TimelessVerdicts | scripts/evidence/claimAuditCore.ts:811-874 | where the world always answers alike, the cached audit is the cache-free audit |
| AuditEngine.Auditor.constructor | scripts/evidence/claimAuditCore.ts:817-822 | an audit starts with empty caches |
| AuditEngine.Auditor.RunCommand | scripts/evidence/claimAuditCore.ts:556-564 | the cached run changes the memory as specified and returns the first answer |
| AuditEngine.Auditor.ReadRewardLedger | scripts/evidence/claimAuditCore.ts:523-544 | the cached read does so too, and remembers an unreadable ledger as absent |
| AuditEngine.Auditor.AuditEvidence | scripts/evidence/claimAuditCore.ts:777-805 | the dispatch on the kind of evidence gives the verdict under the first answers |
| AuditEngine.Auditor.ValidateClaimContract | scripts/evidence/claimAuditCore.ts:432-465 | the imperative check lists the issues of the claim, each where its condition holds, and none exactly when the claim meets its contract |
| AuditEngine.Auditor.AuditEvidenceOf | scripts/evidence/claimAuditCore.ts:837-849 | the evidence loop gives the verdicts in order and appends the failed details |
| AuditEngine.Auditor.AuditClaim | scripts/evidence/claimAuditCore.ts:824-859 | one turn of the claim loop gives the result of the claim under the memory so far |
| AuditEngine.Auditor.AuditManifest | scripts/evidence/claimAuditCore.ts:811-874 | every claim, piece of evidence, failure and total is reported as the first answers have it; every question is asked once, when first due; the report passes exactly when all claims hold, and in passing shows that every verified claim had a command run as promised |
| Splice.ApplyEdits | scripts/docs/applyFunctionJsDoc.ts:907-911 | the loop applies the edits from the last start to the first |
| Splice.InPlaceIsChain | scripts/docs/applyFunctionJsDoc.ts:907-911 | edits that do not overlap, in any order, are put one behind the other, with insertions in front of a replacement at their place |
| Splice.SpliceIsSubstitution | scripts/docs/applyFunctionJsDoc.ts:907-911 | for edits in any order that do not overlap, and whose replacements are emitted before other edits with their start, the loop is simultaneous substitution |
| Splice.ReverseOrderSubstitutes | scripts/docs/applyFunctionJsDoc.ts:907-911 | edits one behind the other, applied from the last, substitute all at once |
| Splice.SubstituteLength | scripts/docs/applyFunctionJsDoc.ts:907-911 | the result is as long as the source plus the growth of every edit |
| Splice.OutsideSurvives | scripts/docs/applyFunctionJsDoc.ts:907-911 | every character outside the edits survives, moved by the growth of the edits before it |
| Splice.TextIsPlaced | scripts/docs/applyFunctionJsDoc.ts:907-911 | every edit has its text where its range was |
| SharedStarts.SpliceIsExact | scripts/docs/applyFunctionJsDoc.ts:907-911 | for edits one behind the other, the loop is the substitution exactly where, at every replacement, the insertions before it with its start and its range come out the same |
| SharedStarts.SubstitutesEveryText | scripts/docs/applyFunctionJsDoc.ts:907-911 | it is so whatever the texts are exactly where no replacement comes after another edit with its start |
| SharedStarts.InsertionsStack | scripts/docs/applyFunctionJsDoc.ts:907-911 | insertions at one place all stand there in the end, the last emitted one in front |
| SharedStarts.InsertionThenReplacement | scripts/docs/applyFunctionJsDoc.ts:907-911 | what the loop makes of an insertion and a replacement after it with one start |
| SharedStarts.CutThroughHarms | scripts/docs/applyFunctionJsDoc.ts:907-911 | exactly when that puts both texts in place |
| SharedStarts.ReplacementThenInsertion | scripts/docs/applyFunctionJsDoc.ts:907-911 | in the other order both texts are put in place |
| JsDocEdits.LineStartMeaning | scripts/docs/applyFunctionJsDoc.ts:93-95 | the line start of any position is behind the last line feed before it, or 0 where there is none; a line feed at position 0 counts as before it |
| JsDocEdits.LineStartIsLineStart | scripts/docs/applyFunctionJsDoc.ts:93-95 | the line start of a character is the position after the last line break before it |
| JsDocVisitor.Visitor.constructor | scripts/docs/applyFunctionJsDoc.ts:840-843 | the walk starts with no edits, no classes and zero counters |
| JsDocVisitor.Visitor.Visit | scripts/docs/applyFunctionJsDoc.ts:845-900 | the walk sees the targets below the node in pre-order, each under its class, keeps edits and counters those of the targets seen, and restores the class stack |
| JsDocVisitor.Visitor.VisitClass | scripts/docs/applyFunctionJsDoc.ts:846-853 | a class pushes its name for its children and takes it off again |
| JsDocVisitor.Visitor.VisitTarget | scripts/docs/applyFunctionJsDoc.ts:856-897 | one more target is seen, and edits and counters are those of the targets seen |
| JsDocVisitor.Visitor.AddEdit | scripts/docs/applyFunctionJsDoc.ts:856-897 | the edit and the counter that a target adds, if any |
| JsDocVisitor.TargetCases | scripts/docs/applyFunctionJsDoc.ts:856-897 | a target without a comment gets one inserted, one with a poor comment gets it replaced, any other is left alone, with the range and text of its edit and the counters |
| TargetPaths.WalkIsListed | scripts/docs/applyFunctionJsDoc.ts:845-900 | the walk finds the function, method and constructor declarations at all paths of the tree and no other node, each once, in order, each with the name of the closest class above it |
| TargetPaths.OwnEditsAre | scripts/docs/applyFunctionJsDoc.ts:856-897 | the edit of a function: from the line of its first comment, if it has one, to its own line, with its name, its class and its indent, where it has no comment or a poor one |
| TargetPaths.WalkServes | scripts/docs/applyFunctionJsDoc.ts:840-905 | every function of the tree is served so, in order, and the counters are the functions without a comment and those with an edit in place of one |
| TargetPaths.UndocumentedGetComment | scripts/docs/applyFunctionJsDoc.ts:881-895 | a function without a comment, wherever it is in the tree, gets one inserted at its line |
| JsDocEdits.LineStartBehind | scripts/docs/applyFunctionJsDoc.ts:93-95 | it lies behind a position exactly where a line feed stands between the two |
| JsDocEdits.BeginsLineMeaning | scripts/docs/applyFunctionJsDoc.ts:749-749 | only blanks stand between an edit and its token exactly where the token begins its line |
| JsDocEdits.WalkInTextOrder | scripts/docs/applyFunctionJsDoc.ts:845-900 | the pre-order walk of a well-placed tree lists its targets in text order, each behind the token of the one before |
| JsDocEdits.EditsAreChain | scripts/docs/applyFunctionJsDoc.ts:735-755 | on whatever lines its targets stand, the edits of a well-placed tree come one behind the other in the text |
| JsDocEdits.EditsAscend | scripts/docs/applyFunctionJsDoc.ts:845-900 | if every target begins its own line, the edits start in strictly ascending order, which is their place in the text |
| JsDocEdits.WalkIsExact | scripts/docs/applyFunctionJsDoc.ts:902-911 | the loop substitutes the edits of a well-placed tree at once exactly where no replacement does harm |
| JsDocEdits.WalkIsExactForEveryText | scripts/docs/applyFunctionJsDoc.ts:902-911 | it does so whatever the comments say exactly where no replacement comes after an edit with its start |
| JsDocEdits.UnswallowedIsSubstituted | scripts/docs/applyFunctionJsDoc.ts:902-911 | it does so where no rewritten comment opens on the line of an earlier token |
| JsDocEdits.SparesTargetsMeaning | scripts/docs/applyFunctionJsDoc.ts:735-755 | the edits of a well-placed tree leave every first token in place exactly when no rewritten comment opens on the line of an earlier token |
| JsDocEdits.PlainFileSwallowsNone | scripts/docs/applyFunctionJsDoc.ts:735-755 | in a file without lone carriage returns none does |
| JsDocEdits.OwnLinesSwallowNone | scripts/docs/applyFunctionJsDoc.ts:735-755 | none does where every target begins its own line |
| JsDocVisitor.EditCount | scripts/docs/applyFunctionJsDoc.ts:881-895 | there are as many edits as insertions and replacements |
| CommentPlaces.OldCommentGoes | scripts/docs/applyFunctionJsDoc.ts:735-755 | a rewrite removes the old comment to its end exactly where a line feed stands between that and the function's token |
| CommentPlaces.CloserStays | scripts/docs/applyFunctionJsDoc.ts:735-755 | where none does, the closing pair of the old comment is still in the file, as far before the token as it was |
| CommentPlaces.TakesCommentAloneMeaning | scripts/docs/applyFunctionJsDoc.ts:735-755 | of what is not white, a rewrite removes the comment alone exactly where nothing stands before it on its line nor on a line between it and its function's |
| CommentPlaces.LineHeadSurvives | scripts/docs/applyFunctionJsDoc.ts:902-911 | where no comment swallows a token, what stands on the line of a target's token up to the token survives, and is moved as the token is |
| CommentPlaces.EditsAscendByTokens | scripts/docs/applyFunctionJsDoc.ts:845-900 | where also every function that gets a comment begins its line, the edits start in strictly ascending order |
| CommentPlaces.CommentsAttach | scripts/docs/applyFunctionJsDoc.ts:856-911 | where no comment swallows a token, every new comment stands right before its function's token exactly where every function that gets one begins its line |
| RewrittenFile.PlainFileSparesCode | scripts/docs/applyFunctionJsDoc.ts:835-915 | in a file without lone carriage returns every character survives that does not stand between a function whose comment is rewritten and the token before it |
| RewrittenFile.PlainFileKeepsLeaves | scripts/docs/applyFunctionJsDoc.ts:835-915 | so every character of a name, literal or keyword of the tree survives |
| RewrittenFile.CollectEdits | scripts/docs/applyFunctionJsDoc.ts:835-905 | the walk over a file lists every function of the tree by its path; in a well-placed tree every function is served with the edits and counts it should have |
| RewrittenFile.ApplyFile | scripts/docs/applyFunctionJsDoc.ts:835-915 | the whole file: counts and spliced text; in a well-placed tree every function, wherever it is, has the edits it should have, and the text is the substitution exactly where no replacement does harm; where no comment swallows a token, new comments are attached and old closing pairs stay as stated above; without lone carriage returns none swallows a token, and the code survives |
| OneFunction.RewriteClosedLate | scripts/docs/applyFunctionJsDoc.ts:835-915 | a poor comment that ends on the line of its function leaves its closing pair behind the new comment |
| OneFunction.InsertUnderBlock | scripts/docs/applyFunctionJsDoc.ts:835-915 | the comment of a function that follows a block comment on its line lands inside that block comment |
| OneFunction.RewriteNoted | scripts/docs/applyFunctionJsDoc.ts:835-915 | an ordinary comment between a poor comment and its function is removed with it |
| SharedLine.RewriteSharedLine | scripts/docs/applyFunctionJsDoc.ts:835-915 | a file of two functions with a lone carriage return between them: the new comment of the first has lost its head, and the old comment of the second is still there |
| SharedLine.LoopIsWrong | scripts/docs/applyFunctionJsDoc.ts:902-911 | in that file a replacement comes after an insertion with its start, and the loop is not the substitution |
| SharedLine.TokenIsCovered | scripts/docs/applyFunctionJsDoc.ts:735-755 | in that file the range of an edit covers another function's token |
| CommentText.EscapeNeverCloses | scripts/docs/applyFunctionJsDoc.ts:679-681 | escaped text contains no comment terminator |
| CommentText.CollapseNeverCloses | scripts/docs/applyFunctionJsDoc.ts:679-681 | collapsing white space creates none |
| CommentText.SanitizedIsHarmless | scripts/docs/applyFunctionJsDoc.ts:679-681 | sanitized text contains no comment terminator and no white space but single-line blanks, and is trimmed |
| CommentText.BuildCommentText | scripts/docs/applyFunctionJsDoc.ts:683-733 | the pushed lines joined are the rendered comment |
| Runs.CollapseMeaning | scripts/docs/applyFunctionJsDoc.ts:680-680 | replacing the runs of a class of characters leaves the words between them, and one separator of each gap |
| CommentMeaning.EscapeMeaning | scripts/docs/applyFunctionJsDoc.ts:680-680 | every closing pair of the text, and nothing else, gets a backslash in the middle |
| CommentMeaning.SanitizeMeaning | scripts/docs/applyFunctionJsDoc.ts:679-681 | sanitized text is the words of the escaped text with single blanks between them |
| CommentMeaning.RenderedIsComment | scripts/docs/applyFunctionJsDoc.ts:683-733 | the comment line by line: what the function does and why it exists, up to six collaborators and that there are more, every parameter, what is returned, each with its text cleaned |
| CommentText.BodyLinesSafe | scripts/docs/applyFunctionJsDoc.ts:683-733 | no line above the closing one contains a terminator, for any names and descriptions |
| CommentText.CommentLength | scripts/docs/applyFunctionJsDoc.ts:683-733 | no comment is shorter than its two headings |
| CommentText.ClosesOnceAtTheEnd | scripts/docs/applyFunctionJsDoc.ts:683-733 | the text ends with its newline and contains the terminator once, in the closing line |
| DocumentedFile.EveryEditClosesOnce | scripts/docs/applyFunctionJsDoc.ts:835-915 | every text the walk puts into a file is one comment that closes once, at its end |
| DocumentedFile.DocumentsAttach | scripts/docs/applyFunctionJsDoc.ts:835-915 | with rendered comments, whatever they say: where no comment swallows a token, every new comment stands right before its function exactly where every function that gets one begins its line |
| Replies.AppendCoalescedReply | scripts/evidence/interfaceAdvancedLiveSmoke.ts:459-490 | the edit of the copied list is the coalescing step |
| Replies.DetectAckAfterFinal | scripts/evidence/interfaceAdvancedLiveSmoke.ts:539-556 | drift is reported exactly when some reply is no acknowledgement and the last one is |
| Replies.AppendKeepsNormalForm | scripts/evidence/interfaceAdvancedLiveSmoke.ts:459-490 | one more reply keeps the capture free of blanks and of mergeable neighbours |
| Replies.CoalesceIsNormal | scripts/evidence/interfaceAdvancedLiveSmoke.ts:459-490 | the capture of any stream is in that form |
| Replies.NormalFormsAreFixed | scripts/evidence/interfaceAdvancedLiveSmoke.ts:459-490 | capturing leaves alone exactly the streams in that form |
| Replies.CoalesceIdempotent | scripts/evidence/interfaceAdvancedLiveSmoke.ts:459-490 | capturing a capture changes nothing |
| Replies.CoalesceIsSubsequence | scripts/evidence/interfaceAdvancedLiveSmoke.ts:459-490 | every captured entry was observed, in this order |
| Replies.AcksSurvive | scripts/evidence/interfaceAdvancedLiveSmoke.ts:529-531 | the acknowledgements of the stream are those of the capture, in order and number |
| Replies.FinalReplyExtendsLast | scripts/evidence/interfaceAdvancedLiveSmoke.ts:498-504 | a final reply is selected exactly when there was one, and it extends the last one observed |
| Replies.DriftSurvives | scripts/evidence/interfaceAdvancedLiveSmoke.ts:539-556 | drift shows in the capture exactly when it was in the stream |
| Replies.GrowingStreamCollapses | scripts/evidence/interfaceAdvancedLiveSmoke.ts:459-490 | growing fragments of one reply are captured as their last state |
| Replies.CapturesRuns | scripts/evidence/interfaceAdvancedLiveSmoke.ts:459-490 | the capture is one entry for each run of consecutive fragments of one reply, the first longest of them, and no run could have taken in the next reply |
| Replies.NoReplyIsLost | scripts/evidence/interfaceAdvancedLiveSmoke.ts:459-490 | every reply that is not blank is a fragment of an entry of its kind |
| Replies.FinalReplyMeaning | scripts/evidence/interfaceAdvancedLiveSmoke.ts:498-504 | the final reply is the last that is no acknowledgement, and there is none if all are |
| Replies.AckCountMeaning | scripts/evidence/interfaceAdvancedLiveSmoke.ts:529-531 | acknowledgements are counted as often as they occur |
| Catalog.Collector.Visit | scripts/docs/generateCodebaseFunctionCatalog.ts:239-248 | the walk files each import named below the node under its key, once |
| Catalog.CollectCollaborators | scripts/docs/generateCodebaseFunctionCatalog.ts:233-258 | the collected entries, sorted, are the collaborators of the node |
| Catalog.ImportKeysInjective | scripts/docs/generateCodebaseFunctionCatalog.ts:241-244 | two imports never share a key, whatever colons they contain |
| Catalog.CollaboratorsExact | scripts/docs/generateCodebaseFunctionCatalog.ts:233-258 | the collaborators are exactly the imports named in the subtree, each once |
| Catalog.CollaboratorsSorted | scripts/docs/generateCodebaseFunctionCatalog.ts:251-257 | they are listed by source and local name |
| Catalog.Extractor.constructor | scripts/docs/generateCodebaseFunctionCatalog.ts:462-464 | the walk starts with empty stacks and no records |
| Catalog.Extractor.PushFunctionRecord | scripts/docs/generateCodebaseFunctionCatalog.ts:466-492 | one record is appended, with its collaborators |
| Catalog.Extractor.Visit | scripts/docs/generateCodebaseFunctionCatalog.ts:494-595 | the walk appends the records of the recursive definition under its context and restores both stacks |
| Catalog.Extractor.VisitClass | scripts/docs/generateCodebaseFunctionCatalog.ts:495-503 | a class is the context of its children and of nothing else |
| Catalog.Extractor.Descend | scripts/docs/generateCodebaseFunctionCatalog.ts:587-594 | a label is the context of the children and of nothing else; an empty label is not pushed |
| RecordPaths.RecordsAreListed | scripts/docs/generateCodebaseFunctionCatalog.ts:494-596 | functions, methods, constructors, accessors and named variables with a function are recorded, each by its path, with its kind, flags and title: the closest class and its own name, or the labels above and its own name |
| RecordPaths.IdentifiersAreListed | scripts/docs/generateCodebaseFunctionCatalog.ts:239-248 | the identifiers below a node are listed by their paths |
| RecordPaths.CollaboratorsNamedBelow | scripts/docs/generateCodebaseFunctionCatalog.ts:233-258 | an import is a collaborator of a node exactly if some identifier at or below it names the import |
| RecordPaths.ExtractFunctionRecords | scripts/docs/generateCodebaseFunctionCatalog.ts:457-599 | every function of the file, wherever it is, has one record and nothing else has; the records come by line and name |
| TableCell.SpecialsAreEncode | scripts/docs/generateCodebaseFunctionCatalog.ts:601-612 | the chain of seven replacements is one pass, character by character |
| TableCell.EscapeIsEncode | scripts/docs/generateCodebaseFunctionCatalog.ts:601-612 | the cell is the one-pass encoding of the trimmed value with its newlines blanked |
| TableCell.CellIsClean | scripts/docs/generateCodebaseFunctionCatalog.ts:601-612 | the cell has no raw markup, quote, backtick or newline, every pipe follows a backslash, and it is trimmed |
| TableCell.CellRoundTrip | scripts/docs/generateCodebaseFunctionCatalog.ts:601-612 | decoding the cell gives back the value up to newlines and outer space |
| TableCell.CellsDistinguish | scripts/docs/generateCodebaseFunctionCatalog.ts:601-612 | two values share a cell exactly when they differ in newlines and outer space alone |
| TableCell.CellFallsApart | scripts/docs/generateCodebaseFunctionCatalog.ts:601-612 | for a reader of backslash escapes the cell ends early exactly when the value has a pipe after an odd number of backslashes |
| TableCell.EscapedPipeFallsApart | scripts/docs/generateCodebaseFunctionCatalog.ts:601-612 | the cell of a backslash and a pipe does |
| TableCell.LoneReturnsStay | scripts/docs/generateCodebaseFunctionCatalog.ts:610-611 | a character of the replaced text is a carriage return exactly if it comes from one that no line feed follows, and each of those is there |
| TableCell.CellKeepsReturns | scripts/docs/generateCodebaseFunctionCatalog.ts:601-612 | a cell has a carriage return exactly if the value has one that no line feed follows, between two characters that are no space |
| TableCell.ReturnInCell | scripts/docs/generateCodebaseFunctionCatalog.ts:601-612 | a value whose cell has one |
| ScenarioInventory.ComputeDiagnostics | scripts/evidence/autonomousRuntimeAffordancesScenarioInventory.ts:131-238 | the loops give the diagnostics of the inventory |
| ScenarioInventory.ScanScenarios | scripts/evidence/autonomousRuntimeAffordancesScenarioInventory.ts:152-216 | the scenario loop is the fold over the scenarios |
| ScenarioInventory.ExamineScenario | scripts/evidence/autonomousRuntimeAffordancesScenarioInventory.ts:170-215 | the checks of one scenario, with their early exits |
| ScenarioInventory.CheckCoverage | scripts/evidence/autonomousRuntimeAffordancesScenarioInventory.ts:218-226 | the coverage loop reports each category that lacks a polarity, in order |
| ScenarioInventory.CountsAddUp | scripts/evidence/autonomousRuntimeAffordancesScenarioInventory.ts:152-168 | for any inventory the category counts and the polarity counts each add up to the number of distinct ids |
| ScenarioInventory.ErrorFreeMeaning | scripts/evidence/autonomousRuntimeAffordancesScenarioInventory.ts:131-238 | no errors exactly for version 1, distinct ids, natural scenarios and both polarities in every category |
| ScenarioInventory.PairingSucceeds | scripts/evidence/autonomousRuntimeAffordancesEvidence.ts:88-105 | the pairing throws exactly when a category lacks a polarity, and otherwise pairs scenarios that fit |
| ScenarioInventory.ErrorFreePairs | scripts/evidence/autonomousRuntimeAffordancesEvidence.ts:88-105 | without errors the throw is unreachable and all categories are paired |
| ScenarioInventory.ErrorFreeEvidence | scripts/evidence/autonomousRuntimeAffordancesEvidence.ts:107-135 | without errors every check but the length of the opening prompts holds |
| ScenarioInventory.PassMeaning | scripts/evidence/autonomousRuntimeAffordancesEvidence.ts:107-135 | the report passes exactly when there are no errors and every paired opening is long enough |
| ScenarioInventory.WarningFreePasses | scripts/evidence/autonomousRuntimeAffordancesEvidence.ts:107-135 | an inventory without errors and warnings passes |
| InventoryReport.ProblemsAre | scripts/evidence/autonomousRuntimeAffordancesScenarioInventory.ts:170-206 | the problems of a scenario are exactly those it has, in their order, told by its turns |
| InventoryReport.ErrorsAreReported | scripts/evidence/autonomousRuntimeAffordancesScenarioInventory.ts:131-226 | the errors of any inventory: the version, then for each scenario its problems or that its id is repeated, then each category without a positive or a negative case; and the warnings, for openings under 40 characters |
| InventoryReport.SummaryIsCounted | scripts/evidence/autonomousRuntimeAffordancesScenarioInventory.ts:228-238 | the counts of the summary are over the scenarios whose id is new, but for the number of scenarios |
| InventoryReport.EvidenceIsReported | scripts/evidence/autonomousRuntimeAffordancesEvidence.ts:82-135 | for any inventory the evidence names the first category by name that lacks a polarity, or pairs the first scenarios of every category that occurs, with the four checks and the status |
| TurnMonitor.WaitForTurnCompletion | scripts/evidence/aiSampleCityReactPreviewLifecycleLiveSmoke.ts:285-337 | the loop with its latch returns the session of the first ready poll in time, and times out exactly when there is none; any session returned is at rest and shows an ended job, a question or a reply since the turn started |
| TurnMonitor.NotBeforeMeaning | scripts/evidence/aiSampleCityReactPreviewLifecycleLiveSmoke.ts:299-305 | a timestamp is not before the start exactly if the start is a prefix of it or their first difference is in its favour |
| TurnMonitor.SessionMeaning | scripts/evidence/aiSampleCityReactPreviewLifecycleLiveSmoke.ts:299-330 | what the tests of the loop read off a session, by its records |
| TurnMonitor.AnswersAgree | scripts/evidence/aiSampleCityReactPreviewLifecycleLiveSmoke.ts:285-337 | the polls determine the outcome |
| TurnMonitor.DirectExitSawNothing | scripts/evidence/aiSampleCityReactPreviewLifecycleLiveSmoke.ts:315-322 | corollary: the direct exit is taken only if no poll so far showed a fresh job, running or queued work, or a clarification |
| TurnMonitor.JobRecordCompletes | scripts/evidence/aiSampleCityReactPreviewLifecycleLiveSmoke.ts:314-330 | corollary: a fresh job record that is not running completes the turn, also for a job that began and ended between two polls |
| TurnMonitor.QueuedRecordCompletes | scripts/evidence/aiSampleCityReactPreviewLifecycleLiveSmoke.ts:314-330 | so would the record of a job that is still queued |
| TurnMonitor.PlainReplyTimesOut | scripts/evidence/aiSampleCityReactPreviewLifecycleLiveSmoke.ts:285-337 | corollary: without direct replies, a turn in which no work is seen times out |
| TurnMonitor.DirectReplyOnlyPreempts | scripts/evidence/aiSampleCityReactPreviewLifecycleLiveSmoke.ts:315-330 | allowing direct replies changes an outcome only where a direct exit comes first |
| ProviderRetry.RemainingBudget | scripts/evidence/autonomousRuntimeAffordancesLiveSmoke.ts:204-210 | a budget is given exactly before the deadline, is positive, within the cap, and ends by the deadline |
| ProviderRetry.RunWithProviderRetry | scripts/evidence/autonomousRuntimeAffordancesLiveSmoke.ts:636-680 | the loop returns what the last attempt reached gave, and never gets past its last attempt |
| ProviderRetry.AnswersAgree | scripts/evidence/autonomousRuntimeAffordancesLiveSmoke.ts:636-680 | the world determines the outcome and the number of attempts |
| ProviderRetry.SlicesEndByDeadline | scripts/evidence/autonomousRuntimeAffordancesLiveSmoke.ts:646-651 | every attempt made has a positive slice that ends by the deadline |
| ProviderRetry.RetriesAreBlocked | scripts/evidence/autonomousRuntimeAffordancesLiveSmoke.ts:658-666 | corollary: an attempt is followed by another only after a blocker, and never after a timeout |
| ProviderRetry.ArtifactOrigin | scripts/evidence/autonomousRuntimeAffordancesLiveSmoke.ts:636-680 | an artifact that is read is what the attempt with its number wrote, or what was there at the start |
| ProviderRetry.ReturnedArtifactIsFresh | scripts/evidence/autonomousRuntimeAffordancesLiveSmoke.ts:636-680 | the artifact returned is the last attempt's own, except exactly where that attempt kept a stale one |
| ProviderRetry.CleanRunsReturnTheirOwn | scripts/evidence/autonomousRuntimeAffordancesLiveSmoke.ts:636-680 | with no artifact at the start and every removal done, it is the last attempt's own |
| ProviderRetry.FreshExactly | scripts/evidence/autonomousRuntimeAffordancesLiveSmoke.ts:636-680 | whatever the children do, an artifact returned is sure to be the last attempt's own exactly when none is there at the start and the first removal is done, as far as the deadline leaves time for the attempts |
| ProviderRetry.FoundIsReturned | scripts/evidence/autonomousRuntimeAffordancesLiveSmoke.ts:636-680 | a world that returns the artifact found at the start |
| ProviderRetry.UnremovedIsReturned | scripts/evidence/autonomousRuntimeAffordancesLiveSmoke.ts:636-680 | a world that returns an earlier attempt's artifact after a failed removal |
| EnvOverrides.Environment.ApplyEnvOverrides | scripts/evidence/aiSampleCityReactPreviewLifecycleLiveSmoke.ts:189-196 | the variables are overridden and the snapshot holds their former values |
| EnvOverrides.Environment.RestoreEnv | scripts/evidence/aiSampleCityReactPreviewLifecycleLiveSmoke.ts:198-206 | each key of the snapshot is set back, or deleted where it was absent |
| EnvOverrides.AppliedGet | scripts/evidence/aiSampleCityReactPreviewLifecycleLiveSmoke.ts:189-196 | an overridden key has its given value and any other key its own |
| EnvOverrides.RestoredGet | scripts/evidence/aiSampleCityReactPreviewLifecycleLiveSmoke.ts:198-206 | restoring gives overridden keys their former values and leaves the others as they are now |
| EnvOverrides.ScopesRestore | scripts/evidence/aiSampleCityReactPreviewLifecycleLiveSmoke.ts:189-206 | scopes nested to any depth leave a key as it was unless something sets it outside every scope that overrides it |
| EnvOverrides.ScopesLeave | scripts/evidence/aiSampleCityReactPreviewLifecycleLiveSmoke.ts:189-206 | after any steps a key has what was last set outside every scope that overrides it, or else what it had before |
| EnvOverrides.NestedScopesRestoreAll | scripts/evidence/aiSampleCityReactPreviewLifecycleLiveSmoke.ts:189-206 | nested overrides alone give back the environment |
| EnvOverrides.OutOfOrderRestores | scripts/evidence/aiSampleCityReactPreviewLifecycleLiveSmoke.ts:189-206 | restoring the outer scope first is harmless exactly when it changed no key that the inner one overrides |
| EnvOverrides.OuterValueStays | scripts/evidence/aiSampleCityReactPreviewLifecycleLiveSmoke.ts:189-206 | two scopes over one variable of which the outer value stays |
| CliArgs.ParseCliArgs | src/index.ts:146-215 | the scan of the arguments parses as specified; the second check of the goal never fails |
| CliArgs.ParseAuthCliArgs | src/index.ts:223-270 | the auth command parses as specified |
| CliArgs.ReadAuthOptions | src/index.ts:234-258 | the loop over the options, which takes two arguments for a profile, is the recursive reading of them |
| CliArgs.AuthOptionsMeaning | src/index.ts:234-258 | exactly the lists of blanks, device flags and profiles with a value are accepted; one flag asks for device login, and the last profile wins |
| CliArgs.FirstOffendingOption | src/index.ts:234-258 | a refused option list is refused for the first arguments that spell no option, and says what is wrong with them |
| CliArgs.AuthMeaning | src/index.ts:223-258 | the provider is refused exactly if it is not codex, then the action exactly if it is none of the three, and else the options are read |
| CliArgs.ParseMeaning | src/index.ts:146-215 | help is what is reported exactly if one of its flags occurs, and else the first word selects the parser |
| CliArgs.ScanMeaning | src/index.ts:155-197 | the scan succeeds exactly without unknown flags and without both modes, and depends only on which flags occur and on the words |
| CliArgs.ParseWorkMeaning | src/index.ts:155-214 | a work command is accepted exactly if its tokens are acceptable and include a word, and lacks a goal exactly if they are and do not |
| CliArgs.FirstOffence | src/index.ts:155-197 | a rejection reports the first token that makes the arguments unacceptable |
| CliArgs.JoinOfWords | src/index.ts:199-206 | the joined goal is trimmed, not empty and no flag |
| CliArgs.ParsedIsPrintable | src/index.ts:146-270 | every command the parser yields has a trimmed goal that is no flag, or a trimmed profile |
| CliArgs.RoundTrip | src/index.ts:146-270 | printing and parsing gives back exactly the commands that parsing can yield at all |
| ScenarioHash.ToInt32 | scripts/evidence/mediaIngestExecutionIntentSupport.ts:428-428 | the truncation is congruent modulo 2^32 and in the signed range |
| ScenarioHash.StepIsCongruent | scripts/evidence/mediaIngestExecutionIntentSupport.ts:428-428 | shift, subtraction and truncation multiply by 31 modulo 2^32 |
| ScenarioHash.PolynomialAppend | scripts/evidence/mediaIngestExecutionIntentSupport.ts:425-431 | one more code multiplies the polynomial by 31 and adds the code |
| ScenarioHash.HashScenarioIdToNumber | scripts/evidence/mediaIngestExecutionIntentSupport.ts:425-431 | the loop over code points gives the truncated polynomial of their first units |
| ScenarioHash.UpdateIdRange | scripts/evidence/mediaIngestExecutionIntentSupport.ts:416-416 | the update id is at most 2^31, and is 2^31 at one residue alone |
| ScenarioHash.UpdateIdMeaning | scripts/evidence/mediaIngestExecutionIntentSupport.ts:416-431 | the update id is, up to sign, the polynomial modulo 2^32, and at most 2^31 |
| ScenarioHash.LeadUnitsMeaning | scripts/evidence/mediaIngestExecutionIntentSupport.ts:427-428 | hashed are all units but the second halves of surrogate pairs |
| ScenarioHash.UpdateIdsCollide | scripts/evidence/mediaIngestExecutionIntentSupport.ts:416-431 | two ids share an update id exactly when their polynomials are equal or opposite modulo 2^32 |
| ScenarioHash.UpdateIdLeavesInt32 | scripts/evidence/mediaIngestExecutionIntentSupport.ts:416-431 | an id whose update id no signed 32-bit integer holds |
| ScenarioHash.LowSurrogatesIgnored | scripts/evidence/mediaIngestExecutionIntentSupport.ts:427-428 | ids that differ only in the second unit of a pair share their hash |
| ModelComparison.SlugMeaning | scripts/evidence/openaiMultiModelLiveSmoke.ts:226-228 | slugs are runs of letters and digits with single dashes between, are exactly the names that are their own slug, and taking the slug twice changes nothing |
| ModelComparison.SlugOfAnyName | scripts/evidence/openaiMultiModelLiveSmoke.ts:226-228 | the slug of any name is the runs of letters and digits in its lower case with single dashes between them |
| ModelComparison.FindLatestApprovedActionMetadata | scripts/evidence/openaiMultiModelLiveSmoke.ts:650-664 | the nested reverse search gives the metadata of the last matching result of the last run that has one, or nothing where there is none |

## Left out

- `Latency.SummarizeLatencies`: the mean and its rounding with `toFixed`, because rounding is not the point; samples and percentiles are real numbers, so floating-point error in the rank is not modelled.
- `WorkerPool`: the order in which `Promise.all` starts the workers is left open, so the schedules include all the real ones; clocks, the rounding of a measured time and the stores themselves are not modelled, and a logged error is a constructor with its index and message.
- A benchmark of zero workers, which writes nothing, is in the model but outside the counting results.
- `ClaimAudit`: JSON parsing, type guards on unknown input, the `auditedAt` and `manifestPath` fields, and the wording of details; details are constructors.
- A command runner that rejects instead of returning a result, which ends the audit.
- `CacheKey`: fractional or very large timeouts, whose decimal rendering JavaScript changes to exponent form.
- The shell runner behind a command and its mapping of signals to exit codes.
- `CommentText`: the sentences that describe what a function does, and the test for poor comments, are parameters.
- `Catalog`: signatures, doc summaries and flags read from modifiers are parameters; `localeCompare` is a comparison parameter.
- The printed catalog apart from its cells, and file discovery.
- `RewrittenFile.ApplyFile`: writing the file; the parser that yields the tree with its positions is not part of this model, and what is assumed of its positions is `JsDocEdits.Placed`; ordinary comments are text like any other.
- `Replies`: the status pattern is a predicate of the text; the copies of the same function in two other scripts are not modelled separately.
- Strings are sequences of characters; only `ScenarioHash` works on UTF-16 units.
- `ScenarioInventory`: sentence counting and command patterns are parameters; categories are a closed type, so a category that is not in the order cannot occur.
- The other scenario inventories, which have the same shape.
- `TurnMonitor`: sleeping and the store; a run is the sequence of its polls, and some poll comes after the timeout.
- `ProviderRetry`: spawning and stopping processes, and the pattern for blockers.
- `EnvOverrides`: platforms on which names of variables ignore case.
- `CliArgs`: the usage text; lower-casing is that of ASCII letters, the only one that can yield the words compared with.
- `ModelComparison`: lower-casing is a parameter that leaves lower-case letters, digits and dashes alone.
- Daemon safeguards, signal handlers, and everything imported from `src/core`, `src/interfaces`, `src/organs` and `src/models`, which is not part of this model.
- Tracking process ids found in runtime values and waiting for a child to spawn, on which nothing modelled here rests.
- The live-smoke runs themselves: gateways, browsers, processes and file seeding.
- The pulse matrices, whose decisions come from gateways that are not part of this model.
