/**
 Capability claims, what it means for them to hold, and the audit without caches: every piece of evidence asks the
 world anew.  Module AuditEngine proves that the audit with its caches gives this report.  Time is counted in pieces of
 evidence: files are read at the time of the piece that names them, and may have changed since an earlier one.
 */
module ClaimAudit {
  import opened Options
  import opened Seqs

  datatype ClaimStatus = Verified | PartiallyVerified | Unverified
  datatype VerificationLevel = RuntimePath | BoundaryOnly | NoLevel
  datatype StageStatus = StagePending | ReadyForReview | Awarded
  datatype ReviewDecision = DecisionPending | Approved | Rejected
  datatype CheckpointStatus = CheckpointPending | Passed

  datatype Evidence =
    | Command(id: string, command: string, expectedExitCode: Option<nat>, timeoutMs: Option<nat>)
    | Artifact(path: string, minBytes: Option<nat>, mustContain: Option<string>)
    | TestPath(path: string)
    | RewardStage(path: string, stageId: string, stageStatus: StageStatus, reviewDecision: Option<ReviewDecision>)
    | RewardCheckpoint(path: string, stageId: string, checkpointId: string, checkpointStatus: CheckpointStatus)

  datatype Claim = Claim(id: string, status: ClaimStatus, level: VerificationLevel, evidence: seq<Evidence>)

  datatype RunResult = RunResult(exitCode: int, stdout: string, stderr: string, timedOut: bool)

  datatype Checkpoint = Checkpoint(id: string, status: CheckpointStatus)
  datatype Stage = Stage(id: string, status: StageStatus, checkpoints: seq<Checkpoint>, review: Option<ReviewDecision>)
  datatype Ledger = Ledger(stages: seq<Stage>)

  datatype FileContents = FileContents(byteLength: nat, text: string)

  /** The parts of the file system that the audit reads without caching, at a time, and its path arithmetic. */
  datatype Files = Files(
    resolve: string -> string,
    relative: string -> string,
    contents: (nat, string) -> Option<FileContents>,
    accessible: (nat, string) -> bool)

  /** What running a command and reading a reward ledger answer; an absent ledger is missing or malformed. */
  datatype Oracle = Oracle(run: (string, int) -> RunResult, ledger: string -> Option<Ledger>)

  datatype Detail =
    | ExitCodeDiffers(command: string, actual: int, expected: int)
    | ExitCodeMatched(command: string, expected: int)
    | ArtifactTooSmall(size: nat, minimum: nat)
    | ArtifactPatternMissing
    | ArtifactPassed
    | ArtifactMissing
    | NotATestFile
    | TestPathExists
    | TestPathMissing
    | LedgerMissingOrInvalid
    | StageNotFound(stageId: string)
    | StageStatusDiffers(expectedStage: StageStatus, foundStage: StageStatus)
    | ReviewDecisionDiffers(expectedDecision: ReviewDecision, foundDecision: Option<ReviewDecision>)
    | StagePassed
    | CheckpointNotFound(checkpointId: string, inStage: string)
    | CheckpointStatusDiffers(expectedCheckpoint: CheckpointStatus, foundCheckpoint: CheckpointStatus)
    | CheckpointPassed

  datatype EvidenceResult = EvidenceResult(
    ok: bool,
    detail: Detail,
    commandId: Option<string>,
    commandExitCode: Option<int>,
    artifactPath: Option<string>)

  datatype Issue =
    | DuplicateCommandIds(ids: seq<string>)
    | VerifiedNeedsRuntimePath
    | PartiallyVerifiedNeedsBoundaryOnly
    | UnverifiedNeedsNoLevel
    | UnverifiedHasEvidence
    | NoEvidence
    | VerifiedNeedsCommand

  datatype Failure = DuplicateClaimId(id: string) | ContractIssue(issue: Issue) | EvidenceFailed(detail: Detail)

  datatype ClaimResult = ClaimResult(
    claimId: string,
    status: ClaimStatus,
    level: VerificationLevel,
    ok: bool,
    failures: seq<Failure>,
    evidenceResults: seq<EvidenceResult>)

  datatype Report = Report(overallPass: bool, totalClaims: nat, passedClaims: int, failedClaims: nat,
                           claims: seq<ClaimResult>)

  // ----- The claim contract

  function CommandIds(evidence: seq<Evidence>): seq<string> {
    if evidence == [] then []
    else CommandIds(evidence[..|evidence| - 1])
         + (if evidence[|evidence| - 1].Command? then [evidence[|evidence| - 1].id] else [])
  }

  /** The entries of `ids` that occurred before, each once, in order. */
  function RepeatedIds(ids: seq<string>): seq<string> {
    if ids == [] then []
    else
      var front, last := ids[..|ids| - 1], ids[|ids| - 1];
      var earlier := RepeatedIds(front);
      if last in front && last !in earlier then earlier + [last] else earlier
  }

  predicate HasCommand(evidence: seq<Evidence>) {
    exists i :: 0 <= i < |evidence| && evidence[i].Command?
  }

  function When(condition: bool, issue: Issue): seq<Issue> {
    if condition then [issue] else []
  }

  function ContractIssues(claim: Claim): seq<Issue> {
    var repeated := RepeatedIds(CommandIds(claim.evidence));
    When(repeated != [], DuplicateCommandIds(repeated))
    + When(claim.status.Verified? && !claim.level.RuntimePath?, VerifiedNeedsRuntimePath)
    + When(claim.status.PartiallyVerified? && !claim.level.BoundaryOnly?, PartiallyVerifiedNeedsBoundaryOnly)
    + When(claim.status.Unverified? && !claim.level.NoLevel?, UnverifiedNeedsNoLevel)
    + When(claim.status.Unverified? && claim.evidence != [], UnverifiedHasEvidence)
    + When(!claim.status.Unverified? && claim.evidence == [], NoEvidence)
    + When(claim.status.Verified? && !HasCommand(claim.evidence), VerifiedNeedsCommand)
  }

  ghost predicate CommandsDistinct(evidence: seq<Evidence>) {
    forall i, j :: 0 <= i < j < |evidence| && evidence[i].Command? && evidence[j].Command? ==>
      evidence[i].id != evidence[j].id
  }

  /** What a well-formed claim is: the status fixes the level and the least evidence, and command ids are distinct. */
  ghost predicate MeetsContract(claim: Claim) {
    && CommandsDistinct(claim.evidence)
    && match claim.status
       case Verified => claim.level.RuntimePath? && exists e :: e in claim.evidence && e.Command?
       case PartiallyVerified => claim.level.BoundaryOnly? && claim.evidence != []
       case Unverified => claim.level.NoLevel? && claim.evidence == []
  }

  lemma {:induction false} RepeatedIdsEmpty(ids: seq<string>)
    ensures RepeatedIds(ids) == [] <==> NoDuplicates(ids)
    ensures forall id :: id in RepeatedIds(ids) ==> id in ids
  {
    if ids != [] {
      var front, last := ids[..|ids| - 1], ids[|ids| - 1];
      assert ids == front + [last];
      RepeatedIdsEmpty(front);
    }
  }

  lemma {:induction false} CommandIdsAre(evidence: seq<Evidence>, id: string)
    ensures id in CommandIds(evidence)
       <==> exists i :: 0 <= i < |evidence| && evidence[i].Command? && evidence[i].id == id
  {
    if evidence != [] {
      var front, last := evidence[..|evidence| - 1], evidence[|evidence| - 1];
      CommandIdsAre(front, id);
      forall i | 0 <= i < |front| ensures front[i] == evidence[i] {}
      if id in CommandIds(front) {
        var i :| 0 <= i < |front| && front[i].Command? && front[i].id == id;
        assert evidence[i].id == id;
      } else if last.Command? && last.id == id {
        assert evidence[|front|].id == id;
      }
    }
  }

  lemma {:induction false} CommandIdsDistinct(evidence: seq<Evidence>)
    ensures NoDuplicates(CommandIds(evidence)) <==> CommandsDistinct(evidence)
  {
    if evidence != [] {
      var front, last := evidence[..|evidence| - 1], evidence[|evidence| - 1];
      CommandIdsDistinct(front);
      forall i | 0 <= i < |front| ensures front[i] == evidence[i] {}
      if last.Command? {
        LastIsNew(CommandIds(front), last.id);
        CommandIdsAre(front, last.id);
        assert evidence[|front|] == last;
      } else {
        assert CommandIds(front) + [] == CommandIds(front);
      }
    }
  }

  lemma LastIsNew<T>(front: seq<T>, last: T)
    ensures NoDuplicates(front + [last]) <==> NoDuplicates(front) && last !in front
  {
    var s := front + [last];
    forall i | 0 <= i < |front| ensures s[i] == front[i] {}
    assert s[|front|] == last;
    if NoDuplicates(s) {
      forall i, j | 0 <= i < j < |front| ensures front[i] != front[j] {
        assert s[i] != s[j];
      }
    }
  }

  /** The contract check finds nothing exactly when the claim is well-formed. */
  lemma ContractIssuesSound(claim: Claim)
    ensures ContractIssues(claim) == [] <==> MeetsContract(claim)
  {
    RepeatedIdsEmpty(CommandIds(claim.evidence));
    CommandIdsDistinct(claim.evidence);
    var repeated := RepeatedIds(CommandIds(claim.evidence));
    ConcatEmpty(
      When(repeated != [], DuplicateCommandIds(repeated)),
      When(claim.status.Verified? && !claim.level.RuntimePath?, VerifiedNeedsRuntimePath),
      When(claim.status.PartiallyVerified? && !claim.level.BoundaryOnly?, PartiallyVerifiedNeedsBoundaryOnly),
      When(claim.status.Unverified? && !claim.level.NoLevel?, UnverifiedNeedsNoLevel),
      When(claim.status.Unverified? && claim.evidence != [], UnverifiedHasEvidence),
      When(!claim.status.Unverified? && claim.evidence == [], NoEvidence),
      When(claim.status.Verified? && !HasCommand(claim.evidence), VerifiedNeedsCommand));
  }

  lemma ConcatEmpty<T>(a: seq<T>, b: seq<T>, c: seq<T>, d: seq<T>, e: seq<T>, f: seq<T>, g: seq<T>)
    ensures a + b + c + d + e + f + g == [] <==> a == b == c == d == e == f == g == []
  {
    assert |a + b + c + d + e + f + g| == |a| + |b| + |c| + |d| + |e| + |f| + |g|;
  }

  // ----- Auditing one piece of evidence

  function TimeoutOf(evidence: Evidence, defaultTimeoutMs: int): int
    requires evidence.Command?
  {
    if evidence.timeoutMs.Some? then evidence.timeoutMs.value else defaultTimeoutMs
  }

  function ExpectedExitCode(evidence: Evidence): int
    requires evidence.Command?
  {
    evidence.expectedExitCode.GetOr(0)
  }

  predicate Includes(text: string, pattern: string) {
    exists i :: 0 <= i <= |text| && pattern <= text[i..]
  }

  predicate EndsWith(text: string, suffix: string) {
    |suffix| <= |text| && text[|text| - |suffix|..] == suffix
  }

  function FindStage(stages: seq<Stage>, id: string): Option<Stage> {
    if stages == [] then None else if stages[0].id == id then Some(stages[0]) else FindStage(stages[1..], id)
  }

  function FindCheckpoint(checkpoints: seq<Checkpoint>, id: string): Option<Checkpoint> {
    if checkpoints == [] then None
    else if checkpoints[0].id == id then Some(checkpoints[0])
    else FindCheckpoint(checkpoints[1..], id)
  }

  function CommandVerdict(evidence: Evidence, result: RunResult): EvidenceResult
    requires evidence.Command?
  {
    var expected := ExpectedExitCode(evidence);
    if result.exitCode != expected
    then EvidenceResult(false, ExitCodeDiffers(evidence.command, result.exitCode, expected),
                        Some(evidence.id), Some(result.exitCode), None)
    else EvidenceResult(true, ExitCodeMatched(evidence.command, expected), Some(evidence.id), Some(result.exitCode),
                        None)
  }

  function FileVerdict(files: Files, resolved: string, ok: bool, detail: Detail): EvidenceResult {
    EvidenceResult(ok, detail, None, None, Some(files.relative(resolved)))
  }

  function ArtifactVerdict(evidence: Evidence, at: nat, files: Files): EvidenceResult
    requires evidence.Artifact?
  {
    var resolved := files.resolve(evidence.path);
    match files.contents(at, resolved)
    case None => FileVerdict(files, resolved, false, ArtifactMissing)
    case Some(found) =>
      if evidence.minBytes.Some? && found.byteLength < evidence.minBytes.value
      then FileVerdict(files, resolved, false, ArtifactTooSmall(found.byteLength, evidence.minBytes.value))
      else if evidence.mustContain.Some? && !Includes(found.text, evidence.mustContain.value)
      then FileVerdict(files, resolved, false, ArtifactPatternMissing)
      else FileVerdict(files, resolved, true, ArtifactPassed)
  }

  function TestPathVerdict(evidence: Evidence, at: nat, files: Files): EvidenceResult
    requires evidence.TestPath?
  {
    var resolved := files.resolve(evidence.path);
    if !files.accessible(at, resolved) then FileVerdict(files, resolved, false, TestPathMissing)
    else if !EndsWith(resolved, ".test.ts") then FileVerdict(files, resolved, false, NotATestFile)
    else FileVerdict(files, resolved, true, TestPathExists)
  }

  function StageVerdict(evidence: Evidence, files: Files, ledger: Option<Ledger>): EvidenceResult
    requires evidence.RewardStage?
  {
    var resolved := files.resolve(evidence.path);
    if ledger.None? then FileVerdict(files, resolved, false, LedgerMissingOrInvalid)
    else
      match FindStage(ledger.value.stages, evidence.stageId)
      case None => FileVerdict(files, resolved, false, StageNotFound(evidence.stageId))
      case Some(stage) =>
        if stage.status != evidence.stageStatus
        then FileVerdict(files, resolved, false, StageStatusDiffers(evidence.stageStatus, stage.status))
        else if evidence.reviewDecision.Some? && stage.review != evidence.reviewDecision
        then FileVerdict(files, resolved, false, ReviewDecisionDiffers(evidence.reviewDecision.value, stage.review))
        else FileVerdict(files, resolved, true, StagePassed)
  }

  function CheckpointVerdict(evidence: Evidence, files: Files, ledger: Option<Ledger>): EvidenceResult
    requires evidence.RewardCheckpoint?
  {
    var resolved := files.resolve(evidence.path);
    if ledger.None? then FileVerdict(files, resolved, false, LedgerMissingOrInvalid)
    else
      match FindStage(ledger.value.stages, evidence.stageId)
      case None => FileVerdict(files, resolved, false, StageNotFound(evidence.stageId))
      case Some(stage) =>
        match FindCheckpoint(stage.checkpoints, evidence.checkpointId)
        case None => FileVerdict(files, resolved, false, CheckpointNotFound(evidence.checkpointId, evidence.stageId))
        case Some(checkpoint) =>
          if checkpoint.status != evidence.checkpointStatus
          then FileVerdict(files, resolved, false,
                           CheckpointStatusDiffers(evidence.checkpointStatus, checkpoint.status))
          else FileVerdict(files, resolved, true, CheckpointPassed)
  }

  // ----- The audit that asks the oracle for every piece of evidence

  function AuditOne(evidence: Evidence, at: nat, defaultTimeoutMs: int, files: Files, oracle: Oracle): EvidenceResult {
    match evidence
    case Command(_, command, _, _) =>
      CommandVerdict(evidence, oracle.run(command, TimeoutOf(evidence, defaultTimeoutMs)))
    case Artifact(_, _, _) => ArtifactVerdict(evidence, at, files)
    case TestPath(_) => TestPathVerdict(evidence, at, files)
    case RewardStage(path, _, _, _) => StageVerdict(evidence, files, oracle.ledger(files.resolve(path)))
    case RewardCheckpoint(path, _, _, _) => CheckpointVerdict(evidence, files, oracle.ledger(files.resolve(path)))
  }

  /** The pieces of evidence from the time `at` on. */
  function AuditAll(evidence: seq<Evidence>, at: nat, defaultTimeoutMs: int, files: Files,
                    oracle: Oracle): seq<EvidenceResult>
  {
    if evidence == [] then []
    else
      var front, last := evidence[..|evidence| - 1], evidence[|evidence| - 1];
      AuditAll(front, at, defaultTimeoutMs, files, oracle)
      + [AuditOne(last, at + |front|, defaultTimeoutMs, files, oracle)]
  }

  function FailureOf(result: EvidenceResult): seq<Failure> {
    if result.ok then [] else [EvidenceFailed(result.detail)]
  }

  function FailedDetails(results: seq<EvidenceResult>): seq<Failure> {
    if results == [] then [] else FailedDetails(results[..|results| - 1]) + FailureOf(results[|results| - 1])
  }

  function IssueFailures(issues: seq<Issue>): seq<Failure> {
    seq(|issues|, i requires 0 <= i < |issues| => ContractIssue(issues[i]))
  }

  /** The failures found before any evidence is looked at. */
  function StaticFailures(claim: Claim, seenIds: set<string>): seq<Failure> {
    (if claim.id in seenIds then [DuplicateClaimId(claim.id)] else []) + IssueFailures(ContractIssues(claim))
  }

  function AuditClaim(claim: Claim, seenIds: set<string>, at: nat, defaultTimeoutMs: int, files: Files,
                      oracle: Oracle): ClaimResult {
    var results := AuditAll(claim.evidence, at, defaultTimeoutMs, files, oracle);
    var failures := StaticFailures(claim, seenIds) + FailedDetails(results);
    ClaimResult(claim.id, claim.status, claim.level, failures == [], failures, results)
  }

  function IdsOf(claims: seq<Claim>): set<string> {
    set c | c in claims :: c.id
  }

  /** The time after the evidence of all the claims. */
  function TimeAfter(claims: seq<Claim>, at: nat): nat {
    if claims == [] then at else TimeAfter(claims[..|claims| - 1], at) + |claims[|claims| - 1].evidence|
  }

  function AuditClaims(claims: seq<Claim>, at: nat, defaultTimeoutMs: int, files: Files,
                       oracle: Oracle): seq<ClaimResult>
  {
    if claims == [] then []
    else
      var front, last := claims[..|claims| - 1], claims[|claims| - 1];
      AuditClaims(front, at, defaultTimeoutMs, files, oracle)
      + [AuditClaim(last, IdsOf(front), TimeAfter(front, at), defaultTimeoutMs, files, oracle)]
  }

  predicate NotOk(result: ClaimResult) { !result.ok }

  function ReportOf(results: seq<ClaimResult>): Report {
    var failed := Count(results, NotOk);
    Report(failed == 0, |results|, |results| - failed, failed, results)
  }

  // ----- What a passing report means

  ghost predicate FirstStage(ledger: Ledger, id: string, i: int) {
    0 <= i < |ledger.stages| && ledger.stages[i].id == id && forall j :: 0 <= j < i ==> ledger.stages[j].id != id
  }

  ghost predicate FirstCheckpoint(stage: Stage, id: string, i: int) {
    && 0 <= i < |stage.checkpoints| && stage.checkpoints[i].id == id
    && forall j :: 0 <= j < i ==> stage.checkpoints[j].id != id
  }

  /** The world is as the evidence says. */
  ghost predicate Satisfied(evidence: Evidence, at: nat, defaultTimeoutMs: int, files: Files, oracle: Oracle) {
    match evidence
    case Command(_, command, expected, timeout) =>
      oracle.run(command, if timeout.Some? then timeout.value else defaultTimeoutMs).exitCode
      == (if expected.Some? then expected.value else 0)
    case Artifact(path, minBytes, mustContain) =>
      var contents := files.contents(at, files.resolve(path));
      && contents.Some?
      && (minBytes.Some? ==> contents.value.byteLength >= minBytes.value)
      && (mustContain.Some? ==> Occurs(mustContain.value, contents.value.text))
    case TestPath(path) =>
      files.accessible(at, files.resolve(path)) && exists stem :: files.resolve(path) == stem + ".test.ts"
    case RewardStage(path, stageId, status, decision) =>
      var ledger := oracle.ledger(files.resolve(path));
      && ledger.Some?
      && exists i :: FirstStage(ledger.value, stageId, i)
                     && ledger.value.stages[i].status == status
                     && (decision.Some? ==> ledger.value.stages[i].review == decision)
    case RewardCheckpoint(path, stageId, checkpointId, status) =>
      var ledger := oracle.ledger(files.resolve(path));
      && ledger.Some?
      && exists i, j :: FirstStage(ledger.value, stageId, i)
                        && FirstCheckpoint(ledger.value.stages[i], checkpointId, j)
                        && ledger.value.stages[i].checkpoints[j].status == status
  }

  ghost predicate OccursBetween(before: string, pattern: string, after: string, text: string) {
    text == before + pattern + after
  }

  ghost predicate Occurs(pattern: string, text: string) {
    exists before, after :: OccursBetween(before, pattern, after, text)
  }

  lemma IncludesMeaning(text: string, pattern: string)
    ensures Includes(text, pattern) <==> Occurs(pattern, text)
  {
    if Includes(text, pattern) {
      var i :| 0 <= i <= |text| && pattern <= text[i..];
      assert OccursBetween(text[..i], pattern, text[i..][|pattern|..], text);
    }
    if Occurs(pattern, text) {
      var before, after :| OccursBetween(before, pattern, after, text);
      assert text[|before|..] == pattern + after;
    }
  }

  lemma EndsWithMeaning(text: string, suffix: string)
    ensures EndsWith(text, suffix) <==> exists stem :: text == stem + suffix
  {
    if EndsWith(text, suffix) {
      assert text == text[..|text| - |suffix|] + suffix;
    }
  }

  lemma {:induction false} FindStageIsFirst(ledger: Ledger, id: string)
    ensures FindStage(ledger.stages, id).None? ==> forall i :: !FirstStage(ledger, id, i)
    ensures FindStage(ledger.stages, id).Some? ==>
              exists i :: FirstStage(ledger, id, i) && FindStage(ledger.stages, id).value == ledger.stages[i]
    decreases |ledger.stages|
  {
    var stages := ledger.stages;
    if stages == [] {
    } else if stages[0].id == id {
      assert FirstStage(ledger, id, 0);
    } else {
      var rest := Ledger(stages[1..]);
      FindStageIsFirst(rest, id);
      forall i | FirstStage(ledger, id, i) ensures FirstStage(rest, id, i - 1) {
        assert forall j :: 0 <= j < i - 1 ==> rest.stages[j] == stages[j + 1];
      }
      if FindStage(rest.stages, id).Some? {
        var i :| FirstStage(rest, id, i) && FindStage(rest.stages, id).value == rest.stages[i];
        assert forall j :: 0 < j < i + 1 ==> stages[j] == rest.stages[j - 1];
        assert FirstStage(ledger, id, i + 1);
      }
    }
  }

  lemma {:induction false} FindCheckpointIsFirst(stage: Stage, id: string)
    ensures FindCheckpoint(stage.checkpoints, id).None? ==> forall i :: !FirstCheckpoint(stage, id, i)
    ensures FindCheckpoint(stage.checkpoints, id).Some? ==>
              exists i ::
                FirstCheckpoint(stage, id, i) && FindCheckpoint(stage.checkpoints, id).value == stage.checkpoints[i]
    decreases |stage.checkpoints|
  {
    var checkpoints := stage.checkpoints;
    if checkpoints == [] {
    } else if checkpoints[0].id == id {
      assert FirstCheckpoint(stage, id, 0);
    } else {
      var rest := stage.(checkpoints := checkpoints[1..]);
      FindCheckpointIsFirst(rest, id);
      forall i | FirstCheckpoint(stage, id, i) ensures FirstCheckpoint(rest, id, i - 1) {
        assert forall j :: 0 <= j < i - 1 ==> rest.checkpoints[j] == checkpoints[j + 1];
      }
      if FindCheckpoint(rest.checkpoints, id).Some? {
        var i :| FirstCheckpoint(rest, id, i) && FindCheckpoint(rest.checkpoints, id).value == rest.checkpoints[i];
        assert forall j :: 0 < j < i + 1 ==> checkpoints[j] == rest.checkpoints[j - 1];
        assert FirstCheckpoint(stage, id, i + 1);
      }
    }
  }

  /** A verdict is positive exactly when the world is as the evidence says. */
  lemma VerdictSound(evidence: Evidence, at: nat, defaultTimeoutMs: int, files: Files, oracle: Oracle)
    ensures AuditOne(evidence, at, defaultTimeoutMs, files, oracle).ok
       <==> Satisfied(evidence, at, defaultTimeoutMs, files, oracle)
  {
    match evidence
    case Artifact(path, _, mustContain) =>
      var contents := files.contents(at, files.resolve(path));
      if contents.Some? && mustContain.Some? {
        IncludesMeaning(contents.value.text, mustContain.value);
      }
    case TestPath(path) => EndsWithMeaning(files.resolve(path), ".test.ts");
    case RewardStage(path, stageId, _, _) =>
      var ledger := oracle.ledger(files.resolve(path));
      if ledger.Some? {
        FindStageIsFirst(ledger.value, stageId);
      }
    case RewardCheckpoint(path, stageId, checkpointId, _) =>
      var ledger := oracle.ledger(files.resolve(path));
      if ledger.Some? {
        FindStageIsFirst(ledger.value, stageId);
        var stage := FindStage(ledger.value.stages, stageId);
        if stage.Some? {
          FindCheckpointIsFirst(stage.value, checkpointId);
        }
      }
    case _ =>
  }

  /** Every piece is satisfied at its time. */
  ghost predicate AllSatisfied(evidence: seq<Evidence>, at: nat, defaultTimeoutMs: int, files: Files, oracle: Oracle) {
    evidence != [] ==>
      var front, last := evidence[..|evidence| - 1], evidence[|evidence| - 1];
      AllSatisfied(front, at, defaultTimeoutMs, files, oracle)
      && Satisfied(last, at + |front|, defaultTimeoutMs, files, oracle)
  }

  lemma {:induction false} EachSatisfied(evidence: seq<Evidence>, at: nat, defaultTimeoutMs: int, files: Files,
                                         oracle: Oracle, i: nat)
    requires AllSatisfied(evidence, at, defaultTimeoutMs, files, oracle) && i < |evidence|
    ensures Satisfied(evidence[i], at + i, defaultTimeoutMs, files, oracle)
  {
    if i < |evidence| - 1 {
      EachSatisfied(evidence[..|evidence| - 1], at, defaultTimeoutMs, files, oracle, i);
    }
  }

  lemma OneMoreFails(results: seq<EvidenceResult>, result: EvidenceResult)
    ensures FailedDetails(results + [result]) == [] <==> FailedDetails(results) == [] && result.ok
  {
    assert (results + [result])[..|results|] == results;
    assert |FailedDetails(results + [result])| == |FailedDetails(results)| + |FailureOf(result)|;
  }

  lemma {:induction false} LastVerdict(evidence: seq<Evidence>, at: nat, defaultTimeoutMs: int, files: Files,
                                       oracle: Oracle)
    returns (result: EvidenceResult)
    requires evidence != []
    ensures var front, last := evidence[..|evidence| - 1], evidence[|evidence| - 1];
            && AuditAll(evidence, at, defaultTimeoutMs, files, oracle)
               == AuditAll(front, at, defaultTimeoutMs, files, oracle) + [result]
            && (result.ok <==> Satisfied(last, at + |front|, defaultTimeoutMs, files, oracle))
  {
    var front, last := evidence[..|evidence| - 1], evidence[|evidence| - 1];
    result := AuditOne(last, at + |front|, defaultTimeoutMs, files, oracle);
    VerdictSound(last, at + |front|, defaultTimeoutMs, files, oracle);
  }

  lemma {:induction false} NoFailedDetails(evidence: seq<Evidence>, at: nat, defaultTimeoutMs: int, files: Files,
                                           oracle: Oracle)
    ensures FailedDetails(AuditAll(evidence, at, defaultTimeoutMs, files, oracle)) == []
       <==> AllSatisfied(evidence, at, defaultTimeoutMs, files, oracle)
  {
    if evidence != [] {
      var front := evidence[..|evidence| - 1];
      NoFailedDetails(front, at, defaultTimeoutMs, files, oracle);
      var result := LastVerdict(evidence, at, defaultTimeoutMs, files, oracle);
      OneMoreFails(AuditAll(front, at, defaultTimeoutMs, files, oracle), result);
    }
  }

  /** The claim meets its contract, and its evidence, looked at from the time `at` on, is satisfied. */
  ghost predicate ClaimHolds(claim: Claim, at: nat, defaultTimeoutMs: int, files: Files, oracle: Oracle) {
    MeetsContract(claim) && AllSatisfied(claim.evidence, at, defaultTimeoutMs, files, oracle)
  }

  ghost predicate IdsDistinct(claims: seq<Claim>) {
    forall i, j :: 0 <= i < j < |claims| ==> claims[i].id != claims[j].id
  }

  lemma ClaimOkMeaning(claim: Claim, seenIds: set<string>, at: nat, defaultTimeoutMs: int, files: Files, oracle: Oracle)
    ensures AuditClaim(claim, seenIds, at, defaultTimeoutMs, files, oracle).ok
       <==> claim.id !in seenIds && ClaimHolds(claim, at, defaultTimeoutMs, files, oracle)
  {
    ContractIssuesSound(claim);
    NoFailedDetails(claim.evidence, at, defaultTimeoutMs, files, oracle);
  }

  lemma IdsDistinctStep(front: seq<Claim>, last: Claim)
    ensures IdsDistinct(front + [last]) <==> IdsDistinct(front) && last.id !in IdsOf(front)
  {
    var claims := front + [last];
    forall i | 0 <= i < |front| ensures claims[i] == front[i] && front[i].id in IdsOf(front) {
      assert front[i] in front;
    }
    assert claims[|front|] == last;
  }

  /** Every claim holds at its time: after the evidence of the claims before it. */
  ghost predicate AllHold(claims: seq<Claim>, at: nat, defaultTimeoutMs: int, files: Files, oracle: Oracle) {
    claims != [] ==>
      var front, last := claims[..|claims| - 1], claims[|claims| - 1];
      AllHold(front, at, defaultTimeoutMs, files, oracle)
      && ClaimHolds(last, TimeAfter(front, at), defaultTimeoutMs, files, oracle)
  }

  lemma {:induction false} EachHolds(claims: seq<Claim>, at: nat, defaultTimeoutMs: int, files: Files, oracle: Oracle,
                                     i: nat)
    requires AllHold(claims, at, defaultTimeoutMs, files, oracle) && i < |claims|
    ensures ClaimHolds(claims[i], TimeAfter(claims[..i], at), defaultTimeoutMs, files, oracle)
  {
    var front := claims[..|claims| - 1];
    if i < |front| {
      EachHolds(front, at, defaultTimeoutMs, files, oracle, i);
      assert front[..i] == claims[..i];
    }
  }

  lemma {:induction false} AllClaimsOk(claims: seq<Claim>, at: nat, defaultTimeoutMs: int, files: Files, oracle: Oracle)
    ensures Count(AuditClaims(claims, at, defaultTimeoutMs, files, oracle), NotOk) == 0
       <==> IdsDistinct(claims) && AllHold(claims, at, defaultTimeoutMs, files, oracle)
  {
    if claims != [] {
      var front, last := claims[..|claims| - 1], claims[|claims| - 1];
      assert claims == front + [last];
      AllClaimsOk(front, at, defaultTimeoutMs, files, oracle);
      IdsDistinctStep(front, last);
      ClaimOkMeaning(last, IdsOf(front), TimeAfter(front, at), defaultTimeoutMs, files, oracle);
      CountAppend(AuditClaims(front, at, defaultTimeoutMs, files, oracle),
                  AuditClaim(last, IdsOf(front), TimeAfter(front, at), defaultTimeoutMs, files, oracle), NotOk);
    }
  }

  /** Every claim has a result. */
  lemma {:induction false} AuditClaimsLength(claims: seq<Claim>, at: nat, defaultTimeoutMs: int, files: Files,
                                             oracle: Oracle)
    ensures |AuditClaims(claims, at, defaultTimeoutMs, files, oracle)| == |claims|
  {
    if claims != [] {
      AuditClaimsLength(claims[..|claims| - 1], at, defaultTimeoutMs, files, oracle);
    }
  }

  /**
   End to end: the report passes exactly when claim ids are distinct, every claim is well-formed, and the world
   satisfies every piece of evidence when it is looked at.
   */
  lemma {:induction false} OverallPassSound(claims: seq<Claim>, at: nat, defaultTimeoutMs: int, files: Files,
                                            oracle: Oracle)
    ensures var report := ReportOf(AuditClaims(claims, at, defaultTimeoutMs, files, oracle));
            && (report.overallPass <==> IdsDistinct(claims) && AllHold(claims, at, defaultTimeoutMs, files, oracle))
            && report.passedClaims + report.failedClaims == report.totalClaims == |claims|
            && 0 <= report.passedClaims
  {
    AllClaimsOk(claims, at, defaultTimeoutMs, files, oracle);
    AuditClaimsLength(claims, at, defaultTimeoutMs, files, oracle);
  }

  /** A claim whose evidence names a command that exits with the code it promises. */
  ghost predicate HasGoodCommand(claim: Claim, defaultTimeoutMs: int, oracle: Oracle) {
    exists e :: && e in claim.evidence && e.Command?
                && oracle.run(e.command, if e.timeoutMs.Some? then e.timeoutMs.value else defaultTimeoutMs).exitCode
                   == (if e.expectedExitCode.Some? then e.expectedExitCode.value else 0)
  }

  lemma VerifiedHasGoodCommand(claim: Claim, at: nat, defaultTimeoutMs: int, files: Files, oracle: Oracle)
    requires ClaimHolds(claim, at, defaultTimeoutMs, files, oracle) && claim.status.Verified?
    ensures HasGoodCommand(claim, defaultTimeoutMs, oracle)
  {
    var e :| e in claim.evidence && e.Command?;
    var i :| 0 <= i < |claim.evidence| && claim.evidence[i] == e;
    EachSatisfied(claim.evidence, at, defaultTimeoutMs, files, oracle, i);
  }

  lemma {:induction false} EachHasGoodCommand(claims: seq<Claim>, at: nat, defaultTimeoutMs: int, files: Files,
                                              oracle: Oracle, claim: Claim)
    requires AllHold(claims, at, defaultTimeoutMs, files, oracle) && claim in claims && claim.status.Verified?
    ensures HasGoodCommand(claim, defaultTimeoutMs, oracle)
  {
    var c :| 0 <= c < |claims| && claims[c] == claim;
    EachHolds(claims, at, defaultTimeoutMs, files, oracle, c);
    VerifiedHasGoodCommand(claim, TimeAfter(claims[..c], at), defaultTimeoutMs, files, oracle);
  }

  /** In a passing report a verified claim has a command that really exited with the code it promised. */
  lemma {:induction false} VerifiedClaimsRan(claims: seq<Claim>, at: nat, defaultTimeoutMs: int, files: Files,
                                             oracle: Oracle, claim: Claim)
    requires ReportOf(AuditClaims(claims, at, defaultTimeoutMs, files, oracle)).overallPass
    requires claim in claims && claim.status.Verified?
    ensures HasGoodCommand(claim, defaultTimeoutMs, oracle)
  {
    AllClaimsOk(claims, at, defaultTimeoutMs, files, oracle);
    EachHasGoodCommand(claims, at, defaultTimeoutMs, files, oracle, claim);
  }
}
