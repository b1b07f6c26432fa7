/** What a report of the audit says, told claim by claim and piece by piece, and not by how the audit arrives at it. */
module AuditReport {
  import opened Options
  import opened Seqs
  import opened ClaimAudit

  // ----- One piece of evidence

  /** A command's result names it, gives the exit code it had, and holds that against the promised one, or else 0. */
  ghost predicate ReportsCommand(result: EvidenceResult, evidence: Evidence, defaultTimeoutMs: int, oracle: Oracle)
    requires evidence.Command?
  {
    var exitCode := oracle.run(
      evidence.command, if evidence.timeoutMs.Some? then evidence.timeoutMs.value else defaultTimeoutMs).exitCode;
    var promised: int := if evidence.expectedExitCode.Some? then evidence.expectedExitCode.value else 0;
    && result.commandId == Some(evidence.id) && result.commandExitCode == Some(exitCode) && result.artifactPath == None
    && result.ok == (exitCode == promised)
    && result.detail == if exitCode == promised then ExitCodeMatched(evidence.command, promised)
                        else ExitCodeDiffers(evidence.command, exitCode, promised)
  }

  /** The first thing that is wrong with an artifact, or that nothing is. */
  ghost predicate ArtifactIs(detail: Detail, evidence: Evidence, at: nat, files: Files)
    requires evidence.Artifact?
  {
    var found := files.contents(at, files.resolve(evidence.path));
    match detail
    case ArtifactMissing => found.None?
    case ArtifactTooSmall(size, minimum) =>
      found.Some? && size == found.value.byteLength < minimum && evidence.minBytes == Some(minimum)
    case ArtifactPatternMissing =>
      && found.Some? && (evidence.minBytes.Some? ==> evidence.minBytes.value <= found.value.byteLength)
      && evidence.mustContain.Some? && !Occurs(evidence.mustContain.value, found.value.text)
    case ArtifactPassed =>
      && found.Some? && (evidence.minBytes.Some? ==> evidence.minBytes.value <= found.value.byteLength)
      && (evidence.mustContain.Some? ==> Occurs(evidence.mustContain.value, found.value.text))
    case _ => false
  }

  ghost predicate TestPathIs(detail: Detail, evidence: Evidence, at: nat, files: Files)
    requires evidence.TestPath?
  {
    var resolved := files.resolve(evidence.path);
    match detail
    case TestPathMissing => !files.accessible(at, resolved)
    case NotATestFile => files.accessible(at, resolved) && !exists stem :: resolved == stem + ".test.ts"
    case TestPathExists => files.accessible(at, resolved) && exists stem :: resolved == stem + ".test.ts"
    case _ => false
  }

  ghost predicate HasNoStage(ledger: Ledger, id: string) {
    forall i :: 0 <= i < |ledger.stages| ==> ledger.stages[i].id != id
  }

  ghost predicate StageIs(detail: Detail, evidence: Evidence, ledger: Option<Ledger>)
    requires evidence.RewardStage?
  {
    match detail
    case LedgerMissingOrInvalid => ledger.None?
    case StageNotFound(id) => ledger.Some? && id == evidence.stageId && HasNoStage(ledger.value, id)
    case StageStatusDiffers(expected, found) =>
      && ledger.Some? && expected == evidence.stageStatus != found
      && exists i :: FirstStage(ledger.value, evidence.stageId, i) && ledger.value.stages[i].status == found
    case ReviewDecisionDiffers(expected, found) =>
      && ledger.Some? && Some(expected) == evidence.reviewDecision != found
      && exists i :: FirstStage(ledger.value, evidence.stageId, i)
                     && ledger.value.stages[i].status == evidence.stageStatus && ledger.value.stages[i].review == found
    case StagePassed =>
      && ledger.Some?
      && exists i :: FirstStage(ledger.value, evidence.stageId, i)
                     && ledger.value.stages[i].status == evidence.stageStatus
                     && (evidence.reviewDecision.Some? ==> ledger.value.stages[i].review == evidence.reviewDecision)
    case _ => false
  }

  ghost predicate HasNoCheckpoint(stage: Stage, id: string) {
    forall j :: 0 <= j < |stage.checkpoints| ==> stage.checkpoints[j].id != id
  }

  ghost predicate CheckpointHas(ledger: Ledger, stageId: string, checkpointId: string, status: CheckpointStatus) {
    exists i, j :: FirstStage(ledger, stageId, i) && FirstCheckpoint(ledger.stages[i], checkpointId, j)
                   && ledger.stages[i].checkpoints[j].status == status
  }

  ghost predicate CheckpointIs(detail: Detail, evidence: Evidence, ledger: Option<Ledger>)
    requires evidence.RewardCheckpoint?
  {
    match detail
    case LedgerMissingOrInvalid => ledger.None?
    case StageNotFound(id) => ledger.Some? && id == evidence.stageId && HasNoStage(ledger.value, id)
    case CheckpointNotFound(id, stageId) =>
      && ledger.Some? && id == evidence.checkpointId && stageId == evidence.stageId
      && exists i :: FirstStage(ledger.value, stageId, i) && HasNoCheckpoint(ledger.value.stages[i], id)
    case CheckpointStatusDiffers(expected, found) =>
      && ledger.Some? && expected == evidence.checkpointStatus != found
      && CheckpointHas(ledger.value, evidence.stageId, evidence.checkpointId, found)
    case CheckpointPassed =>
      ledger.Some? && CheckpointHas(ledger.value, evidence.stageId, evidence.checkpointId, evidence.checkpointStatus)
    case _ => false
  }

  /** A result about a file names the file, relative to the working directory, and no command. */
  ghost predicate ReportsFile(result: EvidenceResult, evidence: Evidence, at: nat, files: Files, oracle: Oracle)
    requires !evidence.Command?
  {
    && result.commandId == None && result.commandExitCode == None
    && result.artifactPath == Some(files.relative(files.resolve(evidence.path)))
    && match evidence
       case Artifact(_, _, _) => ArtifactIs(result.detail, evidence, at, files)
       case TestPath(_) => TestPathIs(result.detail, evidence, at, files)
       case RewardStage(path, _, _, _) => StageIs(result.detail, evidence, oracle.ledger(files.resolve(path)))
       case RewardCheckpoint(path, _, _, _) => CheckpointIs(result.detail, evidence, oracle.ledger(files.resolve(path)))
  }

  /** The result is positive exactly when the world is as the evidence says, and tells what was found. */
  ghost predicate Reports(result: EvidenceResult, evidence: Evidence, at: nat, defaultTimeoutMs: int, files: Files,
                          oracle: Oracle)
  {
    && (result.ok <==> Satisfied(evidence, at, defaultTimeoutMs, files, oracle))
    && if evidence.Command? then ReportsCommand(result, evidence, defaultTimeoutMs, oracle)
       else ReportsFile(result, evidence, at, files, oracle)
  }

  lemma StageNotFoundMeaning(ledger: Ledger, id: string)
    requires FindStage(ledger.stages, id).None?
    ensures HasNoStage(ledger, id)
    decreases |ledger.stages|
  {
    if ledger.stages != [] {
      var rest := Ledger(ledger.stages[1..]);
      StageNotFoundMeaning(rest, id);
      assert forall i :: 0 < i < |ledger.stages| ==> ledger.stages[i] == rest.stages[i - 1];
    }
  }

  lemma CheckpointNotFoundMeaning(stage: Stage, id: string)
    requires FindCheckpoint(stage.checkpoints, id).None?
    ensures HasNoCheckpoint(stage, id)
    decreases |stage.checkpoints|
  {
    if stage.checkpoints != [] {
      var rest := stage.(checkpoints := stage.checkpoints[1..]);
      CheckpointNotFoundMeaning(rest, id);
      assert forall j :: 0 < j < |stage.checkpoints| ==> stage.checkpoints[j] == rest.checkpoints[j - 1];
    }
  }

  lemma ArtifactIsReported(evidence: Evidence, at: nat, files: Files)
    requires evidence.Artifact?
    ensures ArtifactIs(ArtifactVerdict(evidence, at, files).detail, evidence, at, files)
  {
    var found := files.contents(at, files.resolve(evidence.path));
    if found.Some? && evidence.mustContain.Some? {
      IncludesMeaning(found.value.text, evidence.mustContain.value);
    }
  }

  lemma TestPathIsReported(evidence: Evidence, at: nat, files: Files)
    requires evidence.TestPath?
    ensures TestPathIs(TestPathVerdict(evidence, at, files).detail, evidence, at, files)
  {
    EndsWithMeaning(files.resolve(evidence.path), ".test.ts");
  }

  lemma StageIsReported(evidence: Evidence, files: Files, ledger: Option<Ledger>)
    requires evidence.RewardStage?
    ensures StageIs(StageVerdict(evidence, files, ledger).detail, evidence, ledger)
  {
    if ledger.Some? {
      FindStageIsFirst(ledger.value, evidence.stageId);
      if FindStage(ledger.value.stages, evidence.stageId).None? {
        StageNotFoundMeaning(ledger.value, evidence.stageId);
      }
    }
  }

  lemma CheckpointIsReported(evidence: Evidence, files: Files, ledger: Option<Ledger>)
    requires evidence.RewardCheckpoint?
    ensures CheckpointIs(CheckpointVerdict(evidence, files, ledger).detail, evidence, ledger)
  {
    if ledger.Some? {
      FindStageIsFirst(ledger.value, evidence.stageId);
      var stage := FindStage(ledger.value.stages, evidence.stageId);
      if stage.None? {
        StageNotFoundMeaning(ledger.value, evidence.stageId);
      } else {
        FindCheckpointIsFirst(stage.value, evidence.checkpointId);
        if FindCheckpoint(stage.value.checkpoints, evidence.checkpointId).None? {
          CheckpointNotFoundMeaning(stage.value, evidence.checkpointId);
        }
      }
    }
  }

  lemma PieceIsReported(evidence: Evidence, at: nat, defaultTimeoutMs: int, files: Files, oracle: Oracle)
    ensures Reports(AuditOne(evidence, at, defaultTimeoutMs, files, oracle), evidence, at, defaultTimeoutMs, files,
                    oracle)
  {
    VerdictSound(evidence, at, defaultTimeoutMs, files, oracle);
    match evidence
    case Command(_, _, _, _) =>
    case Artifact(_, _, _) => ArtifactIsReported(evidence, at, files);
    case TestPath(_) => TestPathIsReported(evidence, at, files);
    case RewardStage(path, _, _, _) => StageIsReported(evidence, files, oracle.ledger(files.resolve(path)));
    case RewardCheckpoint(path, _, _, _) => CheckpointIsReported(evidence, files, oracle.ledger(files.resolve(path)));
  }

  // ----- One claim

  ghost predicate UsesCommand(evidence: seq<Evidence>, i: int, id: string) {
    0 <= i < |evidence| && evidence[i].Command? && evidence[i].id == id
  }

  /** The id occurs a second time at `j`: once before, and no more than once. */
  ghost predicate RepeatsAt(evidence: seq<Evidence>, j: int, id: string) {
    && UsesCommand(evidence, j, id)
    && (exists i :: 0 <= i < j && UsesCommand(evidence, i, id))
    && forall i, k :: 0 <= i < k < j ==> !(UsesCommand(evidence, i, id) && UsesCommand(evidence, k, id))
  }

  /** The ids are listed in the order in which they repeat. */
  ghost predicate AreInOrder(ids: seq<string>, evidence: seq<Evidence>) {
    forall a, b, j, k :: 0 <= a < b < |ids| && RepeatsAt(evidence, j, ids[a]) && RepeatsAt(evidence, k, ids[b]) ==>
      j < k
  }

  /** The repeated command ids, each once, in the order in which they are found to be repeated. */
  ghost predicate AreRepeated(ids: seq<string>, evidence: seq<Evidence>) {
    (forall id :: id in ids <==> exists j :: RepeatsAt(evidence, j, id)) && AreInOrder(ids, evidence)
  }

  ghost predicate IsIssue(issue: Issue, claim: Claim) {
    match issue
    case DuplicateCommandIds(ids) => ids != [] && AreRepeated(ids, claim.evidence)
    case VerifiedNeedsRuntimePath => claim.status == Verified && claim.level != RuntimePath
    case PartiallyVerifiedNeedsBoundaryOnly => claim.status == PartiallyVerified && claim.level != BoundaryOnly
    case UnverifiedNeedsNoLevel => claim.status == Unverified && claim.level != NoLevel
    case UnverifiedHasEvidence => claim.status == Unverified && claim.evidence != []
    case NoEvidence => claim.status != Unverified && claim.evidence == []
    case VerifiedNeedsCommand => claim.status == Verified && forall e :: e in claim.evidence ==> !e.Command?
  }

  /** The place of an issue among those that a claim can have. */
  function Place(issue: Issue): nat {
    match issue
    case DuplicateCommandIds(_) => 0
    case VerifiedNeedsRuntimePath => 1
    case PartiallyVerifiedNeedsBoundaryOnly => 2
    case UnverifiedNeedsNoLevel => 3
    case UnverifiedHasEvidence => 4
    case NoEvidence => 5
    case VerifiedNeedsCommand => 6
  }

  /** The issues are those that the claim has, each once, in their order. */
  ghost predicate AreIssues(issues: seq<Issue>, claim: Claim) {
    && (forall issue :: issue in issues ==> IsIssue(issue, claim))
    && (forall issue :: IsIssue(issue, claim) && !issue.DuplicateCommandIds? ==> issue in issues)
    && (!CommandsDistinct(claim.evidence) ==> issues != [] && issues[0].DuplicateCommandIds?)
    && (forall i, j :: 0 <= i < j < |issues| ==> Place(issues[i]) < Place(issues[j]))
  }

  lemma {:induction false} TwoUsesRepeat(evidence: seq<Evidence>, i: nat, k: nat, id: string)
    requires i < k && UsesCommand(evidence, i, id) && UsesCommand(evidence, k, id)
    ensures exists j :: RepeatsAt(evidence, j, id)
    decreases k
  {
    if i', k' :| 0 <= i' < k' < k && UsesCommand(evidence, i', id) && UsesCommand(evidence, k', id) {
      TwoUsesRepeat(evidence, i', k', id);
    } else {
      assert RepeatsAt(evidence, k, id);
    }
  }

  lemma RepeatsBefore(front: seq<Evidence>, last: Evidence, j: int, id: string)
    requires j < |front|
    ensures RepeatsAt(front + [last], j, id) <==> RepeatsAt(front, j, id)
  {
    var evidence := front + [last];
    assert forall i :: i <= j ==> (UsesCommand(evidence, i, id) <==> UsesCommand(front, i, id));
  }

  lemma RepeatsLast(front: seq<Evidence>, last: Evidence, id: string)
    ensures RepeatsAt(front + [last], |front|, id)
       <==> last.Command? && last.id == id && id in CommandIds(front) && !exists j :: RepeatsAt(front, j, id)
  {
    var evidence, n := front + [last], |front|;
    forall i | i < n ensures UsesCommand(evidence, i, id) <==> UsesCommand(front, i, id) {}
    CommandIdsAre(front, id);
    if i :| 0 <= i < n && front[i].Command? && front[i].id == id {
      assert UsesCommand(front, i, id);
    }
    if RepeatsAt(evidence, n, id) {
      assert forall i, j :: 0 <= i < j < n ==> !(UsesCommand(front, i, id) && UsesCommand(front, j, id));
    } else if i, k :| 0 <= i < k < n && UsesCommand(evidence, i, id) && UsesCommand(evidence, k, id) {
      TwoUsesRepeat(front, i, k, id);
    }
  }

  lemma RepeatsAppend(front: seq<Evidence>, last: Evidence, id: string)
    ensures (exists j :: RepeatsAt(front + [last], j, id))
       <==> (exists j :: RepeatsAt(front, j, id)) || RepeatsAt(front + [last], |front|, id)
  {
    var evidence := front + [last];
    if j :| RepeatsAt(evidence, j, id) && j < |front| {
      RepeatsBefore(front, last, j, id);
    }
    if j :| RepeatsAt(front, j, id) {
      RepeatsBefore(front, last, j, id);
    }
  }

  /** An id that comes last repeats last. */
  lemma LastInOrder(earlier: seq<string>, front: seq<Evidence>, last: Evidence)
    requires AreInOrder(earlier, front) && forall id :: id in earlier ==> exists j :: RepeatsAt(front, j, id)
    ensures AreInOrder(earlier, front + [last])
    ensures last.Command? && !(exists j :: RepeatsAt(front, j, last.id)) ==>
              AreInOrder(earlier + [last.id], front + [last])
  {
    var evidence := front + [last];
    forall id, j | id in earlier && RepeatsAt(evidence, j, id) ensures j < |front| && RepeatsAt(front, j, id) {
      RepeatsLast(front, last, id);
      RepeatsBefore(front, last, j, id);
    }
    if last.Command? && !(exists j :: RepeatsAt(front, j, last.id)) {
      forall k | RepeatsAt(evidence, k, last.id) ensures k >= |front| {
        if k < |front| {
          RepeatsBefore(front, last, k, last.id);
        }
      }
    }
  }

  lemma RepeatedMore(earlier: seq<string>, front: seq<Evidence>, last: Evidence, id: string)
    requires id in earlier <==> exists j :: RepeatsAt(front, j, id)
    ensures id in earlier || (last.Command? && last.id == id && id in CommandIds(front))
       <==> exists j :: RepeatsAt(front + [last], j, id)
  {
    RepeatsAppend(front, last, id);
    RepeatsLast(front, last, id);
  }

  lemma RepeatedStep(earlier: seq<string>, repeated: seq<string>, front: seq<Evidence>, last: Evidence)
    requires AreRepeated(earlier, front)
    requires repeated == if last.Command? && last.id in CommandIds(front) && last.id !in earlier
                         then earlier + [last.id] else earlier
    ensures AreRepeated(repeated, front + [last])
  {
    forall id ensures id in repeated <==> exists j :: RepeatsAt(front + [last], j, id) {
      RepeatedMore(earlier, front, last, id);
    }
    LastInOrder(earlier, front, last);
  }

  lemma {:induction false} RepeatedAre(evidence: seq<Evidence>)
    ensures AreRepeated(RepeatedIds(CommandIds(evidence)), evidence)
  {
    if evidence != [] {
      var front, last := evidence[..|evidence| - 1], evidence[|evidence| - 1];
      RepeatedAre(front);
      RepeatedGrow(front, last);
      assert evidence == front + [last];
      RepeatedStep(RepeatedIds(CommandIds(front)), RepeatedIds(CommandIds(evidence)), front, last);
    }
  }

  lemma RepeatedGrow(front: seq<Evidence>, last: Evidence)
    ensures var earlier, repeated := RepeatedIds(CommandIds(front)), RepeatedIds(CommandIds(front + [last]));
            repeated == if last.Command? && last.id in CommandIds(front) && last.id !in earlier
                        then earlier + [last.id] else earlier
  {
    assert (front + [last])[..|front|] == front;
    if last.Command? {
      assert (CommandIds(front) + [last.id])[..|CommandIds(front)|] == CommandIds(front);
    } else {
      assert CommandIds(front) + [] == CommandIds(front);
    }
  }

  ghost predicate InPlace(issues: seq<Issue>) {
    forall i, j :: 0 <= i < j < |issues| ==> Place(issues[i]) < Place(issues[j])
  }

  ghost predicate AllAt(issues: seq<Issue>, low: nat, high: nat) {
    InPlace(issues) && forall x :: x in issues ==> low <= Place(x) <= high
  }

  lemma WhenAt(condition: bool, issue: Issue)
    ensures AllAt(When(condition, issue), Place(issue), Place(issue))
  {
  }

  lemma ConcatAt(a: seq<Issue>, b: seq<Issue>, k: nat)
    requires AllAt(a, 0, k) && AllAt(b, k + 1, k + 1)
    ensures AllAt(a + b, 0, k + 1)
  {
    forall i, j | 0 <= i < j < |a + b| ensures Place((a + b)[i]) < Place((a + b)[j]) {
      if i < |a| <= j {
        assert a[i] in a && b[j - |a|] in b;
      }
    }
  }

  lemma SevenAt(a: seq<Issue>, b: seq<Issue>, c: seq<Issue>, d: seq<Issue>, e: seq<Issue>, f: seq<Issue>, g: seq<Issue>)
    requires AllAt(a, 0, 0) && AllAt(b, 1, 1) && AllAt(c, 2, 2) && AllAt(d, 3, 3) && AllAt(e, 4, 4) && AllAt(f, 5, 5)
    requires AllAt(g, 6, 6)
    ensures AllAt(a + b + c + d + e + f + g, 0, 6)
  {
    ConcatAt(a, b, 0);
    ConcatAt(a + b, c, 1);
    ConcatAt(a + b + c, d, 2);
    ConcatAt(a + b + c + d, e, 3);
    ConcatAt(a + b + c + d + e, f, 4);
    ConcatAt(a + b + c + d + e + f, g, 5);
  }

  /** Seven conditions, each with its issue. */
  lemma SevenWhenInPlace(a: bool, ids: seq<string>, b: bool, c: bool, d: bool, e: bool, f: bool, g: bool)
    ensures InPlace(When(a, DuplicateCommandIds(ids)) + When(b, VerifiedNeedsRuntimePath)
                    + When(c, PartiallyVerifiedNeedsBoundaryOnly) + When(d, UnverifiedNeedsNoLevel)
                    + When(e, UnverifiedHasEvidence) + When(f, NoEvidence) + When(g, VerifiedNeedsCommand))
  {
    WhenAt(a, DuplicateCommandIds(ids));
    WhenAt(b, VerifiedNeedsRuntimePath);
    WhenAt(c, PartiallyVerifiedNeedsBoundaryOnly);
    WhenAt(d, UnverifiedNeedsNoLevel);
    WhenAt(e, UnverifiedHasEvidence);
    WhenAt(f, NoEvidence);
    WhenAt(g, VerifiedNeedsCommand);
    SevenAt(When(a, DuplicateCommandIds(ids)), When(b, VerifiedNeedsRuntimePath),
            When(c, PartiallyVerifiedNeedsBoundaryOnly), When(d, UnverifiedNeedsNoLevel),
            When(e, UnverifiedHasEvidence), When(f, NoEvidence), When(g, VerifiedNeedsCommand));
  }

  lemma IssuesInPlace(claim: Claim)
    ensures InPlace(ContractIssues(claim))
  {
    var repeated := RepeatedIds(CommandIds(claim.evidence));
    SevenWhenInPlace(
      repeated != [], repeated,
      claim.status.Verified? && !claim.level.RuntimePath?,
      claim.status.PartiallyVerified? && !claim.level.BoundaryOnly?,
      claim.status.Unverified? && !claim.level.NoLevel?,
      claim.status.Unverified? && claim.evidence != [],
      !claim.status.Unverified? && claim.evidence == [],
      claim.status.Verified? && !HasCommand(claim.evidence));
  }

  lemma InSeven<T>(x: T, a: seq<T>, b: seq<T>, c: seq<T>, d: seq<T>, e: seq<T>, f: seq<T>, g: seq<T>)
    ensures x in a + b + c + d + e + f + g
       <==> x in a || x in b || x in c || x in d || x in e || x in f || x in g
    ensures a != [] ==> |a + b + c + d + e + f + g| > 0 && (a + b + c + d + e + f + g)[0] == a[0]
  {
  }

  /** One issue is found exactly if its condition holds. */
  lemma IssueFound(claim: Claim, issue: Issue)
    ensures var repeated := RepeatedIds(CommandIds(claim.evidence));
            && (issue in ContractIssues(claim) <==>
                  if issue.DuplicateCommandIds? then repeated != [] && issue.ids == repeated
                  else IsIssue(issue, claim))
            && (repeated != [] ==> ContractIssues(claim) != [] && ContractIssues(claim)[0].DuplicateCommandIds?)
  {
    var repeated := RepeatedIds(CommandIds(claim.evidence));
    InSeven(
      issue,
      When(repeated != [], DuplicateCommandIds(repeated)),
      When(claim.status.Verified? && !claim.level.RuntimePath?, VerifiedNeedsRuntimePath),
      When(claim.status.PartiallyVerified? && !claim.level.BoundaryOnly?, PartiallyVerifiedNeedsBoundaryOnly),
      When(claim.status.Unverified? && !claim.level.NoLevel?, UnverifiedNeedsNoLevel),
      When(claim.status.Unverified? && claim.evidence != [], UnverifiedHasEvidence),
      When(!claim.status.Unverified? && claim.evidence == [], NoEvidence),
      When(claim.status.Verified? && !HasCommand(claim.evidence), VerifiedNeedsCommand));
    NoCommandMeaning(claim.evidence);
  }

  lemma NoCommandMeaning(evidence: seq<Evidence>)
    ensures !HasCommand(evidence) <==> forall e :: e in evidence ==> !e.Command?
  {
  }

  lemma {:induction false} IssuesAre(claim: Claim)
    ensures AreIssues(ContractIssues(claim), claim)
  {
    IssuesInPlace(claim);
    RepeatedAre(claim.evidence);
    RepeatedIdsEmpty(CommandIds(claim.evidence));
    CommandIdsDistinct(claim.evidence);
    IssueFound(claim, NoEvidence);
    forall issue ensures issue in ContractIssues(claim) ==> IsIssue(issue, claim) {
      IssueFound(claim, issue);
    }
    forall issue | IsIssue(issue, claim) && !issue.DuplicateCommandIds? ensures issue in ContractIssues(claim) {
      IssueFound(claim, issue);
    }
  }

  /** The details, in order, of the results at these positions, which are those that are not ok. */
  ghost predicate PicksFailed(details: seq<Failure>, results: seq<EvidenceResult>, positions: seq<nat>) {
    && |positions| == |details|
    && (forall a, b :: 0 <= a < b < |positions| ==> positions[a] < positions[b])
    && (forall a :: 0 <= a < |positions| ==>
          && positions[a] < |results| && !results[positions[a]].ok
          && details[a] == EvidenceFailed(results[positions[a]].detail))
    && (forall k :: 0 <= k < |results| && !results[k].ok ==> k in positions)
  }

  lemma PickLast(details: seq<Failure>, front: seq<EvidenceResult>, last: EvidenceResult, positions: seq<nat>)
    requires PicksFailed(details, front, positions)
    ensures PicksFailed(details + FailureOf(last), front + [last],
                        positions + if last.ok then [] else [|front|])
  {
    var results, n := front + [last], |front|;
    var more := positions + if last.ok then [] else [n];
    forall k | 0 <= k < |results| && !results[k].ok ensures k in more {
      assert k < n ==> results[k] == front[k];
      assert k == n ==> more[|positions|] == n;
    }
  }

  lemma {:induction false} FailedArePicked(results: seq<EvidenceResult>) returns (positions: seq<nat>)
    ensures PicksFailed(FailedDetails(results), results, positions)
  {
    if results == [] {
      positions := [];
    } else {
      var front, last := results[..|results| - 1], results[|results| - 1];
      var earlier := FailedArePicked(front);
      PickLast(FailedDetails(front), front, last, earlier);
      assert results == front + [last];
      positions := earlier + if last.ok then [] else [|front|];
    }
  }

  /** The failures of a claim: a repeated claim id, then the issues, then the details of the evidence that failed. */
  ghost predicate FailuresAre(failures: seq<Failure>, claim: Claim, isNew: bool, results: seq<EvidenceResult>) {
    exists issues: seq<Issue>, details: seq<Failure>, positions: seq<nat> ::
      && AreIssues(issues, claim) && PicksFailed(details, results, positions)
      && failures == (if isNew then [] else [DuplicateClaimId(claim.id)])
                     + seq(|issues|, i requires 0 <= i < |issues| => ContractIssue(issues[i]))
                     + details
  }

  /** Every piece of evidence is satisfied, each looked at a moment after the one before. */
  ghost predicate EvidenceHolds(evidence: seq<Evidence>, at: nat, defaultTimeoutMs: int, files: Files, oracle: Oracle) {
    forall j :: 0 <= j < |evidence| ==> Satisfied(evidence[j], at + j, defaultTimeoutMs, files, oracle)
  }

  ghost predicate ReportsEach(results: seq<EvidenceResult>, evidence: seq<Evidence>, at: nat, defaultTimeoutMs: int,
                              files: Files, oracle: Oracle)
  {
    && |results| == |evidence|
    && forall j :: 0 <= j < |evidence| ==>
         Reports(results[j], evidence[j], at + j, defaultTimeoutMs, files, oracle)
  }

  ghost predicate ReportsClaim(result: ClaimResult, claim: Claim, isNew: bool, at: nat, defaultTimeoutMs: int,
                               files: Files, oracle: Oracle)
  {
    && result.claimId == claim.id && result.status == claim.status && result.level == claim.level
    && ReportsEach(result.evidenceResults, claim.evidence, at, defaultTimeoutMs, files, oracle)
    && FailuresAre(result.failures, claim, isNew, result.evidenceResults)
    && (result.ok <==>
          isNew && MeetsContract(claim) && EvidenceHolds(claim.evidence, at, defaultTimeoutMs, files, oracle))
  }

  lemma {:induction false} EachIsReported(evidence: seq<Evidence>, at: nat, defaultTimeoutMs: int, files: Files,
                                          oracle: Oracle)
    ensures ReportsEach(AuditAll(evidence, at, defaultTimeoutMs, files, oracle), evidence, at, defaultTimeoutMs, files,
                        oracle)
  {
    if evidence != [] {
      var front := evidence[..|evidence| - 1];
      EachIsReported(front, at, defaultTimeoutMs, files, oracle);
      PieceIsReported(evidence[|front|], at + |front|, defaultTimeoutMs, files, oracle);
    }
  }

  lemma {:induction false} AllSatisfiedMeaning(evidence: seq<Evidence>, at: nat, defaultTimeoutMs: int, files: Files,
                                               oracle: Oracle)
    ensures AllSatisfied(evidence, at, defaultTimeoutMs, files, oracle)
       <==> EvidenceHolds(evidence, at, defaultTimeoutMs, files, oracle)
  {
    if evidence != [] {
      var front := evidence[..|evidence| - 1];
      AllSatisfiedMeaning(front, at, defaultTimeoutMs, files, oracle);
      assert forall j :: 0 <= j < |front| ==> front[j] == evidence[j];
    }
  }

  lemma ClaimFailuresAre(claim: Claim, seenIds: set<string>, results: seq<EvidenceResult>)
    ensures FailuresAre(StaticFailures(claim, seenIds) + FailedDetails(results), claim, claim.id !in seenIds, results)
  {
    var positions := FailedArePicked(results);
    IssuesAre(claim);
  }

  lemma {:induction false} ClaimIsReported(claim: Claim, seenIds: set<string>, at: nat, defaultTimeoutMs: int,
                                           files: Files, oracle: Oracle)
    ensures ReportsClaim(AuditClaim(claim, seenIds, at, defaultTimeoutMs, files, oracle), claim, claim.id !in seenIds,
                         at, defaultTimeoutMs, files, oracle)
  {
    EachIsReported(claim.evidence, at, defaultTimeoutMs, files, oracle);
    ClaimFailuresAre(claim, seenIds, AuditAll(claim.evidence, at, defaultTimeoutMs, files, oracle));
    ClaimOkMeaning(claim, seenIds, at, defaultTimeoutMs, files, oracle);
    AllSatisfiedMeaning(claim.evidence, at, defaultTimeoutMs, files, oracle);
  }

  // ----- The whole report

  /** No claim before it has its id. */
  ghost predicate IsNew(claims: seq<Claim>, i: nat)
    requires i < |claims|
  {
    forall j :: 0 <= j < i ==> claims[j].id != claims[i].id
  }

  ghost predicate Succeeds(claims: seq<Claim>, i: nat, defaultTimeoutMs: int, files: Files, oracle: Oracle)
    requires i < |claims|
  {
    && IsNew(claims, i) && MeetsContract(claims[i])
    && EvidenceHolds(claims[i].evidence, TimeAfter(claims[..i], 0), defaultTimeoutMs, files, oracle)
  }

  /** There is a result for every claim, in order. */
  ghost predicate ReportsEveryClaim(results: seq<ClaimResult>, claims: seq<Claim>, defaultTimeoutMs: int, files: Files,
                                    oracle: Oracle)
  {
    && |results| == |claims|
    && forall i :: 0 <= i < |claims| ==>
         ReportsClaim(results[i], claims[i], IsNew(claims, i), TimeAfter(claims[..i], 0), defaultTimeoutMs, files,
                      oracle)
  }

  /** As failed count the claims that repeat an id, break their contract or have evidence that is not so. */
  ghost predicate Totals(report: Report, claims: seq<Claim>, defaultTimeoutMs: int, files: Files, oracle: Oracle) {
    && report.totalClaims == |claims|
    && report.failedClaims
       == |set i | 0 <= i < |claims| && !Succeeds(claims, i, defaultTimeoutMs, files, oracle)|
    && report.passedClaims
       == |set i | 0 <= i < |claims| && Succeeds(claims, i, defaultTimeoutMs, files, oracle)|
    && (report.overallPass <==> report.failedClaims == 0)
  }

  lemma LastOfAuditClaims(claims: seq<Claim>, defaultTimeoutMs: int, files: Files, oracle: Oracle)
    requires claims != []
    ensures var front, last := claims[..|claims| - 1], claims[|claims| - 1];
            AuditClaims(claims, 0, defaultTimeoutMs, files, oracle)
            == AuditClaims(front, 0, defaultTimeoutMs, files, oracle)
               + [AuditClaim(last, IdsOf(front), TimeAfter(front, 0), defaultTimeoutMs, files, oracle)]
  {
  }

  lemma {:induction false} AuditClaimsAt(claims: seq<Claim>, defaultTimeoutMs: int, files: Files, oracle: Oracle,
                                         i: nat)
    requires i < |claims| == |AuditClaims(claims, 0, defaultTimeoutMs, files, oracle)|
    ensures AuditClaims(claims, 0, defaultTimeoutMs, files, oracle)[i]
         == AuditClaim(claims[i], IdsOf(claims[..i]), TimeAfter(claims[..i], 0), defaultTimeoutMs, files, oracle)
  {
    var front := claims[..|claims| - 1];
    var results, earlier := AuditClaims(claims, 0, defaultTimeoutMs, files, oracle),
        AuditClaims(front, 0, defaultTimeoutMs, files, oracle);
    LastOfAuditClaims(claims, defaultTimeoutMs, files, oracle);
    assert claims[..i] == front[..i] && |earlier| == |front|;
    if i < |front| {
      AuditClaimsAt(front, defaultTimeoutMs, files, oracle, i);
      assert results[i] == earlier[i] && claims[i] == front[i];
    } else {
      assert front[..i] == front;
    }
  }

  lemma IsNewMeaning(claims: seq<Claim>, i: nat)
    requires i < |claims|
    ensures claims[i].id !in IdsOf(claims[..i]) <==> IsNew(claims, i)
  {
    forall j | 0 <= j < i ensures claims[j].id in IdsOf(claims[..i]) {
      assert claims[..i][j] == claims[j];
    }
  }

  lemma {:induction false} EachClaimIsReported(claims: seq<Claim>, defaultTimeoutMs: int, files: Files, oracle: Oracle,
                                               i: nat)
    requires i < |claims| == |AuditClaims(claims, 0, defaultTimeoutMs, files, oracle)|
    ensures ReportsClaim(AuditClaims(claims, 0, defaultTimeoutMs, files, oracle)[i], claims[i], IsNew(claims, i),
                         TimeAfter(claims[..i], 0), defaultTimeoutMs, files, oracle)
    ensures AuditClaims(claims, 0, defaultTimeoutMs, files, oracle)[i].ok
       <==> Succeeds(claims, i, defaultTimeoutMs, files, oracle)
  {
    AuditClaimsAt(claims, defaultTimeoutMs, files, oracle, i);
    IsNewMeaning(claims, i);
    ClaimIsReported(claims[i], IdsOf(claims[..i]), TimeAfter(claims[..i], 0), defaultTimeoutMs, files, oracle);
  }

  lemma ClaimSucceeds(claims: seq<Claim>, defaultTimeoutMs: int, files: Files, oracle: Oracle, i: nat)
    requires i < |claims| == |AuditClaims(claims, 0, defaultTimeoutMs, files, oracle)|
    ensures AuditClaims(claims, 0, defaultTimeoutMs, files, oracle)[i].ok
       <==> Succeeds(claims, i, defaultTimeoutMs, files, oracle)
  {
    EachClaimIsReported(claims, defaultTimeoutMs, files, oracle, i);
  }

  lemma TotalsAre(results: seq<ClaimResult>, failed: set<int>, passed: set<int>)
    requires forall i {:trigger i in failed} :: i in failed <==> 0 <= i < |results| && !results[i].ok
    requires forall i {:trigger i in passed} :: i in passed <==> 0 <= i < |results| && results[i].ok
    ensures var report := ReportOf(results);
            && report.claims == results && report.totalClaims == |results|
            && report.failedClaims == |failed| && report.passedClaims == |passed|
            && (report.overallPass <==> report.failedClaims == 0)
  {
    CountIsCardinality(results, NotOk, failed);
    Complements(|results|, failed, passed);
  }

  lemma {:induction false} EveryClaimIsReported(claims: seq<Claim>, defaultTimeoutMs: int, files: Files, oracle: Oracle)
    ensures ReportsEveryClaim(AuditClaims(claims, 0, defaultTimeoutMs, files, oracle), claims, defaultTimeoutMs, files,
                              oracle)
  {
    var results := AuditClaims(claims, 0, defaultTimeoutMs, files, oracle);
    AuditClaimsLength(claims, 0, defaultTimeoutMs, files, oracle);
    forall i | 0 <= i < |claims|
      ensures ReportsClaim(results[i], claims[i], IsNew(claims, i), TimeAfter(claims[..i], 0), defaultTimeoutMs, files,
                           oracle)
    {
      EachClaimIsReported(claims, defaultTimeoutMs, files, oracle, i);
    }
  }

  lemma {:induction false} TotalsAreCounted(claims: seq<Claim>, defaultTimeoutMs: int, files: Files, oracle: Oracle)
    ensures Totals(ReportOf(AuditClaims(claims, 0, defaultTimeoutMs, files, oracle)), claims, defaultTimeoutMs, files,
                   oracle)
  {
    var results := AuditClaims(claims, 0, defaultTimeoutMs, files, oracle);
    var failed := set i | 0 <= i < |claims| && !Succeeds(claims, i, defaultTimeoutMs, files, oracle);
    var passed := set i | 0 <= i < |claims| && Succeeds(claims, i, defaultTimeoutMs, files, oracle);
    AuditClaimsLength(claims, 0, defaultTimeoutMs, files, oracle);
    forall i | 0 <= i < |claims|
      ensures results[i].ok <==> Succeeds(claims, i, defaultTimeoutMs, files, oracle)
    {
      ClaimSucceeds(claims, defaultTimeoutMs, files, oracle, i);
    }
    TotalsAre(results, failed, passed);
  }
}
