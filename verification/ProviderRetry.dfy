/** Running a child smoke script again when its provider was blocked, within the overall deadline. */
module ProviderRetry {
  import opened Options

  const MAX_PROVIDER_RETRY_ATTEMPTS := 2
  const CHILD_SCENARIO_TIMEOUT_MS := 110000

  datatype ChildResult = ChildResult(exitCode: Option<int>, stdout: string, stderr: string, timedOut: bool)

  /** An artifact that parses, with the number of the attempt that wrote it; 0 for one that was there before. */
  datatype Artifact = Artifact(content: string, writtenBy: nat)

  /** What the child does to the artifact file. */
  datatype Writing = LeavesFile | WritesArtifact(content: string) | SpoilsFile

  datatype ChildRun = SpawnError | Exited(result: ChildResult, writing: Writing)

  /** The world at each attempt: the clock at the budget check, the child, and whether the file could be removed. */
  datatype World = World(
    now: nat -> int,
    child: (nat, int) -> ChildRun,
    removes: nat -> bool,
    blockerReason: (Option<Artifact>, ChildResult) -> Option<string>)

  datatype Attempts = Attempts(childResult: ChildResult, artifact: Option<Artifact>, blockerReason: Option<string>,
                               attempts: nat)

  datatype Outcome = Finished(attempts: Attempts) | BudgetExhausted | SpawnFailed

  function Min(a: int, b: int): int {
    if a <= b then a else b
  }

  /** The time a step may take, or nothing once the deadline has passed. */
  function RemainingBudget(deadlineAtMs: int, capMs: int, now: int): (budget: Option<int>)
    ensures budget.None? <==> now >= deadlineAtMs
    ensures budget.Some? && capMs > 0 ==> 0 < budget.value <= capMs && now + budget.value <= deadlineAtMs
    ensures budget.Some? ==> budget.value == capMs || now + budget.value == deadlineAtMs
  {
    var remainingMs := deadlineAtMs - now;
    if remainingMs <= 0 then None else Some(Min(capMs, remainingMs))
  }

  /** The artifact as it can be read after the attempt: a file that does not parse reads as absent. */
  function FileAfter(file: Option<Artifact>, writing: Writing, attempt: nat): Option<Artifact> {
    match writing
    case LeavesFile => file
    case WritesArtifact(content) => Some(Artifact(content, attempt))
    case SpoilsFile => None
  }

  /** The file the attempt `k` finds, and the slice it gets. */
  function FileBefore(w: World, deadlineAtMs: int, file: Option<Artifact>, k: nat): Option<Artifact>
    requires k >= 1
    decreases k, 0
  {
    if k == 1 then file
    else if w.removes(k - 1) then None
    else FileRead(w, deadlineAtMs, file, k - 1)
  }

  function FileRead(w: World, deadlineAtMs: int, file: Option<Artifact>, k: nat): Option<Artifact>
    requires k >= 1
    decreases k, 1
  {
    match ChildAt(w, deadlineAtMs, k)
    case SpawnError => None
    case Exited(_, writing) => FileAfter(FileBefore(w, deadlineAtMs, file, k), writing, k)
  }

  function ChildAt(w: World, deadlineAtMs: int, k: nat): ChildRun {
    w.child(k, RemainingBudget(deadlineAtMs, CHILD_SCENARIO_TIMEOUT_MS, w.now(k)).GetOr(0))
  }

  /** Attempt `k` ran and its child exited, but with a blocker that calls for another attempt. */
  predicate CallsForRetry(w: World, deadlineAtMs: int, file: Option<Artifact>, k: nat)
    requires k >= 1
  {
    && w.now(k) < deadlineAtMs
    && ChildAt(w, deadlineAtMs, k).Exited?
    && !ChildAt(w, deadlineAtMs, k).result.timedOut
    && IsBlocked(w, deadlineAtMs, file, k)
  }

  /** An empty reason counts as none. */
  predicate IsBlocked(w: World, deadlineAtMs: int, file: Option<Artifact>, k: nat)
    requires k >= 1 && ChildAt(w, deadlineAtMs, k).Exited?
  {
    var reason := w.blockerReason(FileRead(w, deadlineAtMs, file, k), ChildAt(w, deadlineAtMs, k).result);
    reason.Some? && reason.value != ""
  }

  /** The attempts before `k` all called for a retry. */
  ghost predicate Reached(w: World, deadlineAtMs: int, file: Option<Artifact>, k: nat) {
    1 <= k <= MAX_PROVIDER_RETRY_ATTEMPTS && forall j :: 1 <= j < k ==> CallsForRetry(w, deadlineAtMs, file, j)
  }

  /** What the loop may return, said without the loop. */
  ghost predicate Answers(w: World, deadlineAtMs: int, file: Option<Artifact>, outcome: Outcome, k: nat) {
    && Reached(w, deadlineAtMs, file, k)
    && match outcome
       case BudgetExhausted => w.now(k) >= deadlineAtMs
       case SpawnFailed => w.now(k) < deadlineAtMs && ChildAt(w, deadlineAtMs, k).SpawnError?
       case Finished(a) =>
         && w.now(k) < deadlineAtMs && ChildAt(w, deadlineAtMs, k).Exited?
         && (k == MAX_PROVIDER_RETRY_ATTEMPTS || !CallsForRetry(w, deadlineAtMs, file, k))
         && a.childResult == ChildAt(w, deadlineAtMs, k).result
         && a.artifact == FileRead(w, deadlineAtMs, file, k)
         && a.blockerReason == w.blockerReason(a.artifact, a.childResult)
         && a.attempts == k
  }

  /** The loop; the return after it is never reached. */
  method RunWithProviderRetry(w: World, deadlineAtMs: int, initial: Option<Artifact>)
    returns (outcome: Outcome, last: nat)
    ensures Answers(w, deadlineAtMs, initial, outcome, last)
  {
    var file := initial;
    var attempt := 1;
    while attempt <= MAX_PROVIDER_RETRY_ATTEMPTS
      invariant Reached(w, deadlineAtMs, initial, attempt)
      invariant file == FileBefore(w, deadlineAtMs, initial, attempt)
    {
      last := attempt;
      var budget := RemainingBudget(deadlineAtMs, CHILD_SCENARIO_TIMEOUT_MS, w.now(attempt));
      if budget.None? {
        return BudgetExhausted, last;
      }
      var run := w.child(attempt, budget.value);
      if run.SpawnError? {
        return SpawnFailed, last;
      }
      file := FileAfter(file, run.writing, attempt);
      assert file == FileRead(w, deadlineAtMs, initial, attempt);
      var blockerReason := w.blockerReason(file, run.result);
      if blockerReason.GetOr("") == "" || run.result.timedOut || attempt == MAX_PROVIDER_RETRY_ATTEMPTS {
        return Finished(Attempts(run.result, file, blockerReason, attempt)), last;
      }
      if w.removes(attempt) {
        file := None;
      }
      attempt := attempt + 1;
    }
    assert false;
  }

  lemma StopsThere(w: World, deadlineAtMs: int, file: Option<Artifact>, outcome: Outcome, k: nat)
    requires Answers(w, deadlineAtMs, file, outcome, k)
    ensures k < MAX_PROVIDER_RETRY_ATTEMPTS ==> !CallsForRetry(w, deadlineAtMs, file, k)
  {
  }

  /** The outcome and the number of the last attempt are determined by the world. */
  lemma AnswersAgree(w: World, deadlineAtMs: int, file: Option<Artifact>, one: Outcome, j: nat, other: Outcome, k: nat)
    requires Answers(w, deadlineAtMs, file, one, j) && Answers(w, deadlineAtMs, file, other, k)
    ensures one == other && j == k
  {
    StopsThere(w, deadlineAtMs, file, one, j);
    StopsThere(w, deadlineAtMs, file, other, k);
  }

  /** Every attempt that is made gets a positive slice that ends by the deadline. */
  lemma SlicesEndByDeadline(w: World, deadlineAtMs: int, file: Option<Artifact>, outcome: Outcome, k: nat, j: nat)
    requires Answers(w, deadlineAtMs, file, outcome, k) && 1 <= j <= k && (j == k ==> !outcome.BudgetExhausted?)
    ensures var slice := RemainingBudget(deadlineAtMs, CHILD_SCENARIO_TIMEOUT_MS, w.now(j));
            slice.Some? && 0 < slice.value <= 110000 && w.now(j) + slice.value <= deadlineAtMs
  {
    if j < k {
      assert CallsForRetry(w, deadlineAtMs, file, j);
    }
  }

  /** In time, a child is given 110 seconds or what is left until the deadline, whichever is less. */
  lemma ChildMeaning(w: World, deadlineAtMs: int, k: nat)
    requires w.now(k) < deadlineAtMs
    ensures ChildAt(w, deadlineAtMs, k)
         == w.child(k, if deadlineAtMs - w.now(k) < 110000 then deadlineAtMs - w.now(k) else 110000)
  {
  }

  /** What is read after an attempt is what the attempt with its number wrote, or what was there at the start. */
  lemma {:induction false} ArtifactOrigin(w: World, deadlineAtMs: int, file: Option<Artifact>, k: nat)
    requires k >= 1 && FromBefore(file) && FileRead(w, deadlineAtMs, file, k).Some?
    ensures var read := FileRead(w, deadlineAtMs, file, k).value;
            if read.writtenBy == 0 then file == Some(read)
            else && 1 <= read.writtenBy <= k && ChildAt(w, deadlineAtMs, read.writtenBy).Exited?
                 && ChildAt(w, deadlineAtMs, read.writtenBy).writing == WritesArtifact(read.content)
  {
    if k > 1 && FileBefore(w, deadlineAtMs, file, k).Some? {
      ArtifactOrigin(w, deadlineAtMs, file, k - 1);
    }
  }

  /** A corollary: a retry follows a blocker, and never a child that ran out of its time. */
  lemma RetriesAreBlocked(w: World, deadlineAtMs: int, file: Option<Artifact>, outcome: Outcome, k: nat, j: nat)
    requires Answers(w, deadlineAtMs, file, outcome, k) && 1 <= j < k
    ensures ChildAt(w, deadlineAtMs, j).Exited? && !ChildAt(w, deadlineAtMs, j).result.timedOut
    ensures w.blockerReason(FileRead(w, deadlineAtMs, file, j), ChildAt(w, deadlineAtMs, j).result) !in {None, Some("")}
  {
    assert CallsForRetry(w, deadlineAtMs, file, j);
  }

  ghost predicate Wrote(w: World, deadlineAtMs: int, k: nat) {
    ChildAt(w, deadlineAtMs, k).Exited? && ChildAt(w, deadlineAtMs, k).writing.WritesArtifact?
  }

  ghost predicate Left(w: World, deadlineAtMs: int, k: nat) {
    ChildAt(w, deadlineAtMs, k).Exited? && ChildAt(w, deadlineAtMs, k).writing.LeavesFile?
  }

  /**
   The attempt left the file alone, and found one that an earlier attempt could not remove or that was there to begin
   with.
   */
  ghost predicate KeepsStale(w: World, deadlineAtMs: int, file: Option<Artifact>, k: nat)
    requires k >= 1
  {
    && Left(w, deadlineAtMs, k)
    && (k > 1 ==> !w.removes(k - 1))
    && (if k == 1 then file.Some? else Wrote(w, deadlineAtMs, k - 1) || KeepsStale(w, deadlineAtMs, file, k - 1))
  }

  /** Artifacts present at the start carry the number 0. */
  ghost predicate FromBefore(file: Option<Artifact>) {
    file.Some? ==> file.value.writtenBy == 0
  }

  lemma {:induction false} StaleMeaning(w: World, deadlineAtMs: int, file: Option<Artifact>, k: nat)
    requires k >= 1 && FromBefore(file)
    ensures var read := FileRead(w, deadlineAtMs, file, k);
            && (read.Some? && read.value.writtenBy == k <==> Wrote(w, deadlineAtMs, k))
            && (read.Some? && read.value.writtenBy < k <==> KeepsStale(w, deadlineAtMs, file, k))
            && (read.Some? ==> read.value.writtenBy <= k)
  {
    if k > 1 {
      StaleMeaning(w, deadlineAtMs, file, k - 1);
    }
  }

  /** The artifact returned was written by the last attempt, except exactly when that attempt kept a stale one. */
  lemma ReturnedArtifactIsFresh(w: World, deadlineAtMs: int, file: Option<Artifact>, outcome: Outcome, k: nat)
    requires Answers(w, deadlineAtMs, file, outcome, k) && FromBefore(file)
    requires outcome.Finished? && outcome.attempts.artifact.Some?
    ensures outcome.attempts.artifact.value.writtenBy == outcome.attempts.attempts
       <==> !KeepsStale(w, deadlineAtMs, file, k)
  {
    StaleMeaning(w, deadlineAtMs, file, k);
  }

  /** With no artifact at the start and every removal done, the artifact returned is the last attempt's own. */
  lemma CleanRunsReturnTheirOwn(w: World, deadlineAtMs: int, outcome: Outcome, k: nat)
    requires Answers(w, deadlineAtMs, None, outcome, k) && forall j :: 1 <= j < k ==> w.removes(j)
    requires outcome.Finished? && outcome.attempts.artifact.Some?
    ensures outcome.attempts.artifact.value.writtenBy == outcome.attempts.attempts
  {
    StaleMeaning(w, deadlineAtMs, None, k);
  }

  // ----- What a caller can check beforehand

  /** Whatever the children do and however blockers are read, an artifact returned is the last attempt's own. */
  ghost predicate AlwaysFresh(now: nat -> int, removes: nat -> bool, deadlineAtMs: int, file: Option<Artifact>) {
    forall w: World, outcome, k ::
      w.now == now && w.removes == removes && Answers(w, deadlineAtMs, file, outcome, k) ==> ReturnsOwn(outcome)
  }

  predicate ReturnsOwn(outcome: Outcome) {
    outcome.Finished? && outcome.attempts.artifact.Some? ==>
      outcome.attempts.artifact.value.writtenBy == outcome.attempts.attempts
  }

  /** No child leaves an artifact in place that was there before: the world returns what it found. */
  function LazyWorld(now: nat -> int, removes: nat -> bool): World {
    World(now, (k, timeoutMs) => Exited(ChildResult(Some(0), "", "", false), LeavesFile), removes,
          (artifact, result) => None)
  }

  lemma FoundIsReturned(now: nat -> int, removes: nat -> bool, deadlineAtMs: int, file: Option<Artifact>)
    returns (outcome: Outcome)
    requires now(1) < deadlineAtMs && file.Some? && FromBefore(file)
    ensures Answers(LazyWorld(now, removes), deadlineAtMs, file, outcome, 1) && !ReturnsOwn(outcome)
  {
    outcome := Finished(Attempts(ChildResult(Some(0), "", "", false), file, None, 1));
  }

  /** The first child writes an artifact and reports a blocker; the second writes none. */
  function BlockedWorld(now: nat -> int, removes: nat -> bool): World {
    World(now,
          (k, timeoutMs) =>
            Exited(ChildResult(Some(1), "", "", false), if k == 1 then WritesArtifact("{}") else LeavesFile),
          removes,
          (artifact, result) => Some("rate limit"))
  }

  lemma UnremovedIsReturned(now: nat -> int, removes: nat -> bool, deadlineAtMs: int) returns (outcome: Outcome)
    requires now(1) < deadlineAtMs && now(2) < deadlineAtMs && !removes(1)
    ensures Answers(BlockedWorld(now, removes), deadlineAtMs, None, outcome, 2) && !ReturnsOwn(outcome)
  {
    var w := BlockedWorld(now, removes);
    outcome := Finished(Attempts(ChildResult(Some(1), "", "", false), Some(Artifact("{}", 1)), Some("rate limit"), 2));
    assert FileRead(w, deadlineAtMs, None, 1) == Some(Artifact("{}", 1));
    assert CallsForRetry(w, deadlineAtMs, None, 1);
  }

  /**
   Freshness is sure exactly where no artifact is there at the start and the first attempt's can be removed; unless the
   deadline leaves no time for the attempt that would find a stale one.
   */
  lemma FreshExactly(now: nat -> int, removes: nat -> bool, deadlineAtMs: int, file: Option<Artifact>)
    requires FromBefore(file)
    ensures AlwaysFresh(now, removes, deadlineAtMs, file)
       <==> (now(1) < deadlineAtMs ==> file.None? && (now(2) < deadlineAtMs ==> removes(1)))
  {
    if now(1) < deadlineAtMs ==> file.None? && (now(2) < deadlineAtMs ==> removes(1)) {
      forall w: World, outcome, k | w.now == now && w.removes == removes && Answers(w, deadlineAtMs, file, outcome, k)
        ensures ReturnsOwn(outcome)
      {
        StaleMeaning(w, deadlineAtMs, file, k);
        assert k == 2 ==> CallsForRetry(w, deadlineAtMs, file, 1);
      }
    } else if file.Some? {
      var outcome := FoundIsReturned(now, removes, deadlineAtMs, file);
      assert LazyWorld(now, removes).now == now;
    } else {
      var outcome := UnremovedIsReturned(now, removes, deadlineAtMs);
      assert BlockedWorld(now, removes).now == now;
    }
  }
}
