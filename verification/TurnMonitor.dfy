/** The polling monitor that decides when a conversation turn is complete. */
module TurnMonitor {
  import opened Options

  /** Timestamps are strings, compared character by character as the source compares them. */
  type Timestamp = string

  datatype JobStatus = JobQueued | JobRunning | JobCompleted | JobFailed
  datatype Job = Job(createdAt: Timestamp, status: JobStatus)
  datatype Role = User | Assistant
  datatype Turn = Turn(role: Role, at: Timestamp)

  datatype Session = Session(
    recentJobs: seq<Job>,
    runningJobId: Option<string>,
    queuedJobs: nat,
    clarificationRequestedAt: Option<Timestamp>,
    conversationTurns: seq<Turn>)

  /**
   One round of the loop: what the clock says at the guard, what the store returns, what the clock says afterwards.
   */
  datatype Poll = Poll(elapsedAtGuard: int, session: Option<Session>, elapsedAfterRead: int)

  datatype Watch = Watch(turnStartedAt: Timestamp, timeoutMs: int, allowDirectReply: bool)

  datatype Outcome = Completed(session: Session) | TimedOut

  const DIRECT_REPLY_SETTLE_MS := 2000

  predicate NotBefore(at: Timestamp, start: Timestamp) {
    if start == [] then true
    else if at == [] then false
    else at[0] > start[0] || (at[0] == start[0] && NotBefore(at[1..], start[1..]))
  }

  /** Where they differ first, `at` has the later character. */
  ghost predicate FirstDifferenceIsLater(at: Timestamp, start: Timestamp) {
    exists i: nat :: i < |at| && i < |start| && at[..i] == start[..i] && at[i] > start[i]
  }

  /** At the start or after it: the order of character strings. */
  ghost predicate Since(at: Timestamp, start: Timestamp) {
    start <= at || FirstDifferenceIsLater(at, start)
  }

  lemma DifferenceBehindHead(at: Timestamp, start: Timestamp)
    requires at != [] && start != [] && at[0] == start[0]
    ensures FirstDifferenceIsLater(at, start) <==> FirstDifferenceIsLater(at[1..], start[1..])
  {
    if i: nat :| i < |at| - 1 && i < |start| - 1 && at[1..][..i] == start[1..][..i] && at[1..][i] > start[1..][i] {
      assert at[..i + 1] == [at[0]] + at[1..][..i] && start[..i + 1] == [at[0]] + start[1..][..i];
      assert at[i + 1] > start[i + 1];
    }
    if i: nat :| i < |at| && i < |start| && at[..i] == start[..i] && at[i] > start[i] {
      assert at[1..][..i - 1] == at[..i][1..] && start[1..][..i - 1] == start[..i][1..];
      assert at[1..][i - 1] > start[1..][i - 1];
    }
  }

  lemma DifferenceAtHead(at: Timestamp, start: Timestamp)
    requires at != [] && start != [] && at[0] != start[0]
    ensures FirstDifferenceIsLater(at, start) <==> at[0] > start[0]
  {
    assert at[..0] == start[..0];
    assert forall i: nat :: 0 < i < |at| && i < |start| && at[..i] == start[..i] ==> at[..i][0] == start[..i][0];
  }

  lemma {:induction false} NotBeforeMeaning(at: Timestamp, start: Timestamp)
    ensures NotBefore(at, start) <==> Since(at, start)
  {
    if start == [] || at == [] {
    } else if at[0] == start[0] {
      DifferenceBehindHead(at, start);
      NotBeforeMeaning(at[1..], start[1..]);
      assert at == [at[0]] + at[1..] && start == [at[0]] + start[1..];
    } else {
      DifferenceAtHead(at, start);
    }
  }

  // ----- What one session shows

  predicate HasFreshJob(s: Session, start: Timestamp) {
    exists j | j in s.recentJobs :: NotBefore(j.createdAt, start)
  }

  /** The source takes every record that is not running for a completed job, one that is still queued included. */
  predicate HasCompletedFreshJob(s: Session, start: Timestamp) {
    exists j | j in s.recentJobs :: NotBefore(j.createdAt, start) && !j.status.JobRunning?
  }

  predicate HasFreshClarification(s: Session, start: Timestamp) {
    s.clarificationRequestedAt.Some? && NotBefore(s.clarificationRequestedAt.value, start)
  }

  predicate HasFreshAssistantTurn(s: Session, start: Timestamp) {
    exists t | t in s.conversationTurns :: t.role.Assistant? && NotBefore(t.at, start)
  }

  predicate ShowsExecution(s: Session, start: Timestamp) {
    HasFreshJob(s, start) || s.runningJobId.Some? || s.queuedJobs > 0 || HasFreshClarification(s, start)
  }

  predicate Idle(s: Session) {
    s.runningJobId.None? && s.queuedJobs == 0
  }

  predicate HasFreshOutcome(s: Session, start: Timestamp) {
    HasCompletedFreshJob(s, start) || HasFreshClarification(s, start) || HasFreshAssistantTurn(s, start)
  }

  // ----- What a session shows, in terms of its records

  ghost predicate JobSince(s: Session, start: Timestamp) {
    exists j :: j in s.recentJobs && Since(j.createdAt, start)
  }

  ghost predicate AskedSince(s: Session, start: Timestamp) {
    s.clarificationRequestedAt != None && Since(s.clarificationRequestedAt.value, start)
  }

  ghost predicate RepliedSince(s: Session, start: Timestamp) {
    exists t :: t in s.conversationTurns && t.role == Assistant && Since(t.at, start)
  }

  ghost predicate EndedJobSince(s: Session, start: Timestamp) {
    exists j :: j in s.recentJobs && Since(j.createdAt, start) && j.status != JobRunning
  }

  ghost predicate WorkSince(s: Session, start: Timestamp) {
    JobSince(s, start) || s.runningJobId != None || s.queuedJobs != 0 || AskedSince(s, start)
  }

  ghost predicate RestsSince(s: Session, start: Timestamp) {
    && s.runningJobId == None && s.queuedJobs == 0
    && (EndedJobSince(s, start) || AskedSince(s, start) || RepliedSince(s, start))
  }

  lemma SessionMeaning(s: Session, start: Timestamp)
    ensures HasFreshAssistantTurn(s, start) <==> RepliedSince(s, start)
    ensures ShowsExecution(s, start) <==> WorkSince(s, start)
    ensures Idle(s) && HasFreshOutcome(s, start) <==> RestsSince(s, start)
  {
    forall at ensures NotBefore(at, start) <==> Since(at, start) {
      NotBeforeMeaning(at, start);
    }
  }

  // ----- What a run of polls shows, without a latch

  ghost predicate Observed(w: Watch, polls: nat -> Poll, k: nat) {
    exists j: nat :: j <= k && polls(j).session.Some? && WorkSince(polls(j).session.value, w.turnStartedAt)
  }

  ghost predicate DirectExit(w: Watch, polls: nat -> Poll, k: nat) {
    && polls(k).session.Some? && w.allowDirectReply && !Observed(w, polls, k)
    && RepliedSince(polls(k).session.value, w.turnStartedAt)
    && polls(k).elapsedAfterRead >= 2000
  }

  ghost predicate SettledExit(w: Watch, polls: nat -> Poll, k: nat) {
    && polls(k).session.Some? && Observed(w, polls, k) && RestsSince(polls(k).session.value, w.turnStartedAt)
  }

  ghost predicate Ready(w: Watch, polls: nat -> Poll, k: nat) {
    DirectExit(w, polls, k) || SettledExit(w, polls, k)
  }

  /** The guard let round `k` and all rounds before it start. */
  ghost predicate InTime(w: Watch, polls: nat -> Poll, k: nat) {
    forall j: nat :: j <= k ==> polls(j).elapsedAtGuard < w.timeoutMs
  }

  ghost predicate FirstReady(w: Watch, polls: nat -> Poll, k: nat) {
    InTime(w, polls, k) && Ready(w, polls, k) && forall j: nat :: j < k ==> !Ready(w, polls, j)
  }

  /** The run is at its first ready round, or there is none before the guard closes. */
  ghost predicate Answers(w: Watch, polls: nat -> Poll, outcome: Outcome) {
    match outcome
    case Completed(session) => exists k: nat :: FirstReady(w, polls, k) && polls(k).session == Some(session)
    case TimedOut => forall k: nat :: InTime(w, polls, k) ==> !Ready(w, polls, k)
  }

  /** The loop.  `over` is some round at which the clock has passed the timeout. */
  method WaitForTurnCompletion(w: Watch, polls: nat -> Poll, ghost over: nat) returns (outcome: Outcome)
    requires polls(over).elapsedAtGuard >= w.timeoutMs
    ensures Answers(w, polls, outcome)
    ensures outcome.Completed? ==> RestsSince(outcome.session, w.turnStartedAt)
  {
    var observedExecution := false;
    var round := 0;
    while polls(round).elapsedAtGuard < w.timeoutMs
      invariant round <= over
      invariant observedExecution <==> round > 0 && Observed(w, polls, round - 1)
      invariant forall j: nat :: j < round ==> polls(j).elapsedAtGuard < w.timeoutMs && !Ready(w, polls, j)
      decreases over - round
    {
      var poll := polls(round);
      ObservedGrows(w, polls, round);
      if poll.session.Some? {
        var session := poll.session.value;
        SessionMeaning(session, w.turnStartedAt);
        if ShowsExecution(session, w.turnStartedAt) {
          observedExecution := true;
        }
        if && w.allowDirectReply && !observedExecution && HasFreshAssistantTurn(session, w.turnStartedAt)
           && poll.elapsedAfterRead >= DIRECT_REPLY_SETTLE_MS {
          assert FirstReady(w, polls, round);
          return Completed(session);
        }
        if observedExecution && Idle(session) && HasFreshOutcome(session, w.turnStartedAt) {
          assert FirstReady(w, polls, round);
          return Completed(session);
        }
      }
      round := round + 1;
    }
    outcome := TimedOut;
  }

  lemma ObservedGrows(w: Watch, polls: nat -> Poll, k: nat)
    ensures Observed(w, polls, k) <==>
              (k > 0 && Observed(w, polls, k - 1))
              || (polls(k).session.Some? && WorkSince(polls(k).session.value, w.turnStartedAt))
  {
    if k > 0 && Observed(w, polls, k - 1) {
      var j: nat :| j <= k - 1 && polls(j).session.Some? && WorkSince(polls(j).session.value, w.turnStartedAt);
    }
  }

  /** The outcome is determined by the polls. */
  lemma AnswersAgree(w: Watch, polls: nat -> Poll, one: Outcome, other: Outcome)
    requires Answers(w, polls, one) && Answers(w, polls, other)
    ensures one == other
  {
    if one.Completed? && other.Completed? {
      var j: nat :| FirstReady(w, polls, j) && polls(j).session == Some(one.session);
      var k: nat :| FirstReady(w, polls, k) && polls(k).session == Some(other.session);
      assert j == k;
    }
  }

  // ----- Corollaries: what the caller can rely on

  /**
   The direct exit is taken only by a run whose polls showed no fresh job, no running or queued work and no fresh
   question.
   */
  lemma DirectExitSawNothing(w: Watch, polls: nat -> Poll, k: nat, j: nat)
    requires FirstReady(w, polls, k) && DirectExit(w, polls, k) && j <= k && polls(j).session.Some?
    ensures var s := polls(j).session.value;
            && s.runningJobId == None && s.queuedJobs == 0
            && !JobSince(s, w.turnStartedAt) && !AskedSince(s, w.turnStartedAt)
  {
  }

  /** A job that started and ended between two polls is not missed: its record alone completes the turn. */
  lemma JobRecordCompletes(w: Watch, polls: nat -> Poll, k: nat)
    requires polls(k).session.Some?
    requires var s := polls(k).session.value;
             s.runningJobId == None && s.queuedJobs == 0 && EndedJobSince(s, w.turnStartedAt)
    ensures SettledExit(w, polls, k)
  {
    ObservedGrows(w, polls, k);
    var s := polls(k).session.value;
    var j :| j in s.recentJobs && Since(j.createdAt, w.turnStartedAt) && j.status != JobRunning;
    assert JobSince(s, w.turnStartedAt);
  }

  /** So far as the test of the status goes, a record that is still queued does so too. */
  lemma QueuedRecordCompletes(w: Watch, polls: nat -> Poll)
    requires polls(0).elapsedAtGuard < w.timeoutMs
    requires polls(0).session == Some(Session([Job(w.turnStartedAt, JobQueued)], None, 0, None, []))
    ensures FirstReady(w, polls, 0)
  {
    var job := Job(w.turnStartedAt, JobQueued);
    assert job in polls(0).session.value.recentJobs && Since(job.createdAt, w.turnStartedAt);
    JobRecordCompletes(w, polls, 0);
  }

  ghost predicate DifferInDirectReply(off: Watch, on: Watch) {
    on == off.(allowDirectReply := true) && !off.allowDirectReply
  }

  /** Without direct replies a round is ready exactly when it is with them, unless by a direct exit. */
  lemma SameRound(off: Watch, on: Watch, polls: nat -> Poll, k: nat)
    requires DifferInDirectReply(off, on)
    ensures InTime(on, polls, k) <==> InTime(off, polls, k)
    ensures Ready(on, polls, k) <==> Ready(off, polls, k) || DirectExit(on, polls, k)
  {
    assert Observed(on, polls, k) <==> Observed(off, polls, k);
  }

  /** Without direct replies, a turn that is merely answered times out: a reply counts only after work was seen. */
  lemma PlainReplyTimesOut(w: Watch, polls: nat -> Poll, outcome: Outcome)
    requires Answers(w, polls, outcome) && !w.allowDirectReply
    requires forall k: nat :: InTime(w, polls, k) ==> !Observed(w, polls, k)
    ensures outcome.TimedOut?
  {
  }

  lemma SettledIsFirstWithout(off: Watch, on: Watch, polls: nat -> Poll, k: nat)
    requires DifferInDirectReply(off, on) && FirstReady(on, polls, k) && !DirectExit(on, polls, k)
    ensures FirstReady(off, polls, k)
  {
    SameRound(off, on, polls, k);
    forall j: nat | j < k ensures !Ready(off, polls, j) {
      SameRound(off, on, polls, j);
    }
  }

  lemma TimesOutWithout(off: Watch, on: Watch, polls: nat -> Poll)
    requires DifferInDirectReply(off, on) && Answers(on, polls, TimedOut)
    ensures Answers(off, polls, TimedOut)
  {
    forall k: nat | InTime(off, polls, k) ensures !Ready(off, polls, k) {
      SameRound(off, on, polls, k);
    }
  }

  ghost predicate EndsDirectly(w: Watch, polls: nat -> Poll, outcome: Outcome) {
    outcome.Completed?
    && exists k: nat :: FirstReady(w, polls, k) && DirectExit(w, polls, k) && polls(k).session == Some(outcome.session)
  }

  /** Allowing direct replies changes an outcome only where a direct exit comes first. */
  lemma {:induction false} DirectReplyOnlyPreempts(off: Watch, on: Watch, polls: nat -> Poll, strict: Outcome,
                                                   lenient: Outcome)
    requires DifferInDirectReply(off, on) && Answers(off, polls, strict) && Answers(on, polls, lenient)
    ensures lenient == strict || EndsDirectly(on, polls, lenient)
  {
    if lenient.TimedOut? {
      TimesOutWithout(off, on, polls);
      AnswersAgree(off, polls, strict, lenient);
    } else {
      var k: nat :| FirstReady(on, polls, k) && polls(k).session == Some(lenient.session);
      if !DirectExit(on, polls, k) {
        SettledIsFirstWithout(off, on, polls, k);
        AnswersAgree(off, polls, strict, lenient);
      }
    }
  }
}
