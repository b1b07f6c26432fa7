/**
 The worker pool of `runStoreBenchmark`: a fixed number of asynchronous workers share one cursor.

 A worker runs without interruption from one `await` to the next, so one action of the model is one
 such stretch of code.  A schedule is any sequence of enabled actions; every lemma about schedules
 speaks of every interleaving the event loop can produce.
 */
module WorkerPool {
  import opened Seqs

  /** A worker has not run yet, waits for its write or its read to settle, or has returned. */
  datatype Worker = Unstarted | Writing(index: nat) | Reading(index: nat) | Done

  datatype Outcome = Finished(latencyMs: real) | Failed(message: string)

  datatype LoggedError = WriteError(index: nat, message: string) | ReadError(index: nat, message: string)

  datatype Settings = Settings(workers: nat, totalWrites: nat, readInterval: int)

  /** The variables that the workers share, and where each worker stands. */
  datatype Pool = Pool(
    cursor: nat,
    workers: seq<Worker>,
    writeLatencies: seq<real>,
    readLatencies: seq<real>,
    errors: seq<LoggedError>)

  datatype Action =
    | Start(worker: nat)
    | WriteSettles(worker: nat, outcome: Outcome)
    | ReadSettles(worker: nat, outcome: Outcome)

  datatype Schedule = Idle | Then(before: Schedule, action: Action)

  /** In JavaScript `i % 0` is NaN, so an interval of zero never reads. */
  predicate IsReadIndex(settings: Settings, index: nat) {
    settings.readInterval != 0 && index % settings.readInterval == 0
  }

  predicate IsDone(w: Worker) { w.Done? }
  predicate IsStarted(w: Worker) { !w.Unstarted? }
  predicate IsWriteError(e: LoggedError) { e.WriteError? }
  predicate IsReadError(e: LoggedError) { e.ReadError? }

  function Initial(settings: Settings): Pool {
    Pool(0, seq(settings.workers, _ => Unstarted), [], [], [])
  }

  predicate Enabled(pool: Pool, action: Action) {
    && action.worker < |pool.workers|
    && match action
       case Start(w) => pool.workers[w].Unstarted?
       case WriteSettles(w, _) => pool.workers[w].Writing?
       case ReadSettles(w, _) => pool.workers[w].Reading?
  }

  /** The top of the worker's loop: take the next index, or return. */
  function Claim(settings: Settings, pool: Pool, w: nat): Pool
    requires w < |pool.workers|
  {
    pool.(cursor := pool.cursor + 1,
          workers := pool.workers[w := if pool.cursor >= settings.totalWrites then Done else Writing(pool.cursor)])
  }

  function RecordWrite(pool: Pool, index: nat, outcome: Outcome): Pool {
    match outcome
    case Finished(ms) => pool.(writeLatencies := pool.writeLatencies + [ms])
    case Failed(message) => pool.(errors := pool.errors + [WriteError(index, message)])
  }

  function RecordRead(pool: Pool, index: nat, outcome: Outcome): Pool {
    match outcome
    case Finished(ms) => pool.(readLatencies := pool.readLatencies + [ms])
    case Failed(message) => pool.(errors := pool.errors + [ReadError(index, message)])
  }

  function Step(settings: Settings, pool: Pool, action: Action): Pool
    requires Enabled(pool, action)
  {
    match action
    case Start(w) => Claim(settings, pool, w)
    case WriteSettles(w, outcome) =>
      var index := pool.workers[w].index;
      var recorded := RecordWrite(pool, index, outcome);
      if IsReadIndex(settings, index)
      then recorded.(workers := recorded.workers[w := Reading(index)])
      else Claim(settings, recorded, w)
    case ReadSettles(w, outcome) =>
      Claim(settings, RecordRead(pool, pool.workers[w].index, outcome), w)
  }

  predicate Legal(settings: Settings, schedule: Schedule)
    decreases schedule, 0
  {
    schedule.Then? ==>
      && Legal(settings, schedule.before)
      && Enabled(After(settings, schedule.before), schedule.action)
  }

  function After(settings: Settings, schedule: Schedule): Pool
    requires Legal(settings, schedule)
    decreases schedule, 1
  {
    match schedule
    case Idle => Initial(settings)
    case Then(before, action) => Step(settings, After(settings, before), action)
  }

  function Length(schedule: Schedule): nat {
    if schedule.Idle? then 0 else Length(schedule.before) + 1
  }

  predicate Joined(pool: Pool) {
    forall w :: 0 <= w < |pool.workers| ==> pool.workers[w].Done?
  }

  // ----- What a schedule did, told by the schedule and not by the shared variables

  /** The worker that called `writeOperation` with the k-th claimed index, in claiming order; the indexes of the
      writes that settled, and of the reads that settled, in settling order. */
  datatype History = History(claims: seq<(nat, nat)>, wrote: seq<nat>, read: seq<nat>)

  ghost function Claimed(settings: Settings, pool: Pool, w: nat): seq<(nat, nat)> {
    if pool.cursor >= settings.totalWrites then [] else [(w, pool.cursor)]
  }

  ghost function Recorded(settings: Settings, pool: Pool, h: History, action: Action): History
    requires Enabled(pool, action)
  {
    match action
    case Start(w) => h.(claims := h.claims + Claimed(settings, pool, w))
    case WriteSettles(w, _) =>
      var index := pool.workers[w].index;
      if IsReadIndex(settings, index)
      then h.(wrote := h.wrote + [index])
      else h.(wrote := h.wrote + [index], claims := h.claims + Claimed(settings, pool, w))
    case ReadSettles(w, _) =>
      h.(read := h.read + [pool.workers[w].index], claims := h.claims + Claimed(settings, pool, w))
  }

  ghost function HistoryOf(settings: Settings, schedule: Schedule): History
    requires Legal(settings, schedule)
  {
    match schedule
    case Idle => History([], [], [])
    case Then(before, action) => Recorded(settings, After(settings, before), HistoryOf(settings, before), action)
  }

  // ----- The inductive invariant

  ghost predicate ClaimsInOrder(settings: Settings, pool: Pool, h: History) {
    && |pool.workers| == settings.workers
    && |h.claims| == (if pool.cursor < settings.totalWrites then pool.cursor else settings.totalWrites)
    && forall k :: 0 <= k < |h.claims| ==> h.claims[k].1 == k && h.claims[k].0 < settings.workers
  }

  /** The index is the one that the worker claimed last. */
  ghost predicate LastClaimed(h: History, w: nat, i: nat) {
    i < |h.claims| && h.claims[i].0 == w && forall k :: i < k < |h.claims| ==> h.claims[k].0 != w
  }

  ghost predicate Consistent(settings: Settings, pool: Pool, h: History, w: nat)
    requires w < |pool.workers|
  {
    match pool.workers[w]
    case Writing(i) => LastClaimed(h, w, i) && i !in h.wrote && i !in h.read
    case Reading(i) => LastClaimed(h, w, i) && i in h.wrote && i !in h.read && IsReadIndex(settings, i)
    case _ => true
  }

  ghost predicate Accounted(settings: Settings, pool: Pool, h: History, i: nat)
    requires ClaimsInOrder(settings, pool, h) && i < |h.claims|
  {
    var w := h.claims[i].0;
    && (i in h.wrote || pool.workers[w] == Writing(i))
    && (i in h.wrote && IsReadIndex(settings, i) ==> i in h.read || pool.workers[w] == Reading(i))
    && (i in h.read ==> i in h.wrote && IsReadIndex(settings, i))
  }

  ghost predicate SettledOnce(h: History) {
    && NoDuplicates(h.wrote)
    && NoDuplicates(h.read)
    && (forall i :: i in h.wrote || i in h.read ==> i < |h.claims|)
  }

  ghost predicate Invariant(settings: Settings, pool: Pool, h: History) {
    && ClaimsInOrder(settings, pool, h)
    && (forall w :: 0 <= w < |pool.workers| ==> Consistent(settings, pool, h, w))
    && (forall i :: 0 <= i < |h.claims| ==> Accounted(settings, pool, h, i))
    && SettledOnce(h)
  }

  /** Conservation: every settled operation left exactly one record, every index beyond the last write ended a
      worker, and a schedule is as long as the starts and settlements in it. */
  ghost predicate Conserved(settings: Settings, pool: Pool, h: History, length: nat) {
    && |pool.writeLatencies| + Count(pool.errors, IsWriteError) == |h.wrote|
    && |pool.readLatencies| + Count(pool.errors, IsReadError) == |h.read|
    && pool.cursor == |h.claims| + Count(pool.workers, IsDone)
    && length == Count(pool.workers, IsStarted) + |h.wrote| + |h.read|
  }

  lemma {:induction false} InvariantHolds(settings: Settings, schedule: Schedule)
    requires Legal(settings, schedule)
    ensures Invariant(settings, After(settings, schedule), HistoryOf(settings, schedule))
  {
    if schedule.Then? {
      InvariantHolds(settings, schedule.before);
      StepKeepsInvariant(settings, After(settings, schedule.before), HistoryOf(settings, schedule.before),
                         schedule.action);
    }
  }

  lemma StepKeepsInvariant(settings: Settings, pool: Pool, h: History, action: Action)
    requires Enabled(pool, action) && Invariant(settings, pool, h)
    ensures Invariant(settings, Step(settings, pool, action), Recorded(settings, pool, h, action))
  {
    StepKeepsOrder(settings, pool, h, action);
    StepKeepsWorkers(settings, pool, h, action);
    StepKeepsAccounts(settings, pool, h, action);
  }

  lemma StepKeepsOrder(settings: Settings, pool: Pool, h: History, action: Action)
    requires Enabled(pool, action) && Invariant(settings, pool, h)
    ensures ClaimsInOrder(settings, Step(settings, pool, action), Recorded(settings, pool, h, action))
    ensures SettledOnce(Recorded(settings, pool, h, action))
  {
    assert Consistent(settings, pool, h, action.worker);
  }

  lemma StepKeepsWorkers(settings: Settings, pool: Pool, h: History, action: Action)
    requires Enabled(pool, action) && Invariant(settings, pool, h)
    ensures var pool', h' := Step(settings, pool, action), Recorded(settings, pool, h, action);
            forall v :: 0 <= v < |pool'.workers| ==> Consistent(settings, pool', h', v)
  {
    var pool', h' := Step(settings, pool, action), Recorded(settings, pool, h, action);
    assert Consistent(settings, pool, h, action.worker);
    forall v | 0 <= v < |pool'.workers| ensures Consistent(settings, pool', h', v) {
      assert Consistent(settings, pool, h, v);
    }
  }

  lemma StepKeepsAccounts(settings: Settings, pool: Pool, h: History, action: Action)
    requires Enabled(pool, action) && Invariant(settings, pool, h)
    requires ClaimsInOrder(settings, Step(settings, pool, action), Recorded(settings, pool, h, action))
    ensures var pool', h' := Step(settings, pool, action), Recorded(settings, pool, h, action);
            forall i :: 0 <= i < |h'.claims| ==> Accounted(settings, pool', h', i)
  {
    var pool', h' := Step(settings, pool, action), Recorded(settings, pool, h, action);
    assert Consistent(settings, pool, h, action.worker);
    forall i | 0 <= i < |h'.claims| ensures Accounted(settings, pool', h', i) {
      if i < |h.claims| {
        assert Accounted(settings, pool, h, i);
      }
    }
  }

  lemma {:induction false} ConservationHolds(settings: Settings, schedule: Schedule)
    requires Legal(settings, schedule)
    ensures Conserved(settings, After(settings, schedule), HistoryOf(settings, schedule), Length(schedule))
  {
    match schedule
    case Idle =>
      CountIsZero(Initial(settings).workers, IsDone);
      CountIsZero(Initial(settings).workers, IsStarted);
    case Then(before, action) =>
      ConservationHolds(settings, before);
      InvariantHolds(settings, before);
      StepConserves(settings, After(settings, before), HistoryOf(settings, before), action, Length(before));
  }

  lemma StepConserves(settings: Settings, pool: Pool, h: History, action: Action, length: nat)
    requires Enabled(pool, action) && Invariant(settings, pool, h) && Conserved(settings, pool, h, length)
    ensures Conserved(settings, Step(settings, pool, action), Recorded(settings, pool, h, action), length + 1)
  {
    StepCountsWorkers(settings, pool, action);
    StepCountsRecords(settings, pool, h, action);
  }

  /** A step that settles an operation adds exactly one record of its kind; a start adds none. */
  lemma StepCountsRecords(settings: Settings, pool: Pool, h: History, action: Action)
    requires Enabled(pool, action)
    ensures var pool', h' := Step(settings, pool, action), Recorded(settings, pool, h, action);
            && |pool'.writeLatencies| + Count(pool'.errors, IsWriteError)
               == |pool.writeLatencies| + Count(pool.errors, IsWriteError) + |h'.wrote| - |h.wrote|
            && |pool'.readLatencies| + Count(pool'.errors, IsReadError)
               == |pool.readLatencies| + Count(pool.errors, IsReadError) + |h'.read| - |h.read|
            && |h'.wrote| - |h.wrote| == (if action.WriteSettles? then 1 else 0)
            && |h'.read| - |h.read| == (if action.ReadSettles? then 1 else 0)
  {
    match action
    case Start(w) =>
    case WriteSettles(w, outcome) =>
      if outcome.Failed? {
        RecordCountsOnce(pool, WriteError(pool.workers[w].index, outcome.message));
      }
    case ReadSettles(w, outcome) =>
      if outcome.Failed? {
        RecordCountsOnce(pool, ReadError(pool.workers[w].index, outcome.message));
      }
  }

  lemma RecordCountsOnce(pool: Pool, e: LoggedError)
    ensures Count(pool.errors + [e], IsWriteError)
         == Count(pool.errors, IsWriteError) + (if e.WriteError? then 1 else 0)
    ensures Count(pool.errors + [e], IsReadError) == Count(pool.errors, IsReadError) + (if e.ReadError? then 1 else 0)
  {
    CountAppend(pool.errors, e, IsWriteError);
    CountAppend(pool.errors, e, IsReadError);
  }

  lemma StepCountsWorkers(settings: Settings, pool: Pool, action: Action)
    requires Enabled(pool, action)
    ensures var pool' := Step(settings, pool, action);
            && Count(pool'.workers, IsStarted) == Count(pool.workers, IsStarted) + (if action.Start? then 1 else 0)
            && Count(pool'.workers, IsDone)
               == Count(pool.workers, IsDone) + (if pool'.workers[action.worker].Done? then 1 else 0)
  {
    var pool', w := Step(settings, pool, action), action.worker;
    assert pool'.workers == pool.workers[w := pool'.workers[w]];
    CountUpdate(pool.workers, w, pool'.workers[w], IsDone);
    CountUpdate(pool.workers, w, pool'.workers[w], IsStarted);
  }

  /** Each logged failure names an operation that settled, and no operation is logged twice. */
  ghost predicate ErrorsIdentify(pool: Pool, h: History) {
    && (forall e :: e in pool.errors ==> if e.WriteError? then e.index in h.wrote else e.index in h.read)
    && (forall j, k :: 0 <= j < k < |pool.errors| && pool.errors[j].WriteError? == pool.errors[k].WriteError? ==>
          pool.errors[j].index != pool.errors[k].index)
  }

  lemma {:induction false} ErrorsIdentifyOperations(settings: Settings, schedule: Schedule)
    requires Legal(settings, schedule)
    ensures ErrorsIdentify(After(settings, schedule), HistoryOf(settings, schedule))
  {
    if schedule.Then? {
      var pool, h := After(settings, schedule.before), HistoryOf(settings, schedule.before);
      ErrorsIdentifyOperations(settings, schedule.before);
      InvariantHolds(settings, schedule.before);
      assert Consistent(settings, pool, h, schedule.action.worker);
      StepLogsNewErrors(settings, pool, h, schedule.action);
    }
  }

  lemma StepLogsNewErrors(settings: Settings, pool: Pool, h: History, action: Action)
    requires Enabled(pool, action) && Consistent(settings, pool, h, action.worker) && ErrorsIdentify(pool, h)
    ensures ErrorsIdentify(Step(settings, pool, action), Recorded(settings, pool, h, action))
  {
    var pool', h' := Step(settings, pool, action), Recorded(settings, pool, h, action);
    assert pool'.errors == pool.errors || (|pool'.errors| == |pool.errors| + 1 && pool.errors < pool'.errors);
    assert forall i :: i in h.wrote ==> i in h'.wrote;
    assert forall i :: i in h.read ==> i in h'.read;
  }

  // ----- What the pool recorded, told by the schedule

  /** How the operations ended, in settling order. */
  ghost function Outcomes(schedule: Schedule): seq<Outcome> {
    if schedule.Idle? then []
    else Outcomes(schedule.before) + (if schedule.action.Start? then [] else [schedule.action.outcome])
  }

  /** The measured times of the writes that finished, in settling order. */
  ghost function WriteTimes(schedule: Schedule): seq<real> {
    match schedule
    case Then(before, WriteSettles(_, Finished(ms))) => WriteTimes(before) + [ms]
    case Then(before, _) => WriteTimes(before)
    case Idle => []
  }

  ghost function ReadTimes(schedule: Schedule): seq<real> {
    match schedule
    case Then(before, ReadSettles(_, Finished(ms))) => ReadTimes(before) + [ms]
    case Then(before, _) => ReadTimes(before)
    case Idle => []
  }

  /** The failures, each with its message and the index of its operation. */
  ghost function Failures(settings: Settings, schedule: Schedule): seq<LoggedError>
    requires Legal(settings, schedule)
  {
    match schedule
    case Then(before, WriteSettles(_, Failed(message))) =>
      var wrote := HistoryOf(settings, schedule).wrote;
      Failures(settings, before) + [WriteError(wrote[|wrote| - 1], message)]
    case Then(before, ReadSettles(_, Failed(message))) =>
      var read := HistoryOf(settings, schedule).read;
      Failures(settings, before) + [ReadError(read[|read| - 1], message)]
    case Then(before, _) => Failures(settings, before)
    case Idle => []
  }

  /** The shared lists hold what the operations of the schedule measured and threw, whatever the interleaving. */
  lemma {:induction false} RecordsAreOfSchedule(settings: Settings, schedule: Schedule)
    requires Legal(settings, schedule)
    ensures After(settings, schedule).writeLatencies == WriteTimes(schedule)
    ensures After(settings, schedule).readLatencies == ReadTimes(schedule)
    ensures After(settings, schedule).errors == Failures(settings, schedule)
  {
    if schedule.Then? {
      RecordsAreOfSchedule(settings, schedule.before);
    }
  }

  /** There are as many outcomes as settled writes and reads, and no failure is logged exactly if none failed. */
  lemma {:induction false} OutcomesAreCounted(settings: Settings, schedule: Schedule)
    requires Legal(settings, schedule)
    ensures |Outcomes(schedule)| == |HistoryOf(settings, schedule).wrote| + |HistoryOf(settings, schedule).read|
    ensures |Outcomes(schedule)|
         == |WriteTimes(schedule)| + |ReadTimes(schedule)| + |Failures(settings, schedule)|
    ensures Failures(settings, schedule) == [] <==> forall o :: o in Outcomes(schedule) ==> o.Finished?
  {
    if schedule.Then? {
      OutcomesAreCounted(settings, schedule.before);
    }
  }

  /** What settles is the operation of the index that its worker claimed last. */
  lemma SettlesLastClaim(settings: Settings, schedule: Schedule)
    requires Legal(settings, schedule) && schedule.Then? && !schedule.action.Start?
    ensures var before, after := HistoryOf(settings, schedule.before), HistoryOf(settings, schedule);
            exists i :: LastClaimed(before, schedule.action.worker, i)
                        && after.wrote == before.wrote + (if schedule.action.WriteSettles? then [i] else [])
                        && after.read == before.read + (if schedule.action.ReadSettles? then [i] else [])
  {
    InvariantHolds(settings, schedule.before);
    var pool, w := After(settings, schedule.before), schedule.action.worker;
    assert Consistent(settings, pool, HistoryOf(settings, schedule.before), w);
    assert LastClaimed(HistoryOf(settings, schedule.before), w, pool.workers[w].index);
  }

  // ----- What holds when `Promise.all` resolves, for every schedule

  /** The indexes below `n` after whose write a read is made, in order. */
  ghost function ReadIndexes(settings: Settings, n: nat): seq<nat> {
    if n == 0 then []
    else ReadIndexes(settings, n - 1) + (if IsReadIndex(settings, n - 1) then [n - 1] else [])
  }

  /** Rounds `n / d` up. */
  function CeilDiv(n: nat, d: nat): nat
    requires d > 0
  {
    (n + d - 1) / d
  }

  function ReadCount(settings: Settings, n: nat): nat {
    if settings.readInterval == 0 then 0
    else CeilDiv(n, if settings.readInterval < 0 then -settings.readInterval else settings.readInterval)
  }

  lemma {:induction false} ReadIndexesAreExact(settings: Settings, n: nat)
    ensures NoDuplicates(ReadIndexes(settings, n))
    ensures forall i: nat :: i in ReadIndexes(settings, n) <==> i < n && IsReadIndex(settings, i)
    ensures |ReadIndexes(settings, n)| == ReadCount(settings, n)
  {
    if n > 0 {
      ReadIndexesAreExact(settings, n - 1);
      if settings.readInterval != 0 {
        CeilDivStep(n - 1, settings.readInterval);
      }
    } else if settings.readInterval != 0 {
      var d := if settings.readInterval < 0 then -settings.readInterval else settings.readInterval;
      assert (d - 1) / d == 0;
    }
  }

  lemma CeilDivStep(n: nat, k: int)
    requires k != 0
    ensures var d := if k < 0 then -k else k;
            CeilDiv(n + 1, d) == CeilDiv(n, d) + (if n % k == 0 then 1 else 0)
  {
    var d := if k < 0 then -k else k;
    var q, r := n / d, n % d;
    assert n == d * q + r;
    assert n % k == r;
    Quotient(n + d, d, q + 1, r);
    if r == 0 {
      Quotient(n + d - 1, d, q, d - 1);
    } else {
      Quotient(n + d - 1, d, q + 1, r - 1);
    }
  }

  lemma Quotient(n: int, d: int, q: int, r: int)
    requires d > 0 && 0 <= r < d && n == d * q + r
    ensures n / d == q
  {
    var m := n / d - q;
    assert d * m == r - n % d;
    assert m >= 1 ==> d * m >= d;
    assert m <= -1 ==> d * m <= -d;
  }

  lemma {:induction false} JoinedHistory(settings: Settings, schedule: Schedule)
    requires Legal(settings, schedule) && Joined(After(settings, schedule)) && settings.workers > 0
    ensures var h := HistoryOf(settings, schedule);
            && After(settings, schedule).cursor == settings.totalWrites + settings.workers
            && |h.claims| == settings.totalWrites
            && (forall k :: 0 <= k < settings.totalWrites ==> h.claims[k].1 == k && h.claims[k].0 < settings.workers)
            && NoDuplicates(h.wrote) && (forall i: nat :: i in h.wrote <==> i < settings.totalWrites)
            && NoDuplicates(h.read)
            && (forall i: nat :: i in h.read <==>
                  i < settings.totalWrites && settings.readInterval != 0 && i % settings.readInterval == 0)
  {
    var pool, h := After(settings, schedule), HistoryOf(settings, schedule);
    InvariantHolds(settings, schedule);
    ConservationHolds(settings, schedule);
    CountIsAll(pool.workers, IsDone);
    assert pool.cursor == |h.claims| + settings.workers;
    forall i | 0 <= i < settings.totalWrites
      ensures i in h.wrote && (i in h.read <==> IsReadIndex(settings, i))
    {
      assert Accounted(settings, pool, h, i);
    }
  }

  /**
   Conservation at the join: whatever the interleaving and whichever operations fail, the successes and the logged
   failures of the writes add up to `totalWrites`, and those of the reads to the number of read indexes.
   */
  lemma {:induction false} JoinedCounts(settings: Settings, schedule: Schedule)
    requires Legal(settings, schedule) && Joined(After(settings, schedule)) && settings.workers > 0
    ensures var pool := After(settings, schedule);
            && |pool.writeLatencies| + Count(pool.errors, IsWriteError) == settings.totalWrites
            && |pool.readLatencies| + Count(pool.errors, IsReadError) == ReadCount(settings, settings.totalWrites)
            && |pool.errors| == Count(pool.errors, IsWriteError) + Count(pool.errors, IsReadError)
  {
    var h := HistoryOf(settings, schedule);
    JoinedHistory(settings, schedule);
    ConservationHolds(settings, schedule);
    ReadIndexesAreExact(settings, settings.totalWrites);
    SameElementsSameLength(h.read, ReadIndexes(settings, settings.totalWrites));
    RangeIsExact(settings.totalWrites);
    SameElementsSameLength(h.wrote, Range(settings.totalWrites));
    ErrorsSplit(After(settings, schedule).errors);
  }

  ghost function Range(n: nat): seq<nat> {
    if n == 0 then [] else Range(n - 1) + [n - 1]
  }

  lemma {:induction false} RangeIsExact(n: nat)
    ensures |Range(n)| == n && NoDuplicates(Range(n)) && forall i: nat :: i in Range(n) <==> i < n
  {
    if n > 0 {
      RangeIsExact(n - 1);
      assert n - 1 !in Range(n - 1);
    }
  }

  lemma {:induction false} ErrorsSplit(errors: seq<LoggedError>)
    ensures |errors| == Count(errors, IsWriteError) + Count(errors, IsReadError)
  {
    if errors != [] {
      ErrorsSplit(errors[..|errors| - 1]);
    }
  }

  // ----- Termination

  /** The number of actions in a complete run. */
  function RunLength(settings: Settings): nat {
    if settings.workers == 0 then 0
    else settings.workers + settings.totalWrites + ReadCount(settings, settings.totalWrites)
  }

  /**
   No schedule is longer than `RunLength`, and a schedule has joined exactly when it has that length: every way of
   scheduling the workers terminates, after the same number of actions.
   */
  lemma TerminatesInRunLength(settings: Settings, schedule: Schedule)
    requires Legal(settings, schedule)
    ensures Length(schedule) <= RunLength(settings)
    ensures Joined(After(settings, schedule)) <==> Length(schedule) == RunLength(settings)
  {
    var pool, h := After(settings, schedule), HistoryOf(settings, schedule);
    InvariantHolds(settings, schedule);
    ConservationHolds(settings, schedule);
    SettledAtMostAll(settings, pool, h);
    CountIsAll(pool.workers, IsStarted);
    if settings.workers == 0 {
      assert schedule.Idle?;
    } else if Joined(pool) {
      JoinedCounts(settings, schedule);
    } else {
      var w :| 0 <= w < |pool.workers| && !pool.workers[w].Done?;
      assert Consistent(settings, pool, h, w);
      ReadIndexesAreExact(settings, settings.totalWrites);
      RangeIsExact(settings.totalWrites);
    }
  }

  lemma SettledAtMostAll(settings: Settings, pool: Pool, h: History)
    requires Invariant(settings, pool, h)
    ensures |h.wrote| <= settings.totalWrites && |h.read| <= ReadCount(settings, settings.totalWrites)
    ensures |h.wrote| == settings.totalWrites ==> forall i: nat :: i < settings.totalWrites ==> i in h.wrote
    ensures |h.read| == ReadCount(settings, settings.totalWrites) ==>
              forall i: nat :: i < settings.totalWrites && IsReadIndex(settings, i) ==> i in h.read
  {
    ReadIndexesAreExact(settings, settings.totalWrites);
    RangeIsExact(settings.totalWrites);
    forall i | i in h.read ensures IsReadIndex(settings, i) {
      assert Accounted(settings, pool, h, i);
    }
    SubsetLength(h.wrote, Range(settings.totalWrites));
    SubsetLength(h.read, ReadIndexes(settings, settings.totalWrites));
  }

  /** Until the join some worker can move, and any worker that has not returned can: nothing blocks. */
  lemma NeverStuck(settings: Settings, schedule: Schedule, w: nat, outcome: Outcome)
    requires Legal(settings, schedule) && w < |After(settings, schedule).workers|
    requires !After(settings, schedule).workers[w].Done?
    ensures exists action: Action :: action.worker == w && Legal(settings, Then(schedule, action))
  {
    var action := match After(settings, schedule).workers[w]
      case Unstarted => Start(w)
      case Writing(_) => WriteSettles(w, outcome)
      case _ => ReadSettles(w, outcome);
    assert Legal(settings, Then(schedule, action));
  }
}
