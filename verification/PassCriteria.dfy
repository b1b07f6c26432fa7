/** The pass criteria of a benchmark scenario, composed with the pool's conservation law and the percentile. */
module PassCriteria {
  import opened Seqs
  import opened WorkerPool
  import opened StoreBenchmark
  import opened Latency

  const WORKERS_PER_STORE: nat := 4
  const WRITES_PER_STORE: nat := 80
  const READ_INTERVAL: nat := 4
  const BENCHMARK := Settings(WORKERS_PER_STORE, WRITES_PER_STORE, READ_INTERVAL)

  const MIN_WRITES_PER_STORE: nat := WRITES_PER_STORE
  const MIN_READS_PER_STORE: nat := WRITES_PER_STORE / READ_INTERVAL
  const MAX_WRITE_P95_MS: real := 1000.0
  const MAX_READ_P95_MS: real := 1000.0

  datatype StoreResult = StoreResult(
    writeCount: nat,
    readCount: nat,
    writeLatency: Summary,
    readLatency: Summary,
    errors: seq<LoggedError>)

  datatype Criteria = Criteria(
    noErrors: bool,
    writesMeetThreshold: bool,
    readsMeetThreshold: bool,
    writeP95WithinLimit: bool,
    readP95WithinLimit: bool,
    overallPass: bool)

  function BuildStoreResult(result: RunnerResult): StoreResult {
    StoreResult(result.writeCount, result.readCount, SummarizeLatencies(result.writeLatencies),
                SummarizeLatencies(result.readLatencies), result.errors)
  }

  function BuildStoreResults(results: seq<RunnerResult>): seq<StoreResult> {
    seq(|results|, i requires 0 <= i < |results| => BuildStoreResult(results[i]))
  }

  function TotalErrors(stores: seq<StoreResult>): nat {
    if stores == [] then 0 else |stores[0].errors| + TotalErrors(stores[1..])
  }

  function BuildScenarioPassCriteria(stores: seq<StoreResult>): Criteria {
    var noErrors := TotalErrors(stores) == 0;
    var enoughWrites := forall s | s in stores :: s.writeCount >= MIN_WRITES_PER_STORE;
    var enoughReads := forall s | s in stores :: s.readCount >= MIN_READS_PER_STORE;
    var writeP95 := forall s | s in stores :: Within(s.writeLatency.p95Ms, MAX_WRITE_P95_MS);
    var readP95 := forall s | s in stores :: Within(s.readLatency.p95Ms, MAX_READ_P95_MS);
    Criteria(noErrors, enoughWrites, enoughReads, writeP95, readP95,
             noErrors && enoughWrites && enoughReads && writeP95 && readP95)
  }

  /** What `runStoreBenchmark` can return with the benchmark's settings, under some interleaving. */
  ghost predicate Completed(result: RunnerResult) {
    exists schedule :: CompletedBy(result, schedule)
  }

  ghost predicate CompletedBy(result: RunnerResult, schedule: Schedule) {
    && Legal(BENCHMARK, schedule)
    && Joined(After(BENCHMARK, schedule))
    && result == ResultOf(After(BENCHMARK, schedule))
  }

  lemma CompletedCounts(result: RunnerResult)
    requires Completed(result)
    ensures result.writeCount == |result.writeLatencies| && result.readCount == |result.readLatencies|
    ensures result.writeCount + Count(result.errors, IsWriteError) == 80
    ensures result.readCount + Count(result.errors, IsReadError) == 20
    ensures |result.errors| == (80 - result.writeCount) + (20 - result.readCount)
  {
    var schedule :| CompletedBy(result, schedule);
    JoinedCounts(BENCHMARK, schedule);
  }

  lemma {:induction false} TotalErrorsIsZero(stores: seq<StoreResult>)
    ensures TotalErrors(stores) == 0 <==> forall s :: s in stores ==> s.errors == []
  {
    if stores != [] {
      TotalErrorsIsZero(stores[1..]);
      assert stores == [stores[0]] + stores[1..];
    }
  }

  /** A store reaches both count thresholds exactly when nothing failed. */
  lemma {:induction false} StoreMeetsThresholds(result: RunnerResult)
    requires Completed(result)
    ensures var store := BuildStoreResult(result);
            store.writeCount >= 80 && store.readCount >= 20 <==> result.errors == []
  {
    CompletedCounts(result);
  }

  // ----- The criteria, read off the runs

  /** A run of the benchmark to its join, one for each store. */
  ghost predicate RunsTo(schedules: seq<Schedule>, results: seq<RunnerResult>) {
    |schedules| == |results| && forall i :: 0 <= i < |results| ==> CompletedBy(results[i], schedules[i])
  }

  /** The four workers start, the 80 writes and 20 reads settle, and what they measured or threw is the result. */
  lemma RunIsRecorded(result: RunnerResult, schedule: Schedule)
    requires CompletedBy(result, schedule)
    ensures Length(schedule) == 104 && |Outcomes(schedule)| == 100
    ensures result.writeLatencies == WriteTimes(schedule) && result.writeCount == |WriteTimes(schedule)| <= 80
    ensures result.readLatencies == ReadTimes(schedule) && result.readCount == |ReadTimes(schedule)| <= 20
    ensures result.errors == [] <==> forall o :: o in Outcomes(schedule) ==> o.Finished?
    ensures result.errors == [] <==> |WriteTimes(schedule)| == 80 && |ReadTimes(schedule)| == 20
  {
    TerminatesInRunLength(BENCHMARK, schedule);
    RecordsAreOfSchedule(BENCHMARK, schedule);
    OutcomesAreCounted(BENCHMARK, schedule);
    JoinedCounts(BENCHMARK, schedule);
  }

  predicate MostlyWithin(times: seq<real>, limitMs: real) {
    times != [] && 95 * |times| <= 100 * Count(times, AtMost(limitMs))
  }

  /** What the criteria read off a store, by what the operations of its run did. */
  ghost predicate StoreIsOf(store: StoreResult, s: Schedule) {
    && (store.errors == [] <==> forall o :: o in Outcomes(s) ==> o.Finished?)
    && (store.writeCount >= MIN_WRITES_PER_STORE <==> |WriteTimes(s)| == 80)
    && (store.readCount >= MIN_READS_PER_STORE <==> |ReadTimes(s)| == 20)
    && (Within(store.writeLatency.p95Ms, MAX_WRITE_P95_MS) <==> MostlyWithin(WriteTimes(s), 1000.0))
    && (Within(store.readLatency.p95Ms, MAX_READ_P95_MS) <==> MostlyWithin(ReadTimes(s), 1000.0))
  }

  lemma StoreIsOfRun(result: RunnerResult, schedule: Schedule)
    requires CompletedBy(result, schedule)
    ensures StoreIsOf(BuildStoreResult(result), schedule)
  {
    RunIsRecorded(result, schedule);
    P95Within(WriteTimes(schedule), 1000.0);
    P95Within(ReadTimes(schedule), 1000.0);
  }

  /** Every criterion of a scenario, by what the operations of its stores did. */
  lemma {:induction false} CriteriaMeaning(results: seq<RunnerResult>, schedules: seq<Schedule>)
    requires RunsTo(schedules, results)
    ensures var c := BuildScenarioPassCriteria(BuildStoreResults(results));
            && (c.noErrors <==> forall s :: s in schedules ==> forall o :: o in Outcomes(s) ==> o.Finished?)
            && (c.writesMeetThreshold <==> forall s :: s in schedules ==> |WriteTimes(s)| == 80)
            && (c.readsMeetThreshold <==> forall s :: s in schedules ==> |ReadTimes(s)| == 20)
            && (c.writeP95WithinLimit <==> forall s :: s in schedules ==> MostlyWithin(WriteTimes(s), 1000.0))
            && (c.readP95WithinLimit <==> forall s :: s in schedules ==> MostlyWithin(ReadTimes(s), 1000.0))
  {
    forall i | 0 <= i < |results| ensures StoreIsOf(BuildStoreResults(results)[i], schedules[i]) {
      StoreIsOfRun(results[i], schedules[i]);
    }
    CriteriaOfCounts(BuildStoreResults(results), schedules);
    CriteriaOfLatencies(BuildStoreResults(results), schedules);
  }

  lemma CriteriaOfCounts(stores: seq<StoreResult>, schedules: seq<Schedule>)
    requires |stores| == |schedules| && forall i :: 0 <= i < |stores| ==> StoreIsOf(stores[i], schedules[i])
    ensures var c := BuildScenarioPassCriteria(stores);
            && (c.noErrors <==> forall s :: s in schedules ==> forall o :: o in Outcomes(s) ==> o.Finished?)
            && (c.writesMeetThreshold <==> forall s :: s in schedules ==> |WriteTimes(s)| == 80)
            && (c.readsMeetThreshold <==> forall s :: s in schedules ==> |ReadTimes(s)| == 20)
  {
    TotalErrorsIsZero(stores);
    EveryAlike(stores, schedules, (store: StoreResult) => store.errors == [],
               (s: Schedule) => forall o :: o in Outcomes(s) ==> o.Finished?);
    EveryAlike(stores, schedules, (store: StoreResult) => store.writeCount >= MIN_WRITES_PER_STORE,
               (s: Schedule) => |WriteTimes(s)| == 80);
    EveryAlike(stores, schedules, (store: StoreResult) => store.readCount >= MIN_READS_PER_STORE,
               (s: Schedule) => |ReadTimes(s)| == 20);
  }

  lemma CriteriaOfLatencies(stores: seq<StoreResult>, schedules: seq<Schedule>)
    requires |stores| == |schedules| && forall i :: 0 <= i < |stores| ==> StoreIsOf(stores[i], schedules[i])
    ensures var c := BuildScenarioPassCriteria(stores);
            && (c.writeP95WithinLimit <==> forall s :: s in schedules ==> MostlyWithin(WriteTimes(s), 1000.0))
            && (c.readP95WithinLimit <==> forall s :: s in schedules ==> MostlyWithin(ReadTimes(s), 1000.0))
  {
    EveryAlike(stores, schedules, (store: StoreResult) => Within(store.writeLatency.p95Ms, MAX_WRITE_P95_MS),
               (s: Schedule) => MostlyWithin(WriteTimes(s), 1000.0));
    EveryAlike(stores, schedules, (store: StoreResult) => Within(store.readLatency.p95Ms, MAX_READ_P95_MS),
               (s: Schedule) => MostlyWithin(ReadTimes(s), 1000.0));
  }

  lemma EveryAlike(stores: seq<StoreResult>, schedules: seq<Schedule>, p: StoreResult -> bool, q: Schedule -> bool)
    requires |stores| == |schedules| && forall i :: 0 <= i < |stores| ==> (p(stores[i]) <==> q(schedules[i]))
    ensures (forall store :: store in stores ==> p(store)) <==> (forall s :: s in schedules ==> q(s))
  {
    forall i | 0 <= i < |stores| && forall s :: s in schedules ==> q(s) ensures p(stores[i]) {
      assert schedules[i] in schedules;
    }
    forall i | 0 <= i < |stores| && forall store :: store in stores ==> p(store) ensures q(schedules[i]) {
      assert stores[i] in stores;
    }
  }

  /** No operation failed, and at most 4 of the 80 writes and 1 of the 20 reads took longer than a second. */
  ghost predicate HealthyRun(schedule: Schedule) {
    && (forall o :: o in Outcomes(schedule) ==> o.Finished?)
    && Count(WriteTimes(schedule), AtMost(1000.0)) >= 76
    && Count(ReadTimes(schedule), AtMost(1000.0)) >= 19
  }

  /** The two count thresholds add nothing to `noErrors`: together they say exactly that. */
  lemma ThresholdsMeanNoErrors(results: seq<RunnerResult>, schedules: seq<Schedule>)
    requires RunsTo(schedules, results)
    ensures var c := BuildScenarioPassCriteria(BuildStoreResults(results));
            c.noErrors <==> c.writesMeetThreshold && c.readsMeetThreshold
  {
    CriteriaMeaning(results, schedules);
    forall s | s in schedules
      ensures (forall o :: o in Outcomes(s) ==> o.Finished?) <==> |WriteTimes(s)| == 80 && |ReadTimes(s)| == 20
    {
      var i :| 0 <= i < |schedules| && schedules[i] == s;
      RunIsRecorded(results[i], s);
    }
  }

  lemma HealthyMeaning(result: RunnerResult, schedule: Schedule)
    requires CompletedBy(result, schedule)
    ensures HealthyRun(schedule)
       <==> && (forall o :: o in Outcomes(schedule) ==> o.Finished?)
            && MostlyWithin(WriteTimes(schedule), 1000.0) && MostlyWithin(ReadTimes(schedule), 1000.0)
  {
    RunIsRecorded(result, schedule);
  }

  /** A scenario passes exactly when every store ran healthily, under whatever interleaving its pool had. */
  lemma {:induction false} OverallPassMeaning(results: seq<RunnerResult>, schedules: seq<Schedule>)
    requires RunsTo(schedules, results)
    ensures BuildScenarioPassCriteria(BuildStoreResults(results)).overallPass
       <==> forall s :: s in schedules ==> HealthyRun(s)
  {
    var c := BuildScenarioPassCriteria(BuildStoreResults(results));
    CriteriaMeaning(results, schedules);
    ThresholdsMeanNoErrors(results, schedules);
    assert c.overallPass <==> c.noErrors && c.writeP95WithinLimit && c.readP95WithinLimit;
    forall s | s in schedules
      ensures HealthyRun(s)
         <==> && (forall o :: o in Outcomes(s) ==> o.Finished?)
              && MostlyWithin(WriteTimes(s), 1000.0) && MostlyWithin(ReadTimes(s), 1000.0)
    {
      var i :| 0 <= i < |schedules| && schedules[i] == s;
      HealthyMeaning(results[i], s);
    }
  }
}
