/** `runStoreBenchmark` itself: the shared variables as fields, the three stretches of worker code as methods. */
module StoreBenchmark {
  import opened Seqs
  import opened WorkerPool

  datatype RunnerResult = RunnerResult(
    writeCount: nat,
    readCount: nat,
    writeLatencies: seq<real>,
    readLatencies: seq<real>,
    errors: seq<LoggedError>)

  function ResultOf(pool: Pool): RunnerResult {
    RunnerResult(|pool.writeLatencies|, |pool.readLatencies|, pool.writeLatencies, pool.readLatencies, pool.errors)
  }

  class StoreRunner {
    const settings: Settings
    var cursor: nat
    var workers: seq<Worker>
    var writeLatencies: seq<real>
    var readLatencies: seq<real>
    var errors: seq<LoggedError>
    ghost var schedule: Schedule

    function Snapshot(): Pool
      reads this
    {
      Pool(cursor, workers, writeLatencies, readLatencies, errors)
    }

    /** The fields are what the schedule so far makes of them. */
    ghost predicate Valid()
      reads this
    {
      Legal(settings, schedule) && Snapshot() == After(settings, schedule)
    }

    constructor (settings: Settings)
      ensures Valid() && this.settings == settings && schedule == Idle
    {
      this.settings := settings;
      cursor := 0;
      workers := seq(settings.workers, _ => Unstarted);
      writeLatencies, readLatencies, errors := [], [], [];
      schedule := Idle;
    }

    method TakeIndex(w: nat)
      requires w < |workers|
      modifies this`cursor, this`workers
      ensures Snapshot() == Claim(settings, old(Snapshot()), w)
    {
      var writeIndex := cursor;
      cursor := cursor + 1;
      if writeIndex >= settings.totalWrites {
        workers := workers[w := Done];
      } else {
        workers := workers[w := Writing(writeIndex)];
      }
    }

    method StartWorker(w: nat)
      requires Valid() && Enabled(Snapshot(), Start(w))
      modifies this
      ensures Valid() && schedule == Then(old(schedule), Start(w))
    {
      TakeIndex(w);
      schedule := Then(schedule, Start(w));
    }

    method SettleWrite(w: nat, outcome: Outcome)
      requires Valid() && Enabled(Snapshot(), WriteSettles(w, outcome))
      modifies this
      ensures Valid() && schedule == Then(old(schedule), WriteSettles(w, outcome))
    {
      var writeIndex := workers[w].index;
      match outcome {
        case Finished(ms) => writeLatencies := writeLatencies + [ms];
        case Failed(message) => errors := errors + [WriteError(writeIndex, message)];
      }
      if IsReadIndex(settings, writeIndex) {
        workers := workers[w := Reading(writeIndex)];
      } else {
        TakeIndex(w);
      }
      schedule := Then(schedule, WriteSettles(w, outcome));
    }

    method SettleRead(w: nat, outcome: Outcome)
      requires Valid() && Enabled(Snapshot(), ReadSettles(w, outcome))
      modifies this
      ensures Valid() && schedule == Then(old(schedule), ReadSettles(w, outcome))
    {
      match outcome {
        case Finished(ms) => readLatencies := readLatencies + [ms];
        case Failed(message) => errors := errors + [ReadError(workers[w].index, message)];
      }
      TakeIndex(w);
      schedule := Then(schedule, ReadSettles(w, outcome));
    }

    /**
     Runs the pool to its join.  Which worker moves next is left open, and `settle` decides how the n-th settlement
     ends, so the postcondition holds of every event loop and every store.
     */
    method Run(settle: nat -> Outcome) returns (result: RunnerResult)
      requires Valid() && schedule == Idle
      modifies this
      ensures Valid() && Joined(After(settings, schedule)) && result == ResultOf(After(settings, schedule))
      ensures Length(schedule) == RunLength(settings)
      ensures result.writeLatencies == WriteTimes(schedule) && result.readLatencies == ReadTimes(schedule)
      ensures result.errors == Failures(settings, schedule)
      ensures result.writeCount == |result.writeLatencies| && result.readCount == |result.readLatencies|
      ensures forall n :: 0 <= n < |Outcomes(schedule)| ==> Outcomes(schedule)[n] == settle(n)
      ensures settings.workers > 0 ==>
                && cursor == settings.totalWrites + settings.workers
                && result.writeCount + Count(result.errors, IsWriteError) == settings.totalWrites
                && result.readCount + Count(result.errors, IsReadError) == ReadCount(settings, settings.totalWrites)
                && |Outcomes(schedule)| == settings.totalWrites + ReadCount(settings, settings.totalWrites)
    {
      var settled := 0;
      while exists w :: 0 <= w < |workers| && !workers[w].Done?
        invariant Valid() && settled == |Outcomes(schedule)|
        invariant forall n :: 0 <= n < settled ==> Outcomes(schedule)[n] == settle(n)
        decreases RunLength(settings) - Length(schedule)
      {
        ghost var before := schedule;
        var w :| 0 <= w < |workers| && !workers[w].Done?;
        if workers[w].Unstarted? {
          StartWorker(w);
        } else {
          var outcome := settle(settled);
          settled := settled + 1;
          if workers[w].Writing? {
            SettleWrite(w, outcome);
          } else {
            SettleRead(w, outcome);
          }
        }
        TerminatesInRunLength(settings, schedule);
      }
      TerminatesInRunLength(settings, schedule);
      RecordsAreOfSchedule(settings, schedule);
      if settings.workers > 0 {
        JoinedCounts(settings, schedule);
        OutcomesAreCounted(settings, schedule);
        JoinedHistory(settings, schedule);
      }
      result := ResultOf(Snapshot());
    }
  }
}
