/**
 The audit as the source runs it: one pass over the claims with two memo caches.  The world may answer differently
 every time it is asked; `clock` numbers the pieces of evidence, each of which asks at most one question.
 */
module AuditEngine {
  import opened Options
  import opened Seqs
  import opened CacheKey
  import opened ClaimAudit
  import opened AuditReport

  /** The world's answers, by the time of asking. */
  datatype Effects = Effects(run: (nat, string, int) -> RunResult, ledger: (nat, string) -> Option<Ledger>)

  datatype Setup = Setup(files: Files, effects: Effects, defaultTimeoutMs: int)

  /** The questions the audit put to the world, and when. */
  datatype Run = Run(command: string, timeoutMs: int, at: nat)
  datatype Read = Read(path: string, at: nat)

  /** The two caches, and the log of the questions asked so far. */
  datatype Memory = Memory(
    commandCache: map<string, RunResult>,
    ledgerCache: map<string, Option<Ledger>>,
    clock: nat,
    runLog: seq<Run>,
    readLog: seq<Read>)

  const BLANK := Memory(map[], map[], 0, [], [])

  /** The oracle made of the first answer to each question; where none was asked, the world at time zero. */
  function FirstAnswers(setup: Setup, m: Memory): Oracle {
    Oracle(
      (command, timeoutMs) =>
        if Key(timeoutMs, command) in m.commandCache then m.commandCache[Key(timeoutMs, command)]
        else setup.effects.run(0, command, timeoutMs),
      path => if path in m.ledgerCache then m.ledgerCache[path] else setup.effects.ledger(0, path))
  }

  /** The world frozen at time zero. */
  function Frozen(setup: Setup): Oracle {
    Oracle((command, timeoutMs) => setup.effects.run(0, command, timeoutMs), path => setup.effects.ledger(0, path))
  }

  ghost predicate Timeless(effects: Effects) {
    && (forall t, command, timeoutMs :: effects.run(t, command, timeoutMs) == effects.run(0, command, timeoutMs))
    && (forall t, path :: effects.ledger(t, path) == effects.ledger(0, path))
  }

  // ----- One pass, as state passing

  function AskRun(setup: Setup, m: Memory, command: string, timeoutMs: int): Memory {
    if Key(timeoutMs, command) in m.commandCache then m
    else m.(commandCache := m.commandCache[Key(timeoutMs, command) := setup.effects.run(m.clock, command, timeoutMs)],
            runLog := m.runLog + [Run(command, timeoutMs, m.clock)])
  }

  function AskLedger(setup: Setup, m: Memory, path: string): Memory {
    if path in m.ledgerCache then m
    else m.(ledgerCache := m.ledgerCache[path := setup.effects.ledger(m.clock, path)],
            readLog := m.readLog + [Read(path, m.clock)])
  }

  /** The memory after the question of one piece of evidence. */
  function Question(setup: Setup, m: Memory, evidence: Evidence): Memory {
    match evidence
    case Command(_, command, _, _) => AskRun(setup, m, command, TimeoutOf(evidence, setup.defaultTimeoutMs))
    case RewardStage(path, _, _, _) => AskLedger(setup, m, setup.files.resolve(path))
    case RewardCheckpoint(path, _, _, _) => AskLedger(setup, m, setup.files.resolve(path))
    case _ => m
  }

  function Tick(m: Memory): Memory {
    m.(clock := m.clock + 1)
  }

  function Ask(setup: Setup, m: Memory, evidence: Evidence): Memory {
    Tick(Question(setup, m, evidence))
  }

  function AskAll(setup: Setup, m: Memory, evidence: seq<Evidence>): Memory {
    if evidence == [] then m else Ask(setup, AskAll(setup, m, evidence[..|evidence| - 1]), evidence[|evidence| - 1])
  }

  /** The verdict on one piece of evidence, read from the caches once they hold its answer. */
  function Verdict(setup: Setup, m: Memory, evidence: Evidence): EvidenceResult {
    AuditOne(evidence, m.clock, setup.defaultTimeoutMs, setup.files, FirstAnswers(setup, Ask(setup, m, evidence)))
  }

  function Verdicts(setup: Setup, m: Memory, evidence: seq<Evidence>): seq<EvidenceResult> {
    if evidence == [] then []
    else
      var front, last := evidence[..|evidence| - 1], evidence[|evidence| - 1];
      Verdicts(setup, m, front) + [Verdict(setup, AskAll(setup, m, front), last)]
  }

  function ClaimVerdict(setup: Setup, m: Memory, claim: Claim, seenIds: set<string>): ClaimResult {
    var results := Verdicts(setup, m, claim.evidence);
    var failures := StaticFailures(claim, seenIds) + FailedDetails(results);
    ClaimResult(claim.id, claim.status, claim.level, failures == [], failures, results)
  }

  function AskClaims(setup: Setup, m: Memory, claims: seq<Claim>): Memory {
    if claims == [] then m
    else AskAll(setup, AskClaims(setup, m, claims[..|claims| - 1]), claims[|claims| - 1].evidence)
  }

  function ClaimVerdicts(setup: Setup, m: Memory, claims: seq<Claim>): seq<ClaimResult> {
    if claims == [] then []
    else
      var front, last := claims[..|claims| - 1], claims[|claims| - 1];
      ClaimVerdicts(setup, m, front) + [ClaimVerdict(setup, AskClaims(setup, m, front), last, IdsOf(front))]
  }

  // ----- What a manifest asks

  function AllEvidence(claims: seq<Claim>): seq<Evidence> {
    if claims == [] then [] else AllEvidence(claims[..|claims| - 1]) + claims[|claims| - 1].evidence
  }

  ghost predicate AsksRun(setup: Setup, evidence: Evidence, command: string, timeoutMs: int) {
    && evidence.Command? && evidence.command == command
    && timeoutMs == if evidence.timeoutMs.Some? then evidence.timeoutMs.value else setup.defaultTimeoutMs
  }

  ghost predicate AsksLedger(setup: Setup, evidence: Evidence, path: string) {
    (evidence.RewardStage? || evidence.RewardCheckpoint?) && setup.files.resolve(evidence.path) == path
  }

  /** Two oracles that answer alike wherever `evidence` looks. */
  ghost predicate Agree(setup: Setup, evidence: Evidence, one: Oracle, other: Oracle) {
    && (forall command, timeoutMs :: AsksRun(setup, evidence, command, timeoutMs) ==>
          one.run(command, timeoutMs) == other.run(command, timeoutMs))
    && (forall path :: AsksLedger(setup, evidence, path) ==> one.ledger(path) == other.ledger(path))
  }

  lemma AuditOneAgrees(setup: Setup, evidence: Evidence, at: nat, one: Oracle, other: Oracle)
    requires Agree(setup, evidence, one, other)
    ensures AuditOne(evidence, at, setup.defaultTimeoutMs, setup.files, one)
         == AuditOne(evidence, at, setup.defaultTimeoutMs, setup.files, other)
  {
    match evidence
    case Command(_, command, _, _) =>
      assert AsksRun(setup, evidence, command, TimeoutOf(evidence, setup.defaultTimeoutMs));
    case RewardStage(path, _, _, _) => assert AsksLedger(setup, evidence, setup.files.resolve(path));
    case RewardCheckpoint(path, _, _, _) => assert AsksLedger(setup, evidence, setup.files.resolve(path));
    case _ =>
  }

  lemma {:induction false} AuditAllAgrees(setup: Setup, evidence: seq<Evidence>, at: nat, one: Oracle, other: Oracle)
    requires forall e :: e in evidence ==> Agree(setup, e, one, other)
    ensures AuditAll(evidence, at, setup.defaultTimeoutMs, setup.files, one)
         == AuditAll(evidence, at, setup.defaultTimeoutMs, setup.files, other)
  {
    if evidence != [] {
      var front, last := evidence[..|evidence| - 1], evidence[|evidence| - 1];
      AuditAllAgrees(setup, front, at, one, other);
      AuditOneAgrees(setup, last, at + |front|, one, other);
    }
  }

  /** The cache-free audit depends on the oracle only through the questions its evidence asks. */
  lemma {:induction false} AuditClaimsAgrees(setup: Setup, claims: seq<Claim>, at: nat, one: Oracle, other: Oracle)
    requires forall e :: e in AllEvidence(claims) ==> Agree(setup, e, one, other)
    ensures AuditClaims(claims, at, setup.defaultTimeoutMs, setup.files, one)
         == AuditClaims(claims, at, setup.defaultTimeoutMs, setup.files, other)
  {
    if claims != [] {
      var front, last := claims[..|claims| - 1], claims[|claims| - 1];
      AuditClaimsAgrees(setup, front, at, one, other);
      AuditAllAgrees(setup, last.evidence, TimeAfter(front, at), one, other);
    }
  }

  // ----- The memo tables

  ghost function KeyOf(run: Run): string { Key(run.timeoutMs, run.command) }

  /** The cache holds the answer to every question in the log and nothing else, and no question was put twice. */
  ghost predicate RunMemo(setup: Setup, m: Memory) {
    && (forall i, j :: 0 <= i < j < |m.runLog| ==>
          !(m.runLog[i].command == m.runLog[j].command && m.runLog[i].timeoutMs == m.runLog[j].timeoutMs))
    && (forall run :: run in m.runLog ==>
          KeyOf(run) in m.commandCache
          && m.commandCache[KeyOf(run)] == setup.effects.run(run.at, run.command, run.timeoutMs))
    && (forall key :: key in m.commandCache ==> exists run :: run in m.runLog && key == KeyOf(run))
  }

  ghost predicate ReadMemo(setup: Setup, m: Memory) {
    && (forall i, j :: 0 <= i < j < |m.readLog| ==> m.readLog[i].path != m.readLog[j].path)
    && (forall read :: read in m.readLog ==>
          read.path in m.ledgerCache && m.ledgerCache[read.path] == setup.effects.ledger(read.at, read.path))
    && (forall path :: path in m.ledgerCache ==> exists read :: read in m.readLog && path == read.path)
  }

  ghost predicate Ran(m: Memory, command: string, timeoutMs: int) {
    exists run :: run in m.runLog && run.command == command && run.timeoutMs == timeoutMs
  }

  /** A hit really is the answer to this question: this is where the key must be injective. */
  lemma CachedMeansRan(setup: Setup, m: Memory, command: string, timeoutMs: int)
    requires RunMemo(setup, m)
    ensures Key(timeoutMs, command) in m.commandCache <==> Ran(m, command, timeoutMs)
  {
    if Key(timeoutMs, command) in m.commandCache {
      var run :| run in m.runLog && Key(timeoutMs, command) == KeyOf(run);
      KeyInjective(timeoutMs, command, run.timeoutMs, run.command);
    }
  }

  lemma AskRunKeepsMemo(setup: Setup, m: Memory, command: string, timeoutMs: int)
    requires RunMemo(setup, m)
    ensures RunMemo(setup, AskRun(setup, m, command, timeoutMs))
  {
    var key := Key(timeoutMs, command);
    if key !in m.commandCache {
      var m' := AskRun(setup, m, command, timeoutMs);
      var asked := Run(command, timeoutMs, m.clock);
      assert m'.runLog == m.runLog + [asked];
      forall run | run in m.runLog ensures KeyOf(run) in m.commandCache {}
      forall run | run in m'.runLog ensures run in m.runLog || run == asked {}
      EveryEntryLogged(setup, m, asked);
    }
  }

  lemma EveryEntryLogged(setup: Setup, m: Memory, asked: Run)
    requires RunMemo(setup, m)
    ensures forall key :: key in m.commandCache.Keys + {KeyOf(asked)} ==>
              exists run :: run in m.runLog + [asked] && key == KeyOf(run)
  {
    assert asked in m.runLog + [asked];
    forall key | key in m.commandCache ensures exists run :: run in m.runLog + [asked] && key == KeyOf(run) {
      var run :| run in m.runLog && key == KeyOf(run);
      assert run in m.runLog + [asked];
    }
  }

  lemma AskLedgerKeepsMemo(setup: Setup, m: Memory, path: string)
    requires ReadMemo(setup, m)
    ensures ReadMemo(setup, AskLedger(setup, m, path))
  {
    var m' := AskLedger(setup, m, path);
    if m' != m {
      var asked := Read(path, m.clock);
      assert asked in m'.readLog;
      forall p | p in m'.ledgerCache ensures exists read :: read in m'.readLog && p == read.path {
        if p in m.ledgerCache {
          var read :| read in m.readLog && p == read.path;
          assert read in m'.readLog;
        } else {
          assert p == asked.path;
        }
      }
    }
  }

  lemma TickKeepsMemo(setup: Setup, m: Memory)
    requires RunMemo(setup, m) && ReadMemo(setup, m)
    ensures RunMemo(setup, Tick(m)) && ReadMemo(setup, Tick(m))
  {
  }

  lemma {:induction false} AskKeepsMemo(setup: Setup, m: Memory, evidence: Evidence)
    requires RunMemo(setup, m) && ReadMemo(setup, m)
    ensures RunMemo(setup, Ask(setup, m, evidence)) && ReadMemo(setup, Ask(setup, m, evidence))
  {
    QuestionKeepsMemo(setup, m, evidence);
    TickKeepsMemo(setup, Question(setup, m, evidence));
  }

  lemma QuestionKeepsMemo(setup: Setup, m: Memory, evidence: Evidence)
    requires RunMemo(setup, m) && ReadMemo(setup, m)
    ensures RunMemo(setup, Question(setup, m, evidence)) && ReadMemo(setup, Question(setup, m, evidence))
  {
    match evidence
    case Command(_, command, _, _) => AskRunKeepsMemo(setup, m, command, TimeoutOf(evidence, setup.defaultTimeoutMs));
    case RewardStage(path, _, _, _) => AskLedgerKeepsMemo(setup, m, setup.files.resolve(path));
    case RewardCheckpoint(path, _, _, _) => AskLedgerKeepsMemo(setup, m, setup.files.resolve(path));
    case _ =>
  }

  lemma {:induction false} AskAllKeepsMemo(setup: Setup, m: Memory, evidence: seq<Evidence>)
    requires RunMemo(setup, m) && ReadMemo(setup, m)
    ensures RunMemo(setup, AskAll(setup, m, evidence)) && ReadMemo(setup, AskAll(setup, m, evidence))
  {
    if evidence != [] {
      var front := evidence[..|evidence| - 1];
      AskAllKeepsMemo(setup, m, front);
      AskKeepsMemo(setup, AskAll(setup, m, front), evidence[|evidence| - 1]);
    }
  }

  // ----- What is cached stays, and what was asked is cached

  ghost predicate Extends(small: Memory, big: Memory) {
    && (forall key :: key in small.commandCache ==>
          key in big.commandCache && big.commandCache[key] == small.commandCache[key])
    && (forall path :: path in small.ledgerCache ==>
          path in big.ledgerCache && big.ledgerCache[path] == small.ledgerCache[path])
  }

  /** Every question of `evidence` has its answer cached. */
  ghost predicate Covered(setup: Setup, evidence: Evidence, m: Memory) {
    && (forall command, timeoutMs :: AsksRun(setup, evidence, command, timeoutMs) ==>
          Key(timeoutMs, command) in m.commandCache)
    && (forall path :: AsksLedger(setup, evidence, path) ==> path in m.ledgerCache)
  }

  lemma AskCovers(setup: Setup, m: Memory, evidence: Evidence)
    ensures Extends(m, Ask(setup, m, evidence)) && Covered(setup, evidence, Ask(setup, m, evidence))
  {
  }

  lemma CoveredAgrees(setup: Setup, evidence: Evidence, m: Memory, m': Memory)
    requires Covered(setup, evidence, m) && Extends(m, m')
    ensures Covered(setup, evidence, m')
    ensures Agree(setup, evidence, FirstAnswers(setup, m), FirstAnswers(setup, m'))
  {
  }

  lemma {:induction false} AskAllCovers(setup: Setup, m: Memory, evidence: seq<Evidence>)
    ensures Extends(m, AskAll(setup, m, evidence))
    ensures forall e :: e in evidence ==> Covered(setup, e, AskAll(setup, m, evidence))
  {
    if evidence != [] {
      var front, last := evidence[..|evidence| - 1], evidence[|evidence| - 1];
      var before := AskAll(setup, m, front);
      AskAllCovers(setup, m, front);
      AskCovers(setup, before, last);
      forall e | e in front ensures Covered(setup, e, Ask(setup, before, last)) {
        CoveredAgrees(setup, e, before, Ask(setup, before, last));
      }
      assert forall e :: e in evidence ==> e in front || e == last;
    }
  }

  lemma {:induction false} AskAllTakesTime(setup: Setup, m: Memory, evidence: seq<Evidence>)
    ensures AskAll(setup, m, evidence).clock == m.clock + |evidence|
  {
    if evidence != [] {
      AskAllTakesTime(setup, m, evidence[..|evidence| - 1]);
    }
  }

  lemma {:induction false} AskClaimsTakesTime(setup: Setup, m: Memory, claims: seq<Claim>)
    ensures AskClaims(setup, m, claims).clock == TimeAfter(claims, m.clock)
  {
    if claims != [] {
      var front, last := claims[..|claims| - 1], claims[|claims| - 1];
      AskClaimsTakesTime(setup, m, front);
      AskAllTakesTime(setup, AskClaims(setup, m, front), last.evidence);
    }
  }

  /** The verdicts of a pass are the cache-free verdicts under the answers it ends with. */
  lemma {:induction false} VerdictsAreCacheFree(setup: Setup, m: Memory, evidence: seq<Evidence>)
    ensures Verdicts(setup, m, evidence)
         == AuditAll(evidence, m.clock, setup.defaultTimeoutMs, setup.files,
                     FirstAnswers(setup, AskAll(setup, m, evidence)))
  {
    if evidence != [] {
      var front, last := evidence[..|evidence| - 1], evidence[|evidence| - 1];
      var before := AskAll(setup, m, front);
      VerdictsAreCacheFree(setup, m, front);
      AskAllCovers(setup, m, front);
      AskCovers(setup, before, last);
      forall e | e in front
        ensures Agree(setup, e, FirstAnswers(setup, before), FirstAnswers(setup, Ask(setup, before, last)))
      {
        CoveredAgrees(setup, e, before, Ask(setup, before, last));
      }
      AuditAllAgrees(setup, front, m.clock, FirstAnswers(setup, before), FirstAnswers(setup, Ask(setup, before, last)));
      AskAllTakesTime(setup, m, front);
    }
  }

  lemma {:induction false} AskClaimsCovers(setup: Setup, m: Memory, claims: seq<Claim>)
    ensures forall e :: e in AllEvidence(claims) ==> Covered(setup, e, AskClaims(setup, m, claims))
  {
    if claims != [] {
      var front, last := claims[..|claims| - 1], claims[|claims| - 1];
      var before, after := AskClaims(setup, m, front), AskClaims(setup, m, claims);
      AskClaimsCovers(setup, m, front);
      AskAllCovers(setup, before, last.evidence);
      forall e | e in AllEvidence(front) ensures Covered(setup, e, after) {
        CoveredAgrees(setup, e, before, after);
      }
    }
  }

  lemma {:induction false} ClaimVerdictsAreCacheFree(setup: Setup, m: Memory, claims: seq<Claim>)
    ensures ClaimVerdicts(setup, m, claims)
         == AuditClaims(claims, m.clock, setup.defaultTimeoutMs, setup.files,
                        FirstAnswers(setup, AskClaims(setup, m, claims)))
  {
    if claims != [] {
      var front, last := claims[..|claims| - 1], claims[|claims| - 1];
      var before, after := AskClaims(setup, m, front), AskClaims(setup, m, claims);
      ClaimVerdictsAreCacheFree(setup, m, front);
      VerdictsAreCacheFree(setup, before, last.evidence);
      AskClaimsCovers(setup, m, front);
      AskAllCovers(setup, before, last.evidence);
      forall e | e in AllEvidence(front)
        ensures Agree(setup, e, FirstAnswers(setup, before), FirstAnswers(setup, after))
      {
        CoveredAgrees(setup, e, before, after);
      }
      AuditClaimsAgrees(setup, front, m.clock, FirstAnswers(setup, before), FirstAnswers(setup, after));
      AskClaimsTakesTime(setup, m, front);
    }
  }

  // ----- Each question of the manifest is asked once, and no other

  lemma {:induction false} AskClaimsIsAskAll(setup: Setup, m: Memory, claims: seq<Claim>)
    ensures AskClaims(setup, m, claims) == AskAll(setup, m, AllEvidence(claims))
  {
    if claims != [] {
      var front, last := claims[..|claims| - 1], claims[|claims| - 1];
      AskClaimsIsAskAll(setup, m, front);
      AskAllConcat(setup, m, AllEvidence(front), last.evidence);
    }
  }

  lemma {:induction false} AskAllConcat(setup: Setup, m: Memory, one: seq<Evidence>, other: seq<Evidence>)
    ensures AskAll(setup, m, one + other) == AskAll(setup, AskAll(setup, m, one), other)
  {
    if other == [] {
      assert one + other == one;
    } else {
      var front := other[..|other| - 1];
      assert (one + other)[..|one + other| - 1] == one + front;
      AskAllConcat(setup, m, one, front);
    }
  }

  ghost predicate SomeAsksRun(setup: Setup, evidence: seq<Evidence>, command: string, timeoutMs: int) {
    exists e :: e in evidence && AsksRun(setup, e, command, timeoutMs)
  }

  ghost predicate SomeAsksLedger(setup: Setup, evidence: seq<Evidence>, path: string) {
    exists e :: e in evidence && AsksLedger(setup, e, path)
  }

  lemma {:induction false} OnlyAskedIsLogged(setup: Setup, evidence: seq<Evidence>)
    ensures forall run :: run in AskAll(setup, BLANK, evidence).runLog ==>
              SomeAsksRun(setup, evidence, run.command, run.timeoutMs)
    ensures forall read :: read in AskAll(setup, BLANK, evidence).readLog ==> SomeAsksLedger(setup, evidence, read.path)
  {
    if evidence != [] {
      var front, last := evidence[..|evidence| - 1], evidence[|evidence| - 1];
      var before, after := AskAll(setup, BLANK, front), AskAll(setup, BLANK, evidence);
      OnlyAskedIsLogged(setup, front);
      assert last in evidence && forall e :: e in front ==> e in evidence;
      forall run | run in after.runLog ensures SomeAsksRun(setup, evidence, run.command, run.timeoutMs) {
        if run in before.runLog {
          assert SomeAsksRun(setup, front, run.command, run.timeoutMs);
        } else {
          assert AsksRun(setup, last, run.command, run.timeoutMs);
        }
      }
      forall read | read in after.readLog ensures SomeAsksLedger(setup, evidence, read.path) {
        if read in before.readLog {
          assert SomeAsksLedger(setup, front, read.path);
        } else {
          assert AsksLedger(setup, last, read.path);
        }
      }
    }
  }

  /** No command is run twice with one timeout, and one is run exactly when some evidence asks for it. */
  ghost predicate RunsOnce(setup: Setup, evidence: seq<Evidence>, m: Memory) {
    && (forall i, j :: 0 <= i < j < |m.runLog| ==>
          !(m.runLog[i].command == m.runLog[j].command && m.runLog[i].timeoutMs == m.runLog[j].timeoutMs))
    && (forall command, timeoutMs :: Ran(m, command, timeoutMs) <==> SomeAsksRun(setup, evidence, command, timeoutMs))
  }

  ghost predicate WasRead(m: Memory, path: string) {
    exists read :: read in m.readLog && read.path == path
  }

  /** No ledger is read twice, and one is read exactly when some evidence asks for it. */
  ghost predicate ReadsOnce(setup: Setup, evidence: seq<Evidence>, m: Memory) {
    && (forall i, j :: 0 <= i < j < |m.readLog| ==> m.readLog[i].path != m.readLog[j].path)
    && (forall path :: WasRead(m, path) <==> SomeAsksLedger(setup, evidence, path))
  }

  lemma RanIfAsked(setup: Setup, evidence: seq<Evidence>, e: Evidence, command: string, timeoutMs: int)
    requires e in evidence && AsksRun(setup, e, command, timeoutMs)
    ensures Ran(AskAll(setup, BLANK, evidence), command, timeoutMs)
  {
    var m := AskAll(setup, BLANK, evidence);
    AskAllKeepsMemo(setup, BLANK, evidence);
    AskAllCovers(setup, BLANK, evidence);
    assert Covered(setup, e, m);
    CachedMeansRan(setup, m, command, timeoutMs);
  }

  lemma RanOnlyIfAsked(setup: Setup, evidence: seq<Evidence>, command: string, timeoutMs: int)
    requires Ran(AskAll(setup, BLANK, evidence), command, timeoutMs)
    ensures SomeAsksRun(setup, evidence, command, timeoutMs)
  {
    OnlyAskedIsLogged(setup, evidence);
  }

  lemma {:induction false} EachCommandOnce(setup: Setup, evidence: seq<Evidence>)
    ensures RunsOnce(setup, evidence, AskAll(setup, BLANK, evidence))
  {
    var m := AskAll(setup, BLANK, evidence);
    AskAllKeepsMemo(setup, BLANK, evidence);
    forall command, timeoutMs ensures Ran(m, command, timeoutMs) <==> SomeAsksRun(setup, evidence, command, timeoutMs) {
      if Ran(m, command, timeoutMs) {
        RanOnlyIfAsked(setup, evidence, command, timeoutMs);
      }
      if SomeAsksRun(setup, evidence, command, timeoutMs) {
        var e :| e in evidence && AsksRun(setup, e, command, timeoutMs);
        RanIfAsked(setup, evidence, e, command, timeoutMs);
      }
    }
  }

  lemma ReadIfAsked(setup: Setup, evidence: seq<Evidence>, e: Evidence, path: string)
    requires e in evidence && AsksLedger(setup, e, path)
    ensures WasRead(AskAll(setup, BLANK, evidence), path)
  {
    AskAllKeepsMemo(setup, BLANK, evidence);
    AskAllCovers(setup, BLANK, evidence);
    assert Covered(setup, e, AskAll(setup, BLANK, evidence));
  }

  lemma ReadOnlyIfAsked(setup: Setup, evidence: seq<Evidence>, path: string)
    requires WasRead(AskAll(setup, BLANK, evidence), path)
    ensures SomeAsksLedger(setup, evidence, path)
  {
    OnlyAskedIsLogged(setup, evidence);
  }

  lemma EachLedgerOnce(setup: Setup, evidence: seq<Evidence>)
    ensures ReadsOnce(setup, evidence, AskAll(setup, BLANK, evidence))
  {
    var m := AskAll(setup, BLANK, evidence);
    AskAllKeepsMemo(setup, BLANK, evidence);
    forall path ensures WasRead(m, path) <==> SomeAsksLedger(setup, evidence, path) {
      if WasRead(m, path) {
        ReadOnlyIfAsked(setup, evidence, path);
      }
      if SomeAsksLedger(setup, evidence, path) {
        var e :| e in evidence && AsksLedger(setup, e, path);
        ReadIfAsked(setup, evidence, e, path);
      }
    }
  }

  /** Everything was asked when the first piece of evidence that asks it was looked at. */
  ghost predicate AskedFirst(setup: Setup, evidence: seq<Evidence>, m: Memory) {
    && (forall run :: run in m.runLog ==>
          && run.at < |evidence| && AsksRun(setup, evidence[run.at], run.command, run.timeoutMs)
          && forall k :: 0 <= k < run.at ==> !AsksRun(setup, evidence[k], run.command, run.timeoutMs))
    && (forall read :: read in m.readLog ==>
          && read.at < |evidence| && AsksLedger(setup, evidence[read.at], read.path)
          && forall k :: 0 <= k < read.at ==> !AsksLedger(setup, evidence[k], read.path))
  }

  lemma {:induction false} EachIsAskedFirst(setup: Setup, evidence: seq<Evidence>)
    ensures AskedFirst(setup, evidence, AskAll(setup, BLANK, evidence))
  {
    if evidence != [] {
      var front, last := evidence[..|evidence| - 1], evidence[|evidence| - 1];
      var before, after := AskAll(setup, BLANK, front), AskAll(setup, BLANK, evidence);
      EachIsAskedFirst(setup, front);
      AskAllTakesTime(setup, BLANK, front);
      forall run | run in after.runLog && run !in before.runLog
        ensures run.at == |front| && AsksRun(setup, last, run.command, run.timeoutMs)
        ensures forall e :: e in front ==> !AsksRun(setup, e, run.command, run.timeoutMs)
      {
        AskAllCovers(setup, BLANK, front);
      }
      forall read | read in after.readLog && read !in before.readLog
        ensures read.at == |front| && AsksLedger(setup, last, read.path)
        ensures forall e :: e in front ==> !AsksLedger(setup, e, read.path)
      {
        AskAllCovers(setup, BLANK, front);
      }
      assert forall k :: 0 <= k < |front| ==> evidence[k] == front[k];
    }
  }

  /** The evidence of the manifest, claim after claim, as time counts it. */
  lemma {:induction false} AllEvidenceAt(claims: seq<Claim>, i: nat, j: nat)
    requires i < |claims| && j < |claims[i].evidence|
    ensures |AllEvidence(claims)| == TimeAfter(claims, 0)
    ensures TimeAfter(claims[..i], 0) + j < |AllEvidence(claims)|
    ensures AllEvidence(claims)[TimeAfter(claims[..i], 0) + j] == claims[i].evidence[j]
  {
    var front := claims[..|claims| - 1];
    AllEvidenceLength(claims);
    AllEvidenceLength(front);
    if i < |front| {
      assert claims[..i] == front[..i];
      AllEvidenceAt(front, i, j);
    } else {
      assert claims[..i] == front;
    }
  }

  lemma {:induction false} AllEvidenceLength(claims: seq<Claim>)
    ensures |AllEvidence(claims)| == TimeAfter(claims, 0)
  {
    if claims != [] {
      AllEvidenceLength(claims[..|claims| - 1]);
    }
  }

  /** The oracle of the report is no invention: it gives what the world said when the logged question was put. */
  ghost predicate AnswersAreReal(setup: Setup, m: Memory) {
    && (forall run :: run in m.runLog ==>
          FirstAnswers(setup, m).run(run.command, run.timeoutMs)
            == setup.effects.run(run.at, run.command, run.timeoutMs))
    && (forall read :: read in m.readLog ==>
          FirstAnswers(setup, m).ledger(read.path) == setup.effects.ledger(read.at, read.path))
  }

  lemma {:induction false} MemoIsReal(setup: Setup, evidence: seq<Evidence>)
    ensures AnswersAreReal(setup, AskAll(setup, BLANK, evidence))
  {
    var m := AskAll(setup, BLANK, evidence);
    AskAllKeepsMemo(setup, BLANK, evidence);
    forall run | run in m.runLog
      ensures FirstAnswers(setup, m).run(run.command, run.timeoutMs)
           == setup.effects.run(run.at, run.command, run.timeoutMs)
    {
      assert KeyOf(run) in m.commandCache;
    }
  }

  /** In a world that always answers alike, the first answers are the world's answers. */
  lemma TimelessAgrees(setup: Setup, m: Memory, evidence: Evidence)
    requires Timeless(setup.effects) && RunMemo(setup, m) && ReadMemo(setup, m)
    ensures Agree(setup, evidence, FirstAnswers(setup, m), Frozen(setup))
  {
    forall command, timeoutMs | Key(timeoutMs, command) in m.commandCache
      ensures m.commandCache[Key(timeoutMs, command)] == setup.effects.run(0, command, timeoutMs)
    {
      CachedMeansRan(setup, m, command, timeoutMs);
      var run :| run in m.runLog && run.command == command && run.timeoutMs == timeoutMs;
    }
  }

  lemma {:induction false} TimelessVerdicts(setup: Setup, claims: seq<Claim>)
    requires Timeless(setup.effects)
    ensures ClaimVerdicts(setup, BLANK, claims)
         == AuditClaims(claims, 0, setup.defaultTimeoutMs, setup.files, Frozen(setup))
  {
    var m := AskClaims(setup, BLANK, claims);
    ClaimVerdictsAreCacheFree(setup, BLANK, claims);
    AskClaimsIsAskAll(setup, BLANK, claims);
    AskAllKeepsMemo(setup, BLANK, AllEvidence(claims));
    forall e | e in AllEvidence(claims) ensures Agree(setup, e, FirstAnswers(setup, m), Frozen(setup)) {
      TimelessAgrees(setup, m, e);
    }
    AuditClaimsAgrees(setup, claims, 0, FirstAnswers(setup, m), Frozen(setup));
  }

  /** Some command of the claim's evidence was really run, and exited with the code that was promised. */
  ghost predicate RanAsPromised(setup: Setup, m: Memory, claim: Claim) {
    exists e, run ::
      && e in claim.evidence && e.Command? && run in m.runLog
      && AsksRun(setup, e, run.command, run.timeoutMs)
      && setup.effects.run(run.at, run.command, run.timeoutMs).exitCode
         == (if e.expectedExitCode.Some? then e.expectedExitCode.value else 0)
  }

  lemma {:induction false} EvidenceOfClaim(claims: seq<Claim>, claim: Claim, e: Evidence)
    requires claim in claims && e in claim.evidence
    ensures e in AllEvidence(claims)
  {
    if claim != claims[|claims| - 1] {
      EvidenceOfClaim(claims[..|claims| - 1], claim, e);
    }
  }

  /** The good answer to a question of the manifest is the logged one. */
  lemma GoodCommandRan(setup: Setup, claims: seq<Claim>, m: Memory, claim: Claim)
    requires RunsOnce(setup, AllEvidence(claims), m) && AnswersAreReal(setup, m) && claim in claims
    requires HasGoodCommand(claim, setup.defaultTimeoutMs, FirstAnswers(setup, m))
    ensures RanAsPromised(setup, m, claim)
  {
    var e :| && e in claim.evidence && e.Command?
             && FirstAnswers(setup, m).run(
                  e.command, if e.timeoutMs.Some? then e.timeoutMs.value else setup.defaultTimeoutMs).exitCode
                == (if e.expectedExitCode.Some? then e.expectedExitCode.value else 0);
    var timeoutMs: int := if e.timeoutMs.Some? then e.timeoutMs.value else setup.defaultTimeoutMs;
    EvidenceOfClaim(claims, claim, e);
    assert AsksRun(setup, e, e.command, timeoutMs);
    assert SomeAsksRun(setup, AllEvidence(claims), e.command, timeoutMs);
    assert Ran(m, e.command, timeoutMs);
    var run :| run in m.runLog && run.command == e.command && run.timeoutMs == timeoutMs;
    assert AsksRun(setup, e, run.command, run.timeoutMs);
    assert FirstAnswers(setup, m).run(run.command, run.timeoutMs)
        == setup.effects.run(run.at, run.command, run.timeoutMs);
  }

  /** In a passing report of the audit with caches, every verified claim has a command that was run as promised. */
  lemma {:induction false} VerifiedClaimsReallyRan(setup: Setup, claims: seq<Claim>)
    requires ReportOf(ClaimVerdicts(setup, BLANK, claims)).overallPass
    ensures forall c :: c in claims && c.status.Verified? ==> RanAsPromised(setup, AskClaims(setup, BLANK, claims), c)
  {
    var m := AskClaims(setup, BLANK, claims);
    ClaimVerdictsAreCacheFree(setup, BLANK, claims);
    AskClaimsIsAskAll(setup, BLANK, claims);
    EachCommandOnce(setup, AllEvidence(claims));
    MemoIsReal(setup, AllEvidence(claims));
    forall c | c in claims && c.status.Verified? ensures RanAsPromised(setup, m, c) {
      VerifiedClaimsRan(claims, 0, setup.defaultTimeoutMs, setup.files, FirstAnswers(setup, m), c);
      GoodCommandRan(setup, claims, m, c);
    }
  }

  // ----- The audit itself

  lemma {:induction false} OneMorePiece(setup: Setup, m: Memory, evidence: seq<Evidence>, j: nat)
    requires j < |evidence|
    ensures AskAll(setup, m, evidence[..j + 1]) == Ask(setup, AskAll(setup, m, evidence[..j]), evidence[j])
    ensures Verdicts(setup, m, evidence[..j + 1])
         == Verdicts(setup, m, evidence[..j]) + [Verdict(setup, AskAll(setup, m, evidence[..j]), evidence[j])]
  {
    assert evidence[..j + 1][..j] == evidence[..j];
  }

  lemma OneMoreFailure(found: seq<Failure>, results: seq<EvidenceResult>, result: EvidenceResult)
    ensures found + FailedDetails(results + [result]) == found + FailedDetails(results) + FailureOf(result)
  {
    assert (results + [result])[..|results|] == results;
    Associate(found, FailedDetails(results), FailureOf(result));
  }

  lemma {:induction false} OneMoreClaim(setup: Setup, claims: seq<Claim>, i: nat)
    requires i < |claims|
    ensures AskClaims(setup, BLANK, claims[..i + 1])
         == AskAll(setup, AskClaims(setup, BLANK, claims[..i]), claims[i].evidence)
    ensures ClaimVerdicts(setup, BLANK, claims[..i + 1])
         == ClaimVerdicts(setup, BLANK, claims[..i])
            + [ClaimVerdict(setup, AskClaims(setup, BLANK, claims[..i]), claims[i], IdsOf(claims[..i]))]
  {
    assert claims[..i + 1][..i] == claims[..i];
  }

  lemma OneMoreId(claims: seq<Claim>, i: nat)
    requires i < |claims|
    ensures IdsOf(claims[..i + 1]) == IdsOf(claims[..i]) + {claims[i].id}
  {
    assert claims[..i + 1] == claims[..i] + [claims[i]];
  }

  class Auditor {
    const setup: Setup
    var commandCache: map<string, RunResult>
    var ledgerCache: map<string, Option<Ledger>>
    var clock: nat
    ghost var runLog: seq<Run>
    ghost var readLog: seq<Read>

    ghost function State(): Memory
      reads this
    {
      Memory(commandCache, ledgerCache, clock, runLog, readLog)
    }

    constructor (setup: Setup)
      ensures this.setup == setup && State() == BLANK
    {
      this.setup := setup;
      commandCache, ledgerCache, clock, runLog, readLog := map[], map[], 0, [], [];
    }

    method RunCommand(command: string, timeoutMs: int) returns (result: RunResult)
      modifies this
      ensures State() == AskRun(setup, old(State()), command, timeoutMs)
      ensures result == FirstAnswers(setup, State()).run(command, timeoutMs)
    {
      var key := Key(timeoutMs, command);
      if key in commandCache {
        result := commandCache[key];
      } else {
        result := setup.effects.run(clock, command, timeoutMs);
        commandCache := commandCache[key := result];
        runLog := runLog + [Run(command, timeoutMs, clock)];
      }
    }

    /** A ledger that could not be read is remembered as absent, and is not read again. */
    method ReadRewardLedger(path: string) returns (ledger: Option<Ledger>)
      modifies this
      ensures State() == AskLedger(setup, old(State()), path)
      ensures ledger == FirstAnswers(setup, State()).ledger(path)
    {
      if path in ledgerCache {
        ledger := ledgerCache[path];
      } else {
        ledger := setup.effects.ledger(clock, path);
        ledgerCache := ledgerCache[path := ledger];
        readLog := readLog + [Read(path, clock)];
      }
    }

    method AuditEvidence(evidence: Evidence) returns (result: EvidenceResult)
      modifies this
      ensures State() == Ask(setup, old(State()), evidence)
      ensures result == Verdict(setup, old(State()), evidence)
    {
      if evidence.Command? {
        var runResult := RunCommand(evidence.command, TimeoutOf(evidence, setup.defaultTimeoutMs));
        result := CommandVerdict(evidence, runResult);
      } else if evidence.Artifact? {
        result := ArtifactVerdict(evidence, clock, setup.files);
      } else if evidence.TestPath? {
        result := TestPathVerdict(evidence, clock, setup.files);
      } else {
        var ledger := ReadRewardLedger(setup.files.resolve(evidence.path));
        result := if evidence.RewardStage? then StageVerdict(evidence, setup.files, ledger)
                  else CheckpointVerdict(evidence, setup.files, ledger);
      }
      clock := clock + 1;
    }

    method ValidateClaimContract(claim: Claim) returns (issues: seq<Issue>)
      ensures issues == ContractIssues(claim) && AreIssues(issues, claim)
      ensures issues == [] <==> MeetsContract(claim)
    {
      issues := [];
      var hasCommandEvidence := HasCommand(claim.evidence);
      var duplicateIds := RepeatedIds(CommandIds(claim.evidence));
      if duplicateIds != [] {
        issues := issues + [DuplicateCommandIds(duplicateIds)];
      }
      if claim.status.Verified? && !claim.level.RuntimePath? {
        issues := issues + [VerifiedNeedsRuntimePath];
      }
      if claim.status.PartiallyVerified? && !claim.level.BoundaryOnly? {
        issues := issues + [PartiallyVerifiedNeedsBoundaryOnly];
      }
      if claim.status.Unverified? && !claim.level.NoLevel? {
        issues := issues + [UnverifiedNeedsNoLevel];
      }
      if claim.status.Unverified? && claim.evidence != [] {
        issues := issues + [UnverifiedHasEvidence];
      }
      if !claim.status.Unverified? && claim.evidence == [] {
        issues := issues + [NoEvidence];
      }
      if claim.status.Verified? && !hasCommandEvidence {
        issues := issues + [VerifiedNeedsCommand];
      }
      ContractIssuesSound(claim);
      IssuesAre(claim);
    }

    /** The evidence loop of one claim, which adds to the failures found so far. */
    method AuditEvidenceOf(claim: Claim, found: seq<Failure>)
      returns (results: seq<EvidenceResult>, failures: seq<Failure>)
      modifies this
      ensures State() == AskAll(setup, old(State()), claim.evidence)
      ensures results == Verdicts(setup, old(State()), claim.evidence)
      ensures failures == found + FailedDetails(results)
    {
      results, failures := [], found;
      ghost var start := State();
      for j := 0 to |claim.evidence|
        invariant State() == AskAll(setup, start, claim.evidence[..j])
        invariant results == Verdicts(setup, start, claim.evidence[..j])
        invariant failures == found + FailedDetails(results)
      {
        OneMorePiece(setup, start, claim.evidence, j);
        var evidenceResult := AuditEvidence(claim.evidence[j]);
        OneMoreFailure(found, results, evidenceResult);
        results := results + [evidenceResult];
        failures := failures + FailureOf(evidenceResult);
      }
      assert claim.evidence[..|claim.evidence|] == claim.evidence;
    }

    /** One turn of the claim loop. */
    method AuditClaim(claim: Claim, seenIds: set<string>) returns (result: ClaimResult)
      modifies this
      ensures State() == AskAll(setup, old(State()), claim.evidence)
      ensures result == ClaimVerdict(setup, old(State()), claim, seenIds)
    {
      var failures := if claim.id in seenIds then [DuplicateClaimId(claim.id)] else [];
      var issues := ValidateClaimContract(claim);
      failures := failures + IssueFailures(issues);
      var evidenceResults;
      evidenceResults, failures := AuditEvidenceOf(claim, failures);
      result := ClaimResult(claim.id, claim.status, claim.level, failures == [], failures, evidenceResults);
    }

    /**
     The whole audit.  The report is the one the cache-free audit gives for the first answer to each question; every
     question of the manifest is put to the world once and no other is; and in a world that always answers alike the
     report is simply the cache-free report.
     */
    method AuditManifest(claims: seq<Claim>) returns (report: Report)
      requires State() == BLANK
      modifies this
      ensures report == ReportOf(AuditClaims(claims, 0, setup.defaultTimeoutMs, setup.files,
                                             FirstAnswers(setup, State())))
      ensures RunsOnce(setup, AllEvidence(claims), State()) && ReadsOnce(setup, AllEvidence(claims), State())
      ensures AskedFirst(setup, AllEvidence(claims), State()) && AnswersAreReal(setup, State())
      ensures ReportsEveryClaim(report.claims, claims, setup.defaultTimeoutMs, setup.files,
                                FirstAnswers(setup, State()))
      ensures Totals(report, claims, setup.defaultTimeoutMs, setup.files, FirstAnswers(setup, State()))
      ensures report.overallPass
         <==> IdsDistinct(claims)
              && AllHold(claims, 0, setup.defaultTimeoutMs, setup.files, FirstAnswers(setup, State()))
      ensures report.overallPass ==> forall c :: c in claims && c.status.Verified? ==> RanAsPromised(setup, State(), c)
      ensures Timeless(setup.effects) ==>
                report == ReportOf(AuditClaims(claims, 0, setup.defaultTimeoutMs, setup.files, Frozen(setup)))
    {
      var seenClaimIds := {};
      var claimResults := [];
      for i := 0 to |claims|
        invariant State() == AskClaims(setup, BLANK, claims[..i])
        invariant seenClaimIds == IdsOf(claims[..i])
        invariant claimResults == ClaimVerdicts(setup, BLANK, claims[..i])
      {
        OneMoreClaim(setup, claims, i);
        OneMoreId(claims, i);
        var result := this.AuditClaim(claims[i], seenClaimIds);
        seenClaimIds := seenClaimIds + {claims[i].id};
        claimResults := claimResults + [result];
      }
      assert claims[..|claims|] == claims;
      report := ReportOf(claimResults);
      ClaimVerdictsAreCacheFree(setup, BLANK, claims);
      AskClaimsIsAskAll(setup, BLANK, claims);
      EachCommandOnce(setup, AllEvidence(claims));
      EachLedgerOnce(setup, AllEvidence(claims));
      EachIsAskedFirst(setup, AllEvidence(claims));
      MemoIsReal(setup, AllEvidence(claims));
      EveryClaimIsReported(claims, setup.defaultTimeoutMs, setup.files, FirstAnswers(setup, State()));
      TotalsAreCounted(claims, setup.defaultTimeoutMs, setup.files, FirstAnswers(setup, State()));
      OverallPassSound(claims, 0, setup.defaultTimeoutMs, setup.files, FirstAnswers(setup, State()));
      if report.overallPass {
        VerifiedClaimsReallyRan(setup, claims);
      }
      if Timeless(setup.effects) {
        TimelessVerdicts(setup, claims);
      }
    }
  }
}
