/** What the diagnostics of an inventory and the evidence say, told by the scenarios and not by how they are scanned. */
module InventoryReport {
  import opened Options
  import opened Seqs
  import opened ScenarioInventory

  // ----- One scenario

  /** The first words of the user. */
  ghost predicate OpensAt(transcript: seq<Turn>, k: int) {
    && 0 <= k < |transcript| && transcript[k].speaker == User
    && forall j :: 0 <= j < k ==> transcript[j].speaker == Assistant
  }

  ghost predicate IsProblem(problem: Problem, prose: Prose, s: Scenario) {
    match problem
    case NoExpectedBehavior(id) => id == s.id && s.expectedBehavior == []
    case EmptyTranscript(id) => id == s.id && s.transcript == []
    case NoUserTurn(id) => id == s.id && s.transcript != [] && forall t :: t in s.transcript ==> t.speaker == Assistant
    case SentenceCount(id) =>
      && id == s.id
      && exists k :: OpensAt(s.transcript, k) && !(2 <= prose.countSentences(s.transcript[k].text) <= 4)
    case CommandPrompt(id) =>
      && id == s.id
      && exists k :: OpensAt(s.transcript, k)
                     && (prose.isSlashCommand(s.transcript[k].text) || prose.isPseudoCommand(s.transcript[k].text))
    case _ => false
  }

  /** The place of a problem among those of one scenario. */
  function Place(problem: Problem): nat {
    match problem
    case NoExpectedBehavior(_) => 0
    case EmptyTranscript(_) => 1
    case NoUserTurn(_) => 2
    case SentenceCount(_) => 3
    case CommandPrompt(_) => 4
    case _ => 5
  }

  /** The problems are those that the scenario has, each once, in their order. */
  ghost predicate AreProblems(problems: seq<Problem>, prose: Prose, s: Scenario) {
    && (forall p :: p in problems <==> IsProblem(p, prose, s))
    && (forall i, j :: 0 <= i < j < |problems| ==> Place(problems[i]) < Place(problems[j]))
  }

  ghost predicate IsShort(s: Scenario) {
    exists k :: OpensAt(s.transcript, k) && |s.transcript[k].text| < 40
  }

  lemma {:induction false} UserTurnsMeaning(transcript: seq<Turn>)
    ensures UserTurns(transcript) == [] <==> forall t :: t in transcript ==> t.speaker == Assistant
    ensures UserTurns(transcript) != [] ==>
              exists k :: OpensAt(transcript, k) && transcript[k] == UserTurns(transcript)[0]
  {
    if transcript != [] {
      var rest := transcript[1..];
      UserTurnsMeaning(rest);
      assert transcript == [transcript[0]] + rest;
      if transcript[0].speaker == User {
        assert OpensAt(transcript, 0);
      } else if UserTurns(rest) != [] {
        var k :| OpensAt(rest, k) && rest[k] == UserTurns(rest)[0];
        assert forall j :: 0 < j < |transcript| ==> transcript[j] == rest[j - 1];
        assert OpensAt(transcript, k + 1);
      }
    }
  }

  lemma OpeningIsOne(transcript: seq<Turn>, k: int, m: int)
    requires OpensAt(transcript, k) && OpensAt(transcript, m)
    ensures k == m
  {
  }

  /** The scenario opens with the text of its first user turn. */
  lemma OpeningMeaning(transcript: seq<Turn>, k: int)
    requires OpensAt(transcript, k)
    ensures UserTurns(transcript) != [] && UserTurns(transcript)[0] == transcript[k]
  {
    UserTurnsMeaning(transcript);
    assert transcript[k] in transcript;
    var m :| OpensAt(transcript, m) && transcript[m] == UserTurns(transcript)[0];
    OpeningIsOne(transcript, k, m);
  }

  lemma OpeningProblemsAre(prose: Prose, s: Scenario, k: int)
    requires OpensAt(s.transcript, k)
    ensures forall p :: p in OpeningProblems(prose, s.id, s.transcript[k].text)
                   <==> (p.SentenceCount? || p.CommandPrompt?) && IsProblem(p, prose, s)
  {
    forall m | OpensAt(s.transcript, m) ensures m == k {
      OpeningIsOne(s.transcript, k, m);
    }
  }

  lemma NeverOpens(transcript: seq<Turn>, k: int)
    requires forall t :: t in transcript ==> t.speaker == Assistant
    ensures !OpensAt(transcript, k)
  {
    assert 0 <= k < |transcript| ==> transcript[k] in transcript;
  }

  ghost predicate InPlace(problems: seq<Problem>) {
    forall i, j :: 0 <= i < j < |problems| ==> Place(problems[i]) < Place(problems[j])
  }

  /** What is found in the transcript. */
  lemma TranscriptProblemsAre(prose: Prose, s: Scenario, found: seq<Problem>)
    requires s.transcript == [] ==> found == [EmptyTranscript(s.id)]
    requires s.transcript != [] && UserTurns(s.transcript) == [] ==> found == [NoUserTurn(s.id)]
    requires UserTurns(s.transcript) != [] ==> found == OpeningProblems(prose, s.id, UserTurns(s.transcript)[0].text)
    ensures forall p :: p in found <==> !p.NoExpectedBehavior? && IsProblem(p, prose, s)
    ensures InPlace(found)
  {
    UserTurnsMeaning(s.transcript);
    if UserTurns(s.transcript) != [] {
      var k :| OpensAt(s.transcript, k) && s.transcript[k] == UserTurns(s.transcript)[0];
      OpeningProblemsAre(prose, s, k);
      assert s.transcript[k] in s.transcript;
    } else {
      forall k ensures !OpensAt(s.transcript, k) {
        NeverOpens(s.transcript, k);
      }
    }
  }

  lemma PutFirst(condition: bool, first: Problem, found: seq<Problem>)
    requires InPlace(found) && forall p :: p in found ==> Place(first) < Place(p)
    ensures InPlace(When(condition, first) + found)
    ensures forall p :: p in When(condition, first) + found <==> (condition && p == first) || p in found
  {
    var all := When(condition, first) + found;
    forall i, j | 0 <= i < j < |all| ensures Place(all[i]) < Place(all[j]) {
      if condition && i == 0 {
        assert all[j] == found[j - 1];
      }
    }
  }

  lemma {:induction false} ProblemsAre(prose: Prose, s: Scenario)
    ensures AreProblems(ScenarioProblems(prose, s), prose, s)
  {
    var found := if s.transcript == [] then [EmptyTranscript(s.id)]
                 else if UserTurns(s.transcript) == [] then [NoUserTurn(s.id)]
                 else OpeningProblems(prose, s.id, UserTurns(s.transcript)[0].text);
    TranscriptProblemsAre(prose, s, found);
    forall p | p in found ensures Place(p) > 0 {
      assert IsProblem(p, prose, s);
    }
    PutFirst(s.expectedBehavior == [], NoExpectedBehavior(s.id), found);
    ProblemsSplit(prose, s, found);
  }

  lemma ProblemsSplit(prose: Prose, s: Scenario, found: seq<Problem>)
    requires forall p :: p in found <==> !p.NoExpectedBehavior? && IsProblem(p, prose, s)
    requires forall p :: p in ScenarioProblems(prose, s)
                    <==> (s.expectedBehavior == [] && p == NoExpectedBehavior(s.id)) || p in found
    requires InPlace(ScenarioProblems(prose, s))
    ensures AreProblems(ScenarioProblems(prose, s), prose, s)
  {
  }

  lemma WarningsAre(s: Scenario)
    ensures ScenarioWarnings(s) == if IsShort(s) then [ShortOpening(s.id)] else []
  {
    UserTurnsMeaning(s.transcript);
    if k :| OpensAt(s.transcript, k) {
      OpeningMeaning(s.transcript, k);
      forall m | OpensAt(s.transcript, m) ensures m == k {
        OpeningIsOne(s.transcript, k, m);
      }
    }
  }

  // ----- All scenarios

  /** No scenario before it has its id. */
  ghost predicate IsFirst(scenarios: seq<Scenario>, i: int) {
    0 <= i < |scenarios| && forall j :: 0 <= j < i ==> scenarios[j].id != scenarios[i].id
  }

  /** A scenario that repeats an id is reported for that and not looked at any further. */
  ghost predicate ReportsScenario(problems: seq<Problem>, prose: Prose, scenarios: seq<Scenario>, i: nat)
    requires i < |scenarios|
  {
    if IsFirst(scenarios, i) then AreProblems(problems, prose, scenarios[i])
    else problems == [DuplicateId(scenarios[i].id)]
  }

  ghost predicate ReportsScenarios(problems: seq<seq<Problem>>, prose: Prose, scenarios: seq<Scenario>) {
    |problems| == |scenarios| && forall i :: 0 <= i < |scenarios| ==> ReportsScenario(problems[i], prose, scenarios, i)
  }

  ghost predicate WarnsOf(warnings: seq<seq<Warning>>, scenarios: seq<Scenario>) {
    && |warnings| == |scenarios|
    && forall i :: 0 <= i < |scenarios| ==>
         warnings[i] == if IsFirst(scenarios, i) && IsShort(scenarios[i]) then [ShortOpening(scenarios[i].id)] else []
  }

  lemma IsFirstMeaning(front: seq<Scenario>, last: Scenario)
    ensures IsFirst(front + [last], |front|) <==> last.id !in Ids(front)
    ensures forall i :: i < |front| ==> (IsFirst(front + [last], i) <==> IsFirst(front, i))
  {
    forall j | 0 <= j < |front| ensures front[j].id in Ids(front) {
      assert front[j] in front;
    }
    var scenarios := front + [last];
    assert forall j :: 0 <= j < |front| ==> scenarios[j] == front[j];
  }

  lemma FlattenMore<T>(parts: seq<seq<T>>, found: seq<T>)
    ensures Flatten(parts + [found]) == Flatten(parts) + found
  {
    assert (parts + [found])[..|parts|] == parts;
  }

  /** What one more scenario adds to the errors and the warnings. */
  lemma ScanAdds(prose: Prose, scan: Scan, s: Scenario)
    ensures ScanOne(prose, scan, s).errors
         == scan.errors + if s.id in scan.seenIds then [DuplicateId(s.id)] else ScenarioProblems(prose, s)
    ensures ScanOne(prose, scan, s).warnings
         == scan.warnings + if s.id in scan.seenIds then [] else ScenarioWarnings(s)
  {
  }

  /** What the scan collects for the last of the scenarios. */
  ghost function LastProblems(prose: Prose, front: seq<Scenario>, last: Scenario): seq<Problem> {
    if last.id in Ids(front) then [DuplicateId(last.id)] else ScenarioProblems(prose, last)
  }

  ghost function LastWarnings(front: seq<Scenario>, last: Scenario): seq<Warning> {
    if last.id in Ids(front) then [] else ScenarioWarnings(last)
  }

  ghost function CollectedProblems(prose: Prose, scenarios: seq<Scenario>): seq<seq<Problem>> {
    if scenarios == [] then []
    else
      var front := scenarios[..|scenarios| - 1];
      CollectedProblems(prose, front) + [LastProblems(prose, front, scenarios[|scenarios| - 1])]
  }

  ghost function CollectedWarnings(scenarios: seq<Scenario>): seq<seq<Warning>> {
    if scenarios == [] then []
    else
      var front := scenarios[..|scenarios| - 1];
      CollectedWarnings(front) + [LastWarnings(front, scenarios[|scenarios| - 1])]
  }

  lemma {:induction false} ScanCollects(prose: Prose, start: Scan, scenarios: seq<Scenario>)
    requires start.warnings == [] && start.seenIds == {}
    ensures ScanAll(prose, start, scenarios).errors == start.errors + Flatten(CollectedProblems(prose, scenarios))
    ensures ScanAll(prose, start, scenarios).warnings == Flatten(CollectedWarnings(scenarios))
  {
    if scenarios != [] {
      var front, last := scenarios[..|scenarios| - 1], scenarios[|scenarios| - 1];
      ScanCollects(prose, start, front);
      SeesIds(prose, start, front);
      ScanAdds(prose, ScanAll(prose, start, front), last);
      FlattenMore(CollectedProblems(prose, front), LastProblems(prose, front, last));
      FlattenMore(CollectedWarnings(front), LastWarnings(front, last));
      Associate(start.errors, Flatten(CollectedProblems(prose, front)), LastProblems(prose, front, last));
    }
  }

  lemma {:induction false} CollectedLengths(prose: Prose, scenarios: seq<Scenario>)
    ensures |CollectedProblems(prose, scenarios)| == |CollectedWarnings(scenarios)| == |scenarios|
  {
    if scenarios != [] {
      CollectedLengths(prose, scenarios[..|scenarios| - 1]);
    }
  }

  lemma {:induction false} CollectedAt(prose: Prose, scenarios: seq<Scenario>, i: nat)
    requires i < |scenarios| == |CollectedProblems(prose, scenarios)| == |CollectedWarnings(scenarios)|
    ensures CollectedProblems(prose, scenarios)[i] == LastProblems(prose, scenarios[..i], scenarios[i])
    ensures CollectedWarnings(scenarios)[i] == LastWarnings(scenarios[..i], scenarios[i])
  {
    var front := scenarios[..|scenarios| - 1];
    assert scenarios[..i] == front[..i];
    if i < |front| {
      CollectedAt(prose, front, i);
    } else {
      assert front[..i] == front;
    }
  }

  lemma FirstIsNew(scenarios: seq<Scenario>, i: nat)
    requires i < |scenarios|
    ensures IsFirst(scenarios, i) <==> scenarios[i].id !in Ids(scenarios[..i])
  {
    forall j | 0 <= j < i ensures scenarios[j].id in Ids(scenarios[..i]) {
      assert scenarios[..i][j] == scenarios[j];
    }
  }

  lemma {:induction false} CollectedReport(prose: Prose, scenarios: seq<Scenario>)
    ensures ReportsScenarios(CollectedProblems(prose, scenarios), prose, scenarios)
    ensures WarnsOf(CollectedWarnings(scenarios), scenarios)
  {
    CollectedLengths(prose, scenarios);
    forall i | 0 <= i < |scenarios|
      ensures ReportsScenario(CollectedProblems(prose, scenarios)[i], prose, scenarios, i)
      ensures CollectedWarnings(scenarios)[i]
           == if IsFirst(scenarios, i) && IsShort(scenarios[i]) then [ShortOpening(scenarios[i].id)] else []
    {
      CollectedAt(prose, scenarios, i);
      FirstIsNew(scenarios, i);
      ProblemsAre(prose, scenarios[i]);
      WarningsAre(scenarios[i]);
    }
  }

  // ----- Coverage

  /** Some scenario that counts has the category and the polarity. */
  ghost predicate HasCase(scenarios: seq<Scenario>, category: Category, polarity: Polarity) {
    exists i :: IsFirst(scenarios, i) && scenarios[i].category == category && scenarios[i].polarity == polarity
  }

  /** The place of a category in the source's order. */
  function Rank(category: Category): nat {
    match category
    case NaturalAutonomousStart => 0
    case DirectAutonomousMode => 1
    case WorkspaceContinuity => 2
    case ExactHolderRecovery => 3
    case AmbiguousHolderClarification => 4
    case ObservabilityCleanExit => 5
    case RestartSafeResources => 6
    case UserReturnHandoff => 7
    case ToolChoiceQuality => 8
    case IntentEngineBoundary => 9
  }

  ghost predicate AscendBy(rank: Category -> nat, categories: seq<Category>) {
    forall a, b :: 0 <= a < b < |categories| ==> rank(categories[a]) < rank(categories[b])
  }

  /** A problem for each category that lacks a positive or a negative case, in order. */
  ghost predicate ReportsMissing(problems: seq<Problem>, scenarios: seq<Scenario>) {
    && (forall p :: p in problems ==> p.MissingPolarity?)
    && (forall c: Category ::
          MissingPolarity(c) in problems <==> !(HasCase(scenarios, c, Positive) && HasCase(scenarios, c, Negative)))
    && MissingInOrder(problems)
  }

  function CaseOf(c: Category, p: Polarity): Scenario -> bool {
    (s: Scenario) => s.category == c && s.polarity == p
  }

  lemma CoverageMore(prose: Prose, scan: Scan, s: Scenario, c: Category, p: Polarity)
    ensures p in At(ScanOne(prose, scan, s).coverage, c, {})
       <==> p in At(scan.coverage, c, {}) || (s.id !in scan.seenIds && CaseOf(c, p)(s))
  {
  }

  lemma {:induction false} CoverageIsKept(prose: Prose, start: Scan, scenarios: seq<Scenario>, c: Category, p: Polarity)
    requires start.coverage == map[] && start.seenIds == {}
    ensures p in At(ScanAll(prose, start, scenarios).coverage, c, {}) <==> Count(Kept(scenarios), CaseOf(c, p)) > 0
  {
    if scenarios != [] {
      var front, last := scenarios[..|scenarios| - 1], scenarios[|scenarios| - 1];
      CoverageIsKept(prose, start, front, c, p);
      SeesIds(prose, start, front);
      CoverageMore(prose, ScanAll(prose, start, front), last, c, p);
      CountAppend(Kept(front), last, CaseOf(c, p));
    }
  }

  lemma CoverageMeaning(prose: Prose, start: Scan, scenarios: seq<Scenario>, c: Category, p: Polarity)
    requires start.coverage == map[] && start.seenIds == {}
    ensures p in At(ScanAll(prose, start, scenarios).coverage, c, {}) <==> HasCase(scenarios, c, p)
  {
    CoverageIsKept(prose, start, scenarios, c, p);
    KeptAreFirst(scenarios, CaseOf(c, p));
    var cases := FirstOnes(scenarios, CaseOf(c, p));
    if HasCase(scenarios, c, p) {
      var i :| IsFirst(scenarios, i) && scenarios[i].category == c && scenarios[i].polarity == p;
      assert i in cases;
    } else {
      assert forall i :: i !in cases;
    }
  }

  lemma {:induction false} MissingOf(coverage: map<Category, set<Polarity>>, categories: seq<Category>)
    requires NoDuplicates(categories)
    ensures var problems := CoverageProblems(coverage, categories);
            && (forall p :: p in problems ==> p.MissingPolarity? && p.category in categories)
            && (forall c :: c in categories ==>
                  (MissingPolarity(c) in problems <==>
                     !(Positive in At(coverage, c, {}) && Negative in At(coverage, c, {}))))
  {
    if categories != [] {
      var front, last := categories[..|categories| - 1], categories[|categories| - 1];
      assert categories == front + [last] && last !in front;
      MissingOf(coverage, front);
    }
  }

  ghost predicate MissingInOrder(problems: seq<Problem>) {
    forall a, b :: 0 <= a < b < |problems| && problems[a].MissingPolarity? && problems[b].MissingPolarity? ==>
      Rank(problems[a].category) < Rank(problems[b].category)
  }

  lemma RankBelowLast(front: seq<Category>, last: Category)
    requires AscendBy(Rank, front + [last])
    ensures AscendBy(Rank, front) && forall c :: c in front ==> Rank(c) < Rank(last)
  {
    var categories := front + [last];
    forall a | 0 <= a < |front| ensures categories[a] == front[a] && Rank(categories[a]) < Rank(categories[|front|]) {}
  }

  lemma {:induction false} MissingAscend(coverage: map<Category, set<Polarity>>, categories: seq<Category>)
    requires AscendBy(Rank, categories)
    ensures forall p :: p in CoverageProblems(coverage, categories) ==> p.MissingPolarity? && p.category in categories
    ensures MissingInOrder(CoverageProblems(coverage, categories))
  {
    if categories != [] {
      var front, last := categories[..|categories| - 1], categories[|categories| - 1];
      assert categories == front + [last];
      RankBelowLast(front, last);
      MissingAscend(coverage, front);
      LastMissingInOrder(CoverageProblems(coverage, front), front, last);
    }
  }

  lemma LastMissingInOrder(problems: seq<Problem>, front: seq<Category>, last: Category)
    requires MissingInOrder(problems) && forall p :: p in problems ==> p.MissingPolarity? && p.category in front
    requires forall c :: c in front ==> Rank(c) < Rank(last)
    ensures MissingInOrder(problems + [MissingPolarity(last)])
  {
    forall a | 0 <= a < |problems| ensures problems[a] in problems {}
  }

  lemma OrderAscends()
    ensures AscendBy(Rank, CATEGORY_ORDER)
  {
    forall a | 0 <= a < |CATEGORY_ORDER| ensures Rank(CATEGORY_ORDER[a]) == a {
      RankInOrder(a);
    }
  }

  lemma RankInOrder(a: nat)
    requires a < |CATEGORY_ORDER|
    ensures Rank(CATEGORY_ORDER[a]) == a
  {
    OrderIsComplete();
    assert CATEGORY_ORDER[Rank(CATEGORY_ORDER[a])] == CATEGORY_ORDER[a];
  }

  lemma {:induction false} MissingIsReported(prose: Prose, inventory: Inventory)
    ensures ReportsMissing(CoverageProblems(ScanAll(prose, Start(inventory), inventory.scenarios).coverage,
                                            CATEGORY_ORDER), inventory.scenarios)
  {
    var coverage := ScanAll(prose, Start(inventory), inventory.scenarios).coverage;
    OrderIsComplete();
    OrderAscends();
    MissingOf(coverage, CATEGORY_ORDER);
    MissingAscend(coverage, CATEGORY_ORDER);
    forall c: Category, p: Polarity ensures p in At(coverage, c, {}) <==> HasCase(inventory.scenarios, c, p) {
      CoverageMeaning(prose, Start(inventory), inventory.scenarios, c, p);
    }
  }

  // ----- The diagnostics

  /** First the version, then the scenarios, then the categories. */
  ghost predicate ReportsErrors(errors: seq<Problem>, prose: Prose, inventory: Inventory) {
    exists problems: seq<seq<Problem>>, missing: seq<Problem> ::
      && ReportsScenarios(problems, prose, inventory.scenarios) && ReportsMissing(missing, inventory.scenarios)
      && errors == (if inventory.schemaVersion == 1 then [] else [WrongSchemaVersion]) + Flatten(problems) + missing
  }

  ghost predicate ReportsWarnings(warnings: seq<Warning>, inventory: Inventory) {
    exists parts :: WarnsOf(parts, inventory.scenarios) && warnings == Flatten(parts)
  }

  lemma {:induction false} ErrorsAreReported(prose: Prose, inventory: Inventory)
    ensures ReportsErrors(DiagnosticsOf(prose, inventory).errors, prose, inventory)
    ensures ReportsWarnings(DiagnosticsOf(prose, inventory).warnings, inventory)
  {
    ScanCollects(prose, Start(inventory), inventory.scenarios);
    CollectedReport(prose, inventory.scenarios);
    MissingIsReported(prose, inventory);
  }

  // ----- The counts

  ghost function FirstOnes(scenarios: seq<Scenario>, p: Scenario -> bool): set<int> {
    set i | 0 <= i < |scenarios| && IsFirst(scenarios, i) && p(scenarios[i])
  }

  /** The turns of the scenarios that count. */
  ghost function TurnsOf(scenarios: seq<Scenario>, n: nat): nat
    requires n <= |scenarios|
  {
    if n == 0 then 0
    else TurnsOf(scenarios, n - 1) + if IsFirst(scenarios, n - 1) then |scenarios[n - 1].transcript| else 0
  }

  lemma FirstOnesMore(front: seq<Scenario>, last: Scenario, p: Scenario -> bool)
    ensures |FirstOnes(front + [last], p)|
         == |FirstOnes(front, p)| + if last.id !in Ids(front) && p(last) then 1 else 0
  {
    var before, after, n := FirstOnes(front, p), FirstOnes(front + [last], p), |front|;
    FirstOnesBelow(front, last, p);
    if n in after {
      assert after == before + {n};
    } else {
      assert after == before;
    }
  }

  lemma FirstOnesBelow(front: seq<Scenario>, last: Scenario, p: Scenario -> bool)
    ensures forall i :: i != |front| ==> (i in FirstOnes(front + [last], p) <==> i in FirstOnes(front, p))
    ensures |front| !in FirstOnes(front, p)
    ensures |front| in FirstOnes(front + [last], p) <==> last.id !in Ids(front) && p(last)
  {
    IsFirstMeaning(front, last);
    var scenarios := front + [last];
    assert forall i :: 0 <= i < |front| ==> scenarios[i] == front[i];
  }

  lemma {:induction false} KeptAreFirst(scenarios: seq<Scenario>, p: Scenario -> bool)
    ensures Count(Kept(scenarios), p) == |FirstOnes(scenarios, p)|
  {
    if scenarios == [] {
      assert FirstOnes(scenarios, p) == {};
    } else {
      var front, last := scenarios[..|scenarios| - 1], scenarios[|scenarios| - 1];
      KeptAreFirst(front, p);
      assert scenarios == front + [last];
      FirstOnesMore(front, last, p);
      if last.id !in Ids(front) {
        CountAppend(Kept(front), last, p);
      }
    }
  }

  lemma {:induction false} TurnsBefore(front: seq<Scenario>, last: Scenario, n: nat)
    requires n <= |front|
    ensures TurnsOf(front + [last], n) == TurnsOf(front, n)
  {
    if n > 0 {
      TurnsBefore(front, last, n - 1);
      IsFirstMeaning(front, last);
    }
  }

  lemma TurnsMore(front: seq<Scenario>, last: Scenario)
    ensures TurnsOf(front + [last], |front| + 1)
         == TurnsOf(front, |front|) + if last.id !in Ids(front) then |last.transcript| else 0
  {
    IsFirstMeaning(front, last);
    TurnsBefore(front, last, |front|);
  }

  lemma {:induction false} TurnsAreCounted(prose: Prose, start: Scan, scenarios: seq<Scenario>)
    requires start.turnCount == 0 && start.seenIds == {}
    ensures ScanAll(prose, start, scenarios).turnCount == TurnsOf(scenarios, |scenarios|)
  {
    if scenarios != [] {
      var front, last := scenarios[..|scenarios| - 1], scenarios[|scenarios| - 1];
      TurnsAreCounted(prose, start, front);
      SeesIds(prose, start, front);
      TurnsMore(front, last);
      assert scenarios == front + [last];
    }
  }

  /** Counted are the scenarios whose id is new; all of them count for the number of scenarios. */
  lemma {:induction false} SummaryIsCounted(prose: Prose, inventory: Inventory)
    ensures var d, scenarios := DiagnosticsOf(prose, inventory), inventory.scenarios;
            && d.scenarioCount == |scenarios|
            && d.transcriptTurnCount == TurnsOf(scenarios, |scenarios|)
            && (forall c: Category ::
                  c in d.categoryCounts && d.categoryCounts[c] == |FirstOnes(scenarios, InCategory(c))|)
            && (forall p: Polarity ::
                  p in d.polarityCounts && d.polarityCounts[p] == |FirstOnes(scenarios, OfPolarity(p))|)
  {
    var scenarios := inventory.scenarios;
    TurnsAreCounted(prose, Start(inventory), scenarios);
    ScanCounts(prose, inventory, scenarios);
    forall c: Category ensures Count(Kept(scenarios), InCategory(c)) == |FirstOnes(scenarios, InCategory(c))| {
      KeptAreFirst(scenarios, InCategory(c));
    }
    forall p: Polarity ensures Count(Kept(scenarios), OfPolarity(p)) == |FirstOnes(scenarios, OfPolarity(p))| {
      KeptAreFirst(scenarios, OfPolarity(p));
    }
  }

  // ----- The evidence

  /** The place of a category among the names in alphabetical order. */
  function NameRank(category: Category): nat {
    match category
    case AmbiguousHolderClarification => 0
    case DirectAutonomousMode => 1
    case ExactHolderRecovery => 2
    case IntentEngineBoundary => 3
    case NaturalAutonomousStart => 4
    case ObservabilityCleanExit => 5
    case RestartSafeResources => 6
    case ToolChoiceQuality => 7
    case UserReturnHandoff => 8
    case WorkspaceContinuity => 9
  }

  /** The categories that occur, by name. */
  ghost predicate AreCategories(categories: seq<Category>, scenarios: seq<Scenario>) {
    && (forall c: Category :: c in categories <==> exists s :: s in scenarios && s.category == c)
    && AscendBy(NameRank, categories)
  }

  /** The first scenario of the inventory with this category and polarity. */
  ghost predicate IsFirstCase(s: Scenario, scenarios: seq<Scenario>, category: Category, polarity: Polarity) {
    && s.category == category && s.polarity == polarity
    && exists i :: 0 <= i < |scenarios| && scenarios[i] == s
                   && forall j :: 0 <= j < i ==> scenarios[j].category != category || scenarios[j].polarity != polarity
  }

  ghost predicate Lacks(scenarios: seq<Scenario>, category: Category, polarity: Polarity) {
    forall s :: s in scenarios ==> s.category != category || s.polarity != polarity
  }

  ghost predicate LacksOne(scenarios: seq<Scenario>, category: Category) {
    Lacks(scenarios, category, Positive) || Lacks(scenarios, category, Negative)
  }

  ghost predicate OpensLong(s: Scenario) {
    exists k :: OpensAt(s.transcript, k) && |s.transcript[k].text| >= 40
  }

  ghost predicate ArePairings(pairings: seq<Pairing>, scenarios: seq<Scenario>, categories: seq<Category>) {
    && |pairings| == |categories|
    && forall k :: 0 <= k < |categories| ==>
         && pairings[k].category == categories[k]
         && IsFirstCase(pairings[k].positiveScenario, scenarios, categories[k], Positive)
         && IsFirstCase(pairings[k].negativeControl, scenarios, categories[k], Negative)
  }

  ghost predicate ChecksAre(checks: Checks, errorFree: bool, categories: seq<Category>, pairings: seq<Pairing>) {
    && (checks.categoryCoverageComplete <==> |categories| == 10)
    && (checks.outcomeClassesRendered <==>
          forall p :: p in pairings ==>
            p.positiveScenario.expectedBehavior != [] && p.negativeControl.expectedBehavior != [])
    && checks.positiveNegativeCoveragePerCategory == checks.outcomeClassesRendered
    && (checks.transcriptsRemainHumanCentered <==>
          errorFree && forall p :: p in pairings ==> OpensLong(p.positiveScenario) && OpensLong(p.negativeControl))
  }

  /** The evidence, for the categories that occur: the first that lacks a polarity, or all pairs and the four checks. */
  ghost predicate ReportsEvidence(e: Evidence, scenarios: seq<Scenario>, categories: seq<Category>, errorFree: bool) {
    match e
    case Thrown(c) =>
      exists k :: 0 <= k < |categories| && categories[k] == c && LacksOne(scenarios, c)
                  && forall j :: 0 <= j < k ==> !LacksOne(scenarios, categories[j])
    case Artifact(pass, checks, pairings) =>
      && ArePairings(pairings, scenarios, categories)
      && ChecksAre(checks, errorFree, categories, pairings)
      && (pass <==> && errorFree && checks.categoryCoverageComplete && checks.positiveNegativeCoveragePerCategory
                    && checks.transcriptsRemainHumanCentered && checks.outcomeClassesRendered)
  }

  lemma AscendFrom(first: Category, rest: seq<Category>)
    requires AscendBy(NameRank, rest) && forall c :: c in rest ==> NameRank(first) < NameRank(c)
    ensures AscendBy(NameRank, [first] + rest)
  {
  }

  lemma RestAscends(categories: seq<Category>)
    requires categories != [] && AscendBy(NameRank, categories)
    ensures AscendBy(NameRank, categories[1..])
    ensures forall c :: c in categories[1..] ==> NameRank(categories[0]) < NameRank(c)
  {
    var rest := categories[1..];
    forall a | 0 <= a < |rest| ensures rest[a] == categories[a + 1] && NameRank(categories[0]) < NameRank(rest[a]) {}
  }

  lemma {:induction false} CategoriesPresent(scenarios: seq<Scenario>, categories: seq<Category>)
    requires AscendBy(NameRank, categories)
    ensures var present := PresentCategories(scenarios, categories);
            && (forall c :: c in present <==> c in categories && exists s :: s in scenarios && s.category == c)
            && AscendBy(NameRank, present)
  {
    if categories != [] {
      var first, rest := categories[0], categories[1..];
      assert categories == [first] + rest;
      RestAscends(categories);
      CategoriesPresent(scenarios, rest);
      AscendFrom(first, PresentCategories(scenarios, rest));
    }
  }

  lemma NamesAscend()
    ensures AscendBy(NameRank, CATEGORIES_BY_NAME)
  {
    forall a | 0 <= a < |CATEGORIES_BY_NAME| ensures NameRank(CATEGORIES_BY_NAME[a]) == a {
      NameRankInOrder(a);
    }
  }

  lemma NameRankInOrder(a: nat)
    requires a < |CATEGORIES_BY_NAME|
    ensures NameRank(CATEGORIES_BY_NAME[a]) == a
  {
    OrderIsComplete();
    assert CATEGORIES_BY_NAME[NameRank(CATEGORIES_BY_NAME[a])] == CATEGORIES_BY_NAME[a];
  }

  lemma CategoriesAre(scenarios: seq<Scenario>)
    ensures AreCategories(PresentCategories(scenarios, CATEGORIES_BY_NAME), scenarios)
  {
    OrderIsComplete();
    NamesAscend();
    CategoriesPresent(scenarios, CATEGORIES_BY_NAME);
  }

  lemma FirstCaseBehind(first: Scenario, rest: seq<Scenario>, category: Category, polarity: Polarity, s: Scenario)
    requires !Fits(first, category, polarity) && IsFirstCase(s, rest, category, polarity)
    ensures IsFirstCase(s, [first] + rest, category, polarity)
  {
    var scenarios := [first] + rest;
    var i :| 0 <= i < |rest| && rest[i] == s
             && forall j :: 0 <= j < i ==> rest[j].category != category || rest[j].polarity != polarity;
    assert forall j :: 0 < j < |scenarios| ==> scenarios[j] == rest[j - 1];
    assert scenarios[i + 1] == s;
  }

  lemma LacksBehind(first: Scenario, rest: seq<Scenario>, category: Category, polarity: Polarity)
    ensures Lacks([first] + rest, category, polarity)
       <==> !Fits(first, category, polarity) && Lacks(rest, category, polarity)
  {
    assert first in [first] + rest;
  }

  lemma {:induction false} FirstCaseFound(scenarios: seq<Scenario>, category: Category, polarity: Polarity)
    ensures match FindScenario(scenarios, category, polarity)
            case None => Lacks(scenarios, category, polarity)
            case Some(s) => IsFirstCase(s, scenarios, category, polarity) && !Lacks(scenarios, category, polarity)
  {
    if scenarios != [] {
      var first, rest := scenarios[0], scenarios[1..];
      assert scenarios == [first] + rest;
      LacksBehind(first, rest, category, polarity);
      if Fits(first, category, polarity) {
        assert scenarios[0] == first;
      } else {
        FirstCaseFound(rest, category, polarity);
        if FindScenario(rest, category, polarity).Some? {
          FirstCaseBehind(first, rest, category, polarity, FindScenario(rest, category, polarity).value);
        }
      }
    }
  }

  lemma {:induction false} PairsAre(scenarios: seq<Scenario>, categories: seq<Category>)
    ensures match PairAll(scenarios, categories)
            case Paired(pairings) => ArePairings(pairings, scenarios, categories)
            case MissingPair(c) =>
              exists k :: 0 <= k < |categories| && categories[k] == c && LacksOne(scenarios, c)
                          && forall j :: 0 <= j < k ==> !LacksOne(scenarios, categories[j])
  {
    if categories != [] {
      var first, rest := categories[0], categories[1..];
      FirstCaseFound(scenarios, first, Positive);
      FirstCaseFound(scenarios, first, Negative);
      PairsAre(scenarios, rest);
      assert forall j :: 0 < j < |categories| ==> categories[j] == rest[j - 1];
      if !LacksOne(scenarios, first) && PairAll(scenarios, rest).MissingPair? {
        var k :| 0 <= k < |rest| && rest[k] == PairAll(scenarios, rest).category && LacksOne(scenarios, rest[k])
                 && forall j :: 0 <= j < k ==> !LacksOne(scenarios, rest[j]);
        assert categories[k + 1] == rest[k];
      }
    }
  }

  lemma OpensLongMeaning(s: Scenario)
    ensures |OpeningUserPrompt(s.transcript)| >= MIN_OPENING_LENGTH <==> OpensLong(s)
  {
    OpeningIsFirstUserTurn(s.transcript);
    UserTurnsMeaning(s.transcript);
    if k :| OpensAt(s.transcript, k) {
      OpeningMeaning(s.transcript, k);
      forall m | OpensAt(s.transcript, m) ensures m == k {
        OpeningIsOne(s.transcript, k, m);
      }
    }
  }

  lemma ChecksAreMet(d: Diagnostics, scenarios: seq<Scenario>, categories: seq<Category>, pairings: seq<Pairing>)
    requires |d.categoryCounts| == 10 && ArePairings(pairings, scenarios, categories)
    ensures ReportsEvidence(EvidenceFrom(d, Paired(pairings)), scenarios, categories, d.errors == [])
  {
    forall p: Pairing
      ensures OpeningsLongEnough(p) <==> OpensLong(p.positiveScenario) && OpensLong(p.negativeControl)
    {
      OpensLongMeaning(p.positiveScenario);
      OpensLongMeaning(p.negativeControl);
    }
  }

  /** What the evidence report says, for every inventory. */
  lemma {:induction false} EvidenceIsReported(prose: Prose, inventory: Inventory) returns (categories: seq<Category>)
    ensures AreCategories(categories, inventory.scenarios)
    ensures ReportsEvidence(RunEvidence(prose, inventory), inventory.scenarios, categories,
                            DiagnosticsOf(prose, inventory).errors == [])
  {
    categories := PresentCategories(inventory.scenarios, CATEGORIES_BY_NAME);
    CategoriesAre(inventory.scenarios);
    PairsAre(inventory.scenarios, categories);
    CountsAddUp(prose, inventory);
    var pairs := PairAll(inventory.scenarios, categories);
    if pairs.Paired? {
      ChecksAreMet(DiagnosticsOf(prose, inventory), inventory.scenarios, categories, pairs.pairings);
    }
  }
}
