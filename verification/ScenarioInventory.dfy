/** The scenario inventory's diagnostics, and the evidence report built from the same inventory. */
module ScenarioInventory {
  import opened Options
  import opened Seqs

  datatype Category =
    | NaturalAutonomousStart | DirectAutonomousMode | WorkspaceContinuity | ExactHolderRecovery
    | AmbiguousHolderClarification | ObservabilityCleanExit | RestartSafeResources | UserReturnHandoff
    | ToolChoiceQuality | IntentEngineBoundary

  datatype Polarity = Positive | Negative
  datatype Speaker = User | Assistant
  datatype Turn = Turn(speaker: Speaker, text: string)

  datatype Scenario = Scenario(
    id: string,
    category: Category,
    polarity: Polarity,
    expectedBehavior: seq<string>,
    transcript: seq<Turn>)

  datatype Inventory = Inventory(schemaVersion: int, scenarios: seq<Scenario>)

  /** The readings of an opening turn that the source takes with regular expressions. */
  datatype Prose = Prose(countSentences: string -> nat, isSlashCommand: string -> bool, isPseudoCommand: string -> bool)

  datatype Problem =
    | WrongSchemaVersion
    | DuplicateId(id: string)
    | NoExpectedBehavior(id: string)
    | EmptyTranscript(id: string)
    | NoUserTurn(id: string)
    | SentenceCount(id: string)
    | CommandPrompt(id: string)
    | MissingPolarity(category: Category)

  datatype Warning = ShortOpening(id: string)

  /** The source's category order. */
  const CATEGORY_ORDER: seq<Category> := [
    NaturalAutonomousStart, DirectAutonomousMode, WorkspaceContinuity, ExactHolderRecovery,
    AmbiguousHolderClarification,
    ObservabilityCleanExit, RestartSafeResources, UserReturnHandoff, ToolChoiceQuality, IntentEngineBoundary]

  /** The categories by name, as `sort` with `localeCompare` puts them. */
  const CATEGORIES_BY_NAME: seq<Category> := [
    AmbiguousHolderClarification, DirectAutonomousMode, ExactHolderRecovery, IntentEngineBoundary,
    NaturalAutonomousStart,
    ObservabilityCleanExit, RestartSafeResources, ToolChoiceQuality, UserReturnHandoff, WorkspaceContinuity]

  const MIN_OPENING_LENGTH := 40

  // ----- Diagnostics

  /** The variables of the scan over the scenarios. */
  datatype Scan = Scan(
    errors: seq<Problem>,
    warnings: seq<Warning>,
    seenIds: set<string>,
    categoryCounts: map<Category, nat>,
    polarityCounts: map<Polarity, nat>,
    coverage: map<Category, set<Polarity>>,
    turnCount: nat)

  function UserTurns(transcript: seq<Turn>): seq<Turn> {
    if transcript == [] then []
    else (if transcript[0].speaker.User? then [transcript[0]] else []) + UserTurns(transcript[1..])
  }

  function At<K, V>(m: map<K, V>, key: K, default: V): V {
    if key in m then m[key] else default
  }

  function When<T>(condition: bool, x: T): seq<T> {
    if condition then [x] else []
  }

  /** The errors of one scenario, its id aside; an empty or userless transcript ends the examination. */
  function ScenarioProblems(prose: Prose, s: Scenario): seq<Problem> {
    When(s.expectedBehavior == [], NoExpectedBehavior(s.id))
    + (if s.transcript == [] then [EmptyTranscript(s.id)]
       else if UserTurns(s.transcript) == [] then [NoUserTurn(s.id)]
       else OpeningProblems(prose, s.id, UserTurns(s.transcript)[0].text))
  }

  function OpeningProblems(prose: Prose, id: string, opening: string): seq<Problem> {
    var n := prose.countSentences(opening);
    When(n < 2 || n > 4, SentenceCount(id))
    + When(prose.isSlashCommand(opening) || prose.isPseudoCommand(opening), CommandPrompt(id))
  }

  function ScenarioWarnings(s: Scenario): seq<Warning> {
    var users := UserTurns(s.transcript);
    When(users != [] && |users[0].text| < MIN_OPENING_LENGTH, ShortOpening(s.id))
  }

  function ScanOne(prose: Prose, scan: Scan, s: Scenario): Scan {
    if s.id in scan.seenIds then scan.(errors := scan.errors + [DuplicateId(s.id)])
    else Scan(
      scan.errors + ScenarioProblems(prose, s),
      scan.warnings + ScenarioWarnings(s),
      scan.seenIds + {s.id},
      scan.categoryCounts[s.category := At(scan.categoryCounts, s.category, 0) + 1],
      scan.polarityCounts[s.polarity := At(scan.polarityCounts, s.polarity, 0) + 1],
      scan.coverage[s.category := At(scan.coverage, s.category, {}) + {s.polarity}],
      scan.turnCount + |s.transcript|)
  }

  const NO_CATEGORIES: map<Category, nat> := map c: Category | c in CATEGORY_ORDER :: 0
  const NO_POLARITIES: map<Polarity, nat> := map[Positive := 0, Negative := 0]

  function Start(inventory: Inventory): Scan {
    Scan(When(inventory.schemaVersion != 1, WrongSchemaVersion), [], {}, NO_CATEGORIES, NO_POLARITIES, map[], 0)
  }

  function ScanAll(prose: Prose, start: Scan, scenarios: seq<Scenario>): Scan {
    if scenarios == [] then start
    else ScanOne(prose, ScanAll(prose, start, scenarios[..|scenarios| - 1]), scenarios[|scenarios| - 1])
  }

  function CoverageProblems(coverage: map<Category, set<Polarity>>, categories: seq<Category>): seq<Problem> {
    if categories == [] then []
    else
      var front, last := categories[..|categories| - 1], categories[|categories| - 1];
      CoverageProblems(coverage, front)
      + When(!(Positive in At(coverage, last, {})) || !(Negative in At(coverage, last, {})), MissingPolarity(last))
  }

  datatype Diagnostics = Diagnostics(
    errors: seq<Problem>,
    warnings: seq<Warning>,
    scenarioCount: nat,
    categoryCounts: map<Category, nat>,
    polarityCounts: map<Polarity, nat>,
    transcriptTurnCount: nat)

  function DiagnosticsOf(prose: Prose, inventory: Inventory): Diagnostics {
    var scan := ScanAll(prose, Start(inventory), inventory.scenarios);
    Diagnostics(scan.errors + CoverageProblems(scan.coverage, CATEGORY_ORDER), scan.warnings, |inventory.scenarios|,
                scan.categoryCounts, scan.polarityCounts, scan.turnCount)
  }

  method ComputeDiagnostics(prose: Prose, inventory: Inventory) returns (d: Diagnostics)
    ensures d == DiagnosticsOf(prose, inventory)
  {
    var scan := ScanScenarios(prose, inventory);
    var errors := CheckCoverage(scan.coverage, scan.errors);
    d := Diagnostics(errors, scan.warnings, |inventory.scenarios|, scan.categoryCounts, scan.polarityCounts,
                     scan.turnCount);
  }

  /** The loop over the scenarios. */
  method ScanScenarios(prose: Prose, inventory: Inventory) returns (scan: Scan)
    ensures scan == ScanAll(prose, Start(inventory), inventory.scenarios)
  {
    scan := Scan([], [], {}, NO_CATEGORIES, NO_POLARITIES, map[], 0);
    if inventory.schemaVersion != 1 {
      scan := scan.(errors := scan.errors + [WrongSchemaVersion]);
    }
    ghost var start := Start(inventory);
    assert scan.errors == start.errors;
    for i := 0 to |inventory.scenarios|
      invariant scan == ScanAll(prose, start, inventory.scenarios[..i])
    {
      ScanOneMore(prose, start, inventory.scenarios, i);
      scan := ScanScenario(prose, scan, inventory.scenarios[i]);
    }
    assert inventory.scenarios[..|inventory.scenarios|] == inventory.scenarios;
  }

  /** The body of that loop. */
  method ScanScenario(prose: Prose, before: Scan, scenario: Scenario) returns (scan: Scan)
    ensures scan == ScanOne(prose, before, scenario)
  {
    scan := before;
    if scenario.id in scan.seenIds {
      scan := scan.(errors := scan.errors + [DuplicateId(scenario.id)]);
      return;
    }
    scan := scan.(seenIds := scan.seenIds + {scenario.id});
    scan := scan.(categoryCounts :=
                    scan.categoryCounts[scenario.category := At(scan.categoryCounts, scenario.category, 0) + 1]);
    scan := scan.(polarityCounts :=
                    scan.polarityCounts[scenario.polarity := At(scan.polarityCounts, scenario.polarity, 0) + 1]);
    scan := scan.(turnCount := scan.turnCount + |scenario.transcript|);
    var polarities := At(scan.coverage, scenario.category, {}) + {scenario.polarity};
    scan := scan.(coverage := scan.coverage[scenario.category := polarities]);
    var errors, warnings := ExamineScenario(prose, scenario);
    scan := scan.(errors := scan.errors + errors, warnings := scan.warnings + warnings);
  }

  /** The loop over the categories. */
  method CheckCoverage(coverage: map<Category, set<Polarity>>, found: seq<Problem>) returns (errors: seq<Problem>)
    ensures errors == found + CoverageProblems(coverage, CATEGORY_ORDER)
  {
    errors := found;
    var order := CATEGORY_ORDER;
    for i := 0 to |order|
      invariant errors == found + CoverageProblems(coverage, order[..i])
    {
      assert order[..i + 1][..i] == order[..i];
      var polarities := At(coverage, order[i], {});
      if Positive !in polarities || Negative !in polarities {
        errors := errors + [MissingPolarity(order[i])];
      }
    }
    assert order[..|order|] == order;
  }

  lemma ScanOneMore(prose: Prose, start: Scan, scenarios: seq<Scenario>, i: nat)
    requires i < |scenarios|
    ensures ScanAll(prose, start, scenarios[..i + 1])
         == ScanOne(prose, ScanAll(prose, start, scenarios[..i]), scenarios[i])
  {
    assert scenarios[..i + 1][..i] == scenarios[..i];
  }

  /** The checks on one scenario that was not a duplicate. */
  method ExamineScenario(prose: Prose, scenario: Scenario) returns (errors: seq<Problem>, warnings: seq<Warning>)
    ensures errors == ScenarioProblems(prose, scenario) && warnings == ScenarioWarnings(scenario)
  {
    errors, warnings := [], [];
    if scenario.expectedBehavior == [] {
      errors := errors + [NoExpectedBehavior(scenario.id)];
    }
    if scenario.transcript == [] {
      errors := errors + [EmptyTranscript(scenario.id)];
      return;
    }
    var userTurns := UserTurns(scenario.transcript);
    if userTurns == [] {
      errors := errors + [NoUserTurn(scenario.id)];
      return;
    }
    var opening := userTurns[0].text;
    var sentences := prose.countSentences(opening);
    if sentences < 2 || sentences > 4 {
      errors := errors + [SentenceCount(scenario.id)];
    }
    if prose.isSlashCommand(opening) || prose.isPseudoCommand(opening) {
      errors := errors + [CommandPrompt(scenario.id)];
    }
    if |opening| < MIN_OPENING_LENGTH {
      warnings := warnings + [ShortOpening(scenario.id)];
    }
  }

  // ----- The evidence report

  predicate Fits(s: Scenario, category: Category, polarity: Polarity) {
    s.category == category && s.polarity == polarity
  }

  function FindScenario(scenarios: seq<Scenario>, category: Category, polarity: Polarity): Option<Scenario> {
    if scenarios == [] then None
    else if Fits(scenarios[0], category, polarity) then Some(scenarios[0])
    else FindScenario(scenarios[1..], category, polarity)
  }

  function OpeningUserPrompt(transcript: seq<Turn>): string {
    if transcript == [] then ""
    else if transcript[0].speaker.User? then transcript[0].text
    else OpeningUserPrompt(transcript[1..])
  }

  datatype Pairing = Pairing(category: Category, positiveScenario: Scenario, negativeControl: Scenario)

  /** The pairs, or the category at which the source throws. */
  datatype Pairs = Paired(pairings: seq<Pairing>) | MissingPair(category: Category)

  function PresentCategories(scenarios: seq<Scenario>, categories: seq<Category>): seq<Category> {
    if categories == [] then []
    else (if Present(scenarios, categories[0]) then [categories[0]] else [])
         + PresentCategories(scenarios, categories[1..])
  }

  function PairAll(scenarios: seq<Scenario>, categories: seq<Category>): Pairs {
    if categories == [] then Paired([])
    else
      var positive := FindScenario(scenarios, categories[0], Positive);
      var negative := FindScenario(scenarios, categories[0], Negative);
      if positive.None? || negative.None? then MissingPair(categories[0])
      else
        match PairAll(scenarios, categories[1..])
        case MissingPair(c) => MissingPair(c)
        case Paired(rest) => Paired([Pairing(categories[0], positive.value, negative.value)] + rest)
  }

  datatype Checks = Checks(
    categoryCoverageComplete: bool,
    positiveNegativeCoveragePerCategory: bool,
    transcriptsRemainHumanCentered: bool,
    outcomeClassesRendered: bool)

  datatype Evidence = Thrown(category: Category) | Artifact(pass: bool, checks: Checks, pairings: seq<Pairing>)

  predicate OutcomesRendered(p: Pairing) {
    |p.positiveScenario.expectedBehavior| > 0 && |p.negativeControl.expectedBehavior| > 0
  }

  predicate OpeningsLongEnough(p: Pairing) {
    && |OpeningUserPrompt(p.positiveScenario.transcript)| >= MIN_OPENING_LENGTH
    && |OpeningUserPrompt(p.negativeControl.transcript)| >= MIN_OPENING_LENGTH
  }

  function RunEvidence(prose: Prose, inventory: Inventory): Evidence {
    EvidenceFrom(DiagnosticsOf(prose, inventory),
                 PairAll(inventory.scenarios, PresentCategories(inventory.scenarios, CATEGORIES_BY_NAME)))
  }

  function EvidenceFrom(d: Diagnostics, pairs: Pairs): Evidence {
    match pairs
    case MissingPair(category) => Thrown(category)
    case Paired(ps) =>
      var complete := |ps| > 0 && |ps| == |d.categoryCounts|;
      var rendered := forall p | p in ps :: OutcomesRendered(p);
      var humanCentered := d.errors == [] && forall p | p in ps :: OpeningsLongEnough(p);
      Artifact(d.errors == [] && complete && rendered && humanCentered,
               Checks(complete, rendered, humanCentered, rendered), ps)
  }

  // ----- The counts

  /** The scenarios that count: the first with each id. */
  function Kept(scenarios: seq<Scenario>): seq<Scenario> {
    if scenarios == [] then []
    else
      var front, last := scenarios[..|scenarios| - 1], scenarios[|scenarios| - 1];
      if last.id in Ids(front) then Kept(front) else Kept(front) + [last]
  }

  function Ids(scenarios: seq<Scenario>): set<string> {
    set s | s in scenarios :: s.id
  }

  function InCategory(category: Category): Scenario -> bool {
    (s: Scenario) => s.category == category
  }

  function OfPolarity(polarity: Polarity): Scenario -> bool {
    (s: Scenario) => s.polarity == polarity
  }

  ghost predicate CategoriesCounted(counts: map<Category, nat>, kept: seq<Scenario>) {
    forall c: Category :: c in counts && counts[c] == Count(kept, InCategory(c))
  }

  ghost predicate PolaritiesCounted(counts: map<Polarity, nat>, kept: seq<Scenario>) {
    forall p: Polarity :: p in counts && counts[p] == Count(kept, OfPolarity(p))
  }

  /** What the counters of the scan say about the scenarios kept. */
  ghost predicate CountsAre(scan: Scan, kept: seq<Scenario>) {
    && CategoriesCounted(scan.categoryCounts, kept)
    && PolaritiesCounted(scan.polarityCounts, kept)
    && |scan.seenIds| == |kept|
  }

  lemma OrderIsComplete()
    ensures forall c: Category :: c in CATEGORY_ORDER && c in CATEGORIES_BY_NAME
    ensures NoDuplicates(CATEGORY_ORDER) && NoDuplicates(CATEGORIES_BY_NAME)
  {
    forall c: Category ensures c in CATEGORY_ORDER && c in CATEGORIES_BY_NAME {
      match c
      case NaturalAutonomousStart => assert CATEGORY_ORDER[0] == c && CATEGORIES_BY_NAME[4] == c;
      case DirectAutonomousMode => assert CATEGORY_ORDER[1] == c && CATEGORIES_BY_NAME[1] == c;
      case WorkspaceContinuity => assert CATEGORY_ORDER[2] == c && CATEGORIES_BY_NAME[9] == c;
      case ExactHolderRecovery => assert CATEGORY_ORDER[3] == c && CATEGORIES_BY_NAME[2] == c;
      case AmbiguousHolderClarification => assert CATEGORY_ORDER[4] == c && CATEGORIES_BY_NAME[0] == c;
      case ObservabilityCleanExit => assert CATEGORY_ORDER[5] == c && CATEGORIES_BY_NAME[5] == c;
      case RestartSafeResources => assert CATEGORY_ORDER[6] == c && CATEGORIES_BY_NAME[6] == c;
      case UserReturnHandoff => assert CATEGORY_ORDER[7] == c && CATEGORIES_BY_NAME[8] == c;
      case ToolChoiceQuality => assert CATEGORY_ORDER[8] == c && CATEGORIES_BY_NAME[7] == c;
      case IntentEngineBoundary => assert CATEGORY_ORDER[9] == c && CATEGORIES_BY_NAME[3] == c;
    }
  }

  lemma OneMoreCategory(counts: map<Category, nat>, kept: seq<Scenario>, s: Scenario)
    requires CategoriesCounted(counts, kept)
    ensures CategoriesCounted(counts[s.category := At(counts, s.category, 0) + 1], kept + [s])
  {
    var after := counts[s.category := At(counts, s.category, 0) + 1];
    forall c: Category ensures c in after && after[c] == Count(kept + [s], InCategory(c)) {
      CountAppend(kept, s, InCategory(c));
      assert c in counts && s.category in counts;
    }
  }

  lemma OneMorePolarity(counts: map<Polarity, nat>, kept: seq<Scenario>, s: Scenario)
    requires PolaritiesCounted(counts, kept)
    ensures PolaritiesCounted(counts[s.polarity := At(counts, s.polarity, 0) + 1], kept + [s])
  {
    var after := counts[s.polarity := At(counts, s.polarity, 0) + 1];
    forall p: Polarity ensures p in after && after[p] == Count(kept + [s], OfPolarity(p)) {
      CountAppend(kept, s, OfPolarity(p));
      assert p in counts && s.polarity in counts;
    }
  }

  lemma ScanOneCounts(prose: Prose, scan: Scan, kept: seq<Scenario>, s: Scenario)
    requires CountsAre(scan, kept) && s.id !in scan.seenIds
    ensures CountsAre(ScanOne(prose, scan, s), kept + [s])
  {
    OneMoreCategory(scan.categoryCounts, kept, s);
    OneMorePolarity(scan.polarityCounts, kept, s);
  }

  lemma StartCounts(inventory: Inventory)
    ensures CountsAre(Start(inventory), [])
  {
    OrderIsComplete();
    forall p: Polarity ensures p in NO_POLARITIES && NO_POLARITIES[p] == 0 {
      match p
      case Positive =>
      case Negative =>
    }
  }

  lemma IdsStep(front: seq<Scenario>, last: Scenario)
    ensures Ids(front + [last]) == Ids(front) + {last.id}
  {
    var scenarios := front + [last];
    assert scenarios[|front|] == last;
    forall s | s in front ensures s in scenarios {
    }
    assert Ids(front) + {last.id} <= Ids(scenarios);
  }

  lemma {:induction false} SeesIds(prose: Prose, start: Scan, scenarios: seq<Scenario>)
    requires start.seenIds == {}
    ensures ScanAll(prose, start, scenarios).seenIds == Ids(scenarios)
  {
    if scenarios != [] {
      var front, last := scenarios[..|scenarios| - 1], scenarios[|scenarios| - 1];
      assert scenarios == front + [last];
      SeesIds(prose, start, front);
      IdsStep(front, last);
      assert last.id in Ids(front) ==> Ids(front) + {last.id} == Ids(front);
    }
  }

  lemma ScanSeesIds(prose: Prose, inventory: Inventory, scenarios: seq<Scenario>)
    ensures ScanAll(prose, Start(inventory), scenarios).seenIds == Ids(scenarios)
  {
    SeesIds(prose, Start(inventory), scenarios);
  }

  lemma {:induction false} ScanCounts(prose: Prose, inventory: Inventory, scenarios: seq<Scenario>)
    ensures CountsAre(ScanAll(prose, Start(inventory), scenarios), Kept(scenarios))
  {
    if scenarios == [] {
      StartCounts(inventory);
    } else {
      var front, last := scenarios[..|scenarios| - 1], scenarios[|scenarios| - 1];
      ScanCounts(prose, inventory, front);
      ScanSeesIds(prose, inventory, front);
      if last.id !in Ids(front) {
        ScanOneCounts(prose, ScanAll(prose, Start(inventory), front), Kept(front), last);
      }
    }
  }

  function SumOver(counts: map<Category, nat>, categories: seq<Category>): nat {
    if categories == [] then 0
    else SumOver(counts, categories[..|categories| - 1]) + At(counts, categories[|categories| - 1], 0)
  }

  function Among(categories: seq<Category>): Scenario -> bool {
    (s: Scenario) => s.category in categories
  }

  lemma {:induction false} SumCountsScenarios(scan: Scan, kept: seq<Scenario>, categories: seq<Category>)
    requires CategoriesCounted(scan.categoryCounts, kept) && NoDuplicates(categories)
    ensures SumOver(scan.categoryCounts, categories) == Count(kept, Among(categories))
  {
    if categories == [] {
      CountIsZero(kept, Among([]));
    } else {
      var front, last := categories[..|categories| - 1], categories[|categories| - 1];
      assert categories == front + [last] && last !in front;
      SumCountsScenarios(scan, kept, front);
      CountSplits(kept, front, last);
    }
  }

  lemma {:induction false} CountSplits(kept: seq<Scenario>, front: seq<Category>, last: Category)
    requires last !in front
    ensures Count(kept, Among(front + [last])) == Count(kept, Among(front)) + Count(kept, InCategory(last))
  {
    if kept != [] {
      CountSplits(kept[..|kept| - 1], front, last);
    }
  }

  lemma {:induction false} PolaritiesSplit(kept: seq<Scenario>)
    ensures Count(kept, OfPolarity(Positive)) + Count(kept, OfPolarity(Negative)) == |kept|
  {
    if kept != [] {
      PolaritiesSplit(kept[..|kept| - 1]);
    }
  }

  /** For any inventory, the category counts and the polarity counts each add up to the number of distinct ids. */
  lemma {:induction false} CountsAddUp(prose: Prose, inventory: Inventory)
    ensures var d := DiagnosticsOf(prose, inventory);
            && SumOver(d.categoryCounts, CATEGORY_ORDER) == |Ids(inventory.scenarios)|
            && Positive in d.polarityCounts && Negative in d.polarityCounts
            && d.polarityCounts[Positive] + d.polarityCounts[Negative] == |Ids(inventory.scenarios)|
            && |d.categoryCounts| == |CATEGORY_ORDER|
  {
    var scan, kept := ScanAll(prose, Start(inventory), inventory.scenarios), Kept(inventory.scenarios);
    ScanCounts(prose, inventory, inventory.scenarios);
    ScanSeesIds(prose, inventory, inventory.scenarios);
    OrderIsComplete();
    SumCountsScenarios(scan, kept, CATEGORY_ORDER);
    CountIsAll(kept, Among(CATEGORY_ORDER));
    PolaritiesSplit(kept);
    DistinctCardinality(CATEGORY_ORDER);
    assert scan.categoryCounts.Keys == set c | c in CATEGORY_ORDER;
  }

  // ----- What an inventory without errors is

  ghost predicate Covers(coverage: map<Category, set<Polarity>>, scenarios: seq<Scenario>) {
    forall c: Category, p: Polarity :: p in At(coverage, c, {}) ==> exists s :: s in scenarios && Fits(s, c, p)
  }

  ghost predicate Clean(prose: Prose, s: Scenario) {
    ScenarioProblems(prose, s) == []
  }

  /** The coverage of a scan is witnessed by scenarios. */
  lemma {:induction false} CoverageIsWitnessed(prose: Prose, inventory: Inventory, scenarios: seq<Scenario>)
    ensures Covers(ScanAll(prose, Start(inventory), scenarios).coverage, scenarios)
  {
    if scenarios != [] {
      var front, last := scenarios[..|scenarios| - 1], scenarios[|scenarios| - 1];
      CoverageIsWitnessed(prose, inventory, front);
      assert scenarios == front + [last];
      var before, after := ScanAll(prose, Start(inventory), front), ScanAll(prose, Start(inventory), scenarios);
      forall c: Category, p: Polarity | p in At(after.coverage, c, {})
        ensures exists s :: s in scenarios && Fits(s, c, p)
      {
        if p in At(before.coverage, c, {}) {
          var s :| s in front && Fits(s, c, p);
          assert s in scenarios;
        } else {
          assert Fits(last, c, p) && last in scenarios;
        }
      }
    }
  }

  /** A scan that found no error found every scenario clean. */
  lemma {:induction false} CleanScan(prose: Prose, start: Scan, scenarios: seq<Scenario>, s: Scenario)
    requires ScanAll(prose, start, scenarios).errors == [] && s in scenarios
    ensures Clean(prose, s)
    ensures ScanAll(prose, start, scenarios).warnings == [] ==> ScenarioWarnings(s) == []
  {
    var front, last := scenarios[..|scenarios| - 1], scenarios[|scenarios| - 1];
    CleanStep(prose, ScanAll(prose, start, front), last);
    if s != last {
      assert s in front;
      CleanScan(prose, start, front, s);
    }
  }

  lemma CleanStep(prose: Prose, scan: Scan, s: Scenario)
    requires ScanOne(prose, scan, s).errors == []
    ensures scan.errors == [] && Clean(prose, s)
    ensures ScanOne(prose, scan, s).warnings == [] ==> scan.warnings == [] && ScenarioWarnings(s) == []
  {
    assert ScanOne(prose, scan, s).errors == scan.errors + ScenarioProblems(prose, s);
  }

  lemma {:induction false} NoCoverageProblems(coverage: map<Category, set<Polarity>>, categories: seq<Category>,
                                              c: Category)
    requires CoverageProblems(coverage, categories) == [] && c in categories
    ensures Positive in At(coverage, c, {}) && Negative in At(coverage, c, {})
  {
    var front, last := categories[..|categories| - 1], categories[|categories| - 1];
    if c != last {
      assert c in front;
      NoCoverageProblems(coverage, front, c);
    }
  }

  lemma {:induction false} FindScenarioFinds(scenarios: seq<Scenario>, category: Category, polarity: Polarity)
    ensures var found := FindScenario(scenarios, category, polarity);
            && (found.Some? <==> exists s :: s in scenarios && Fits(s, category, polarity))
            && (found.Some? ==> found.value in scenarios && Fits(found.value, category, polarity))
  {
    if scenarios != [] {
      FindScenarioFinds(scenarios[1..], category, polarity);
      assert scenarios == [scenarios[0]] + scenarios[1..];
    }
  }

  ghost predicate BothPolarities(scenarios: seq<Scenario>, c: Category) {
    && (exists s :: s in scenarios && Fits(s, c, Positive))
    && (exists s :: s in scenarios && Fits(s, c, Negative))
  }

  /** A pairing of two scenarios of the inventory that fit the category. */
  ghost predicate GoodPairing(scenarios: seq<Scenario>, category: Category, p: Pairing) {
    && p.category == category
    && p.positiveScenario in scenarios && Fits(p.positiveScenario, category, Positive)
    && p.negativeControl in scenarios && Fits(p.negativeControl, category, Negative)
  }

  lemma BothFound(scenarios: seq<Scenario>, c: Category)
    ensures var positive, negative := FindScenario(scenarios, c, Positive), FindScenario(scenarios, c, Negative);
            && (BothPolarities(scenarios, c) <==> positive.Some? && negative.Some?)
            && (positive.Some? && negative.Some? ==>
                  GoodPairing(scenarios, c, Pairing(c, positive.value, negative.value)))
  {
    FindScenarioFinds(scenarios, c, Positive);
    FindScenarioFinds(scenarios, c, Negative);
  }

  /** The pairing step throws exactly when one of its categories lacks a polarity. */
  lemma {:induction false} PairingSucceeds(scenarios: seq<Scenario>, categories: seq<Category>)
    ensures PairAll(scenarios, categories).Paired? <==> forall c :: c in categories ==> BothPolarities(scenarios, c)
    ensures PairAll(scenarios, categories).Paired? ==>
              && |PairAll(scenarios, categories).pairings| == |categories|
              && forall i :: 0 <= i < |categories| ==>
                   GoodPairing(scenarios, categories[i], PairAll(scenarios, categories).pairings[i])
  {
    if categories != [] {
      var rest := categories[1..];
      BothFound(scenarios, categories[0]);
      PairingSucceeds(scenarios, rest);
      assert categories == [categories[0]] + rest && categories[0] in categories;
      if PairAll(scenarios, categories).Paired? {
        forall i | 0 <= i < |categories|
          ensures GoodPairing(scenarios, categories[i], PairAll(scenarios, categories).pairings[i])
        {
          if i > 0 {
            assert categories[i] == rest[i - 1];
            assert PairAll(scenarios, categories).pairings[i] == PairAll(scenarios, rest).pairings[i - 1];
          }
        }
      }
    }
  }

  lemma {:induction false} OpeningIsFirstUserTurn(transcript: seq<Turn>)
    ensures OpeningUserPrompt(transcript) == if UserTurns(transcript) == [] then "" else UserTurns(transcript)[0].text
  {
    if transcript != [] && !transcript[0].speaker.User? {
      OpeningIsFirstUserTurn(transcript[1..]);
    }
  }

  predicate Present(scenarios: seq<Scenario>, category: Category) {
    exists s | s in scenarios :: s.category == category
  }

  lemma {:induction false} AllPresent(scenarios: seq<Scenario>, categories: seq<Category>)
    requires forall c :: c in categories ==> Present(scenarios, c)
    ensures PresentCategories(scenarios, categories) == categories
  {
    if categories != [] {
      assert categories == [categories[0]] + categories[1..];
      AllPresent(scenarios, categories[1..]);
      assert Present(scenarios, categories[0]);
    }
  }

  /** Without errors every scenario is clean and every category has both polarities. */
  lemma {:induction false} ErrorFreeInventory(prose: Prose, inventory: Inventory)
    requires DiagnosticsOf(prose, inventory).errors == []
    ensures forall s :: s in inventory.scenarios ==> Clean(prose, s)
    ensures forall c: Category :: BothPolarities(inventory.scenarios, c)
    ensures DiagnosticsOf(prose, inventory).warnings == [] ==>
              forall s :: s in inventory.scenarios ==> ScenarioWarnings(s) == []
  {
    var scan := ScanAll(prose, Start(inventory), inventory.scenarios);
    CoverageIsWitnessed(prose, inventory, inventory.scenarios);
    OrderIsComplete();
    forall s | s in inventory.scenarios
      ensures Clean(prose, s) && (scan.warnings == [] ==> ScenarioWarnings(s) == [])
    {
      CleanScan(prose, Start(inventory), inventory.scenarios, s);
    }
    forall c: Category ensures BothPolarities(inventory.scenarios, c) {
      assert c in CATEGORY_ORDER;
      NoCoverageProblems(scan.coverage, CATEGORY_ORDER, c);
    }
  }

  /** A scenario that promises something and opens, in the user's words, with two to four natural sentences. */
  ghost predicate Natural(prose: Prose, s: Scenario) {
    && s.expectedBehavior != []
    && UserTurns(s.transcript) != []
    && var opening := UserTurns(s.transcript)[0].text;
       2 <= prose.countSentences(opening) <= 4 && !prose.isSlashCommand(opening) && !prose.isPseudoCommand(opening)
  }

  lemma CleanMeaning(prose: Prose, s: Scenario)
    ensures Clean(prose, s) <==> Natural(prose, s)
  {
    if UserTurns(s.transcript) != [] {
      assert |OpeningProblems(prose, s.id, UserTurns(s.transcript)[0].text)| == 0 <==>
        (var opening := UserTurns(s.transcript)[0].text;
         2 <= prose.countSentences(opening) <= 4 && !prose.isSlashCommand(opening) && !prose.isPseudoCommand(opening));
    }
  }

  ghost predicate IdsDistinct(scenarios: seq<Scenario>) {
    forall i, j :: 0 <= i < j < |scenarios| ==> scenarios[i].id != scenarios[j].id
  }

  ghost predicate WellMade(prose: Prose, inventory: Inventory) {
    && inventory.schemaVersion == 1
    && IdsDistinct(inventory.scenarios)
    && (forall s :: s in inventory.scenarios ==> Natural(prose, s))
    && (forall c: Category :: BothPolarities(inventory.scenarios, c))
  }

  lemma IdsDistinctStep(front: seq<Scenario>, last: Scenario)
    ensures IdsDistinct(front + [last]) <==> IdsDistinct(front) && last.id !in Ids(front)
  {
    var scenarios := front + [last];
    forall i | 0 <= i < |front| ensures scenarios[i] == front[i] && front[i].id in Ids(front) {
      assert front[i] in front;
    }
    assert scenarios[|front|] == last;
  }

  /** The scan reports an error exactly for a wrong version, a repeated id or a scenario that is not natural. */
  lemma {:induction false} ScanErrorFree(prose: Prose, inventory: Inventory, scenarios: seq<Scenario>)
    ensures ScanAll(prose, Start(inventory), scenarios).errors == []
       <==> && inventory.schemaVersion == 1 && IdsDistinct(scenarios)
            && forall s :: s in scenarios ==> Natural(prose, s)
  {
    if scenarios != [] {
      var front, last := scenarios[..|scenarios| - 1], scenarios[|scenarios| - 1];
      assert scenarios == front + [last];
      ScanErrorFree(prose, inventory, front);
      ScanSeesIds(prose, inventory, front);
      IdsDistinctStep(front, last);
      CleanMeaning(prose, last);
      ScanOneErrors(prose, ScanAll(prose, Start(inventory), front), last);
      assert forall s :: s in scenarios <==> s in front || s == last;
    }
  }

  lemma ScanOneErrors(prose: Prose, scan: Scan, s: Scenario)
    ensures ScanOne(prose, scan, s).errors == [] <==> scan.errors == [] && s.id !in scan.seenIds && Clean(prose, s)
  {
    if s.id !in scan.seenIds {
      assert |ScanOne(prose, scan, s).errors| == |scan.errors| + |ScenarioProblems(prose, s)|;
    }
  }

  lemma ScanOneCovers(prose: Prose, scan: Scan, s: Scenario, c: Category, p: Polarity)
    ensures p in At(scan.coverage, c, {}) ==> p in At(ScanOne(prose, scan, s).coverage, c, {})
    ensures s.id !in scan.seenIds ==> s.polarity in At(ScanOne(prose, scan, s).coverage, s.category, {})
  {
  }

  /** Where ids are distinct, every scenario is in the coverage. */
  lemma {:induction false} DistinctAreCovered(prose: Prose, inventory: Inventory, scenarios: seq<Scenario>, s: Scenario)
    requires s in scenarios && IdsDistinct(scenarios)
    ensures s.polarity in At(ScanAll(prose, Start(inventory), scenarios).coverage, s.category, {})
  {
    var front, last := scenarios[..|scenarios| - 1], scenarios[|scenarios| - 1];
    assert scenarios == front + [last];
    IdsDistinctStep(front, last);
    ScanSeesIds(prose, inventory, front);
    ScanOneCovers(prose, ScanAll(prose, Start(inventory), front), last, s.category, s.polarity);
    if s != last {
      DistinctAreCovered(prose, inventory, front, s);
    }
  }

  lemma {:induction false} FullCoverage(coverage: map<Category, set<Polarity>>, categories: seq<Category>)
    requires forall c :: c in categories ==> Positive in At(coverage, c, {}) && Negative in At(coverage, c, {})
    ensures CoverageProblems(coverage, categories) == []
  {
    if categories != [] {
      FullCoverage(coverage, categories[..|categories| - 1]);
    }
  }

  /** The diagnostics report no error exactly for a well-made inventory. */
  lemma ErrorFreeMeaning(prose: Prose, inventory: Inventory)
    ensures DiagnosticsOf(prose, inventory).errors == [] <==> WellMade(prose, inventory)
  {
    var scan := ScanAll(prose, Start(inventory), inventory.scenarios);
    ScanErrorFree(prose, inventory, inventory.scenarios);
    if DiagnosticsOf(prose, inventory).errors == [] {
      ErrorFreeInventory(prose, inventory);
    } else if WellMade(prose, inventory) {
      forall c | c in CATEGORY_ORDER
        ensures Positive in At(scan.coverage, c, {}) && Negative in At(scan.coverage, c, {})
      {
        BothAreCovered(prose, inventory, c);
      }
      FullCoverage(scan.coverage, CATEGORY_ORDER);
    }
  }

  lemma {:induction false} BothAreCovered(prose: Prose, inventory: Inventory, c: Category)
    requires IdsDistinct(inventory.scenarios) && BothPolarities(inventory.scenarios, c)
    ensures var coverage := ScanAll(prose, Start(inventory), inventory.scenarios).coverage;
            Positive in At(coverage, c, {}) && Negative in At(coverage, c, {})
  {
    var p :| p in inventory.scenarios && Fits(p, c, Positive);
    var n :| n in inventory.scenarios && Fits(n, c, Negative);
    DistinctAreCovered(prose, inventory, inventory.scenarios, p);
    DistinctAreCovered(prose, inventory, inventory.scenarios, n);
  }

  /** For an inventory without errors the evidence step does not throw, and pairs all the categories. */
  lemma {:induction false} ErrorFreePairs(prose: Prose, inventory: Inventory)
    requires DiagnosticsOf(prose, inventory).errors == []
    ensures PresentCategories(inventory.scenarios, CATEGORIES_BY_NAME) == CATEGORIES_BY_NAME
    ensures PairAll(inventory.scenarios, CATEGORIES_BY_NAME).Paired?
    ensures RunEvidence(prose, inventory).Artifact? && |RunEvidence(prose, inventory).pairings| == |CATEGORIES_BY_NAME|
  {
    ErrorFreeInventory(prose, inventory);
    forall c | c in CATEGORIES_BY_NAME ensures Present(inventory.scenarios, c) {
      assert BothPolarities(inventory.scenarios, c);
    }
    AllPresent(inventory.scenarios, CATEGORIES_BY_NAME);
    PairingSucceeds(inventory.scenarios, CATEGORIES_BY_NAME);
  }

  lemma PairingsRendered(prose: Prose, scenarios: seq<Scenario>, categories: seq<Category>)
    requires PairAll(scenarios, categories).Paired? && forall s :: s in scenarios ==> Clean(prose, s)
    ensures forall p :: p in PairAll(scenarios, categories).pairings ==> OutcomesRendered(p)
  {
    PairingSucceeds(scenarios, categories);
    var ps := PairAll(scenarios, categories).pairings;
    forall p | p in ps ensures OutcomesRendered(p) {
      var i :| 0 <= i < |ps| && ps[i] == p;
      assert GoodPairing(scenarios, categories[i], p);
      assert Clean(prose, p.positiveScenario) && Clean(prose, p.negativeControl);
    }
  }

  lemma PairingsLong(prose: Prose, scenarios: seq<Scenario>, categories: seq<Category>)
    requires PairAll(scenarios, categories).Paired?
    requires forall s :: s in scenarios ==> Clean(prose, s) && ScenarioWarnings(s) == []
    ensures forall p :: p in PairAll(scenarios, categories).pairings ==> OpeningsLongEnough(p)
  {
    PairingSucceeds(scenarios, categories);
    var ps := PairAll(scenarios, categories).pairings;
    forall p | p in ps ensures OpeningsLongEnough(p) {
      var i :| 0 <= i < |ps| && ps[i] == p;
      assert GoodPairing(scenarios, categories[i], p);
      LongOpening(prose, p.positiveScenario);
      LongOpening(prose, p.negativeControl);
    }
  }

  /** Without errors, only the length of the opening prompts is left to decide. */
  lemma {:induction false} ErrorFreeEvidence(prose: Prose, inventory: Inventory)
    requires DiagnosticsOf(prose, inventory).errors == []
    ensures PairAll(inventory.scenarios, CATEGORIES_BY_NAME).Paired?
    ensures var ps := PairAll(inventory.scenarios, CATEGORIES_BY_NAME).pairings;
            var long := forall p :: p in ps ==> OpeningsLongEnough(p);
            RunEvidence(prose, inventory) == Artifact(long, Checks(true, true, long, true), ps)
  {
    ErrorFreePairs(prose, inventory);
    ErrorFreeInventory(prose, inventory);
    CountsAddUp(prose, inventory);
    PairingsRendered(prose, inventory.scenarios, CATEGORIES_BY_NAME);
    EvidenceOfRendered(DiagnosticsOf(prose, inventory), PairAll(inventory.scenarios, CATEGORIES_BY_NAME).pairings);
  }

  lemma EvidenceOfRendered(d: Diagnostics, ps: seq<Pairing>)
    requires d.errors == [] && |ps| == |d.categoryCounts| > 0 && forall p :: p in ps ==> OutcomesRendered(p)
    ensures var long := forall p :: p in ps ==> OpeningsLongEnough(p);
            EvidenceFrom(d, Paired(ps)) == Artifact(long, Checks(true, true, long, true), ps)
  {
  }

  /**
   The report passes exactly when there are no errors and the opening prompt of every paired scenario is long enough.
   */
  lemma {:induction false} PassMeaning(prose: Prose, inventory: Inventory)
    ensures var e := RunEvidence(prose, inventory);
            (e.Artifact? && e.pass)
            <==> && DiagnosticsOf(prose, inventory).errors == []
                 && e.Artifact? && forall p :: p in e.pairings ==> OpeningsLongEnough(p)
  {
    if DiagnosticsOf(prose, inventory).errors == [] {
      ErrorFreeEvidence(prose, inventory);
    }
  }

  /** An inventory without errors and warnings passes. */
  lemma {:induction false} WarningFreePasses(prose: Prose, inventory: Inventory)
    requires DiagnosticsOf(prose, inventory).errors == [] && DiagnosticsOf(prose, inventory).warnings == []
    ensures RunEvidence(prose, inventory).Artifact? && RunEvidence(prose, inventory).pass
  {
    ErrorFreeEvidence(prose, inventory);
    ErrorFreeInventory(prose, inventory);
    PairingsLong(prose, inventory.scenarios, CATEGORIES_BY_NAME);
  }

  lemma LongOpening(prose: Prose, s: Scenario)
    requires Clean(prose, s) && ScenarioWarnings(s) == []
    ensures |OpeningUserPrompt(s.transcript)| >= MIN_OPENING_LENGTH
  {
    OpeningIsFirstUserTurn(s.transcript);
  }
}
