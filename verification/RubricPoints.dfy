/** What scenarios cost: the rubric's factors, and each scenario's own lines. */
module RubricPoints {
  import opened Text
  import opened Scenarios
  import opened SpecDiff
  import Revisions

  const TEST_CASE: int := 1
  const EXTRA_CHECK: int := 1
  const OPEN_QUESTION: int := 1

  datatype WeightDefinition = WeightDefinition(id: string, ownTest: bool)

  /** The registry of weights, lightest first. */
  const DEFINITIONS := [
    WeightDefinition("covered", false),
    WeightDefinition("light", true),
    WeightDefinition("moderate", true),
    WeightDefinition("heavy", true)
  ]

  type Table = map<string, int>

  const WEIGHT_POINTS: Table := map["covered" := 0, "light" := 1, "moderate" := 2, "heavy" := 4]

  predicate Complete(table: Table) {
    forall d :: d in DEFINITIONS ==> d.id in table
  }

  /** A table that names every weight the registry has, and perhaps others. */
  type Rates = table: Table | Complete(table) witness WEIGHT_POINTS

  /** `withDefaultWeights`: a stored table over the defaults. */
  function WithDefaults(stored: Table): (r: Rates)
    ensures forall w :: w in stored ==> w in r && r[w] == stored[w]
    ensures forall w :: w in r && w !in stored ==> w in WEIGHT_POINTS && r[w] == WEIGHT_POINTS[w]
  {
    WEIGHT_POINTS + stored
  }

  function Moderate(rates: Rates): int {
    assert DEFINITIONS[2] in DEFINITIONS;
    rates["moderate"]
  }

  // ---- checks -------------------------------------------------------------

  /** Whether a step checks an outcome, given what came before it. */
  function OutcomeAfter(outcome: bool, keyword: Keyword): bool {
    if keyword == Then then true else if keyword == Given || keyword == When then false else outcome
  }

  function ChecksFrom(steps: seq<Step>, outcome: bool): nat {
    if steps == [] then 0
    else
      var now := OutcomeAfter(outcome, steps[0].keyword);
      (if now then 1 else 0) + ChecksFrom(steps[1..], now)
  }

  /** The outcome steps: each `Then`, and `And` or `But` after one. */
  function ChecksOf(steps: seq<Step>): nat {
    ChecksFrom(steps, false)
  }

  /** A step under a `Then` that no `Given` or `When` has followed. */
  ghost predicate UnderThen(steps: seq<Step>, i: nat) {
    i < |steps| && exists j :: 0 <= j <= i && steps[j].keyword == Then
                    && forall k :: j < k <= i ==> steps[k].keyword != Given && steps[k].keyword != When
  }

  method CountChecks(steps: seq<Step>) returns (checks: nat)
    ensures checks == ChecksOf(steps)
  {
    var outcome := false;
    checks := 0;
    var i := 0;
    while i < |steps|
      invariant 0 <= i <= |steps|
      invariant checks + ChecksFrom(steps[i..], outcome) == ChecksOf(steps)
    {
      var keyword := steps[i].keyword;
      assert steps[i..][1..] == steps[i + 1..];
      if keyword == Then {
        outcome := true;
      } else if keyword == Given || keyword == When {
        outcome := false;
      }
      if outcome {
        checks := checks + 1;
      }
      i := i + 1;
    }
  }

  /** The outcome flag once a step is read. */
  function OutcomeAt(steps: seq<Step>, i: nat): bool
    requires i < |steps|
  {
    OutcomeAfter(i > 0 && OutcomeAt(steps, i - 1), steps[i].keyword)
  }

  lemma {:induction false} OutcomeIsUnderThen(steps: seq<Step>, i: nat)
    requires i < |steps|
    ensures OutcomeAt(steps, i) <==> UnderThen(steps, i)
  {
    var keyword := steps[i].keyword;
    if i > 0 {
      OutcomeIsUnderThen(steps, i - 1);
    }
    if keyword == Then {
      assert UnderThen(steps, i);
    } else if UnderThen(steps, i) {
      var j :| 0 <= j <= i && steps[j].keyword == Then
               && forall k :: j < k <= i ==> steps[k].keyword != Given && steps[k].keyword != When;
      assert j < i;
      assert UnderThen(steps, i - 1);
    } else if i > 0 && UnderThen(steps, i - 1) {
      var j :| 0 <= j <= i - 1 && steps[j].keyword == Then
               && forall k :: j < k <= i - 1 ==> steps[k].keyword != Given && steps[k].keyword != When;
      assert keyword == Given || keyword == When;
    }
  }

  ghost function UnderThenFrom(steps: seq<Step>, n: nat): set<nat> {
    set i: nat | n <= i < |steps| && UnderThen(steps, i)
  }

  lemma CountFromHere(steps: seq<Step>, n: nat)
    requires n < |steps|
    ensures |UnderThenFrom(steps, n)| == |UnderThenFrom(steps, n + 1)| + if UnderThen(steps, n) then 1 else 0
  {
    var later := UnderThenFrom(steps, n + 1);
    if UnderThen(steps, n) {
      assert UnderThenFrom(steps, n) == later + {n};
    } else {
      assert UnderThenFrom(steps, n) == later;
    }
  }

  lemma {:induction false} ChecksBehind(steps: seq<Step>, n: nat)
    requires n <= |steps|
    ensures ChecksFrom(steps[n..], n > 0 && OutcomeAt(steps, n - 1)) == |UnderThenFrom(steps, n)|
    decreases |steps| - n
  {
    if n == |steps| {
      assert UnderThenFrom(steps, n) == {};
    } else {
      ChecksBehind(steps, n + 1);
      OutcomeIsUnderThen(steps, n);
      assert steps[n..][1..] == steps[n + 1..];
      CountFromHere(steps, n);
    }
  }

  /** What is counted is exactly the steps under a `Then`. */
  lemma ChecksAreUnderThen(steps: seq<Step>)
    ensures ChecksOf(steps) == |UnderThenFrom(steps, 0)|
  {
    ChecksBehind(steps, 0);
    assert steps[0..] == steps;
  }

  // ---- weights ------------------------------------------------------------

  function OwnTestIn(definitions: seq<WeightDefinition>, weight: string): Option<bool> {
    if definitions == [] then None
    else if definitions[0].id == weight then Some(definitions[0].ownTest)
    else OwnTestIn(definitions[1..], weight)
  }

  /** A weight the registry does not have, or none, counts as moderate and so has a test. */
  function HasOwnTest(weight: Option<string>): bool {
    if weight.None? then true
    else
      var found := OwnTestIn(DEFINITIONS, weight.value);
      if found.Some? then found.value else true
  }

  function PointsFor(weight: string, rates: Rates): Option<int> {
    if weight in rates then Some(rates[weight]) else None
  }

  predicate Unweighed(weight: Option<string>, rates: Rates) {
    weight.None? || PointsFor(weight.value, rates).None?
  }

  // ---- the rubric's factors -----------------------------------------------

  datatype Factor = Factor(id: string, points: int)

  function Total(f: Scenario -> int, scenarios: seq<Scenario>): int {
    if scenarios == [] then 0 else f(scenarios[0]) + Total(f, scenarios[1..])
  }

  /** One for each scenario of a weight. */
  function Weighs(weight: string): Scenario -> int {
    (s: Scenario) => if s.weight == Some(weight) then 1 else 0
  }

  /** One for each scenario without a weight the table has. */
  function CountsAsModerate(rates: Rates): Scenario -> int {
    (s: Scenario) => if Unweighed(s.weight, rates) then 1 else 0
  }

  /** What each weight the registry has counts for, in all. */
  function WeightFactors(definitions: seq<WeightDefinition>, scenarios: seq<Scenario>, rates: Rates): seq<Factor>
    requires forall d :: d in definitions ==> d.id in rates
  {
    if definitions == [] then []
    else
      var id := definitions[0].id;
      [Factor("weight-" + id, Total(Weighs(id), scenarios) * rates[id])]
      + WeightFactors(definitions[1..], scenarios, rates)
  }

  function UnweighedFactor(scenarios: seq<Scenario>, rates: Rates): seq<Factor>
  {
    var n := Total(CountsAsModerate(rates), scenarios);
    if n > 0 then [Factor("unweighed", n * Moderate(rates))] else []
  }

  /** The scenario dimension of the rubric. */
  function FactorsOf(scenarios: seq<Scenario>, openQuestions: nat, rates: Rates): seq<Factor>
  {
    WeightFactors(DEFINITIONS, scenarios, rates) + UnweighedFactor(scenarios, rates)
    + [Factor("open-questions", openQuestions * OPEN_QUESTION)]
  }

  function Got(counts: map<string, int>, weight: string): int {
    if weight in counts then counts[weight] else 0
  }

  function CountedFactors(definitions: seq<WeightDefinition>, counts: map<string, int>, rates: Rates): seq<Factor>
    requires forall d :: d in definitions ==> d.id in rates
  {
    if definitions == [] then []
    else
      var id := definitions[0].id;
      [Factor("weight-" + id, Got(counts, id) * rates[id])] + CountedFactors(definitions[1..], counts, rates)
  }

  lemma {:induction false} CountedFactorsAre(
    definitions: seq<WeightDefinition>, counts: map<string, int>, scenarios: seq<Scenario>, rates: Rates
  )
    requires forall d :: d in definitions ==> d.id in rates && Got(counts, d.id) == Total(Weighs(d.id), scenarios)
    ensures CountedFactors(definitions, counts, rates) == WeightFactors(definitions, scenarios, rates)
  {
    if definitions != [] {
      assert definitions[0] in definitions;
      CountedFactorsAre(definitions[1..], counts, scenarios, rates);
    }
  }

  /** What is counted, and what is still to be, make up each weight's total. */
  ghost predicate Counting(counts: map<string, int>, scenarios: seq<Scenario>, left: seq<Scenario>, rates: Rates) {
    forall w :: w in rates ==> Got(counts, w) + Total(Weighs(w), left) == Total(Weighs(w), scenarios)
  }

  lemma CountOne(counts: map<string, int>, scenarios: seq<Scenario>, left: seq<Scenario>, rates: Rates)
    requires Counting(counts, scenarios, left, rates) && left != []
    ensures var weight := left[0].weight;
            if Unweighed(weight, rates) then Counting(counts, scenarios, left[1..], rates)
            else Counting(counts[weight.value := Got(counts, weight.value) + 1], scenarios, left[1..], rates)
  {
  }

  lemma CountingStarts(scenarios: seq<Scenario>, rates: Rates)
    ensures Counting(map[], scenarios, scenarios[0..], rates)
  {
    assert scenarios[0..] == scenarios;
  }

  lemma CountingEnds(counts: map<string, int>, scenarios: seq<Scenario>, rates: Rates)
    requires Counting(counts, scenarios, [], rates)
    ensures CountedFactors(DEFINITIONS, counts, rates) == WeightFactors(DEFINITIONS, scenarios, rates)
  {
    CountedFactorsAre(DEFINITIONS, counts, scenarios, rates);
  }

  method ScenarioFactors(scenarios: seq<Scenario>, openQuestions: nat, rates: Rates) returns (factors: seq<Factor>)
    ensures factors == FactorsOf(scenarios, openQuestions, rates)
  {
    hide Counting;
    var counts: map<string, int> := map[];
    var unweighed := 0;
    var i := 0;
    CountingStarts(scenarios, rates);
    while i < |scenarios|
      invariant 0 <= i <= |scenarios| && unweighed >= 0
      invariant unweighed + Total(CountsAsModerate(rates), scenarios[i..]) == Total(CountsAsModerate(rates), scenarios)
      invariant Counting(counts, scenarios, scenarios[i..], rates)
    {
      var weight := scenarios[i].weight;
      CountOne(counts, scenarios, scenarios[i..], rates);
      assert scenarios[i..][1..] == scenarios[i + 1..];
      if weight.None? || weight.value !in rates {
        unweighed := unweighed + 1;
      } else {
        counts := counts[weight.value := Got(counts, weight.value) + 1];
      }
      i := i + 1;
    }
    assert scenarios[i..] == [];
    CountingEnds(counts, scenarios, rates);
    factors := CountedFactors(DEFINITIONS, counts, rates);
    if unweighed > 0 {
      factors := factors + [Factor("unweighed", unweighed * Moderate(rates))];
    }
    factors := factors + [Factor("open-questions", openQuestions * OPEN_QUESTION)];
  }

  function TestedOf(scenarios: seq<Scenario>): seq<Scenario> {
    if scenarios == [] then []
    else if HasOwnTest(scenarios[0].weight) then [scenarios[0]] + TestedOf(scenarios[1..])
    else TestedOf(scenarios[1..])
  }

  /** The checks of a test past its first. */
  function Extra(steps: seq<Step>): nat {
    if ChecksOf(steps) > 0 then ChecksOf(steps) - 1 else 0
  }

  function ExtraOf(): Scenario -> int {
    (s: Scenario) => Extra(s.steps)
  }

  /** The test dimension of the rubric. */
  function TestFactors(scenarios: seq<Scenario>): seq<Factor> {
    [Factor("test-cases", |TestedOf(scenarios)| * TEST_CASE),
     Factor("extra-checks", Total(ExtraOf(), TestedOf(scenarios)) * EXTRA_CHECK)]
  }

  function SumPoints(factors: seq<Factor>): int {
    if factors == [] then 0 else factors[0].points + SumPoints(factors[1..])
  }

  /** What the rubric charges for a spec's scenarios and their tests. */
  function Charged(scenarios: seq<Scenario>, rates: Rates): int
  {
    SumPoints(FactorsOf(scenarios, 0, rates)) + SumPoints(TestFactors(scenarios))
  }

  // ---- a scenario's own lines ---------------------------------------------

  datatype Line =
    | WeightLine(weight: Option<string>, points: int)
    | TestLine(points: int)
    | ExtraLine(checks: nat, points: int)

  /** The lines a dialog shows under one scenario. */
  function ContributionOf(weight: Option<string>, steps: Option<seq<Step>>, rates: Rates): seq<Line> {
    var points := if weight.None? then None else PointsFor(weight.value, rates);
    var extra := if HasOwnTest(weight) && steps.Some? then Extra(steps.value) else 0;
    [if points.None? then WeightLine(None, Moderate(rates)) else WeightLine(weight, points.value),
     if HasOwnTest(weight) then TestLine(TEST_CASE) else TestLine(0)]
    + if extra > 0 then [ExtraLine(extra, extra * EXTRA_CHECK)] else []
  }

  function SumLines(lines: seq<Line>): int {
    if lines == [] then 0 else lines[0].points + SumLines(lines[1..])
  }

  /** What one scenario's lines come to. */
  function CostOf(rates: Rates): Scenario -> int {
    (s: Scenario) => SumLines(ContributionOf(s.weight, Some(s.steps), rates))
  }

  predicate Defined(definitions: seq<WeightDefinition>, weight: string) {
    exists d :: d in definitions && d.id == weight
  }

  /** Points of a weight the table has and the registry has not. */
  function Unlisted(rates: Rates): Scenario -> int {
    (s: Scenario) =>
      if s.weight.Some? && s.weight.value in rates && !Defined(DEFINITIONS, s.weight.value)
        then rates[s.weight.value] else 0
  }

  lemma SumOfThree(x: Line, y: Line, rest: seq<Line>)
    requires |rest| <= 1
    ensures SumLines([x, y] + rest) == x.points + y.points + (if rest == [] then 0 else rest[0].points)
  {
    assert ([x, y] + rest)[1..] == [y] + rest;
    assert ([y] + rest)[1..] == rest;
    assert SumLines([y] + rest) == y.points + SumLines(rest);
  }

  lemma LinesComeTo(s: Scenario, rates: Rates)
    ensures CostOf(rates)(s)
         == (if Unweighed(s.weight, rates) then Moderate(rates) else rates[s.weight.value])
            + (if HasOwnTest(s.weight) then 1 + Extra(s.steps) else 0)
  {
    var lines := ContributionOf(s.weight, Some(s.steps), rates);
    assert lines == [lines[0], lines[1]] + lines[2..];
    SumOfThree(lines[0], lines[1], lines[2..]);
  }

  predicate DistinctIds(definitions: seq<WeightDefinition>) {
    forall i, j :: 0 <= i < j < |definitions| ==> definitions[i].id != definitions[j].id
  }

  /** What a scenario of a weight puts in the weight factors. */
  function WeightPart(definitions: seq<WeightDefinition>, weight: Option<string>, rates: Rates): int
    requires forall d :: d in definitions ==> d.id in rates
  {
    if weight.Some? && Defined(definitions, weight.value) then rates[weight.value] else 0
  }

  /** What one more scenario adds to the weight factors. */
  lemma {:induction false} WeightFactorsGrow(definitions: seq<WeightDefinition>, scenarios: seq<Scenario>, rates: Rates)
    requires scenarios != [] && DistinctIds(definitions) && forall d :: d in definitions ==> d.id in rates
    ensures SumPoints(WeightFactors(definitions, scenarios, rates))
         == SumPoints(WeightFactors(definitions, scenarios[1..], rates))
            + WeightPart(definitions, scenarios[0].weight, rates)
  {
    if definitions != [] {
      var d, weight := definitions[0], scenarios[0].weight;
      WeightFactorsGrow(definitions[1..], scenarios, rates);
      assert weight.Some? && Defined(definitions, weight.value)
             <==> weight == Some(d.id) || (weight.Some? && Defined(definitions[1..], weight.value)) by {
        assert d in definitions;
        assert forall e :: e in definitions <==> e == d || e in definitions[1..];
      }
      Product(Total(Weighs(d.id), scenarios[1..]), rates[d.id]);
    }
  }

  lemma Product(n: int, rate: int)
    ensures (n + 1) * rate == n * rate + rate
  {
  }

  lemma {:induction false} NoWeightFactors(definitions: seq<WeightDefinition>, rates: Rates)
    requires forall d :: d in definitions ==> d.id in rates
    ensures SumPoints(WeightFactors(definitions, [], rates)) == 0
  {
    if definitions != [] {
      NoWeightFactors(definitions[1..], rates);
    }
  }

  lemma DefinitionsAreDistinct()
    ensures DistinctIds(DEFINITIONS)
  {
  }

  lemma {:induction false} OwnTestIsDefined(definitions: seq<WeightDefinition>, weight: string)
    ensures OwnTestIn(definitions, weight) == Some(false)
            ==> exists d :: d in definitions && d.id == weight && !d.ownTest
  {
    if definitions != [] {
      if definitions[0].id == weight {
        assert definitions[0] in definitions;
      } else {
        OwnTestIsDefined(definitions[1..], weight);
      }
    }
  }

  /** Only a covered scenario has no test of its own. */
  lemma OwnTestIsNotCovered(weight: Option<string>)
    ensures HasOwnTest(weight) <==> weight != Some("covered")
  {
    if weight.Some? {
      OwnTestIsDefined(DEFINITIONS, weight.value);
      assert weight.value == "covered" ==> OwnTestIn(DEFINITIONS, weight.value) == Some(DEFINITIONS[0].ownTest);
    }
  }

  /** The weight and unweighed factors, and the lines for points the registry has no factor for. */
  function WeightTotal(scenarios: seq<Scenario>, rates: Rates): int {
    SumPoints(WeightFactors(DEFINITIONS, scenarios, rates))
    + Total(CountsAsModerate(rates), scenarios) * Moderate(rates)
    + Total(Unlisted(rates), scenarios)
  }

  function TestTotal(scenarios: seq<Scenario>): int {
    |TestedOf(scenarios)| + Total(ExtraOf(), TestedOf(scenarios))
  }

  lemma DefinedIsPriced(weight: string, rates: Rates)
    ensures Defined(DEFINITIONS, weight) ==> weight in rates
  {
  }

  lemma WeightTotalGrows(scenarios: seq<Scenario>, rates: Rates)
    requires scenarios != []
    ensures var s := scenarios[0];
            WeightTotal(scenarios, rates) == WeightTotal(scenarios[1..], rates)
              + if Unweighed(s.weight, rates) then Moderate(rates) else rates[s.weight.value]
  {
    var s := scenarios[0];
    DefinitionsAreDistinct();
    WeightFactorsGrow(DEFINITIONS, scenarios, rates);
    Product(Total(CountsAsModerate(rates), scenarios[1..]), Moderate(rates));
    if s.weight.Some? {
      DefinedIsPriced(s.weight.value, rates);
    }
  }

  lemma TestTotalGrows(scenarios: seq<Scenario>)
    requires scenarios != []
    ensures var s := scenarios[0];
            TestTotal(scenarios) == TestTotal(scenarios[1..]) + if HasOwnTest(s.weight) then 1 + Extra(s.steps) else 0
  {
    var rest := TestedOf(scenarios[1..]);
    assert ([scenarios[0]] + rest)[1..] == rest;
  }

  lemma {:induction false} CostsAreTotals(scenarios: seq<Scenario>, rates: Rates)
    ensures Total(CostOf(rates), scenarios) == WeightTotal(scenarios, rates) + TestTotal(scenarios)
  {
    if scenarios == [] {
      NoWeightFactors(DEFINITIONS, rates);
    } else {
      CostsAreTotals(scenarios[1..], rates);
      LinesComeTo(scenarios[0], rates);
      WeightTotalGrows(scenarios, rates);
      TestTotalGrows(scenarios);
    }
  }

  lemma {:induction false} SumAppend(a: seq<Factor>, b: seq<Factor>)
    ensures SumPoints(a + b) == SumPoints(a) + SumPoints(b)
  {
    if a == [] {
      assert a + b == b;
    } else {
      assert (a + b)[1..] == a[1..] + b;
      SumAppend(a[1..], b);
    }
  }

  lemma ChargedIs(scenarios: seq<Scenario>, rates: Rates)
    ensures Charged(scenarios, rates)
         == SumPoints(WeightFactors(DEFINITIONS, scenarios, rates))
            + Total(CountsAsModerate(rates), scenarios) * Moderate(rates)
            + TestTotal(scenarios)
  {
    var weights, unweighed := WeightFactors(DEFINITIONS, scenarios, rates), UnweighedFactor(scenarios, rates);
    var questions, tests := [Factor("open-questions", 0)], TestFactors(scenarios);
    CountIsNatural(scenarios, rates);
    SumAppend(weights + unweighed, questions);
    SumAppend(weights, unweighed);
    assert questions[1..] == [] && tests[1..][1..] == [];
    assert SumPoints(tests) == tests[0].points + SumPoints(tests[1..]);
    assert unweighed != [] ==> unweighed[1..] == [];
  }

  lemma {:induction false} CountIsNatural(scenarios: seq<Scenario>, rates: Rates)
    ensures Total(CountsAsModerate(rates), scenarios) >= 0
  {
    if scenarios != [] {
      CountIsNatural(scenarios[1..], rates);
    }
  }

  /** Every scenario's lines together are the rubric's charge and the points of weights it has no factor for. */
  lemma LinesAreCharged(scenarios: seq<Scenario>, rates: Rates)
    ensures Total(CostOf(rates), scenarios) == Charged(scenarios, rates) + Total(Unlisted(rates), scenarios)
  {
    CostsAreTotals(scenarios, rates);
    ChargedIs(scenarios, rates);
  }

  // ---- over the merged view -----------------------------------------------

  /** What the scored entries' lines come to. */
  function ScoredCost(entries: seq<Entry>, rates: Rates): int {
    if entries == [] then 0
    else
      var e := entries[0];
      (if e.scored then SumLines(ContributionOf(e.weight, e.steps, rates)) else 0) + ScoredCost(entries[1..], rates)
  }

  /** A scored entry is a scenario with its steps. */
  predicate ScoredAreWhole(entries: seq<Entry>) {
    forall e :: e in entries && e.scored ==> e.steps.Some? && e.origin.Some?
  }

  lemma ViewIsWhole(spec: seq<Scenario>, diff: Option<Diff>)
    ensures ScoredAreWhole(EntriesOf(spec, diff))
  {
    ViewHolds(spec, diff);
  }

  lemma {:induction false} ScoredCostIsTotal(entries: seq<Entry>, rates: Rates)
    requires ScoredAreWhole(entries)
    ensures ScoredCost(entries, rates) == Total(CostOf(rates), ScoredOf(entries))
  {
    if entries != [] {
      var rest := ScoredOf(entries[1..]);
      assert entries[0] in entries;
      ScoredCostIsTotal(entries[1..], rates);
      assert ScoredOf(entries) != rest ==> ScoredOf(entries)[1..] == rest;
    }
  }

  lemma {:induction false} TotalAppend(f: Scenario -> int, a: seq<Scenario>, b: seq<Scenario>)
    ensures Total(f, a + b) == Total(f, a) + Total(f, b)
  {
    if a == [] {
      assert a + b == b;
    } else {
      assert (a + b)[1..] == a[1..] + b;
      TotalAppend(f, a[1..], b);
    }
  }

  lemma {:induction false} ByKindGrows(f: Scenario -> int, kinds: seq<string>, spec: seq<Scenario>)
    requires spec != [] && Distinct(kinds)
    ensures Total(f, ByKind(kinds, spec)) == Total(f, ByKind(kinds, spec[1..]))
              + if spec[0].kind in kinds then f(spec[0]) else 0
  {
    if kinds != [] {
      ByKindGrows(f, kinds[1..], spec);
      TotalAppend(f, OfKind(spec, kinds[0]), ByKind(kinds[1..], spec));
      TotalAppend(f, OfKind(spec[1..], kinds[0]), ByKind(kinds[1..], spec[1..]));
      var own := OfKind(spec[1..], kinds[0]);
      assert ([spec[0]] + own)[1..] == own;
    }
  }

  /** What a total owes to scenarios of kinds the view does not know. */
  function Hidden(f: Scenario -> int): Scenario -> int {
    (s: Scenario) => if s.kind in KINDS then 0 else f(s)
  }

  /** Grouping keeps every total but for scenarios of unknown kinds. */
  lemma {:induction false} ByKindKeepsTotals(f: Scenario -> int, spec: seq<Scenario>)
    ensures Total(f, ByKind(KINDS, spec)) + Total(Hidden(f), spec) == Total(f, spec)
  {
    if spec == [] {
      NothingByKind(KINDS);
    } else {
      KindsAreDistinct();
      ByKindGrows(f, KINDS, spec);
      ByKindKeepsTotals(f, spec[1..]);
    }
  }

  lemma {:induction false} NothingHidden(f: Scenario -> int, spec: seq<Scenario>)
    requires KnownKinds(spec)
    ensures Total(Hidden(f), spec) == 0
  {
    if spec != [] {
      assert spec[0] in spec;
      NothingHidden(f, spec[1..]);
    }
  }

  lemma {:induction false} NothingByKind(kinds: seq<string>)
    ensures ByKind(kinds, []) == []
  {
    if kinds != [] {
      NothingByKind(kinds[1..]);
    }
  }

  /**
   * Whatever the diff on show and the table, the scored entries' lines come to
   * the rubric's charge, more by the points of weights the registry has
   * dropped, and less by scenarios of kinds it has dropped.
   */
  lemma PointsAreConserved(spec: seq<Scenario>, diff: Option<Diff>, rates: Rates)
    ensures ScoredCost(EntriesOf(spec, diff), rates)
         == Charged(spec, rates) + Total(Unlisted(rates), spec) - Total(Hidden(CostOf(rates)), spec)
  {
    ViewIsWhole(spec, diff);
    ScoredCostIsTotal(EntriesOf(spec, diff), rates);
    ScoredAreShown(spec, diff);
    ByKindKeepsTotals(CostOf(rates), spec);
    LinesAreCharged(spec, rates);
  }

  /** A weight the table prices and the registry has not. */
  predicate Overpriced(s: Scenario, rates: Rates) {
    s.weight.Some? && s.weight.value in rates && rates[s.weight.value] > 0 && !Defined(DEFINITIONS, s.weight.value)
  }

  predicate NonNegative(rates: Rates) {
    forall w :: w in rates ==> rates[w] >= 0
  }

  lemma {:induction false} UnlistedIsNothing(scenarios: seq<Scenario>, rates: Rates)
    requires NonNegative(rates)
    ensures Total(Unlisted(rates), scenarios) >= 0
    ensures Total(Unlisted(rates), scenarios) == 0 <==> forall s :: s in scenarios ==> !Overpriced(s, rates)
  {
    if scenarios != [] {
      UnlistedIsNothing(scenarios[1..], rates);
      assert Unlisted(rates)(scenarios[0]) >= 0;
      assert Unlisted(rates)(scenarios[0]) == 0 <==> !Overpriced(scenarios[0], rates);
      assert forall s :: s in scenarios <==> s == scenarios[0] || s in scenarios[1..];
    }
  }

  /**
   * Of known kinds and with points that are not negative, line by line is the
   * rubric's charge exactly when no scenario has a weight the table prices and
   * the registry has not.
   */
  lemma LinesAreTheChargeExactly(spec: seq<Scenario>, diff: Option<Diff>, rates: Rates)
    requires KnownKinds(spec)
    ensures ScoredCost(EntriesOf(spec, diff), rates) == Charged(spec, rates) <==> Total(Unlisted(rates), spec) == 0
    ensures NonNegative(rates) ==>
              (ScoredCost(EntriesOf(spec, diff), rates) == Charged(spec, rates)
               <==> forall s :: s in spec ==> !Overpriced(s, rates))
  {
    PointsAreConserved(spec, diff, rates);
    NothingHidden(CostOf(rates), spec);
    if NonNegative(rates) {
      UnlistedIsNothing(spec, rates);
    }
  }

  lemma {:induction false} NothingUnlisted(scenarios: seq<Scenario>, rates: Rates)
    requires forall w :: w in rates ==> Defined(DEFINITIONS, w)
    ensures Total(Unlisted(rates), scenarios) == 0
  {
    if scenarios != [] {
      NothingUnlisted(scenarios[1..], rates);
    }
  }

  lemma DefaultsAreDefined(stored: Table)
    requires forall w :: w in stored ==> Defined(DEFINITIONS, w)
    ensures forall w :: w in WithDefaults(stored) ==> Defined(DEFINITIONS, w)
  {
    assert DEFINITIONS[0].id == "covered" && DEFINITIONS[1].id == "light";
    assert DEFINITIONS[2].id == "moderate" && DEFINITIONS[3].id == "heavy";
  }

  /** With a table of the registry's own weights, line by line is the rubric's charge. */
  lemma LinesAreTheCharge(spec: seq<Scenario>, diff: Option<Diff>, stored: Table)
    requires KnownKinds(spec) && forall w :: w in stored ==> Defined(DEFINITIONS, w)
    ensures ScoredCost(EntriesOf(spec, diff), WithDefaults(stored)) == Charged(spec, WithDefaults(stored))
  {
    DefaultsAreDefined(stored);
    LinesAreTheChargeExactly(spec, diff, WithDefaults(stored));
    NothingUnlisted(spec, WithDefaults(stored));
  }

  // ---- the factors and the lines, spelled out -----------------------------

  /** The scenarios of a list that have a weight. */
  ghost function Weighing(scenarios: seq<Scenario>, weight: Option<string>): set<nat> {
    set i: nat | i < |scenarios| && scenarios[i].weight == weight
  }

  /** The scenarios of a list without a weight, or with one that has no points. */
  ghost function Unpriced(scenarios: seq<Scenario>, rates: Rates): set<nat> {
    set i: nat | i < |scenarios| && (scenarios[i].weight.None? || scenarios[i].weight.value !in rates)
  }

  ghost function From(f: Scenario -> int, scenarios: seq<Scenario>, n: nat): set<nat> {
    set i: nat | n <= i < |scenarios| && f(scenarios[i]) == 1
  }

  lemma {:induction false} TotalCounts(f: Scenario -> int, scenarios: seq<Scenario>, n: nat)
    requires n <= |scenarios| && forall s :: f(s) in {0, 1}
    ensures Total(f, scenarios[n..]) == |From(f, scenarios, n)|
    decreases |scenarios| - n
  {
    if n == |scenarios| {
      assert From(f, scenarios, n) == {};
    } else {
      TotalCounts(f, scenarios, n + 1);
      assert scenarios[n..][1..] == scenarios[n + 1..];
      var later := From(f, scenarios, n + 1);
      assert From(f, scenarios, n) == if f(scenarios[n]) == 1 then later + {n} else later;
    }
  }

  lemma WeighedCount(scenarios: seq<Scenario>, weight: string)
    ensures Total(Weighs(weight), scenarios) == |Weighing(scenarios, Some(weight))|
  {
    TotalCounts(Weighs(weight), scenarios, 0);
    assert scenarios[0..] == scenarios;
    assert From(Weighs(weight), scenarios, 0) == Weighing(scenarios, Some(weight));
  }

  lemma UnpricedCount(scenarios: seq<Scenario>, rates: Rates)
    ensures Total(CountsAsModerate(rates), scenarios) == |Unpriced(scenarios, rates)|
  {
    TotalCounts(CountsAsModerate(rates), scenarios, 0);
    assert scenarios[0..] == scenarios;
    assert From(CountsAsModerate(rates), scenarios, 0) == Unpriced(scenarios, rates);
  }

  lemma FourFactors(scenarios: seq<Scenario>, rates: Rates)
    ensures WeightFactors(DEFINITIONS, scenarios, rates)
         == [Factor("weight-covered", Total(Weighs("covered"), scenarios) * rates["covered"]),
             Factor("weight-light", Total(Weighs("light"), scenarios) * rates["light"]),
             Factor("weight-moderate", Total(Weighs("moderate"), scenarios) * rates["moderate"]),
             Factor("weight-heavy", Total(Weighs("heavy"), scenarios) * rates["heavy"])]
  {
    assert DEFINITIONS[1..][1..] == DEFINITIONS[2..] && DEFINITIONS[2..][1..] == DEFINITIONS[3..];
    assert DEFINITIONS[3..][1..] == DEFINITIONS[4..] == [];
    assert DEFINITIONS[0] in DEFINITIONS && DEFINITIONS[1] in DEFINITIONS;
    assert DEFINITIONS[2] in DEFINITIONS && DEFINITIONS[3] in DEFINITIONS;
    assert "weight-" + "covered" == "weight-covered" && "weight-" + "light" == "weight-light";
    assert "weight-" + "moderate" == "weight-moderate" && "weight-" + "heavy" == "weight-heavy";
    hide Weighs, Total;
    var d := DEFINITIONS;
    assert WeightFactors(d[4..], scenarios, rates) == [];
    assert WeightFactors(d[3..], scenarios, rates)
        == [Factor("weight-heavy", Total(Weighs("heavy"), scenarios) * rates["heavy"])]
           + WeightFactors(d[4..], scenarios, rates);
    assert WeightFactors(d[2..], scenarios, rates)
        == [Factor("weight-moderate", Total(Weighs("moderate"), scenarios) * rates["moderate"])]
           + WeightFactors(d[3..], scenarios, rates);
    assert WeightFactors(d[1..], scenarios, rates)
        == [Factor("weight-light", Total(Weighs("light"), scenarios) * rates["light"])]
           + WeightFactors(d[2..], scenarios, rates);
  }

  /** The scenario dimension in full: each weight's count times its points, the unpriced at the middle weight. */
  lemma FactorsSpelled(scenarios: seq<Scenario>, openQuestions: nat, rates: Rates)
    requires {"covered", "light", "moderate", "heavy"} <= rates.Keys
    ensures FactorsOf(scenarios, openQuestions, rates)
         == [Factor("weight-covered", |Weighing(scenarios, Some("covered"))| * rates["covered"]),
             Factor("weight-light", |Weighing(scenarios, Some("light"))| * rates["light"]),
             Factor("weight-moderate", |Weighing(scenarios, Some("moderate"))| * rates["moderate"]),
             Factor("weight-heavy", |Weighing(scenarios, Some("heavy"))| * rates["heavy"])]
            + (if Unpriced(scenarios, rates) == {} then []
               else [Factor("unweighed", |Unpriced(scenarios, rates)| * rates["moderate"])])
            + [Factor("open-questions", openQuestions)]
  {
    hide Total, WeightFactors, Weighing, Unpriced;
    FourFactors(scenarios, rates);
    WeighedCount(scenarios, "covered");
    WeighedCount(scenarios, "light");
    WeighedCount(scenarios, "moderate");
    WeighedCount(scenarios, "heavy");
    UnpricedCount(scenarios, rates);
  }

  /** The outcomes a scenario checks past its first, where it has a test. */
  ghost function Further(s: Scenario): int {
    var checks := |UnderThenFrom(s.steps, 0)|;
    if s.weight == Some("covered") || checks == 0 then 0 else checks - 1
  }

  ghost function FurtherIn(scenarios: seq<Scenario>): int {
    if scenarios == [] then 0 else Further(scenarios[0]) + FurtherIn(scenarios[1..])
  }

  lemma {:induction false} FurtherTotals(scenarios: seq<Scenario>)
    ensures Total(TestedExtra(), scenarios) == FurtherIn(scenarios)
  {
    if scenarios != [] {
      FurtherTotals(scenarios[1..]);
      ChecksAreUnderThen(scenarios[0].steps);
      OwnTestIsNotCovered(scenarios[0].weight);
    }
  }

  /** The test dimension in full: a test for each scenario that is not covered, and their further outcomes. */
  lemma TestsSpelled(scenarios: seq<Scenario>)
    ensures TestFactors(scenarios)
         == [Factor("test-cases", |scenarios| - |Weighing(scenarios, Some("covered"))|),
             Factor("extra-checks", FurtherIn(scenarios))]
  {
    TestedTotals(scenarios);
    FurtherTotals(scenarios);
    TestsAndCovered(scenarios);
    WeighedCount(scenarios, "covered");
  }

  lemma {:induction false} TestsAndCovered(scenarios: seq<Scenario>)
    ensures Total(HasTest(), scenarios) + Total(Weighs("covered"), scenarios) == |scenarios|
  {
    if scenarios != [] {
      TestsAndCovered(scenarios[1..]);
      OwnTestIsNotCovered(scenarios[0].weight);
    }
  }

  /** A scenario's lines in full. */
  lemma LinesSpelled(weight: Option<string>, steps: Option<seq<Step>>, rates: Rates)
    requires "moderate" in rates
    ensures var lines := ContributionOf(weight, steps, rates);
            var checks := if steps.Some? then |UnderThenFrom(steps.value, 0)| else 0;
            && |lines| == (if weight != Some("covered") && checks > 1 then 3 else 2)
            && lines[0] == (if weight.Some? && weight.value in rates then WeightLine(weight, rates[weight.value])
                            else WeightLine(None, rates["moderate"]))
            && lines[1] == TestLine(if weight == Some("covered") then 0 else 1)
            && (|lines| == 3 ==> lines[2] == ExtraLine(checks - 1, checks - 1))
  {
    OwnTestIsNotCovered(weight);
    if steps.Some? {
      ChecksAreUnderThen(steps.value);
    }
    hide UnderThenFrom, ChecksOf;
  }

  /** A factor's list is what it keeps of the view, in the view's order. */
  lemma {:induction false} ListInOrder(factorId: string, entries: seq<Entry>, rates: Rates) returns (at: seq<nat>)
    ensures Increasing(at) && At(entries, at, Select(factorId, entries, rates))
    ensures forall i: nat :: i in at <==> i < |entries| && Listed(factorId, entries[i], rates)
  {
    at := [];
    if entries != [] {
      hide Increasing, Listed, At;
      var rest := ListInOrder(factorId, entries[1..], rates);
      ShiftedHolds(rest);
      AtShifted(entries, rest, Select(factorId, entries[1..], rates));
      at := if Listed(factorId, entries[0], rates) then [0] + Shifted(rest) else Shifted(rest);
      forall i: nat | 0 < i < |entries| ensures entries[1..][i - 1] == entries[i] {
      }
    }
  }

  // ---- what is received ---------------------------------------------------

  const MAX_POINTS := 1000

  /** What the schemas of a response let through of a spec: kinds and weights of the registries. */
  predicate Received(spec: seq<Scenario>) {
    forall s :: s in spec ==> s.kind in KINDS && (s.weight.Some? ==> Defined(DEFINITIONS, s.weight.value))
  }

  /** And of a diff. */
  predicate ReceivedDiff(diff: Option<Diff>) {
    && Received(Gained(diff))
    && forall t :: t in Lost(diff) ==> t.kind in KINDS && Defined(DEFINITIONS, t.weight)
  }

  /** The table as a response carries it: refused out of bounds, else the registry's weights and no others. */
  function ReadTable(stored: Table): (r: Option<Rates>)
    ensures r.Some? ==> r.value.Keys == WEIGHT_POINTS.Keys && NonNegative(r.value)
  {
    if exists w :: w in WEIGHT_POINTS && w in stored && !(0 <= stored[w] <= MAX_POINTS) then None
    else
      assert forall d :: d in DEFINITIONS ==> d.id in WEIGHT_POINTS;
      Some(map w | w in WEIGHT_POINTS :: if w in stored then stored[w] else WEIGHT_POINTS[w])
  }

  /** A table is read unless a registry weight's points are out of bounds; what it lacks reads as the default. */
  lemma ReadExactly(stored: Table)
    ensures ReadTable(stored).Some?
       <==> forall w :: w in stored && w in {"covered", "light", "moderate", "heavy"} ==> 0 <= stored[w] <= 1000
    ensures ReadTable(stored).Some? ==>
              var read := ReadTable(stored).value;
              && read.Keys == {"covered", "light", "moderate", "heavy"}
              && (forall w :: w in read && w in stored ==> read[w] == stored[w])
              && ("covered" in stored || read["covered"] == 0) && ("light" in stored || read["light"] == 1)
              && ("moderate" in stored || read["moderate"] == 2) && ("heavy" in stored || read["heavy"] == 4)
  {
    assert WEIGHT_POINTS.Keys == {"covered", "light", "moderate", "heavy"};
    assert WEIGHT_POINTS["covered"] == 0 && WEIGHT_POINTS["light"] == 1;
    assert WEIGHT_POINTS["moderate"] == 2 && WEIGHT_POINTS["heavy"] == 4;
  }

  /** Everything received is on view. */
  lemma ReceivedIsShown(spec: seq<Scenario>, diff: Option<Diff>)
    requires Received(spec) && ReceivedDiff(diff)
    ensures multiset(EntriesOf(spec, diff)) == multiset(Everything(spec, diff))
  {
    forall e | e in Everything(spec, diff) ensures e.kind in KINDS {
      if e in GainedEntries(Gained(diff)) {
        GainedHolds(Gained(diff), e);
      } else if e in LostEntries(Lost(diff)) {
        LostHolds(Lost(diff), e);
      } else {
        OwnHolds(spec, diff, e);
      }
    }
    CompleteExactly(spec, diff);
  }

  lemma {:induction false} AgreeingTotals(f: Scenario -> int, g: Scenario -> int, scenarios: seq<Scenario>)
    requires forall s :: s in scenarios ==> f(s) == g(s)
    ensures Total(f, scenarios) == Total(g, scenarios)
  {
    if scenarios != [] {
      AgreeingTotals(f, g, scenarios[1..]);
    }
  }

  lemma {:induction false} NoneUnlisted(spec: seq<Scenario>, rates: Rates)
    requires Received(spec)
    ensures Total(Unlisted(rates), spec) == 0
  {
    if spec != [] {
      assert spec[0] in spec;
      NoneUnlisted(spec[1..], rates);
    }
  }

  /** The table as it is stored, with what it may have beyond the registry, prices a received scenario alike. */
  lemma ReadCostsAlike(s: Scenario, stored: Table)
    requires Received([s]) && ReadTable(stored).Some?
    ensures CostOf(ReadTable(stored).value)(s) == CostOf(WithDefaults(stored))(s)
  {
    var read, all := ReadTable(stored).value, WithDefaults(stored);
    assert s in [s];
    if s.weight.Some? {
      DefinedIsPriced(s.weight.value, read);
    }
    assert "moderate" in WEIGHT_POINTS && read["moderate"] == all["moderate"];
    LinesComeTo(s, read);
    LinesComeTo(s, all);
  }

  /**
   * Across the response: the lines the dialog shows, with the table as it was
   * read, come to what the rubric charged with the table as it was stored.
   */
  lemma ReceivedLinesAreTheCharge(spec: seq<Scenario>, diff: Option<Diff>, stored: Table)
    requires Received(spec) && ReadTable(stored).Some?
    ensures ScoredCost(EntriesOf(spec, diff), ReadTable(stored).value) == Charged(spec, WithDefaults(stored))
    ensures Charged(spec, ReadTable(stored).value) == Charged(spec, WithDefaults(stored))
  {
    var read, all := ReadTable(stored).value, WithDefaults(stored);
    forall s | s in spec ensures CostOf(read)(s) == CostOf(all)(s) {
      ReadCostsAlike(s, stored);
    }
    hide Total, Charged, ScoredCost, CostOf;
    AgreeingTotals(CostOf(read), CostOf(all), spec);
    LinesAreCharged(spec, read);
    LinesAreCharged(spec, all);
    NoneUnlisted(spec, read);
    NoneUnlisted(spec, all);
    LinesAreTheChargeExactly(spec, diff, read);
  }

  // ---- the lists factors open ---------------------------------------------

  /** The checks past the first that an entry's own test makes. */
  function ExtraIn(e: Entry): nat {
    if HasOwnTest(e.weight) && e.steps.Some? then Extra(e.steps.value) else 0
  }

  /** What one list keeps. */
  predicate Listed(factorId: string, e: Entry, rates: Rates) {
    if StartsWith(factorId, "weight-") then e.scored && e.weight == Some(factorId[7..])
    else if factorId == "unweighed" then e.scored && Unweighed(e.weight, rates)
    else if factorId == "test-cases" then HasOwnTest(e.weight)
    else factorId == "extra-checks" && ExtraIn(e) > 0
  }

  lemma ListedIs(e: Entry, rates: Rates)
    ensures Listed("unweighed", e, rates) <==> e.scored && Unweighed(e.weight, rates)
    ensures Listed("test-cases", e, rates) <==> HasOwnTest(e.weight)
    ensures Listed("extra-checks", e, rates) <==> ExtraIn(e) > 0
  {
    assert "weight-"[0] == 'w' && "unweighed"[0] == 'u' && "test-cases"[0] == 't' && "extra-checks"[0] == 'e';
  }

  function Select(factorId: string, entries: seq<Entry>, rates: Rates): seq<Entry> {
    if entries == [] then []
    else if Listed(factorId, entries[0], rates) then [entries[0]] + Select(factorId, entries[1..], rates)
    else Select(factorId, entries[1..], rates)
  }

  /** The entries a factor opens onto; none for a factor without a list. */
  function EntriesFor(factorId: string, entries: seq<Entry>, rates: Rates): Option<seq<Entry>> {
    if StartsWith(factorId, "weight-") || factorId in ["unweighed", "test-cases", "extra-checks"]
    then Some(Select(factorId, entries, rates))
    else None
  }

  /** Each scored entry is in one list of the scenario dimension, unless its weight was dropped: then in none. */
  lemma OneListEach(e: Entry, rates: Rates)
    requires e.scored
    ensures Listed("unweighed", e, rates) ==> forall d :: d in DEFINITIONS ==> !Listed("weight-" + d.id, e, rates)
    ensures forall c, d :: c in DEFINITIONS && d in DEFINITIONS ==>
              Listed("weight-" + c.id, e, rates) && Listed("weight-" + d.id, e, rates) ==> c.id == d.id
    ensures (Listed("unweighed", e, rates) || exists d :: d in DEFINITIONS && Listed("weight-" + d.id, e, rates))
       <==> !(e.weight.Some? && e.weight.value in rates && !Defined(DEFINITIONS, e.weight.value))
  {
    ListedIs(e, rates);
    forall d | d in DEFINITIONS ensures Listed("weight-" + d.id, e, rates) <==> e.weight == Some(d.id) {
      Halves("weight-", d.id);
    }
  }

  function ETotal(g: Entry -> int, entries: seq<Entry>): int {
    if entries == [] then 0 else g(entries[0]) + ETotal(g, entries[1..])
  }

  /** The same, of entries that are not scored. */
  function Unscored(g: Entry -> int): Entry -> int {
    (e: Entry) => if e.scored then 0 else g(e)
  }

  /** One for each entry a list keeps. */
  function InList(factorId: string, rates: Rates): Entry -> int {
    (e: Entry) => if Listed(factorId, e, rates) then 1 else 0
  }

  lemma {:induction false} SelectCounts(factorId: string, entries: seq<Entry>, rates: Rates)
    ensures |Select(factorId, entries, rates)| == ETotal(InList(factorId, rates), entries)
  {
    if entries != [] {
      SelectCounts(factorId, entries[1..], rates);
    }
  }

  function ScenarioOf(e: Entry): Scenario
    requires e.steps.Some? && e.origin.Some?
  {
    Scenario(e.id, e.kind, e.title, e.steps.value, e.origin.value, e.weight, e.weightReason)
  }

  /** A measure of entries that agrees with one of scenarios, over the scored and the others. */
  lemma {:induction false} MeasureSplits(g: Entry -> int, h: Scenario -> int, entries: seq<Entry>)
    requires ScoredAreWhole(entries)
    requires forall e :: e in entries && e.scored ==> g(e) == h(ScenarioOf(e))
    ensures ETotal(g, entries) == Total(h, ScoredOf(entries)) + ETotal(Unscored(g), entries)
  {
    if entries != [] {
      var rest := ScoredOf(entries[1..]);
      assert entries[0] in entries;
      MeasureSplits(g, h, entries[1..]);
      assert entries[0].scored ==>
          ScoredOf(entries) == [ScenarioOf(entries[0])] + rest && ScoredOf(entries)[1..] == rest;
    }
  }

  /** Over the merged view, of known kinds: the shown revision's measure, and that of what is not scored. */
  lemma ViewMeasures(g: Entry -> int, h: Scenario -> int, spec: seq<Scenario>, diff: Option<Diff>)
    requires KnownKinds(spec)
    requires forall e: Entry :: e.scored && e.steps.Some? && e.origin.Some? ==> g(e) == h(ScenarioOf(e))
    ensures ETotal(g, EntriesOf(spec, diff)) == Total(h, spec) + ETotal(Unscored(g), EntriesOf(spec, diff))
  {
    ViewIsWhole(spec, diff);
    MeasureSplits(g, h, EntriesOf(spec, diff));
    ScoredAreShown(spec, diff);
    ByKindKeepsTotals(h, spec);
    NothingHidden(h, spec);
  }

  lemma {:induction false} ZeroExactly(g: Entry -> int, entries: seq<Entry>)
    requires forall e :: g(e) >= 0
    ensures ETotal(g, entries) >= 0
    ensures ETotal(g, entries) == 0 <==> forall e :: e in entries ==> g(e) == 0
  {
    if entries != [] {
      ZeroExactly(g, entries[1..]);
      assert forall e :: e in entries <==> e == entries[0] || e in entries[1..];
    }
  }

  /** A weight's list has as many entries as its factor counts. */
  lemma WeightListMatches(spec: seq<Scenario>, diff: Option<Diff>, rates: Rates, id: string)
    requires KnownKinds(spec)
    ensures var list := EntriesFor("weight-" + id, EntriesOf(spec, diff), rates);
            list.Some? && |list.value| == Total(Weighs(id), spec)
  {
    var factorId := "weight-" + id;
    var g := InList(factorId, rates);
    Halves("weight-", id);
    SelectCounts(factorId, EntriesOf(spec, diff), rates);
    ViewMeasures(g, Weighs(id), spec, diff);
    ZeroExactly(Unscored(g), EntriesOf(spec, diff));
  }

  lemma UnweighedListMatches(spec: seq<Scenario>, diff: Option<Diff>, rates: Rates)
    requires KnownKinds(spec)
    ensures var list := EntriesFor("unweighed", EntriesOf(spec, diff), rates);
            list.Some? && |list.value| == Total(CountsAsModerate(rates), spec)
  {
    var g := InList("unweighed", rates);
    forall e: Entry ensures g(e) == if e.scored && Unweighed(e.weight, rates) then 1 else 0 {
      ListedIs(e, rates);
    }
    SelectCounts("unweighed", EntriesOf(spec, diff), rates);
    ViewMeasures(g, CountsAsModerate(rates), spec, diff);
    ZeroExactly(Unscored(g), EntriesOf(spec, diff));
  }

  function HasTest(): Scenario -> int {
    (s: Scenario) => if HasOwnTest(s.weight) then 1 else 0
  }

  function TestedExtra(): Scenario -> int {
    (s: Scenario) => if HasOwnTest(s.weight) then Extra(s.steps) else 0
  }

  lemma {:induction false} TestedTotals(scenarios: seq<Scenario>)
    ensures |TestedOf(scenarios)| == Total(HasTest(), scenarios)
    ensures Total(ExtraOf(), TestedOf(scenarios)) == Total(TestedExtra(), scenarios)
  {
    if scenarios != [] {
      var rest := TestedOf(scenarios[1..]);
      TestedTotals(scenarios[1..]);
      assert ([scenarios[0]] + rest)[1..] == rest;
    }
  }

  lemma {:induction false} SameTotals(g: Entry -> int, h: Entry -> int, entries: seq<Entry>)
    requires forall e :: g(e) == h(e)
    ensures ETotal(g, entries) == ETotal(h, entries)
  {
    if entries != [] {
      SameTotals(g, h, entries[1..]);
    }
  }

  function OwnTest(): Entry -> int {
    (e: Entry) => if HasOwnTest(e.weight) then 1 else 0
  }

  function OwnExtra(): Entry -> int {
    (e: Entry) => ExtraIn(e)
  }

  lemma TestListCounts(entries: seq<Entry>, rates: Rates)
    ensures EntriesFor("test-cases", entries, rates).Some?
    ensures |EntriesFor("test-cases", entries, rates).value| == ETotal(OwnTest(), entries)
  {
    forall e: Entry ensures InList("test-cases", rates)(e) == OwnTest()(e) {
      ListedIs(e, rates);
    }
    SelectCounts("test-cases", entries, rates);
    SameTotals(InList("test-cases", rates), OwnTest(), entries);
  }

  lemma TestMeasuresAgree()
    ensures forall e: Entry :: e.scored && e.steps.Some? && e.origin.Some? ==> OwnTest()(e) == HasTest()(ScenarioOf(e))
  {
  }

  /** The test-cases list does not ask for scored entries: it matches
      its factor exactly when no other entry has a test. */
  lemma TestListMatchesExactly(spec: seq<Scenario>, diff: Option<Diff>, rates: Rates)
    requires KnownKinds(spec)
    ensures var view := EntriesOf(spec, diff); var list := EntriesFor("test-cases", view, rates);
            && list.Some? && |list.value| >= |TestedOf(spec)|
            && (|list.value| == |TestedOf(spec)| <==> forall e :: e in view && !e.scored ==> !HasOwnTest(e.weight))
  {
    var view := EntriesOf(spec, diff);
    hide EntriesOf, ETotal, Total, TestedOf, EntriesFor, HasOwnTest, KnownKinds, Unscored;
    TestListCounts(view, rates);
    TestMeasuresAgree();
    ViewMeasures(OwnTest(), HasTest(), spec, diff);
    TestedTotals(spec);
    NoneUnscored(view);
  }

  lemma NoneUnscored(view: seq<Entry>)
    ensures ETotal(Unscored(OwnTest()), view) >= 0
    ensures ETotal(Unscored(OwnTest()), view) == 0 <==> forall e :: e in view && !e.scored ==> !HasOwnTest(e.weight)
  {
    ZeroExactly(Unscored(OwnTest()), view);
    ZeroMeans(OwnTest(), view);
  }

  lemma ZeroMeans(g: Entry -> int, entries: seq<Entry>)
    ensures (forall e :: e in entries ==> Unscored(g)(e) == 0) <==> forall e :: e in entries && !e.scored ==> g(e) == 0
  {
    forall e: Entry ensures Unscored(g)(e) == if e.scored then 0 else g(e) {
    }
  }

  /** One of the other side's: what the diff adds or took out. */
  ghost predicate Marked(diff: Option<Diff>, e: Entry) {
    (exists s :: s in Gained(diff) && e == GainedEntry(s)) || (exists t :: t in Lost(diff) && e == LostEntry(t))
  }

  lemma UnscoredHolds(spec: seq<Scenario>, diff: Option<Diff>, e: Entry)
    ensures e in EntriesOf(spec, diff) && !e.scored <==> e.kind in KINDS && Marked(diff, e)
  {
    ViewHolds(spec, diff);
    GainedHolds(Gained(diff), e);
    LostHolds(Lost(diff), e);
  }

  /** The test-cases list matches its factor exactly when all the diff adds or takes out, of known kinds, is covered. */
  lemma TestListMatchesCoveredDiffs(spec: seq<Scenario>, diff: Option<Diff>, rates: Rates)
    requires KnownKinds(spec)
    ensures var list := EntriesFor("test-cases", EntriesOf(spec, diff), rates);
            list.Some? && (|list.value| == |TestedOf(spec)|
              <==> (forall s :: s in Gained(diff) && s.kind in KINDS ==> s.weight == Some("covered"))
                   && (forall t :: t in Lost(diff) && t.kind in KINDS ==> t.weight == "covered"))
  {
    var view := EntriesOf(spec, diff);
    TestListMatchesExactly(spec, diff, rates);
    forall e: Entry
      ensures HasOwnTest(e.weight) <==> e.weight != Some("covered")
      ensures e in view && !e.scored <==> e.kind in KINDS && Marked(diff, e)
    {
      OwnTestIsNotCovered(e.weight);
      UnscoredHolds(spec, diff, e);
    }
    assert forall s :: s in Gained(diff) && s.kind in KINDS ==>
             Marked(diff, GainedEntry(s)) && GainedEntry(s) in view && !GainedEntry(s).scored;
    assert forall t :: t in Lost(diff) && t.kind in KINDS ==>
             Marked(diff, LostEntry(t)) && LostEntry(t) in view && !LostEntry(t).scored;
  }

  /** The next revision gained one light scenario: the list opens onto it, the factor does not count it. */
  lemma GainedTestIsListed(s: Scenario, rates: Rates)
    requires s.kind == "happy" && s.weight == Some("light")
    ensures var list := EntriesFor("test-cases", NextView([], [s]), rates);
            list.Some? && |list.value| != |TestedOf([])|
  {
    var none: seq<Scenario> := [];
    var diff := Some(NextRevisionDiff(none, [s]));
    Revisions.TrimmedNone([s], Ids(none));
    assert s in Gained(diff) && KINDS[0] == "happy";
    TestListMatchesCoveredDiffs([], diff, rates);
  }

  lemma {:induction false} SelectKeepsExtra(entries: seq<Entry>, rates: Rates)
    ensures ETotal(OwnExtra(), Select("extra-checks", entries, rates)) == ETotal(OwnExtra(), entries)
  {
    if entries != [] {
      var rest := Select("extra-checks", entries[1..], rates);
      SelectKeepsExtra(entries[1..], rates);
      ListedIs(entries[0], rates);
      assert ([entries[0]] + rest)[1..] == rest;
    }
  }

  /** What the scored entries check past the first, and what the others do. */
  lemma ExtraOfView(spec: seq<Scenario>, diff: Option<Diff>)
    requires KnownKinds(spec)
    ensures var view := EntriesOf(spec, diff); var all := Total(ExtraOf(), TestedOf(spec));
            && ETotal(OwnExtra(), view) >= all
            && (ETotal(OwnExtra(), view) == all <==> forall e :: e in view && !e.scored ==> ExtraIn(e) == 0)
  {
    var view := EntriesOf(spec, diff);
    ViewMeasures(OwnExtra(), TestedExtra(), spec, diff);
    TestedTotals(spec);
    ZeroExactly(Unscored(OwnExtra()), view);
    ZeroMeans(OwnExtra(), view);
  }

  /**
   * Nor does the extra-checks list ask for scored entries. What its entries
   * check past the first is the factor's count exactly when no scenario the
   * diff adds, of a known kind and with a test, checks a second outcome.
   */
  lemma ExtraListMatchesExactly(spec: seq<Scenario>, diff: Option<Diff>, rates: Rates)
    requires KnownKinds(spec)
    ensures var list := EntriesFor("extra-checks", EntriesOf(spec, diff), rates);
            var all := Total(ExtraOf(), TestedOf(spec));
            && list.Some? && ETotal(OwnExtra(), list.value) >= all
            && (ETotal(OwnExtra(), list.value) == all
                <==> forall s :: s in Gained(diff) && s.kind in KINDS && s.weight != Some("covered") ==>
                       ChecksOf(s.steps) <= 1)
  {
    var view := EntriesOf(spec, diff);
    ExtraOfView(spec, diff);
    SelectKeepsExtra(view, rates);
    assert !StartsWith("extra-checks", "weight-") by {
      assert "weight-"[0] == 'w' && "extra-checks"[0] == 'e';
    }
    forall e: Entry
      ensures e in view && !e.scored <==> e.kind in KINDS && Marked(diff, e)
      ensures HasOwnTest(e.weight) <==> e.weight != Some("covered")
    {
      UnscoredHolds(spec, diff, e);
      OwnTestIsNotCovered(e.weight);
    }
    UnscoredExtra(diff, view);
  }

  lemma UnscoredExtra(diff: Option<Diff>, view: seq<Entry>)
    requires forall e :: e in view && !e.scored <==> e.kind in KINDS && Marked(diff, e)
    ensures (forall e :: e in view && !e.scored ==> ExtraIn(e) == 0)
       <==> forall s :: s in Gained(diff) && s.kind in KINDS && s.weight != Some("covered") ==> ChecksOf(s.steps) <= 1
  {
    hide ChecksOf;
    forall s | s in Gained(diff) && s.kind in KINDS
      ensures GainedEntry(s) in view && !GainedEntry(s).scored
      ensures ExtraIn(GainedEntry(s)) == 0 <==> s.weight == Some("covered") || ChecksOf(s.steps) <= 1
    {
      assert Marked(diff, GainedEntry(s));
      OwnTestIsNotCovered(s.weight);
    }
    forall e | e in view && !e.scored ensures ExtraIn(e) == 0 || exists s :: s in Gained(diff) && e == GainedEntry(s) {
      assert Marked(diff, e);
    }
  }

  /** The next revision gained one light scenario with two outcomes:
      the list opens onto a check the factor does not count. */
  lemma GainedCheckIsListed(s: Scenario, rates: Rates)
    requires s.kind == "happy" && s.weight == Some("light") && |s.steps| == 2
    requires s.steps[0].keyword == Then && s.steps[1].keyword == And
    ensures var list := EntriesFor("extra-checks", NextView([], [s]), rates);
            list.Some? && ETotal(OwnExtra(), list.value) > 0 == Total(ExtraOf(), TestedOf([]))
  {
    var none: seq<Scenario> := [];
    var diff := Some(NextRevisionDiff(none, [s]));
    Revisions.TrimmedNone([s], Ids(none));
    assert s.steps[1..][1..] == [];
    assert ChecksFrom(s.steps, false) == 1 + ChecksFrom(s.steps[1..], true);
    assert ChecksFrom(s.steps[1..], true) == 1 + ChecksFrom(s.steps[1..][1..], true);
    assert s in Gained(diff) && KINDS[0] == "happy" && |"light"| != |"covered"|;
    ExtraListMatchesExactly(none, diff, rates);
  }
}
