/**
  The report of one forbidden-import rule, `_validate_rule`, and what it means for a report to be true.
 */
module RuleReport {
  import opened Wrappers
  import opened Ordering
  import opened Selectors
  import opened ImportGraph
  import opened SearchInvariant

  datatype Rule = Rule(index: nat, id: string, sources: seq<Selector>, targets: seq<Selector>)

  datatype Outcome = Violated | IncompleteDueToBudget | Unknown | SatisfiedWithinScope

  /** A counterexample: the files along a chain and its import steps. */
  datatype Witness = Witness(source: string, target: string, length: nat, nodes: seq<string>, hops: seq<Step>)

  datatype StopEntry = StopEntry(source: string, reason: string, depth: nat, visitedFiles: nat, examinedEdges: nat)

  datatype Report = Report(
    index: nat,
    id: string,
    outcome: Outcome,
    reasons: set<string>,
    sourcesTotal: nat,
    sourcesEvaluated: nat,
    targetsTotal: nat,
    violatingPairs: nat,
    boundariesTotal: nat,
    examinedEdges: nat,
    visitedFiles: nat,
    counterexamples: seq<Witness>,
    boundaries: seq<Boundary>,
    stops: seq<StopEntry>)

  const BUDGET_REASONS: set<string> :=
    {"depth_limit", "visited_node_limit", "examined_edge_limit", "total_examined_edge_limit", "source_limit"}
  const BOUNDARY_KINDS: set<string> :=
    {"unresolved_import", "dynamic_import_call", "import_language_unsupported", "file_not_indexed"}
  const EMPTY_SELECTIONS: set<string> := {"empty_source_selection", "empty_target_selection"}
  const UNKNOWN_REASONS: set<string> := BOUNDARY_KINDS + EMPTY_SELECTIONS

  lemma ReasonsDistinct()
    ensures BUDGET_REASONS !! EMPTY_SELECTIONS && BOUNDARY_KINDS !! EMPTY_SELECTIONS && BUDGET_REASONS !! BOUNDARY_KINDS
    ensures "empty_source_selection" != "empty_target_selection" && "source_limit" != "total_examined_edge_limit"
  {
    hide BUDGET_REASONS, BOUNDARY_KINDS, EMPTY_SELECTIONS;
    BudgetReasonsLook();
    BoundaryKindsLook();
    EmptySelectionsLook();
    LimitsDiffer();
  }

  lemma LimitsDiffer()
    ensures "source_limit" != "total_examined_edge_limit"
  {
    assert "source_limit"[0] == 's' && "total_examined_edge_limit"[0] == 't';
  }

  lemma EmptySelectionsLook()
    ensures forall r :: r in EMPTY_SELECTIONS ==> |r| == 22
    ensures "empty_source_selection" != "empty_target_selection"
  {
    var (e, f) := ("empty_source_selection", "empty_target_selection");
    assert |e| == |f| == 22 && e[6] != f[6];
  }

  lemma BudgetReasonsLook()
    ensures forall r :: r in BUDGET_REASONS ==> |r| !in {16, 17, 22, 27} && (|r| == 19 ==> r[0] == 'e')
  {
    var r := "examined_edge_limit";
    assert |r| == 19 && r[0] == 'e';
  }

  lemma BoundaryKindsLook()
    ensures forall r :: r in BOUNDARY_KINDS ==> |r| in {16, 17, 19, 27} && (|r| == 19 ==> r[0] == 'd')
  {
    var r := "dynamic_import_call";
    assert |r| == 19 && r[0] == 'd';
  }

  function StopName(stop: Stop): (name: string)
    ensures name in BUDGET_REASONS
  {
    match stop
    case DepthLimit => "depth_limit"
    case VisitedNodeLimit => "visited_node_limit"
    case ExaminedEdgeLimit => "examined_edge_limit"
    case TotalExaminedEdgeLimit => "total_examined_edge_limit"
  }

  function OutcomeOf(pairs: nat, reasons: set<string>): Outcome {
    if pairs > 0 then Violated
    else if reasons * BUDGET_REASONS != {} then IncompleteDueToBudget
    else if reasons != {} then Unknown
    else SatisfiedWithinScope
  }

  // ----- orders of the report's lists

  predicate PairLess(a: (string, string), b: (string, string)) {
    StringLess(a.0, b.0) || (a.0 == b.0 && StringLess(a.1, b.1))
  }

  predicate BoundaryLess(a: Boundary, b: Boundary) {
    || StringLess(a.kind, b.kind)
    || (a.kind == b.kind && (StringLess(a.path, b.path) || (a.path == b.path && StringLess(a.id, b.id))))
  }

  lemma BoundaryOrder()
    ensures StrictTotal(BoundaryLess)
  {
    StringOrder();
    hide StringLess;
  }

  lemma PairOrder()
    ensures StrictTotal(PairLess)
  {
    StringOrder();
    hide StringLess;
  }

  /** A list equals its sorted form: nothing is less than something before it. */
  predicate InSortedOrder<T>(s: seq<T>, less: (T, T) -> bool) {
    forall i, j :: 0 <= i < j < |s| ==> !less(s[j], s[i])
  }

  // ----- the closed report's semantic rules

  function WitnessPairs(examples: seq<Witness>): seq<(string, string)> {
    seq(|examples|, i requires 0 <= i < |examples| => (examples[i].source, examples[i].target))
  }

  function StopSources(stops: seq<StopEntry>): seq<string> {
    seq(|stops|, i requires 0 <= i < |stops| => stops[i].source)
  }

  predicate WitnessShape(w: Witness) {
    && w.length == |w.hops| && |w.nodes| == |w.hops| + 1
    && w.nodes[0] == w.source && w.nodes[|w.nodes| - 1] == w.target
  }

  /** `_validate_rule`: the first failing check, or None. */
  function ValidateRule(r: Report, cap: Limits): Option<string> {
    if r.outcome != OutcomeOf(r.violatingPairs, r.reasons) then Some("outcome")
    else if !(&& |r.counterexamples| <= r.violatingPairs
              && |r.counterexamples| <= cap.maxCounterexamplesPerRule
              && |r.boundaries| <= r.boundariesTotal
              && |r.boundaries| <= cap.maxBoundariesPerRule
              && |r.stops| <= r.sourcesEvaluated
              && r.sourcesEvaluated <= cap.maxSourcesPerRule
              && r.sourcesEvaluated <= r.sourcesTotal
              && r.examinedEdges <= cap.maxTotalExaminedEdges) then Some("counts")
    else if || (r.sourcesTotal == 0) != ("empty_source_selection" in r.reasons)
            || (r.targetsTotal == 0) != ("empty_target_selection" in r.reasons)
            || (exists s :: s in r.stops && s.reason !in r.reasons)
            || (exists b :: b in r.boundaries && b.kind !in r.reasons) then Some("reasons")
    else if !InSortedOrder(WitnessPairs(r.counterexamples), PairLess) then Some("witness order")
    else if exists w :: w in r.counterexamples && !WitnessShape(w) then Some("witness shape")
    else if !Ascending(r.boundaries, BoundaryLess) then Some("boundary order")
    else if !InSortedOrder(StopSources(r.stops), StringLess) then Some("stop order")
    else None
  }

  // ----- what a rule is about

  function Universe(db: Snapshot): (u: seq<string>)
    ensures Ascending(u, StringLess)
  {
    StringOrder();
    Sorted(db.observations.Keys, StringLess)
  }

  ghost function Selected(db: Snapshot, selectors: seq<Selector>): set<string> {
    set p, s | s in selectors && p in db.observations && Matches(s, p) :: p
  }

  /** The rule's true violations: a selected source imports a selected target. */
  ghost predicate Violates(db: Snapshot, rule: Rule, source: string, target: string) {
    source in Selected(db, rule.sources) && target in Selected(db, rule.targets) && Imports(db, source, target)
  }

  /** Every file the source reaches is indexed and supported, imports only such files, and hides no dynamic import. */
  ghost predicate FullyResolved(db: Snapshot, source: string) {
    && Admissible(db, source)
    && forall p, b :: Reachable(db, source, p) ==> !IsBoundaryOf(db, p, b)
  }

  /** A witness is a shortest chain of real imports. */
  ghost predicate WitnessTrue(db: Snapshot, cap: Limits, w: Witness) {
    && WitnessShape(w) && w.length <= cap.maxDepth
    && Shortest(db, w.source, w.hops, w.target)
    && forall i :: 0 <= i < |w.hops| ==> w.hops[i].before == w.nodes[i] && w.hops[i].after == w.nodes[i + 1]
  }

  /** The boundaries a source leads to: those of the files it reaches, or its own refusal. */
  ghost predicate BoundaryFrom(db: Snapshot, source: string, b: Boundary) {
    if Admissible(db, source) then exists p :: Reachable(db, source, p) && IsBoundaryOf(db, p, b)
    else b == Boundary(Classify(db, source).value, source, "")
  }

  /** The search stopped with `files` visited, all of them within its depth among them, and with something left. */
  ghost predicate StoppedAt(db: Snapshot, cap: Limits, targets: set<string>, e: StopEntry, files: set<string>) {
    && |files| == e.visitedFiles <= cap.maxVisitedNodes
    && e.depth <= cap.maxDepth
    && e.examinedEdges <= cap.maxExaminedEdges && e.examinedEdges <= RowsOf(db, files)
    && (forall v :: v in files ==> Reachable(db, e.source, v))
    && (forall steps, v :: Chain(db, e.source, steps, v) && |steps| <= e.depth ==> v in files)
    && (|| (e.reason == "depth_limit" && e.depth == cap.maxDepth && exists q :: MissedAt(db, e.source, targets, files, e.depth, q))
        || (e.reason == "visited_node_limit" && e.visitedFiles == cap.maxVisitedNodes
            && exists q :: q !in files && Reachable(db, e.source, q))
        || (e.reason == "examined_edge_limit" && e.examinedEdges == cap.maxExaminedEdges < RowsOf(db, files))
        || (e.reason == "total_examined_edge_limit" && e.examinedEdges < RowsOf(db, files)))
  }

  /** A new file or a target whose nonempty distance is exactly one more than `d`. */
  ghost predicate MissedAt(db: Snapshot, source: string, targets: set<string>, files: set<string>, d: nat, q: string) {
    (q !in files || q in targets) && ChainOfLength(db, source, q, d + 1) && NoneShorter(db, source, q, d + 1)
  }

  ghost predicate StopTrue(db: Snapshot, cap: Limits, targets: set<string>, e: StopEntry) {
    Admissible(db, e.source) && exists files :: StoppedAt(db, cap, targets, e, files)
  }

  // ----- what a report says, and when it is true

  function Pairs(r: Report): set<(string, string)> {
    set w | w in r.counterexamples :: (w.source, w.target)
  }

  predicate Exhaustive(r: Report) {
    r.violatingPairs == |r.counterexamples| && r.reasons == {}
  }

  function Min(a: nat, b: nat): nat { if a <= b then a else b }

  /** The selected sources in order, up to the `n`-th. */
  ghost function Evaluated(db: Snapshot, rule: Rule, n: nat): seq<string> {
    StringOrder();
    var sources := Sorted(Selected(db, rule.sources), StringLess);
    sources[..Min(n, |sources|)]
  }

  ghost predicate StoppedFor(stops: seq<StopEntry>, source: string) {
    exists e :: e in stops && e.source == source
  }

  function StopReasons(stops: seq<StopEntry>): set<string> {
    set e | e in stops :: e.reason
  }

  ghost predicate CountsTrue(db: Snapshot, cap: Limits, rule: Rule, spent: nat, r: Report) {
    && r.index == rule.index && r.id == rule.id
    && r.sourcesTotal == |Selected(db, rule.sources)| && r.targetsTotal == |Selected(db, rule.targets)|
    && spent + r.examinedEdges <= cap.maxTotalExaminedEdges
    && r.sourcesEvaluated <= MostSources(cap, r.sourcesTotal, r.targetsTotal)
  }

  /** How many sources are searched when the run's budget lasts. */
  function MostSources(cap: Limits, sourcesTotal: nat, targetsTotal: nat): nat {
    if targetsTotal == 0 then 0 else Min(sourcesTotal, cap.maxSourcesPerRule)
  }

  /** `found` are the violating pairs counted: all those of each admissible source whose search was not stopped. The
      counterexamples show the first of them. */
  ghost predicate PairsCounted(db: Snapshot, cap: Limits, rule: Rule, r: Report, found: set<(string, string)>) {
    var done := Evaluated(db, rule, r.sourcesEvaluated);
    && |found| == r.violatingPairs
    && (forall s, t :: (s, t) in found ==> s in done && Admissible(db, s) && Violates(db, rule, s, t))
    && (forall s, t :: s in done && Admissible(db, s) && !StoppedFor(r.stops, s) && Violates(db, rule, s, t) ==> (s, t) in found)
    && Pairs(r) <= found && |Pairs(r)| == |r.counterexamples| == Min(r.violatingPairs, cap.maxCounterexamplesPerRule)
    && (forall p, q :: p in Pairs(r) && q in found && q !in Pairs(r) ==> PairLess(p, q))
  }

  ghost predicate WitnessesTrue(db: Snapshot, cap: Limits, rule: Rule, r: Report) {
    && (forall w :: w in r.counterexamples ==> WitnessTrue(db, cap, w) && Violates(db, rule, w.source, w.target))
    && exists found :: PairsCounted(db, cap, rule, r, found)
  }

  ghost predicate StopsTrue(db: Snapshot, cap: Limits, rule: Rule, r: Report) {
    forall e :: e in r.stops ==>
      e.source in Evaluated(db, rule, r.sourcesEvaluated) && StopTrue(db, cap, Selected(db, rule.targets), e)
  }

  /** `bs` are the boundaries counted: all those of each source whose search was not stopped. The report lists the first. */
  ghost predicate BoundariesCounted(db: Snapshot, cap: Limits, rule: Rule, r: Report, bs: set<Boundary>) {
    var done := Evaluated(db, rule, r.sourcesEvaluated);
    && |bs| == r.boundariesTotal
    && (forall b :: b in bs ==> exists s :: s in done && BoundaryFrom(db, s, b))
    && (forall s, b :: s in done && !StoppedFor(r.stops, s) && BoundaryFrom(db, s, b) ==> b in bs)
    && (forall b :: b in r.boundaries ==> b in bs) && |r.boundaries| == Min(|bs|, cap.maxBoundariesPerRule)
    && (forall b, c :: b in r.boundaries && c in bs && c !in r.boundaries ==> BoundaryLess(b, c))
    && r.reasons * BOUNDARY_KINDS == set b | b in bs :: b.kind
  }

  /** One source's share of the report's work: its stop entry's, or that of all the files it reaches. */
  ghost predicate SourceWork(db: Snapshot, stops: seq<StopEntry>, source: string, edges: int, visited: int) {
    if StoppedFor(stops, source) then
      exists e :: e in stops && e.source == source && edges == e.examinedEdges && visited == e.visitedFiles
    else if Admissible(db, source) then
      exists files :: ReachedFiles(db, source, files) && edges == RowsOf(db, files) && visited == |files|
    else edges == visited == 0
  }

  /** The sources' shares add up to `edges` and `visited`. */
  ghost predicate WorkAddsUp(db: Snapshot, stops: seq<StopEntry>, sources: seq<string>, edges: nat, visited: nat) {
    if sources == [] then edges == visited == 0
    else
      var (front, last) := (sources[..|sources| - 1], sources[|sources| - 1]);
      exists e: nat, v: nat :: WorkAddsUp(db, stops, front, e, v) && SourceWork(db, stops, last, edges - e, visited - v)
  }

  /** The run's budget ends a search or keeps a source from being searched only when it is spent to the last row. */
  ghost predicate BudgetReasonsTrue(db: Snapshot, cap: Limits, spent: nat, r: Report) {
    var most := MostSources(cap, r.sourcesTotal, r.targetsTotal);
    && r.reasons <= BUDGET_REASONS + UNKNOWN_REASONS
    && r.reasons * BUDGET_REASONS == StopReasons(r.stops) + LimitReasons(cap, r.sourcesTotal, r.targetsTotal, r.sourcesEvaluated)
    && ("total_examined_edge_limit" in r.reasons ==> spent + r.examinedEdges == cap.maxTotalExaminedEdges)
  }

  /** The reasons that stand for sources not searched. */
  function LimitReasons(cap: Limits, sourcesTotal: nat, targetsTotal: nat, evaluated: nat): set<string> {
    (if targetsTotal > 0 && sourcesTotal > cap.maxSourcesPerRule then {"source_limit"} else {})
    + (if evaluated < MostSources(cap, sourcesTotal, targetsTotal) then {"total_examined_edge_limit"} else {})
  }

  /** What the report of a rule guarantees, at any limits, with `spent` rows examined by the run before. */
  ghost predicate ReportTrue(db: Snapshot, cap: Limits, rule: Rule, spent: nat, r: Report) {
    && ValidateRule(r, cap) == None
    && CountsTrue(db, cap, rule, spent, r)
    && WitnessesTrue(db, cap, rule, r)
    && StopsTrue(db, cap, rule, r)
    && (exists bs :: BoundariesCounted(db, cap, rule, r, bs))
    && WorkAddsUp(db, r.stops, Evaluated(db, rule, r.sourcesEvaluated), r.examinedEdges, r.visitedFiles)
    && BudgetReasonsTrue(db, cap, spent, r)
  }

  // ----- what follows from a true report

  lemma EvaluatedSelected(db: Snapshot, rule: Rule, n: nat)
    ensures forall s :: s in Evaluated(db, rule, n) ==> s in Selected(db, rule.sources)
    ensures n >= |Selected(db, rule.sources)| ==> forall s :: s in Selected(db, rule.sources) ==> s in Evaluated(db, rule, n)
  {
    StringOrder();
    hide StringLess, Selected;
    var sources := Sorted(Selected(db, rule.sources), StringLess);
    forall s | s in Evaluated(db, rule, n) ensures s in Selected(db, rule.sources) { assert s in sources; }
  }

  lemma NoStops(stops: seq<StopEntry>)
    ensures StopReasons(stops) == {} ==> stops == []
  {
    if stops != [] {
      assert stops[0] in stops;
      assert stops[0].reason in StopReasons(stops);
    }
  }

  lemma BudgetFree(db: Snapshot, cap: Limits, rule: Rule, spent: nat, r: Report)
    requires ReportTrue(db, cap, rule, spent, r)
    ensures r.reasons * BUDGET_REASONS == {}
       <==> r.stops == [] && LimitReasons(cap, r.sourcesTotal, r.targetsTotal, r.sourcesEvaluated) == {}
  {
    hide ValidateRule, WitnessesTrue, StopsTrue, BoundariesCounted, CountsTrue, LimitReasons, BUDGET_REASONS;
    NoStops(r.stops);
  }

  lemma NoBudgetReason(db: Snapshot, cap: Limits, rule: Rule, spent: nat, r: Report)
    requires ReportTrue(db, cap, rule, spent, r) && r.reasons * BUDGET_REASONS == {}
    ensures r.stops == [] && r.sourcesEvaluated == MostSources(cap, r.sourcesTotal, r.targetsTotal)
    ensures r.targetsTotal > 0 ==> r.sourcesEvaluated == r.sourcesTotal
    ensures r.targetsTotal > 0 ==> forall s :: s in Selected(db, rule.sources) ==> s in Evaluated(db, rule, r.sourcesEvaluated)
  {
    hide ValidateRule, WitnessesTrue, StopsTrue, BoundariesCounted, Evaluated, Selected, BUDGET_REASONS;
    NoStops(r.stops);
    assert r.sourcesTotal > cap.maxSourcesPerRule && r.targetsTotal > 0 ==> "source_limit" in r.reasons * BUDGET_REASONS;
    EvaluatedSelected(db, rule, r.sourcesEvaluated);
  }

  /** Without a budget reason the pairs counted are all violations of the admissible sources, boundaries or not. */
  lemma BudgetFreeIsComplete(db: Snapshot, cap: Limits, rule: Rule, spent: nat, r: Report)
    requires ReportTrue(db, cap, rule, spent, r) && r.reasons * BUDGET_REASONS == {}
    ensures exists found: set<(string, string)> ::
              |found| == r.violatingPairs && forall s, t :: (s, t) in found <==> Violates(db, rule, s, t) && Admissible(db, s)
  {
    hide ValidateRule, StopsTrue, BoundariesCounted, BudgetReasonsTrue, Evaluated, Selected, BUDGET_REASONS, Admissible, Imports,
         WitnessTrue, PairLess;
    NoBudgetReason(db, cap, rule, spent, r);
    var found :| PairsCounted(db, cap, rule, r, found);
    assert r.targetsTotal == 0 ==> Selected(db, rule.targets) == {};
  }

  /** What the verdict means: `violated` has a real violation, an exhaustive report lists all of them, and
      `satisfied_within_scope` means that there is none and everything the sources reach is resolved. */
  lemma VerdictIsTrue(db: Snapshot, cap: Limits, rule: Rule, spent: nat, r: Report)
    requires ReportTrue(db, cap, rule, spent, r)
    ensures r.outcome == Violated ==> exists s, t :: Violates(db, rule, s, t)
    ensures Exhaustive(r) ==> forall s, t :: Violates(db, rule, s, t) ==> (s, t) in Pairs(r)
    ensures r.outcome == SatisfiedWithinScope ==>
              && (forall s, t :: !Violates(db, rule, s, t))
              && (forall s :: s in Selected(db, rule.sources) ==> FullyResolved(db, s))
              && Selected(db, rule.sources) != {} && Selected(db, rule.targets) != {}
  {
    hide WitnessTrue, Shortest, StopsTrue, BoundariesCounted, BudgetReasonsTrue, Evaluated, Selected, FullyResolved, Imports, Admissible,
         PairLess, InSortedOrder, Ascending;
    var found :| PairsCounted(db, cap, rule, r, found);
    SomePair(found);
    if r.reasons == {} {
      EverythingSettled(db, cap, rule, spent, r);
      forall s, t | Violates(db, rule, s, t) ensures (s, t) in found {}
      if Exhaustive(r) { SameSize(Pairs(r), found); }
    }
  }

  lemma SomePair(found: set<(string, string)>)
    ensures |found| > 0 ==> exists s, t :: (s, t) in found
    ensures |found| == 0 ==> found == {}
  {
    if |found| > 0 {
      var p :| p in found;
      assert (p.0, p.1) in found;
    }
  }

  lemma SameSize<T>(some: set<T>, all: set<T>)
    requires some <= all && |some| == |all|
    ensures some == all
  {
    assert some + (all - some) == all;
  }

  /** A report without reasons comes from admissible, fully resolved sources, all of them searched to the end. */
  lemma EverythingSettled(db: Snapshot, cap: Limits, rule: Rule, spent: nat, r: Report)
    requires ReportTrue(db, cap, rule, spent, r) && r.reasons == {}
    ensures r.stops == [] && r.sourcesTotal > 0 && r.targetsTotal > 0
    ensures forall s :: s in Selected(db, rule.sources) ==>
              s in Evaluated(db, rule, r.sourcesEvaluated) && FullyResolved(db, s) && Admissible(db, s)
  {
    hide WitnessesTrue, StopsTrue, Evaluated, Selected, Imports, Admissible, PairLess, InSortedOrder, Ascending,
         BUDGET_REASONS, BOUNDARY_KINDS, BoundaryFrom, FullyResolved;
    NoBudgetReason(db, cap, rule, spent, r);
    var bs :| BoundariesCounted(db, cap, rule, r, bs);
    assert forall b: Boundary :: b in bs ==> b.kind in r.reasons * BOUNDARY_KINDS;
    forall s | s in Selected(db, rule.sources)
      ensures s in Evaluated(db, rule, r.sourcesEvaluated) && FullyResolved(db, s) && Admissible(db, s)
    {
      assert s in Evaluated(db, rule, r.sourcesEvaluated);
      assert forall b :: !BoundaryFrom(db, s, b);
      NoBoundaryResolves(db, s);
    }
  }

  lemma NoBoundaryResolves(db: Snapshot, source: string)
    requires forall b :: !BoundaryFrom(db, source, b)
    ensures FullyResolved(db, source) && Admissible(db, source)
  {
    hide Reachable, IsBoundaryOf;
    var refusal := Classify(db, source);
    assert refusal.Some? ==> !BoundaryFrom(db, source, Boundary(refusal.value, source, ""));
    forall p, b | Reachable(db, source, p)
      ensures !IsBoundaryOf(db, p, b)
    {
      assert !BoundaryFrom(db, source, b);
    }
  }
}
