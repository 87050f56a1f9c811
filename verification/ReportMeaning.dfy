/**
  What a report's outcome and reasons stand for, in terms of its own fields and of the stored records.
 */
module ReportMeaning {
  import opened Wrappers
  import opened Ordering
  import opened ImportGraph
  import opened SearchInvariant
  import opened RuleReport

  predicate HasBudgetReason(r: Report) {
    "depth_limit" in r.reasons || "visited_node_limit" in r.reasons || "examined_edge_limit" in r.reasons
    || "total_examined_edge_limit" in r.reasons || "source_limit" in r.reasons
  }

  /** Pairs decide first, then a budget reason, then any reason. */
  predicate OutcomeRight(r: Report) {
    && (r.outcome == Violated <==> r.violatingPairs > 0)
    && (r.outcome == IncompleteDueToBudget <==> r.violatingPairs == 0 && HasBudgetReason(r))
    && (r.outcome == Unknown <==> r.violatingPairs == 0 && !HasBudgetReason(r) && r.reasons != {})
    && (r.outcome == SatisfiedWithinScope <==> r.violatingPairs == 0 && r.reasons == {})
  }

  /** The counts within their limits. */
  predicate CountsRight(r: Report, cap: Limits) {
    && |r.counterexamples| <= r.violatingPairs && |r.counterexamples| <= cap.maxCounterexamplesPerRule
    && |r.boundaries| <= r.boundariesTotal && |r.boundaries| <= cap.maxBoundariesPerRule
    && |r.stops| <= r.sourcesEvaluated && r.sourcesEvaluated <= r.sourcesTotal
    && r.sourcesEvaluated <= cap.maxSourcesPerRule && r.examinedEdges <= cap.maxTotalExaminedEdges
  }

  /** The lists in order, and each entry's reason among the reasons. */
  ghost predicate ListsRight(r: Report) {
    && (r.sourcesTotal == 0 <==> "empty_source_selection" in r.reasons)
    && (r.targetsTotal == 0 <==> "empty_target_selection" in r.reasons)
    && (forall e :: e in r.stops ==> e.reason in r.reasons) && (forall b :: b in r.boundaries ==> b.kind in r.reasons)
    && (forall i, j :: 0 <= i < j < |r.counterexamples| ==> !WitnessBefore(r.counterexamples[j], r.counterexamples[i]))
    && (forall i, j :: 0 <= i < j < |r.boundaries| ==> BoundaryLess(r.boundaries[i], r.boundaries[j]))
    && (forall i, j :: 0 <= i < j < |r.stops| ==> !StringLess(r.stops[j].source, r.stops[i].source))
    && (forall w :: w in r.counterexamples ==> EndsMatch(w))
  }

  predicate WitnessBefore(v: Witness, w: Witness) {
    StringLess(v.source, w.source) || (v.source == w.source && StringLess(v.target, w.target))
  }

  predicate EndsMatch(w: Witness) {
    |w.nodes| == |w.hops| + 1 == w.length + 1 && w.nodes[0] == w.source && w.nodes[w.length] == w.target
  }

  lemma BudgetReasonIs(r: Report)
    ensures HasBudgetReason(r) <==> r.reasons * BUDGET_REASONS != {}
  {
    if HasBudgetReason(r) {
      var x :| x in r.reasons && x in BUDGET_REASONS;
      assert x in r.reasons * BUDGET_REASONS;
    }
    if r.reasons * BUDGET_REASONS != {} {
      var x :| x in r.reasons * BUDGET_REASONS;
    }
  }

  lemma OutcomeIs(r: Report)
    ensures r.outcome == OutcomeOf(r.violatingPairs, r.reasons) <==> OutcomeRight(r)
  {
    hide BUDGET_REASONS, HasBudgetReason;
    BudgetReasonIs(r);
  }

  /** The validator accepts a report exactly when the outcome, the counts and the lists are right. */
  lemma ValidatorMeans(r: Report, cap: Limits)
    ensures ValidateRule(r, cap) == None <==> OutcomeRight(r) && CountsRight(r, cap) && ListsRight(r)
  {
    hide OutcomeOf, OutcomeRight, StringLess, BoundaryLess, PairLess, InSortedOrder, WitnessShape, WitnessBefore, EndsMatch,
         WitnessPairs, StopSources;
    OutcomeIs(r);
    WitnessOrderIs(r);
    StopOrderIs(r);
    ShapesAre(r);
  }

  lemma WitnessOrderIs(r: Report)
    ensures InSortedOrder(WitnessPairs(r.counterexamples), PairLess)
       <==> forall i, j :: 0 <= i < j < |r.counterexamples| ==> !WitnessBefore(r.counterexamples[j], r.counterexamples[i])
  {
    hide StringLess;
    var pairs := WitnessPairs(r.counterexamples);
    assert forall i, j :: 0 <= i < j < |pairs| ==> (PairLess(pairs[j], pairs[i]) <==> WitnessBefore(r.counterexamples[j], r.counterexamples[i]));
  }

  lemma StopOrderIs(r: Report)
    ensures InSortedOrder(StopSources(r.stops), StringLess)
       <==> forall i, j :: 0 <= i < j < |r.stops| ==> !StringLess(r.stops[j].source, r.stops[i].source)
  {
    hide StringLess;
    var sources := StopSources(r.stops);
    assert forall i, j :: 0 <= i < j < |sources| ==> (StringLess(sources[j], sources[i]) <==> StringLess(r.stops[j].source, r.stops[i].source));
  }

  lemma ShapesAre(r: Report)
    ensures (exists w :: w in r.counterexamples && !WitnessShape(w)) <==> !forall w :: w in r.counterexamples ==> EndsMatch(w)
  {
    forall w: Witness ensures WitnessShape(w) <==> EndsMatch(w) {}
  }

  // ----- the reasons

  ghost predicate StopListed(r: Report, reason: string) {
    exists e :: e in r.stops && e.reason == reason
  }

  ghost predicate KindFrom(db: Snapshot, sources: seq<string>, kind: string) {
    exists s, b: Boundary :: s in sources && BoundaryFrom(db, s, b) && b.kind == kind
  }

  /** A boundary reason stands for a boundary of an evaluated source, and for each of them if no search was stopped. */
  ghost predicate KindRight(db: Snapshot, rule: Rule, r: Report, kind: string) {
    var done := Evaluated(db, rule, r.sourcesEvaluated);
    && (kind in r.reasons ==> KindFrom(db, done, kind))
    && (r.stops == [] && KindFrom(db, done, kind) ==> kind in r.reasons)
  }

  /** Each of the eleven reasons, and nothing else. */
  ghost predicate ReasonsRight(db: Snapshot, cap: Limits, rule: Rule, r: Report) {
    var (sources, targets) := (|Selected(db, rule.sources)|, |Selected(db, rule.targets)|);
    && r.reasons <= {"depth_limit", "visited_node_limit", "examined_edge_limit", "total_examined_edge_limit", "source_limit",
                     "unresolved_import", "dynamic_import_call", "import_language_unsupported", "file_not_indexed",
                     "empty_source_selection", "empty_target_selection"}
    && ("empty_source_selection" in r.reasons <==> sources == 0)
    && ("empty_target_selection" in r.reasons <==> targets == 0)
    && ("source_limit" in r.reasons <==> targets > 0 && sources > cap.maxSourcesPerRule)
    && ("depth_limit" in r.reasons <==> StopListed(r, "depth_limit"))
    && ("visited_node_limit" in r.reasons <==> StopListed(r, "visited_node_limit"))
    && ("examined_edge_limit" in r.reasons <==> StopListed(r, "examined_edge_limit"))
    && ("total_examined_edge_limit" in r.reasons <==>
          StopListed(r, "total_examined_edge_limit")
          || (targets > 0 && r.sourcesEvaluated < sources && r.sourcesEvaluated < cap.maxSourcesPerRule))
    && KindRight(db, rule, r, "unresolved_import") && KindRight(db, rule, r, "dynamic_import_call")
    && KindRight(db, rule, r, "import_language_unsupported") && KindRight(db, rule, r, "file_not_indexed")
  }

  lemma StopReasonsLook(db: Snapshot, cap: Limits, rule: Rule, r: Report)
    requires StopsTrue(db, cap, rule, r)
    ensures "source_limit" !in StopReasons(r.stops)
    ensures forall reason :: reason in StopReasons(r.stops) <==> StopListed(r, reason)
  {
    hide Evaluated, Selected;
    assert |"source_limit"| == 12 && |"depth_limit"| == 11 && |"visited_node_limit"| == 18 && |"examined_edge_limit"| == 19
        && |"total_examined_edge_limit"| == 25;
    forall e | e in r.stops ensures e.reason != "source_limit" {
      assert StopTrue(db, cap, Selected(db, rule.targets), e);
    }
  }

  lemma LimitsLook(cap: Limits, sources: nat, targets: nat, evaluated: nat)
    ensures var limits := LimitReasons(cap, sources, targets, evaluated);
            && ("source_limit" in limits <==> targets > 0 && sources > cap.maxSourcesPerRule)
            && ("total_examined_edge_limit" in limits <==> targets > 0 && evaluated < sources && evaluated < cap.maxSourcesPerRule)
            && "depth_limit" !in limits && "visited_node_limit" !in limits && "examined_edge_limit" !in limits
  {
    assert |"source_limit"| == 12 && |"depth_limit"| == 11 && |"visited_node_limit"| == 18 && |"examined_edge_limit"| == 19
        && |"total_examined_edge_limit"| == 25;
  }

  lemma KindIsRight(db: Snapshot, cap: Limits, rule: Rule, r: Report, kind: string)
    requires (exists bs :: BoundariesCounted(db, cap, rule, r, bs)) && kind in BOUNDARY_KINDS
    ensures KindRight(db, rule, r, kind)
  {
    hide BOUNDARY_KINDS, BoundaryFrom, Evaluated, BoundaryLess;
    var bs :| BoundariesCounted(db, cap, rule, r, bs);
    assert kind in r.reasons <==> kind in r.reasons * BOUNDARY_KINDS;
  }

  lemma BudgetPart(db: Snapshot, cap: Limits, spent: nat, r: Report, reason: string)
    requires BudgetReasonsTrue(db, cap, spent, r) && reason in BUDGET_REASONS
    ensures reason in r.reasons
       <==> reason in StopReasons(r.stops) || reason in LimitReasons(cap, r.sourcesTotal, r.targetsTotal, r.sourcesEvaluated)
  {
    hide BUDGET_REASONS, StopReasons, LimitReasons;
    assert reason in r.reasons <==> reason in r.reasons * BUDGET_REASONS;
  }

  /** Every reason of a true report is there for what it names. */
  lemma ReasonsAreRight(db: Snapshot, cap: Limits, rule: Rule, spent: nat, r: Report)
    requires ReportTrue(db, cap, rule, spent, r)
    ensures ReasonsRight(db, cap, rule, r) && OutcomeRight(r)
  {
    hide WitnessesTrue, BoundariesCounted, Evaluated, Selected, KindRight, StopsTrue, StopReasons, LimitReasons, BudgetReasonsTrue,
         ListsRight, CountsRight, OutcomeRight, ValidateRule, StopListed, WorkAddsUp;
    ValidatorMeans(r, cap);
    ListedEmpties(r);
    StopReasonsLook(db, cap, rule, r);
    LimitsLook(cap, r.sourcesTotal, r.targetsTotal, r.sourcesEvaluated);
    KnownReasons(db, cap, spent, r);
    BudgetPart(db, cap, spent, r, "depth_limit");
    BudgetPart(db, cap, spent, r, "visited_node_limit");
    BudgetPart(db, cap, spent, r, "examined_edge_limit");
    BudgetPart(db, cap, spent, r, "total_examined_edge_limit");
    BudgetPart(db, cap, spent, r, "source_limit");
    KindIsRight(db, cap, rule, r, "unresolved_import");
    KindIsRight(db, cap, rule, r, "dynamic_import_call");
    KindIsRight(db, cap, rule, r, "import_language_unsupported");
    KindIsRight(db, cap, rule, r, "file_not_indexed");
  }

  lemma ListedEmpties(r: Report)
    ensures ListsRight(r) ==>
              (r.sourcesTotal == 0 <==> "empty_source_selection" in r.reasons)
              && (r.targetsTotal == 0 <==> "empty_target_selection" in r.reasons)
  {}

  lemma KnownReasons(db: Snapshot, cap: Limits, spent: nat, r: Report)
    requires BudgetReasonsTrue(db, cap, spent, r)
    ensures r.reasons <= {"depth_limit", "visited_node_limit", "examined_edge_limit", "total_examined_edge_limit", "source_limit",
                          "unresolved_import", "dynamic_import_call", "import_language_unsupported", "file_not_indexed",
                          "empty_source_selection", "empty_target_selection"}
  {}

  // ----- the verdict on the database

  /** Without a budget reason `violated` means that a supported source violates the rule. And `satisfied_within_scope` means
      that no budget was exceeded, both selections are nonempty, nothing violates, and every source is fully resolved. */
  lemma VerdictIsExact(db: Snapshot, cap: Limits, rule: Rule, spent: nat, r: Report)
    requires ReportTrue(db, cap, rule, spent, r)
    ensures !HasBudgetReason(r) ==> (r.outcome == Violated <==> exists s, t :: Violates(db, rule, s, t) && PythonFile(db, s))
    ensures r.outcome == SatisfiedWithinScope <==>
              && !HasBudgetReason(r) && Selected(db, rule.sources) != {} && Selected(db, rule.targets) != {}
              && (forall s, t :: !Violates(db, rule, s, t))
              && (forall s :: s in Selected(db, rule.sources) ==> FullyResolved(db, s))
  {
    hide Selected, FullyResolved, Violates, PythonFile, HasBudgetReason, ReportTrue, OutcomeRight, BUDGET_REASONS;
    VerdictIsTrue(db, cap, rule, spent, r);
    BudgetReasonIs(r);
    assert OutcomeRight(r) by { ReasonsAreRight(db, cap, rule, spent, r); }
    OutcomeFields(r);
    if !HasBudgetReason(r) {
      SupportedViolations(db, cap, rule, spent, r);
      if Selected(db, rule.sources) != {} && Selected(db, rule.targets) != {}
         && forall s :: s in Selected(db, rule.sources) ==> FullyResolved(db, s) {
        NothingToReport(db, cap, rule, spent, r);
      }
    }
  }

  lemma OutcomeFields(r: Report)
    requires OutcomeRight(r)
    ensures r.outcome == Violated <==> r.violatingPairs > 0
    ensures r.outcome == SatisfiedWithinScope <==> r.violatingPairs == 0 && r.reasons == {}
    ensures r.reasons == {} ==> !HasBudgetReason(r)
  {}

  lemma SupportedViolations(db: Snapshot, cap: Limits, rule: Rule, spent: nat, r: Report)
    requires ReportTrue(db, cap, rule, spent, r) && r.reasons * BUDGET_REASONS == {}
    ensures r.violatingPairs > 0 <==> exists s, t :: Violates(db, rule, s, t) && PythonFile(db, s)
  {
    hide ReportTrue, Violates, BUDGET_REASONS, Admissible, PythonFile;
    BudgetFreeIsComplete(db, cap, rule, spent, r);
    var found: set<(string, string)> :|
      |found| == r.violatingPairs && forall s, t :: (s, t) in found <==> Violates(db, rule, s, t) && Admissible(db, s);
    forall s ensures Admissible(db, s) <==> PythonFile(db, s) { ClassifyMeans(db, s, ""); }
    SomePair(found);
  }

  /** Without a budget reason, fully resolved sources leave no reason at all. */
  lemma NothingToReport(db: Snapshot, cap: Limits, rule: Rule, spent: nat, r: Report)
    requires ReportTrue(db, cap, rule, spent, r) && r.reasons * BUDGET_REASONS == {}
    requires Selected(db, rule.sources) != {} && Selected(db, rule.targets) != {}
    requires forall s :: s in Selected(db, rule.sources) ==> FullyResolved(db, s)
    ensures r.reasons == {}
  {
    hide ReportTrue, Selected, Evaluated, FullyResolved, ReasonsRight, BUDGET_REASONS, OutcomeRight, HasBudgetReason, KindFrom;
    ReasonsAreRight(db, cap, rule, spent, r);
    BudgetReasonIs(r);
    EvaluatedSelected(db, rule, r.sourcesEvaluated);
    forall kind ensures !KindFrom(db, Evaluated(db, rule, r.sourcesEvaluated), kind) {
      NoKind(db, Evaluated(db, rule, r.sourcesEvaluated), kind);
    }
    NoneLeft(db, cap, rule, r);
  }

  lemma NoKind(db: Snapshot, sources: seq<string>, kind: string)
    requires forall s :: s in sources ==> FullyResolved(db, s)
    ensures !KindFrom(db, sources, kind)
  {
    hide FullyResolved, BoundaryFrom;
    forall s, b: Boundary | s in sources ensures !BoundaryFrom(db, s, b) { ResolvedHasNone(db, s, b); }
  }

  lemma NoneLeft(db: Snapshot, cap: Limits, rule: Rule, r: Report)
    requires ReasonsRight(db, cap, rule, r) && !HasBudgetReason(r)
    requires Selected(db, rule.sources) != {} && Selected(db, rule.targets) != {}
    requires forall kind :: !KindFrom(db, Evaluated(db, rule, r.sourcesEvaluated), kind)
    ensures r.reasons == {}
  {
    hide Selected, Evaluated, KindFrom, StopListed;
    assert |Selected(db, rule.sources)| > 0 && |Selected(db, rule.targets)| > 0;
  }

  lemma ResolvedHasNone(db: Snapshot, s: string, b: Boundary)
    requires FullyResolved(db, s)
    ensures !BoundaryFrom(db, s, b)
  {
    hide Reachable, IsBoundaryOf;
  }

  /** A fully resolved source: every file it reaches is an indexed python file without a dynamic import call, and each of its
      stored rows is resolved, with a target in such a file. */
  lemma ResolvedMeans(db: Snapshot, source: string, p: string, k: nat)
    requires FullyResolved(db, source) && Reachable(db, source, p)
    ensures p in db.observations && db.observations[p] == Observation("python", "indexed") && db.dynamicCall(p) == None
    ensures k < |db.imports(p)| ==>
              var row := db.imports(p)[k];
              && (row.resolution == "EXTRACTED" || row.resolution == "INFERRED") && row.target.Some?
              && var q := db.entityPath(row.target.value);
                 q in db.observations && db.observations[q] == Observation("python", "indexed")
  {
    hide Reachable, IsBoundaryOf;
    assert forall b :: !IsBoundaryOf(db, p, b);
    ReachedSupported(db, source, p);
    UnreportedFile(db, p);
    if k < |db.imports(p)| { RowMeans(db, p, db.imports(p)[k], Boundary("", "", "")); }
  }

  lemma UnreportedFile(db: Snapshot, p: string)
    requires forall b :: !IsBoundaryOf(db, p, b)
    ensures db.dynamicCall(p) == None
    ensures forall k :: 0 <= k < |db.imports(p)| ==> RowBoundary(db, p, db.imports(p)[k]) == None
  {
    hide RowBoundary;
    var call := db.dynamicCall(p);
    assert call.Some? ==> IsBoundaryOf(db, p, Boundary("dynamic_import_call", p, call.value));
    forall k | 0 <= k < |db.imports(p)| ensures RowBoundary(db, p, db.imports(p)[k]) == None {
      var b := RowBoundary(db, p, db.imports(p)[k]);
      assert b.Some? ==> IsBoundaryOf(db, p, b.value);
    }
  }

  lemma ReachedSupported(db: Snapshot, source: string, p: string)
    requires Admissible(db, source) && Reachable(db, source, p)
    ensures PythonFile(db, p)
  {
    var steps :| Chain(db, source, steps, p);
    if steps != [] { assert IsImport(db, steps[|steps| - 1]); }
    ClassifyMeans(db, p, "");
  }
}
