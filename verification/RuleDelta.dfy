/**
  `rule_delta`: how the violations of each rule change between two checked snapshots.
 */
module RuleDelta {
  import opened Wrappers
  import opened Ordering
  import opened ImportGraph
  import opened SearchInvariant
  import opened RuleReport
  import opened ReportMeaning

  datatype Entry = Entry(
    index: nat,
    id: string,
    beforeOutcome: Outcome,
    afterOutcome: Outcome,
    complete: bool,
    reasons: set<string>,
    beforeExhaustive: bool,
    afterExhaustive: bool,
    beforeViolatingPairs: nat,
    afterViolatingPairs: nat,
    introduced: Option<seq<(string, string)>>,
    resolved: Option<seq<(string, string)>>,
    persisting: seq<(string, string)>)

  /** `_listed`: the pairs in order. */
  function Listed(pairs: set<(string, string)>): (list: seq<(string, string)>)
    ensures forall p :: p in list <==> p in pairs
    ensures Ascending(list, PairLess)
  {
    PairOrder();
    Sorted(pairs, PairLess)
  }

  /** Why one side of the comparison is not exhaustive. */
  function SideReasons(r: Report): set<string> {
    (if r.violatingPairs != |r.counterexamples| then {"counterexamples_truncated"} else {})
    + (if r.reasons * BUDGET_REASONS != {} then {"rule_budget_limited"} else {})
    + (if r.reasons * UNKNOWN_REASONS != {} then {"rule_scope_unknown"} else {})
  }

  /** The entry for the two reports of a rule, given the reasons collected. */
  function MakeEntry(one: Report, two: Report, reasons: set<string>): Entry {
    var (was, now) := (Pairs(one), Pairs(two));
    var (beforeOk, afterOk) := (Exhaustive(one), Exhaustive(two));
    Entry(one.index, one.id, one.outcome, two.outcome, beforeOk && afterOk, reasons,
          beforeOk, afterOk, one.violatingPairs, two.violatingPairs,
          if beforeOk then Some(Listed(now - was)) else None,
          if afterOk then Some(Listed(was - now)) else None,
          Listed(was * now))
  }

  function EntryOf(one: Report, two: Report): Entry {
    MakeEntry(one, two, SideReasons(one) + SideReasons(two))
  }

  /** Pairs in ascending order, each once. */
  ghost predicate InPairOrder(list: seq<(string, string)>) {
    forall i, j :: 0 <= i < j < |list| ==>
      StringLess(list[i].0, list[j].0) || (list[i].0 == list[j].0 && StringLess(list[i].1, list[j].1))
  }

  predicate Shown(r: Report, p: (string, string)) {
    exists w :: w in r.counterexamples && (w.source, w.target) == p
  }

  predicate ShowsAll(r: Report) {
    r.violatingPairs == |r.counterexamples| && r.reasons == {}
  }

  predicate HasUnknownReason(r: Report) {
    "unresolved_import" in r.reasons || "dynamic_import_call" in r.reasons || "import_language_unsupported" in r.reasons
    || "file_not_indexed" in r.reasons || "empty_source_selection" in r.reasons || "empty_target_selection" in r.reasons
  }

  /** Everything an entry says about the two reports of a rule. */
  ghost predicate EntryRight(one: Report, two: Report, e: Entry) {
    && e.index == one.index && e.id == one.id
    && e.beforeOutcome == one.outcome && e.afterOutcome == two.outcome
    && e.beforeViolatingPairs == one.violatingPairs && e.afterViolatingPairs == two.violatingPairs
    && e.beforeExhaustive == ShowsAll(one) && e.afterExhaustive == ShowsAll(two)
    && e.complete == (ShowsAll(one) && ShowsAll(two))
    && InPairOrder(e.persisting) && (forall p :: p in e.persisting <==> Shown(one, p) && Shown(two, p))
    && (e.introduced.Some? <==> ShowsAll(one)) && (e.resolved.Some? <==> ShowsAll(two))
    && (e.introduced.Some? ==>
          && InPairOrder(e.introduced.value)
          && forall p :: p in e.introduced.value <==> Shown(two, p) && !Shown(one, p))
    && (e.resolved.Some? ==>
          && InPairOrder(e.resolved.value)
          && forall p :: p in e.resolved.value <==> Shown(one, p) && !Shown(two, p))
    && ReasonsOfBoth(one, two, e.reasons)
  }

  ghost predicate ReasonsOfBoth(one: Report, two: Report, reasons: set<string>) {
    && reasons <= {"counterexamples_truncated", "rule_budget_limited", "rule_scope_unknown"}
    && ("counterexamples_truncated" in reasons <==>
          one.violatingPairs != |one.counterexamples| || two.violatingPairs != |two.counterexamples|)
    && ("rule_budget_limited" in reasons <==> HasBudgetReason(one) || HasBudgetReason(two))
    && ("rule_scope_unknown" in reasons <==> HasUnknownReason(one) || HasUnknownReason(two))
  }

  lemma EntryIsRight(one: Report, two: Report)
    ensures EntryRight(one, two, EntryOf(one, two))
  {
    hide SideReasons, Listed, PairLess, StringLess, ReasonsOfBoth, Pairs, Shown;
    BothReasons(one, two);
    ShownPairs(one);
    ShownPairs(two);
    ListedInOrder(Pairs(one) * Pairs(two));
    ListedInOrder(Pairs(two) - Pairs(one));
    ListedInOrder(Pairs(one) - Pairs(two));
  }

  lemma ShownPairs(r: Report)
    ensures forall p :: p in Pairs(r) <==> Shown(r, p)
  {}

  lemma ListedInOrder(pairs: set<(string, string)>)
    ensures InPairOrder(Listed(pairs))
  {
    hide StringLess;
    var list := Listed(pairs);
    assert forall i, j :: 0 <= i < j < |list| ==> PairLess(list[i], list[j]);
  }

  lemma UnknownReasonIs(r: Report)
    ensures HasUnknownReason(r) <==> r.reasons * UNKNOWN_REASONS != {}
  {
    if HasUnknownReason(r) {
      var x :| x in r.reasons && x in UNKNOWN_REASONS;
      assert x in r.reasons * UNKNOWN_REASONS;
    }
    if r.reasons * UNKNOWN_REASONS != {} {
      var x :| x in r.reasons * UNKNOWN_REASONS;
    }
  }

  lemma SideReasonsAre(r: Report)
    ensures var reasons := SideReasons(r);
            && reasons <= {"counterexamples_truncated", "rule_budget_limited", "rule_scope_unknown"}
            && ("counterexamples_truncated" in reasons <==> r.violatingPairs != |r.counterexamples|)
            && ("rule_budget_limited" in reasons <==> HasBudgetReason(r))
            && ("rule_scope_unknown" in reasons <==> HasUnknownReason(r))
  {
    hide BUDGET_REASONS, UNKNOWN_REASONS, HasBudgetReason, HasUnknownReason;
    assert "counterexamples_truncated"[0] == 'c' && "rule_budget_limited"[5] == 'b' && "rule_scope_unknown"[5] == 's';
    BudgetReasonIs(r);
    UnknownReasonIs(r);
  }

  lemma BothReasons(one: Report, two: Report)
    ensures ReasonsOfBoth(one, two, SideReasons(one) + SideReasons(two))
  {
    hide SideReasons, HasBudgetReason, HasUnknownReason;
    SideReasonsAre(one);
    SideReasonsAre(two);
  }

  /** `rule_delta`; `zip(..., strict=True)` makes reports of different length an error, here None. */
  method Delta(before: seq<Report>, after: seq<Report>) returns (result: Option<seq<Entry>>)
    ensures result.Some? <==> |before| == |after|
    ensures result.Some? ==> IsDelta(before, after, result.value)
  {
    hide IsDelta;
    if |before| != |after| { return None; }
    var entries := DeltaEntries(before, after);
    result := Some(entries);
  }

  ghost predicate IsDelta(before: seq<Report>, after: seq<Report>, entries: seq<Entry>) {
    |before| == |after| == |entries|
    && forall i :: 0 <= i < |entries| ==> entries[i] == EntryOf(before[i], after[i]) && EntryRight(before[i], after[i], entries[i])
  }

  method DeltaEntries(before: seq<Report>, after: seq<Report>) returns (entries: seq<Entry>)
    requires |before| == |after|
    ensures IsDelta(before, after, entries)
  {
    hide EntryOf, EntryRight;
    entries := [];
    for i := 0 to |before|
      invariant |entries| == i
      invariant forall j :: 0 <= j < i ==> entries[j] == EntryOf(before[j], after[j]) && EntryRight(before[j], after[j], entries[j])
    {
      var entry := Compare(before[i], after[i]);
      entries := entries + [entry];
    }
  }

  /** One iteration of the loop: the pair sets, the reasons of both sides, the entry. */
  method Compare(one: Report, two: Report) returns (entry: Entry)
    ensures entry == EntryOf(one, two) && EntryRight(one, two, entry)
  {
    hide EntryRight, SideReasons;
    var reasons := CollectReasons([one, two]);
    entry := MakeEntry(one, two, reasons);
    EntryIsRight(one, two);
  }

  method CollectReasons(sides: seq<Report>) returns (reasons: set<string>)
    requires |sides| == 2
    ensures reasons == SideReasons(sides[0]) + SideReasons(sides[1])
  {
    hide BUDGET_REASONS, UNKNOWN_REASONS;
    reasons := {};
    for k := 0 to |sides|
      invariant k == 0 ==> reasons == {}
      invariant k == 1 ==> reasons == SideReasons(sides[0])
      invariant k == 2 ==> reasons == SideReasons(sides[0]) + SideReasons(sides[1])
    {
      ghost var before := reasons;
      var rule := sides[k];
      if rule.violatingPairs != |rule.counterexamples| { reasons := reasons + {"counterexamples_truncated"}; }
      if rule.reasons * BUDGET_REASONS != {} { reasons := reasons + {"rule_budget_limited"}; }
      if rule.reasons * UNKNOWN_REASONS != {} { reasons := reasons + {"rule_scope_unknown"}; }
      assert reasons == before + SideReasons(rule);
    }
  }

  /** An exhaustive report lists exactly the rule's true violations; any report lists only true ones. */
  lemma ListedPairsAreTrue(db: Snapshot, cap: Limits, rule: Rule, spent: nat, r: Report)
    requires ReportTrue(db, cap, rule, spent, r)
    ensures forall s, t :: (s, t) in Pairs(r) ==> Violates(db, rule, s, t)
    ensures Exhaustive(r) ==> forall s, t :: (s, t) in Pairs(r) <==> Violates(db, rule, s, t)
  {
    VerdictIsTrue(db, cap, rule, spent, r);
    hide ValidateRule, WitnessTrue, Violates, FullyResolved, Exhaustive, CountsTrue, StopsTrue, BoundariesCounted, BudgetReasonsTrue, PairsCounted;
    forall s, t | (s, t) in Pairs(r)
      ensures Violates(db, rule, s, t)
    {
      var w :| w in r.counterexamples && (w.source, w.target) == (s, t);
      assert WitnessTrue(db, cap, w) && Violates(db, rule, w.source, w.target);
    }
  }

  /** `persisting` lies in both sides' true violations, a non-null `introduced` holds only violations that were not
      there before, a non-null `resolved` only ones that are gone; with both sides exhaustive all three are exact. */
  ghost predicate DeltaTrue(db: Snapshot, db': Snapshot, rule: Rule, e: Entry) {
    && (forall s, t :: (s, t) in e.persisting ==> Violates(db, rule, s, t) && Violates(db', rule, s, t))
    && (e.introduced.Some? ==> forall s, t :: (s, t) in e.introduced.value ==>
          !Violates(db, rule, s, t) && Violates(db', rule, s, t))
    && (e.resolved.Some? ==> forall s, t :: (s, t) in e.resolved.value ==>
          Violates(db, rule, s, t) && !Violates(db', rule, s, t))
    && (e.complete ==>
        && e.introduced.Some? && e.resolved.Some?
        && (forall s, t :: (s, t) in e.persisting <==> Violates(db, rule, s, t) && Violates(db', rule, s, t))
        && (forall s, t :: (s, t) in e.introduced.value <==> !Violates(db, rule, s, t) && Violates(db', rule, s, t))
        && (forall s, t :: (s, t) in e.resolved.value <==> Violates(db, rule, s, t) && !Violates(db', rule, s, t)))
  }

  /** The delta of a rule checked on two snapshots is sound on each side, even if the other is incomplete. */
  lemma DeltaIsSound(db: Snapshot, db': Snapshot, cap: Limits, rule: Rule,
                     spent: nat, spent': nat, one: Report, two: Report)
    requires ReportTrue(db, cap, rule, spent, one) && ReportTrue(db', cap, rule, spent', two)
    ensures DeltaTrue(db, db', rule, EntryOf(one, two))
  {
    hide ReportTrue, Pairs, Violates, Exhaustive, EntryOf;
    EntryLists(one, two);
    ListedPairsAreTrue(db, cap, rule, spent, one);
    ListedPairsAreTrue(db', cap, rule, spent', two);
  }

  lemma EntryLists(one: Report, two: Report)
    ensures var (e, was, now) := (EntryOf(one, two), Pairs(one), Pairs(two));
            && (forall p :: p in e.persisting <==> p in was && p in now)
            && (e.introduced.Some? <==> Exhaustive(one)) && (e.resolved.Some? <==> Exhaustive(two))
            && (e.introduced.Some? ==> forall p :: p in e.introduced.value <==> p in now && p !in was)
            && (e.resolved.Some? ==> forall p :: p in e.resolved.value <==> p in was && p !in now)
            && (e.complete <==> Exhaustive(one) && Exhaustive(two))
  {
    hide Pairs, Exhaustive, PairLess, SideReasons;
  }

  /** The report's own consistency checks on each entry: null lists, status and reasons agree. */
  lemma DeltaIsConsistent(db: Snapshot, db': Snapshot, cap: Limits, rule: Rule,
                          spent: nat, spent': nat, one: Report, two: Report)
    requires ReportTrue(db, cap, rule, spent, one) && ReportTrue(db', cap, rule, spent', two)
    ensures var e := EntryOf(one, two);
            && (e.introduced.None? <==> !e.beforeExhaustive)
            && (e.resolved.None? <==> !e.afterExhaustive)
            && (e.complete <==> e.beforeExhaustive && e.afterExhaustive)
            && (e.complete <==> e.reasons == {})
  {
    SideReasonsExplain(one);
    SideReasonsExplain(two);
    hide ReportTrue, SideReasons, Exhaustive, Pairs, PairLess;
  }

  lemma SideReasonsExplain(r: Report)
    requires r.reasons <= BUDGET_REASONS + UNKNOWN_REASONS
    ensures Exhaustive(r) <==> SideReasons(r) == {}
  {
    hide BUDGET_REASONS, UNKNOWN_REASONS;
    if r.reasons != {} {
      var x :| x in r.reasons;
      assert x in r.reasons * BUDGET_REASONS || x in r.reasons * UNKNOWN_REASONS;
      assert r.reasons * BUDGET_REASONS != {} || r.reasons * UNKNOWN_REASONS != {};
    }
    assert "counterexamples_truncated" in {"counterexamples_truncated"};
    assert SideReasons(r) == {} ==> "rule_budget_limited" !in SideReasons(r) && "rule_scope_unknown" !in SideReasons(r)
                                    && "counterexamples_truncated" !in SideReasons(r);
  }
}
