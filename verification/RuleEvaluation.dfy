/**
  `_Run.evaluate`: searching from every selected source and assembling the report of a rule.
 */
module RuleEvaluation {
  import opened Wrappers
  import opened Ordering
  import opened Selectors
  import opened ImportGraph
  import opened SearchInvariant
  import opened SearchBudget
  import opened ImportSearch
  import opened RuleReport
  import opened ReportMeaning

  // ----- selecting

  method SelectAll(db: Snapshot, universe: seq<string>, selectors: seq<Selector>) returns (paths: set<string>)
    requires universe == Universe(db)
    ensures paths == Selected(db, selectors)
  {
    paths := {};
    for i := 0 to |selectors|
      invariant paths == Selected(db, selectors[..i])
    {
      var found := Select(universe, selectors[i]);
      assert selectors[..i + 1] == selectors[..i] + [selectors[i]];
      assert forall p :: p in found <==> p in db.observations && Matches(selectors[i], p);
      paths := paths + set p | p in found;
    }
    assert selectors[..|selectors|] == selectors;
  }

  // ----- one source

  lemma {:induction false} ChainLinks(db: Snapshot, from: string, steps: seq<Step>, to: string)
    requires steps != [] && Chain(db, from, steps, to)
    ensures steps[0].before == from && steps[|steps| - 1].after == to
    ensures forall i :: 0 <= i < |steps| - 1 ==> steps[i].after == steps[i + 1].before
  {
    var n := |steps| - 1;
    var shorter := steps[..n];
    if n > 0 {
      ChainLinks(db, from, shorter, steps[n].before);
      assert shorter[n - 1].after == steps[n].before;
      assert forall i :: 0 <= i < n ==> shorter[i] == steps[i];
    }
  }

  /** `_Run.witness`, without the stored records behind each node and hop. */
  function MakeWitness(source: string, target: string, steps: seq<Step>): Witness
    requires steps != []
  {
    Witness(source, target, |steps|,
            [steps[0].before] + seq(|steps|, i requires 0 <= i < |steps| => steps[i].after), steps)
  }

  lemma MadeWitnessTrue(db: Snapshot, cap: Limits, source: string, target: string, steps: seq<Step>)
    requires Shortest(db, source, steps, target) && |steps| <= cap.maxDepth
    ensures WitnessTrue(db, cap, MakeWitness(source, target, steps))
  {
    hide Chain, NoneShorter;
    ChainLinks(db, source, steps, target);
  }

  /** What one source adds to the report. */
  datatype Visit = Visit(hits: seq<Witness>, stop: Option<StopEntry>, edges: nat, visited: nat)

  /** The hits are the source's true violations, in order; if nothing stopped the search, all of them. */
  ghost predicate VisitHitsTrue(db: Snapshot, cap: Limits, source: string, targets: set<string>, v: Visit) {
    && (forall w :: w in v.hits ==> w.source == source && Admissible(db, source) && w.target in targets && WitnessTrue(db, cap, w))
    && (forall i, j :: 0 <= i < j < |v.hits| ==> StringLess(v.hits[i].target, v.hits[j].target))
    && (v.stop.None? && Admissible(db, source) ==>
          forall t :: t in targets && Imports(db, source, t) ==> exists w :: w in v.hits && w.target == t)
  }

  /** The new boundaries are those the source leads to; if nothing stopped the search, all of them. */
  ghost predicate VisitBoundariesTrue(db: Snapshot, source: string, before: set<Boundary>, bs: set<Boundary>, v: Visit) {
    && before <= bs
    && (forall b :: b in bs && b !in before ==> BoundaryFrom(db, source, b))
    && (v.stop.None? ==> forall b :: BoundaryFrom(db, source, b) ==> b in bs)
  }

  /** A stop is a true one; without one the counts are those of all the files the source reaches. */
  ghost predicate VisitStopTrue(db: Snapshot, cap: Limits, source: string, targets: set<string>, spent: nat, v: Visit) {
    match v.stop
    case Some(e) =>
      && e.source == source && StopTrue(db, cap, targets, e) && e.examinedEdges == v.edges && e.visitedFiles == v.visited
      && (e.reason == "total_examined_edge_limit" ==> spent + v.edges == cap.maxTotalExaminedEdges)
    case None =>
      if Admissible(db, source) then
        exists files :: ReachedFiles(db, source, files) && v.visited == |files| && v.edges == RowsOf(db, files)
      else v.visited == v.edges == 0
  }

  ghost predicate VisitTrue(db: Snapshot, cap: Limits, source: string, targets: set<string>, spent: nat,
                            before: set<Boundary>, bs: set<Boundary>, v: Visit) {
    && VisitHitsTrue(db, cap, source, targets, v)
    && VisitBoundariesTrue(db, source, before, bs, v)
    && VisitStopTrue(db, cap, source, targets, spent, v)
  }

  function WitnessesOf(source: string, order: seq<string>, found: map<string, seq<Step>>): (hits: seq<Witness>)
    requires forall t :: t in order ==> t in found && found[t] != []
  {
    seq(|order|, i requires 0 <= i < |order| => assert order[i] in order; MakeWitness(source, order[i], found[order[i]]))
  }

  lemma HitsTrue(db: Snapshot, cap: Limits, source: string, targets: set<string>, order: seq<string>, w: View)
    requires FoundOk(db, source, targets, w.found) && WithinCaps(cap, w) && Ascending(order, StringLess)
    requires forall t :: t in order <==> t in w.found
    ensures forall t :: t in w.found ==> w.found[t] != []
    ensures var hits := WitnessesOf(source, order, w.found);
            && (forall h :: h in hits ==> h.source == source && h.target in targets && WitnessTrue(db, cap, h))
            && (forall i, j :: 0 <= i < j < |hits| ==> StringLess(hits[i].target, hits[j].target))
            && (forall t :: t in w.found ==> exists h :: h in hits && h.target == t)
  {
    hide Chain, NoneShorter, WitnessTrue;
    forall t | t in w.found ensures w.found[t] != [] { assert Shortest(db, source, w.found[t], t); }
    var hits := WitnessesOf(source, order, w.found);
    forall h | h in hits
      ensures h.source == source && h.target in targets && WitnessTrue(db, cap, h)
    {
      var i :| 0 <= i < |hits| && hits[i] == h;
      assert order[i] in order;
      MadeWitnessTrue(db, cap, source, order[i], w.found[order[i]]);
    }
    forall t | t in w.found
      ensures exists h :: h in hits && h.target == t
    {
      assert t in order;
      var i :| 0 <= i < |order| && order[i] == t;
      assert hits[i] in hits;
    }
  }

  lemma StopNamesDiffer(stop: Stop)
    ensures StopName(stop) == "total_examined_edge_limit" <==> stop == TotalExaminedEdgeLimit
  {
    var total := "total_examined_edge_limit";
    assert total[0] == 't' && "depth_limit"[0] == 'd' && "visited_node_limit"[0] == 'v' && "examined_edge_limit"[0] == 'e';
  }

  lemma SearchStopTrue(db: Snapshot, cap: Limits, source: string, targets: set<string>, w: View,
                       d: nat, edges: nat, total: nat, stop: Stop, before: set<Boundary>, bs: set<Boundary>)
    requires Admissible(db, source) && edges <= cap.maxExaminedEdges
    requires SearchResult(db, cap, source, targets, w, d, edges, total, Some(stop), before, bs)
    ensures StopTrue(db, cap, targets, StopEntry(source, StopName(stop), d, |w.visited|, edges))
  {
    hide Exact, BoundariesOk, FoundOk, ParentOk, IsBoundaryOf, Chain, NoneShorter, Admissible;
    forall v | v in w.visited ensures Reachable(db, source, v) { assert Chain(db, source, StepsTo(db, source, w, v), v); }
    if stop == DepthLimit {
      var q :| Beyond(db, source, targets, w, cap.maxDepth, q);
      assert MissedAt(db, source, targets, w.visited, d, q);
    }
    assert StoppedAt(db, cap, targets, StopEntry(source, StopName(stop), d, |w.visited|, edges), w.visited);
  }

  lemma SearchBoundariesTrue(db: Snapshot, cap: Limits, source: string, targets: set<string>, w: View,
                             d: nat, edges: nat, total: nat, stop: Option<Stop>, before: set<Boundary>, bs: set<Boundary>, v: Visit)
    requires Admissible(db, source) && v.stop.None? == stop.None?
    requires SearchResult(db, cap, source, targets, w, d, edges, total, stop, before, bs)
    ensures VisitBoundariesTrue(db, source, before, bs, v)
  {
    hide FoundOk, ParentOk, IsBoundaryOf, Chain, CompleteWithin, Admissible, StopJustified;
    forall b | b in bs && b !in before
      ensures BoundaryFrom(db, source, b)
    {
      var p :| p in w.visited && IsBoundaryOf(db, p, b);
      assert Chain(db, source, StepsTo(db, source, w, p), p);
    }
  }

  /** The witnesses, boundaries and stop of a search make a true visit. */
  lemma SearchVisitTrue(db: Snapshot, cap: Limits, source: string, targets: set<string>, w: View, order: seq<string>,
                        d: nat, spent: nat, edges: nat, total: nat, stop: Option<Stop>, before: set<Boundary>, bs: set<Boundary>)
    requires Admissible(db, source) && edges <= cap.maxExaminedEdges && total == spent + edges
    requires SearchResult(db, cap, source, targets, w, d, edges, total, stop, before, bs)
    requires Ascending(order, StringLess) && forall t :: t in order <==> t in w.found
    ensures forall t :: t in order ==> t in w.found && w.found[t] != []
    ensures var v := Visit(WitnessesOf(source, order, w.found), EntryOfStop(source, stop, d, |w.visited|, edges), edges, |w.visited|);
            VisitTrue(db, cap, source, targets, spent, before, bs, v)
  {
    hide FoundOk, BoundariesOk, WithinCaps, SearchInvariant.Tree, WitnessTrue, Imports, Ascending, CompleteWithin,
         Admissible, VisitBoundariesTrue, StopTrue, Reachable, StopName, EdgesCounted;
    HitsTrue(db, cap, source, targets, order, w);
    var v := Visit(WitnessesOf(source, order, w.found), EntryOfStop(source, stop, d, |w.visited|, edges), edges, |w.visited|);
    SearchBoundariesTrue(db, cap, source, targets, w, d, edges, total, stop, before, bs, v);
    match stop
    case None => assert ReachedFiles(db, source, w.visited);
    case Some(reason) =>
      SearchStopTrue(db, cap, source, targets, w, d, edges, total, reason, before, bs);
      StopNamesDiffer(reason);
  }

  function EntryOfStop(source: string, stop: Option<Stop>, depth: nat, visited: nat, edges: nat): Option<StopEntry> {
    match stop
    case None => None
    case Some(reason) => Some(StopEntry(source, StopName(reason), depth, visited, edges))
  }

  /** A source that may not be traversed contributes one boundary. */
  lemma RefusedVisitTrue(db: Snapshot, cap: Limits, source: string, targets: set<string>, spent: nat, before: set<Boundary>)
    requires !Admissible(db, source)
    ensures VisitTrue(db, cap, source, targets, spent, before, before + {Boundary(Classify(db, source).value, source, "")},
                      Visit([], None, 0, 0))
  {}

  method VisitSource(run: Run, source: string, targets: set<string>, boundaries: set<Boundary>)
    returns (bs: set<Boundary>, v: Visit)
    requires run.Valid()
    modifies run
    ensures run.Valid() && run.total == old(run.total) + v.edges
    ensures VisitTrue(run.db, run.cap, source, targets, old(run.total), boundaries, bs, v)
    ensures v.stop.None? <==> !Admissible(run.db, source) || Completable(run.db, run.cap, source, targets, old(run.total))
  {
    hide Run.Valid, SearchResult, VisitTrue, StrictTotal, Admissible, Classify, Completable;
    StringOrder();
    var trace;
    trace, bs := run.Traverse(source, targets, boundaries);
    var order := Sorted(trace.found.Keys, StringLess);
    if Admissible(run.db, source) {
      SearchVisitTrue(run.db, run.cap, source, targets, trace.View(), order, trace.depth, old(run.total), trace.edges, run.total,
                      trace.stop, boundaries, bs);
    } else {
      RefusedVisitTrue(run.db, run.cap, source, targets, old(run.total), boundaries);
      assert WitnessesOf(source, order, trace.found) == [];
    }
    v := Visit(WitnessesOf(source, order, trace.found),
               EntryOfStop(source, trace.stop, trace.depth, |trace.visited|, trace.edges), trace.edges, |trace.visited|);
  }

  // ----- all sources

  /** What the searches have gathered: every violating pair met, the stops, the boundaries and the work done. */
  datatype Gathered = Gathered(all: seq<Witness>, stops: seq<StopEntry>, bs: set<Boundary>, edges: nat, visited: nat)

  function PairOf(w: Witness): (string, string) { (w.source, w.target) }

  ghost predicate PairListed(all: seq<Witness>, s: string, t: string) {
    exists w :: w in all && PairOf(w) == (s, t)
  }

  /** All boundaries the source leads to are in `bs`, and if it is admissible all its violations are in `all`. */
  ghost predicate SourceSettled(db: Snapshot, targets: set<string>, all: seq<Witness>, bs: set<Boundary>, source: string) {
    && (forall b :: BoundaryFrom(db, source, b) ==> b in bs)
    && (Admissible(db, source) ==> forall t :: t in targets && Imports(db, source, t) ==> PairListed(all, source, t))
  }

  ghost predicate HitsOk(db: Snapshot, cap: Limits, done: seq<string>, targets: set<string>, all: seq<Witness>) {
    && (forall w :: w in all ==> w.source in done && Admissible(db, w.source) && w.target in targets && WitnessTrue(db, cap, w))
    && (forall i, j :: 0 <= i < j < |all| ==> PairLess(PairOf(all[i]), PairOf(all[j])))
  }

  ghost predicate StopsOk(db: Snapshot, cap: Limits, targets: set<string>, done: seq<string>, stops: seq<StopEntry>) {
    && |stops| <= |done|
    && (forall e :: e in stops ==> e.source in done && StopTrue(db, cap, targets, e))
    && (forall i, j :: 0 <= i < j < |stops| ==> StringLess(stops[i].source, stops[j].source))
  }

  ghost predicate BoundariesFound(db: Snapshot, done: seq<string>, bs: set<Boundary>) {
    forall b :: b in bs ==> exists s :: s in done && BoundaryFrom(db, s, b)
  }

  ghost predicate AllSettled(db: Snapshot, done: seq<string>, targets: set<string>, g: Gathered) {
    forall s :: s in done ==> StoppedFor(g.stops, s) || SourceSettled(db, targets, g.all, g.bs, s)
  }

  ghost predicate TotalSpent(cap: Limits, spent: nat, g: Gathered) {
    "total_examined_edge_limit" in StopReasons(g.stops) ==> spent + g.edges == cap.maxTotalExaminedEdges
  }

  ghost predicate Gathering(db: Snapshot, cap: Limits, done: seq<string>, targets: set<string>, spent: nat, g: Gathered) {
    && HitsOk(db, cap, done, targets, g.all)
    && StopsOk(db, cap, targets, done, g.stops)
    && BoundariesFound(db, done, g.bs)
    && AllSettled(db, done, targets, g)
    && TotalSpent(cap, spent, g)
    && WorkAddsUp(db, g.stops, done, g.edges, g.visited)
  }

  function Gather(g: Gathered, bs: set<Boundary>, v: Visit): Gathered {
    Gathered(g.all + v.hits, g.stops + (match v.stop case None => [] case Some(e) => [e]), bs, g.edges + v.edges, g.visited + v.visited)
  }

  lemma MoreHits(db: Snapshot, cap: Limits, done: seq<string>, targets: set<string>, all: seq<Witness>, source: string, hits: seq<Witness>)
    requires HitsOk(db, cap, done, targets, all)
    requires forall s :: s in done ==> StringLess(s, source)
    requires forall w :: w in hits ==> w.source == source && Admissible(db, source) && w.target in targets && WitnessTrue(db, cap, w)
    requires forall i, j :: 0 <= i < j < |hits| ==> StringLess(hits[i].target, hits[j].target)
    ensures HitsOk(db, cap, done + [source], targets, all + hits)
  {
    hide Admissible, WitnessTrue, StringLess;
    var more := all + hits;
    forall i, j | 0 <= i < j < |more|
      ensures PairLess(PairOf(more[i]), PairOf(more[j]))
    {
      if i < |all| { assert all[i] in all; }
      if j >= |all| { assert more[j] == hits[j - |all|] && hits[j - |all|] in hits; }
      if i >= |all| { assert more[i] == hits[i - |all|] && hits[i - |all|] in hits; }
    }
  }

  lemma MoreStops(db: Snapshot, cap: Limits, targets: set<string>, done: seq<string>, stops: seq<StopEntry>,
                  source: string, more: seq<StopEntry>)
    requires StopsOk(db, cap, targets, done, stops) && |more| <= 1
    requires forall s :: s in done ==> StringLess(s, source)
    requires forall e :: e in more ==> e.source == source && StopTrue(db, cap, targets, e)
    ensures StopsOk(db, cap, targets, done + [source], stops + more)
  {
    hide StringLess, StopTrue;
    forall i | 0 <= i < |stops| ensures StringLess(stops[i].source, source) { assert stops[i] in stops; }
    forall i, j | 0 <= i < j < |stops + more| ensures StringLess((stops + more)[i].source, (stops + more)[j].source) {
      if j >= |stops| { assert more[j - |stops|] in more; }
    }
  }

  lemma StillSettled(db: Snapshot, targets: set<string>, g: Gathered, hits: seq<Witness>, bs: set<Boundary>, s: string)
    requires SourceSettled(db, targets, g.all, g.bs, s) && g.bs <= bs
    ensures SourceSettled(db, targets, g.all + hits, bs, s)
  {
    hide Imports, BoundaryFrom;
    forall t | t in targets && Imports(db, s, t) && Admissible(db, s)
      ensures PairListed(g.all + hits, s, t)
    {
      var w :| w in g.all && PairOf(w) == (s, t);
      assert w in g.all + hits;
    }
  }

  lemma NewlySettled(db: Snapshot, cap: Limits, targets: set<string>, all: seq<Witness>, s: string, spent: nat,
                     before: set<Boundary>, bs: set<Boundary>, v: Visit)
    requires VisitTrue(db, cap, s, targets, spent, before, bs, v) && v.stop.None?
    ensures SourceSettled(db, targets, all + v.hits, bs, s)
  {
    hide Imports, WitnessTrue, BoundaryFrom;
    forall t | t in targets && Imports(db, s, t) && Admissible(db, s)
      ensures PairListed(all + v.hits, s, t)
    {
      var w :| w in v.hits && w.target == t;
      assert w in all + v.hits && PairOf(w) == (s, t);
    }
  }

  lemma MoreBoundaries(db: Snapshot, done: seq<string>, source: string, before: set<Boundary>, bs: set<Boundary>, v: Visit)
    requires BoundariesFound(db, done, before) && VisitBoundariesTrue(db, source, before, bs, v)
    ensures BoundariesFound(db, done + [source], bs)
  {
    hide BoundaryFrom;
    forall b | b in bs
      ensures exists s :: s in done + [source] && BoundaryFrom(db, s, b)
    {
      if b in before {
        var s :| s in done && BoundaryFrom(db, s, b);
        assert s in done + [source];
      } else {
        assert source in done + [source];
      }
    }
  }

  lemma MoreSettled(db: Snapshot, cap: Limits, done: seq<string>, targets: set<string>, spent: nat, g: Gathered,
                    source: string, bs: set<Boundary>, v: Visit)
    requires AllSettled(db, done, targets, g) && VisitTrue(db, cap, source, targets, spent, g.bs, bs, v)
    ensures AllSettled(db, done + [source], targets, Gather(g, bs, v))
  {
    hide SourceSettled, VisitHitsTrue, StopTrue;
    var g' := Gather(g, bs, v);
    forall s | s in done + [source]
      ensures StoppedFor(g'.stops, s) || SourceSettled(db, targets, g'.all, g'.bs, s)
    {
      if s in done {
        if StoppedFor(g.stops, s) {
          var e :| e in g.stops && e.source == s;
          assert e in g'.stops;
        } else {
          StillSettled(db, targets, g, v.hits, bs, s);
        }
      } else if v.stop.Some? {
        assert v.stop.value in g'.stops;
      } else {
        NewlySettled(db, cap, targets, g.all, s, spent, g.bs, bs, v);
      }
    }
  }

  lemma StillSpent(cap: Limits, spent: nat, g: Gathered, bs: set<Boundary>, v: Visit)
    requires TotalSpent(cap, spent, g) && spent + g.edges < cap.maxTotalExaminedEdges
    requires v.stop.Some? && v.stop.value.reason == "total_examined_edge_limit" ==> spent + g.edges + v.edges == cap.maxTotalExaminedEdges
    ensures TotalSpent(cap, spent, Gather(g, bs, v))
  {}

  lemma GatherStep(db: Snapshot, cap: Limits, done: seq<string>, targets: set<string>, spent: nat, g: Gathered,
                   source: string, bs: set<Boundary>, v: Visit)
    requires Gathering(db, cap, done, targets, spent, g)
    requires VisitTrue(db, cap, source, targets, spent + g.edges, g.bs, bs, v)
    requires forall s :: s in done ==> StringLess(s, source)
    requires spent + g.edges < cap.maxTotalExaminedEdges
    ensures Gathering(db, cap, done + [source], targets, spent, Gather(g, bs, v))
  {
    hide WitnessTrue, StringLess, Imports, HitsOk, StopTrue, AllSettled, TotalSpent, BoundariesFound, VisitBoundariesTrue, WorkAddsUp,
         StopReasons;
    MoreHits(db, cap, done, targets, g.all, source, v.hits);
    MoreStops(db, cap, targets, done, g.stops, source, match v.stop case None => [] case Some(e) => [e]);
    MoreBoundaries(db, done, source, g.bs, bs, v);
    MoreSettled(db, cap, done, targets, spent + g.edges, g, source, bs, v);
    StillSpent(cap, spent, g, bs, v);
    StringLessTotal(source, source);
    MoreWork(db, cap, done, targets, spent + g.edges, g, source, bs, v);
  }

  lemma {:induction false} WorkStands(db: Snapshot, stops: seq<StopEntry>, more: seq<StopEntry>, done: seq<string>, edges: nat, visited: nat)
    requires WorkAddsUp(db, stops, done, edges, visited) && forall e :: e in more ==> e.source !in done
    ensures WorkAddsUp(db, stops + more, done, edges, visited)
  {
    hide SourceWork;
    if done != [] {
      var (front, last) := (done[..|done| - 1], done[|done| - 1]);
      var e: nat, v: nat :| WorkAddsUp(db, stops, front, e, v) && SourceWork(db, stops, last, edges - e, visited - v);
      assert done == front + [last];
      WorkStands(db, stops, more, front, e, v);
      SameWork(db, stops, more, last, edges - e, visited - v);
    }
  }

  lemma SameWork(db: Snapshot, stops: seq<StopEntry>, more: seq<StopEntry>, source: string, edges: int, visited: int)
    requires SourceWork(db, stops, source, edges, visited) && forall e :: e in more ==> e.source != source
    ensures SourceWork(db, stops + more, source, edges, visited)
  {
    hide ReachedFiles, Admissible;
    assert forall e :: e in stops + more && e.source == source <==> e in stops && e.source == source;
  }

  lemma MoreWork(db: Snapshot, cap: Limits, done: seq<string>, targets: set<string>, spent: nat, g: Gathered,
                 source: string, bs: set<Boundary>, v: Visit)
    requires WorkAddsUp(db, g.stops, done, g.edges, g.visited) && VisitStopTrue(db, cap, source, targets, spent, v)
    requires source !in done && forall e :: e in g.stops ==> e.source in done
    ensures var g' := Gather(g, bs, v); WorkAddsUp(db, g'.stops, done + [source], g'.edges, g'.visited)
  {
    hide ReachedFiles, Admissible, StopTrue, WorkAddsUp;
    var more := match v.stop case None => [] case Some(e) => [e];
    var stops := g.stops + more;
    WorkStands(db, g.stops, more, done, g.edges, g.visited);
    if v.stop.Some? { assert v.stop.value in stops; }
    assert SourceWork(db, stops, source, v.edges, v.visited);
    WorkExtends(db, stops, done, source, g.edges, g.visited, v.edges, v.visited);
  }

  lemma WorkExtends(db: Snapshot, stops: seq<StopEntry>, done: seq<string>, source: string, edges: nat, visited: nat, e: nat, v: nat)
    requires WorkAddsUp(db, stops, done, edges, visited) && SourceWork(db, stops, source, e, v)
    ensures WorkAddsUp(db, stops, done + [source], edges + e, visited + v)
  {
    hide SourceWork;
    var all := done + [source];
    var (front, last) := (all[..|all| - 1], all[|all| - 1]);
    assert front == done && edges + e - edges == e && visited + v - visited == v;
    assert WorkAddsUp(db, stops, front, edges, visited) && SourceWork(db, stops, last, edges + e - edges, visited + v - visited);
    assert WorkAddsUp(db, stops, all, edges + e, visited + v);
  }

  /** The loop over one source's found targets: count each, keep those that fit. */
  method KeepExamples(examples: seq<Witness>, pairs: nat, hits: seq<Witness>, limit: nat, ghost all: seq<Witness>)
    returns (examples': seq<Witness>, pairs': nat)
    requires pairs == |all| && examples == all[..Min(|all|, limit)]
    ensures pairs' == |all + hits| && examples' == (all + hits)[..Min(|all + hits|, limit)]
  {
    examples', pairs' := examples, pairs;
    for k := 0 to |hits|
      invariant pairs' == |all| + k
      invariant examples' == (all + hits[..k])[..Min(|all| + k, limit)]
    {
      pairs' := pairs' + 1;
      if |examples'| < limit { examples' := examples' + [hits[k]]; }
      assert all + hits[..k + 1] == (all + hits[..k]) + [hits[k]];
    }
    assert hits[..|hits|] == hits;
  }

  /** The loop over the selected sources; `done` are those it searched, all unless the run's budget is spent. */
  method EvaluateSources(run: Run, sources: seq<string>, targets: set<string>)
    returns (ghost g: Gathered, ghost done: seq<string>, examples: seq<Witness>, pairs: nat, stops: seq<StopEntry>,
             bs: set<Boundary>, reasons: set<string>, evaluated: nat, edges: nat, visited: nat)
    requires run.Valid() && Ascending(sources, StringLess)
    modifies run
    ensures run.Valid() && run.total == old(run.total) + edges
    ensures done <= sources && evaluated == |done|
    ensures done != sources ==> run.total == run.cap.maxTotalExaminedEdges
    ensures stops == [] && done == sources <==> Fits(run.db, run.cap, targets, sources, old(run.total))
    ensures Gathering(run.db, run.cap, done, targets, old(run.total), g)
    ensures g == Gathered(g.all, stops, bs, edges, visited)
    ensures reasons == StopReasons(stops) + if |done| < |sources| then {"total_examined_edge_limit"} else {}
    ensures pairs == |g.all| && examples == g.all[..Min(|g.all|, run.cap.maxCounterexamplesPerRule)]
  {
    hide Run.Valid, Gathering, VisitTrue, StopReasons, FitsSoFar, Fits, FitsWith, Completable, Admissible, Ascending, StringLess;
    g, done := Gathered([], [], {}, 0, 0), [];
    examples, pairs, stops, bs, reasons, evaluated, edges, visited := [], 0, [], {}, {}, 0, 0, 0;
    StartGathering(run.db, run.cap, targets, run.total);
    StartFits(run.db, run.cap, targets, run.total);
    assert sources[..0] == [];
    for i := 0 to |sources|
      invariant run.Valid() && run.total == old(run.total) + edges
      invariant done == sources[..i] && evaluated == i
      invariant Gathering(run.db, run.cap, done, targets, old(run.total), g)
      invariant g == Gathered(g.all, stops, bs, edges, visited) && reasons == StopReasons(stops)
      invariant pairs == |g.all| && examples == g.all[..Min(|g.all|, run.cap.maxCounterexamplesPerRule)]
      invariant FitsSoFar(run.db, run.cap, targets, done, old(run.total), edges, stops != [])
    {
      if run.total >= run.cap.maxTotalExaminedEdges {
        run.Budget();
        SpentFits(run.db, run.cap, targets, sources, old(run.total), edges, stops != [], i);
        reasons := reasons + {"total_examined_edge_limit"};
        return;
      }
      var v;
      bs, v := VisitSource(run, sources[i], targets, bs);
      AllBefore(sources, i);
      VisitFits(run.db, run.cap, targets, done, old(run.total), edges, stops != [], sources[i], g.bs, bs, v);
      GatherStep(run.db, run.cap, done, targets, old(run.total), g, sources[i], bs, v);
      evaluated, edges, visited := evaluated + 1, edges + v.edges, visited + v.visited;
      examples, pairs := KeepExamples(examples, pairs, v.hits, run.cap.maxCounterexamplesPerRule, g.all);
      if v.stop.Some? {
        MoreReasons(stops, v.stop.value);
        reasons := reasons + {v.stop.value.reason};
        stops := stops + [v.stop.value];
      }
      g, done := Gather(g, bs, v), done + [sources[i]];
    }
    assert done == sources;
    EndFits(run.db, run.cap, targets, sources, old(run.total), edges, stops != []);
  }

  lemma AllBefore(sources: seq<string>, i: nat)
    requires Ascending(sources, StringLess) && i < |sources|
    ensures forall s :: s in sources[..i] ==> StringLess(s, sources[i])
  {
    hide StringLess;
  }

  lemma StartFits(db: Snapshot, cap: Limits, targets: set<string>, spent: nat)
    ensures FitsSoFar(db, cap, targets, [], spent, 0, false)
  {
    NothingFits(db, cap, targets, spent);
  }

  lemma EndFits(db: Snapshot, cap: Limits, targets: set<string>, sources: seq<string>, spent: nat, edges: nat, stopped: bool)
    requires FitsSoFar(db, cap, targets, sources, spent, edges, stopped)
    ensures !stopped <==> Fits(db, cap, targets, sources, spent)
  {}

  lemma VisitFits(db: Snapshot, cap: Limits, targets: set<string>, done: seq<string>, spent: nat, edges: nat, stopped: bool,
                  source: string, before: set<Boundary>, bs: set<Boundary>, v: Visit)
    requires FitsSoFar(db, cap, targets, done, spent, edges, stopped) && spent + edges < cap.maxTotalExaminedEdges
    requires VisitTrue(db, cap, source, targets, spent + edges, before, bs, v)
    requires v.stop.None? <==> !Admissible(db, source) || Completable(db, cap, source, targets, spent + edges)
    ensures FitsSoFar(db, cap, targets, done + [source], spent, edges + v.edges, stopped || v.stop.Some?)
  {
    hide FitsSoFar, Completable, ReachedFiles, VisitHitsTrue, VisitBoundariesTrue, Admissible;
    FitsStep(db, cap, targets, done, spent, edges, stopped, source, v.edges, v.stop.Some?);
  }

  lemma MoreReasons(stops: seq<StopEntry>, e: StopEntry)
    ensures StopReasons(stops + [e]) == StopReasons(stops) + {e.reason}
  {
    assert e in stops + [e];
  }

  lemma StartGathering(db: Snapshot, cap: Limits, targets: set<string>, spent: nat)
    ensures Gathering(db, cap, [], targets, spent, Gathered([], [], {}, 0, 0)) && StopReasons([]) == {}
  {}

  // ----- the report

  /** The report `evaluate` returns: boundary kinds become reasons, the boundaries are ordered and cut, the outcome chosen. */
  function BuildReport(cap: Limits, rule: Rule, sourcesTotal: nat, targetsTotal: nat, examples: seq<Witness>, pairs: nat,
                       stops: seq<StopEntry>, bs: set<Boundary>, reasons: set<string>,
                       evaluated: nat, edges: nat, visited: nat): Report
  {
    BoundaryOrder();
    var ordered := Sorted(bs, BoundaryLess);
    var all := reasons + set b | b in bs :: b.kind;
    Report(rule.index, rule.id, OutcomeOf(pairs, all), all, sourcesTotal, evaluated, targetsTotal,
           pairs, |ordered|, edges, visited, examples,
           ordered[..Min(|ordered|, cap.maxBoundariesPerRule)], stops)
  }

  /** The report of what the searches gathered from `evaluated` sources. */
  ghost function Assemble(cap: Limits, rule: Rule, sourcesTotal: nat, targetsTotal: nat, g: Gathered, evaluated: nat): Report {
    BuildReport(cap, rule, sourcesTotal, targetsTotal, g.all[..Min(|g.all|, cap.maxCounterexamplesPerRule)], |g.all|, g.stops, g.bs,
                SelectionReasons(sourcesTotal, targetsTotal) + StopReasons(g.stops)
                + LimitReasons(cap, sourcesTotal, targetsTotal, evaluated),
                evaluated, g.edges, g.visited)
  }

  /** The reasons known from the selections alone. */
  function SelectionReasons(sourcesTotal: nat, targetsTotal: nat): set<string> {
    (if sourcesTotal == 0 then {"empty_source_selection"} else {}) + (if targetsTotal == 0 then {"empty_target_selection"} else {})
  }

  ghost predicate CountsOk(cap: Limits, done: seq<string>, sourcesTotal: nat, targetsTotal: nat, spent: nat, g: Gathered) {
    && |done| <= MostSources(cap, sourcesTotal, targetsTotal)
    && spent + g.edges <= cap.maxTotalExaminedEdges
    && (|done| < MostSources(cap, sourcesTotal, targetsTotal) ==> spent + g.edges == cap.maxTotalExaminedEdges)
  }

  lemma WitnessImports(db: Snapshot, cap: Limits, w: Witness)
    requires WitnessTrue(db, cap, w)
    ensures Imports(db, w.source, w.target)
  {
    assert w.hops != [] && Chain(db, w.source, w.hops, w.target);
  }

  lemma AssembledOrder(db: Snapshot, cap: Limits, done: seq<string>, targets: set<string>, spent: nat, g: Gathered)
    requires Gathering(db, cap, done, targets, spent, g)
    ensures forall k :: 0 <= k <= |g.all| ==> InSortedOrder(WitnessPairs(g.all[..k]), PairLess)
    ensures InSortedOrder(StopSources(g.stops), StringLess)
  {
    PairOrder();
    StringOrder();
    hide StringLess, PairLess, WitnessTrue, StopTrue, AllSettled, BoundariesFound, TotalSpent;
    forall k | 0 <= k <= |g.all|
      ensures InSortedOrder(WitnessPairs(g.all[..k]), PairLess)
    {
      var pairs := WitnessPairs(g.all[..k]);
      forall i, j | 0 <= i < j < |pairs| ensures !PairLess(pairs[j], pairs[i]) {
        assert pairs[i] == PairOf(g.all[i]) && pairs[j] == PairOf(g.all[j]);
      }
    }
    forall i, j | 0 <= i < j < |g.stops| ensures !StringLess(g.stops[j].source, g.stops[i].source) {
      assert StringLess(g.stops[i].source, g.stops[j].source);
    }
  }

  lemma BoundaryKinds(db: Snapshot, source: string, b: Boundary)
    requires BoundaryFrom(db, source, b)
    ensures b.kind in BOUNDARY_KINDS
  {
    hide Reachable;
  }

  /** Which reasons the searches can leave. */
  lemma GatheredKinds(db: Snapshot, cap: Limits, done: seq<string>, targets: set<string>, spent: nat, g: Gathered)
    requires Gathering(db, cap, done, targets, spent, g)
    ensures StopReasons(g.stops) <= BUDGET_REASONS
    ensures forall b :: b in g.bs ==> b.kind in BOUNDARY_KINDS
  {
    hide BUDGET_REASONS, BOUNDARY_KINDS, BoundaryFrom, AllSettled, HitsOk, TotalSpent, StopTrue, WorkAddsUp;
    forall b | b in g.bs ensures b.kind in BOUNDARY_KINDS {
      var s :| s in done && BoundaryFrom(db, s, b);
      BoundaryKinds(db, s, b);
    }
    forall e | e in g.stops ensures e.reason in BUDGET_REASONS {
      assert StopTrue(db, cap, targets, e);
      StopIsKnown(db, cap, targets, e);
    }
  }

  lemma StopIsKnown(db: Snapshot, cap: Limits, targets: set<string>, e: StopEntry)
    requires StopTrue(db, cap, targets, e)
    ensures e.reason in BUDGET_REASONS
  {
    hide Chain, Reachable, MissedAt;
  }

  /** The reasons fall into those of the budgets, of the boundaries and of the selections. */
  lemma ReasonParts(cap: Limits, sourcesTotal: nat, targetsTotal: nat, evaluated: nat, stopped: set<string>, kinds: set<string>)
    requires stopped <= BUDGET_REASONS && kinds <= BOUNDARY_KINDS
    ensures var limits := LimitReasons(cap, sourcesTotal, targetsTotal, evaluated);
            var all := SelectionReasons(sourcesTotal, targetsTotal) + stopped + limits + kinds;
            && all * BUDGET_REASONS == stopped + limits && all * BOUNDARY_KINDS == kinds
            && all <= BUDGET_REASONS + UNKNOWN_REASONS
            && ("empty_source_selection" in all <==> sourcesTotal == 0)
            && ("empty_target_selection" in all <==> targetsTotal == 0)
  {
    ReasonsDistinct();
    var (limits, chosen) := (LimitReasons(cap, sourcesTotal, targetsTotal, evaluated), SelectionReasons(sourcesTotal, targetsTotal));
    assert limits <= BUDGET_REASONS && chosen <= EMPTY_SELECTIONS;
    assert "empty_source_selection" in EMPTY_SELECTIONS && "empty_target_selection" in EMPTY_SELECTIONS;
    hide BUDGET_REASONS, BOUNDARY_KINDS, EMPTY_SELECTIONS;
  }

  lemma AssembledReasons(db: Snapshot, cap: Limits, rule: Rule, done: seq<string>, targets: set<string>, spent: nat, g: Gathered,
                         sourcesTotal: nat, targetsTotal: nat)
    requires Gathering(db, cap, done, targets, spent, g)
    ensures var r := Assemble(cap, rule, sourcesTotal, targetsTotal, g, |done|);
            && r.reasons * BUDGET_REASONS == StopReasons(r.stops) + LimitReasons(cap, sourcesTotal, targetsTotal, |done|)
            && r.reasons * BOUNDARY_KINDS == (set b | b in g.bs :: b.kind)
            && r.reasons <= BUDGET_REASONS + UNKNOWN_REASONS
            && ("empty_source_selection" in r.reasons <==> sourcesTotal == 0)
            && ("empty_target_selection" in r.reasons <==> targetsTotal == 0)
            && (forall s :: s in r.stops ==> s.reason in r.reasons)
            && (forall b :: b in g.bs ==> b.kind in r.reasons)
  {
    hide BUDGET_REASONS, BOUNDARY_KINDS, Gathering, LimitReasons, SelectionReasons, BoundaryLess;
    GatheredKinds(db, cap, done, targets, spent, g);
    ReasonParts(cap, sourcesTotal, targetsTotal, |done|, StopReasons(g.stops), set b | b in g.bs :: b.kind);
    var r := Assemble(cap, rule, sourcesTotal, targetsTotal, g, |done|);
    assert forall s :: s in r.stops ==> s.reason in StopReasons(g.stops);
  }

  /** The boundaries listed are the first of those gathered. */
  lemma ListedBoundaries(cap: Limits, bs: set<Boundary>, listed: seq<Boundary>)
    requires StrictTotal(BoundaryLess) && listed == Sorted(bs, BoundaryLess)[..Min(|bs|, cap.maxBoundariesPerRule)]
    ensures Ascending(listed, BoundaryLess)
    ensures forall b :: b in listed ==> b in bs
    ensures forall b, c :: b in listed && c in bs && c !in listed ==> BoundaryLess(b, c)
  {
    FirstOnes(Sorted(bs, BoundaryLess), BoundaryLess, |listed|);
  }

  lemma FirstOnes<T>(ordered: seq<T>, less: (T, T) -> bool, k: nat)
    requires Ascending(ordered, less) && k <= |ordered|
    ensures var first := ordered[..k];
            && Ascending(first, less) && (forall b :: b in first ==> b in ordered)
            && forall b, c :: b in first && c in ordered && c !in first ==> less(b, c)
  {
    var first := ordered[..k];
    forall b, c | b in first && c in ordered && c !in first
      ensures less(b, c)
    {
      var j :| 0 <= j < |ordered| && ordered[j] == c;
      var i :| 0 <= i < k && first[i] == b;
      assert forall x :: 0 <= x < k ==> first[x] == ordered[x] && ordered[x] in first;
    }
  }

  /** Every assembled report passes `_validate_rule`. */
  lemma AssembledValid(db: Snapshot, cap: Limits, rule: Rule, done: seq<string>, targets: set<string>, spent: nat, g: Gathered,
                       sourcesTotal: nat, targetsTotal: nat)
    requires Gathering(db, cap, done, targets, spent, g) && CountsOk(cap, done, sourcesTotal, targetsTotal, spent, g)
    ensures ValidateRule(Assemble(cap, rule, sourcesTotal, targetsTotal, g, |done|), cap) == None
  {
    BoundaryOrder();
    hide StringLess, PairLess, BoundaryLess, StrictTotal, AllSettled, InSortedOrder, BUDGET_REASONS, BOUNDARY_KINDS,
         OutcomeOf, Shortest, StopTrue, BoundariesFound, TotalSpent, StopReasons, LimitReasons, SelectionReasons;
    AssembledOrder(db, cap, done, targets, spent, g);
    AssembledReasons(db, cap, rule, done, targets, spent, g, sourcesTotal, targetsTotal);
    var r := Assemble(cap, rule, sourcesTotal, targetsTotal, g, |done|);
    ListedBoundaries(cap, g.bs, r.boundaries);
    forall w | w in r.counterexamples ensures WitnessShape(w) { assert w in g.all; }
  }

  // ----- what it says is true

  lemma {:induction false} PairsDistinct(all: seq<Witness>)
    requires forall i, j :: 0 <= i < j < |all| ==> PairLess(PairOf(all[i]), PairOf(all[j]))
    ensures |set w | w in all :: PairOf(w)| == |all|
  {
    PairOrder();
    hide PairLess;
    if all != [] {
      var (front, last) := (all[..|all| - 1], all[|all| - 1]);
      PairsDistinct(front);
      assert forall w :: w in all <==> w in front || w == last;
      assert (set w | w in all :: PairOf(w)) == (set w | w in front :: PairOf(w)) + {PairOf(last)};
      forall w | w in front ensures PairOf(w) != PairOf(last) {
        var i :| 0 <= i < |front| && front[i] == w;
        assert PairLess(PairOf(all[i]), PairOf(last));
      }
    }
  }

  lemma FirstPairs(all: seq<Witness>, k: nat, p: (string, string), q: (string, string))
    requires forall i, j :: 0 <= i < j < |all| ==> PairLess(PairOf(all[i]), PairOf(all[j]))
    requires k <= |all| && (exists w :: w in all[..k] && PairOf(w) == p)
    requires (exists w :: w in all && PairOf(w) == q) && !(exists w :: w in all[..k] && PairOf(w) == q)
    ensures PairLess(p, q)
  {
    hide PairLess;
    var v :| v in all[..k] && PairOf(v) == p;
    var w :| w in all && PairOf(w) == q;
    var i :| 0 <= i < k && all[i] == v;
    var j :| 0 <= j < |all| && all[j] == w;
    assert forall x :: 0 <= x < k ==> all[..k][x] == all[x] && all[x] in all[..k];
  }

  /** The examples shown are the first, and as many different pairs as there are examples. */
  lemma ShownPairs(all: seq<Witness>, k: nat, r: Report, found: set<(string, string)>)
    requires forall i, j :: 0 <= i < j < |all| ==> PairLess(PairOf(all[i]), PairOf(all[j]))
    requires k <= |all| && r.counterexamples == all[..k] && found == set w | w in all :: PairOf(w)
    ensures |found| == |all| && Pairs(r) <= found && |Pairs(r)| == k
    ensures forall p, q :: p in Pairs(r) && q in found && q !in Pairs(r) ==> PairLess(p, q)
    ensures forall w :: w in r.counterexamples ==> w in all
  {
    hide PairLess;
    PairsDistinct(all);
    PairsDistinct(all[..k]);
    assert Pairs(r) == set w | w in all[..k] :: PairOf(w);
    forall p, q | p in Pairs(r) && q in found && q !in Pairs(r)
      ensures PairLess(p, q)
    {
      var v :| v in all[..k] && PairOf(v) == p;
      var w :| w in all && PairOf(w) == q;
      FirstPairs(all, k, p, q);
    }
  }

  lemma AssembledPairs(db: Snapshot, cap: Limits, rule: Rule, done: seq<string>, targets: set<string>, spent: nat, g: Gathered,
                       sourcesTotal: nat, targetsTotal: nat)
    requires Gathering(db, cap, done, targets, spent, g) && targets == Selected(db, rule.targets)
    requires done == Evaluated(db, rule, |done|)
    ensures WitnessesTrue(db, cap, rule, Assemble(cap, rule, sourcesTotal, targetsTotal, g, |done|))
  {
    hide PairLess, StringLess, WitnessTrue, Imports, Selected, StopsOk, BoundariesFound, TotalSpent, StopReasons, LimitReasons,
         SelectionReasons, OutcomeOf, BoundaryLess, Evaluated, BoundaryFrom, Admissible;
    var r := Assemble(cap, rule, sourcesTotal, targetsTotal, g, |done|);
    var k := Min(|g.all|, cap.maxCounterexamplesPerRule);
    var found := set w | w in g.all :: PairOf(w);
    EvaluatedSelected(db, rule, |done|);
    forall w | w in g.all ensures Violates(db, rule, w.source, w.target) && WitnessTrue(db, cap, w) { WitnessImports(db, cap, w); }
    forall s, t | s in done && Admissible(db, s) && !StoppedFor(r.stops, s) && Violates(db, rule, s, t)
      ensures (s, t) in found
    {
      assert SourceSettled(db, targets, g.all, g.bs, s);
      assert PairListed(g.all, s, t);
    }
    assert r.counterexamples == g.all[..k];
    ShownPairs(g.all, k, r, found);
    assert PairsCounted(db, cap, rule, r, found);
  }

  lemma AssembledBoundaries(db: Snapshot, cap: Limits, rule: Rule, done: seq<string>, targets: set<string>, spent: nat, g: Gathered,
                            sourcesTotal: nat, targetsTotal: nat)
    requires Gathering(db, cap, done, targets, spent, g) && done == Evaluated(db, rule, |done|)
    ensures BoundariesCounted(db, cap, rule, Assemble(cap, rule, sourcesTotal, targetsTotal, g, |done|), g.bs)
  {
    BoundaryOrder();
    hide HitsOk, StopsOk, TotalSpent, StopReasons, LimitReasons, SelectionReasons, OutcomeOf, BoundaryLess, StrictTotal, Evaluated,
         BoundaryFrom, BOUNDARY_KINDS, BUDGET_REASONS, Admissible, Imports;
    AssembledReasons(db, cap, rule, done, targets, spent, g, sourcesTotal, targetsTotal);
    var r := Assemble(cap, rule, sourcesTotal, targetsTotal, g, |done|);
    ListedBoundaries(cap, g.bs, r.boundaries);
    forall s, b | s in done && !StoppedFor(r.stops, s) && BoundaryFrom(db, s, b)
      ensures b in g.bs
    {
      assert SourceSettled(db, targets, g.all, g.bs, s);
    }
  }

  lemma AssembledBudget(db: Snapshot, cap: Limits, rule: Rule, done: seq<string>, targets: set<string>, spent: nat, g: Gathered,
                        sourcesTotal: nat, targetsTotal: nat)
    requires Gathering(db, cap, done, targets, spent, g) && CountsOk(cap, done, sourcesTotal, targetsTotal, spent, g)
    ensures BudgetReasonsTrue(db, cap, spent, Assemble(cap, rule, sourcesTotal, targetsTotal, g, |done|))
  {
    AssembledReasons(db, cap, rule, done, targets, spent, g, sourcesTotal, targetsTotal);
    ReasonsDistinct();
    var r := Assemble(cap, rule, sourcesTotal, targetsTotal, g, |done|);
    var total := "total_examined_edge_limit";
    assert total in BUDGET_REASONS;
    assert total in r.reasons ==> total in r.reasons * BUDGET_REASONS;
    hide HitsOk, StopsOk, BoundariesFound, AllSettled, StopReasons, SelectionReasons, OutcomeOf, BoundaryLess, BOUNDARY_KINDS, BUDGET_REASONS;
  }

  /** A report assembled from the searches of the rule's sources says only true things. */
  lemma AssembledTrue(db: Snapshot, cap: Limits, rule: Rule, done: seq<string>, targets: set<string>, spent: nat, g: Gathered,
                      sourcesTotal: nat, targetsTotal: nat)
    requires Gathering(db, cap, done, targets, spent, g) && CountsOk(cap, done, sourcesTotal, targetsTotal, spent, g)
    requires targets == Selected(db, rule.targets) && targetsTotal == |targets|
    requires sourcesTotal == |Selected(db, rule.sources)| && done == Evaluated(db, rule, |done|)
    ensures ReportTrue(db, cap, rule, spent, Assemble(cap, rule, sourcesTotal, targetsTotal, g, |done|))
  {
    hide Selected, ValidateRule, HitsOk, BoundariesFound, AllSettled, TotalSpent, StopTrue, WitnessesTrue, BoundariesCounted,
         BudgetReasonsTrue, Evaluated, StopReasons, LimitReasons, SelectionReasons, OutcomeOf, BoundaryLess;
    AssembledValid(db, cap, rule, done, targets, spent, g, sourcesTotal, targetsTotal);
    AssembledPairs(db, cap, rule, done, targets, spent, g, sourcesTotal, targetsTotal);
    AssembledBoundaries(db, cap, rule, done, targets, spent, g, sourcesTotal, targetsTotal);
    AssembledBudget(db, cap, rule, done, targets, spent, g, sourcesTotal, targetsTotal);
  }

  // ----- the rule

  /** The selection is within its limit and searching it in order completes every time. */
  ghost predicate SourcesFit(db: Snapshot, cap: Limits, targets: set<string>, sources: seq<string>, spent: nat) {
    targets == {} || (|sources| <= cap.maxSourcesPerRule && Fits(db, cap, targets, sources, spent))
  }

  /** The searches, when both selections are nonempty, over at most `maxSourcesPerRule` sources. */
  method EvaluateSelected(run: Run, sources: seq<string>, targets: set<string>)
    returns (ghost g: Gathered, ghost done: seq<string>, examples: seq<Witness>, pairs: nat, stops: seq<StopEntry>,
             bs: set<Boundary>, reasons: set<string>, evaluated: nat, edges: nat, visited: nat)
    requires run.Valid() && Ascending(sources, StringLess)
    modifies run
    ensures run.Valid() && run.total == old(run.total) + edges
    ensures CountsOk(run.cap, done, |sources|, |targets|, old(run.total), g)
    ensures (stops == [] && LimitReasons(run.cap, |sources|, |targets|, |done|) == {})
            <==> SourcesFit(run.db, run.cap, targets, sources, old(run.total))
    ensures done <= sources && evaluated == |done|
    ensures Gathering(run.db, run.cap, done, targets, old(run.total), g)
    ensures g == Gathered(g.all, stops, bs, edges, visited)
    ensures reasons == StopReasons(stops) + LimitReasons(run.cap, |sources|, |targets|, |done|)
    ensures pairs == |g.all| && examples == g.all[..Min(|g.all|, run.cap.maxCounterexamplesPerRule)]
  {
    hide Run.Valid, Gathering, StringLess, StopReasons, Fits, FitsSoFar, Ascending, LimitReasons, CountsOk, SourcesFit;
    run.Budget();
    g, done := Gathered([], [], {}, 0, 0), [];
    examples, pairs, stops, bs, reasons, evaluated, edges, visited := [], 0, [], {}, {}, 0, 0, 0;
    StartGathering(run.db, run.cap, targets, run.total);
    StartFits(run.db, run.cap, targets, run.total);
    if sources == [] || targets == {} {
      NoSelection(run.db, run.cap, targets, sources, run.total);
      return;
    }
    var limited := sources;
    if |sources| > run.cap.maxSourcesPerRule {
      reasons := {"source_limit"};
      limited := sources[..run.cap.maxSourcesPerRule];
    }
    FirstAscend(sources, |limited|);
    var found;
    g, done, examples, pairs, stops, bs, found, evaluated, edges, visited := EvaluateSources(run, limited, targets);
    reasons := reasons + found;
    run.Budget();
    LimitedReasons(run.db, run.cap, targets, sources, limited, done, stops, old(run.total), g, found);
  }

  lemma FirstAscend(sources: seq<string>, k: nat)
    requires Ascending(sources, StringLess) && k <= |sources|
    ensures Ascending(sources[..k], StringLess)
  {
    hide StringLess;
  }

  lemma NoSelection(db: Snapshot, cap: Limits, targets: set<string>, sources: seq<string>, spent: nat)
    requires sources == [] || targets == {}
    requires FitsSoFar(db, cap, targets, [], spent, 0, false) && spent <= cap.maxTotalExaminedEdges
    ensures LimitReasons(cap, |sources|, |targets|, 0) == {} && SourcesFit(db, cap, targets, sources, spent)
    ensures CountsOk(cap, [], |sources|, |targets|, spent, Gathered([], [], {}, 0, 0))
    ensures StopReasons([]) == {}
  {
    if targets != {} { EndFits(db, cap, targets, [], spent, 0, false); }
  }

  /** The sources cut off and those not reached make up the reasons for sources not searched. */
  lemma LimitedReasons(db: Snapshot, cap: Limits, targets: set<string>, sources: seq<string>, limited: seq<string>, done: seq<string>,
                       stops: seq<StopEntry>, spent: nat, g: Gathered, found: set<string>)
    requires sources != [] && targets != {} && cap.maxSourcesPerRule > 0 && done <= limited
    requires limited == if |sources| > cap.maxSourcesPerRule then sources[..cap.maxSourcesPerRule] else sources
    requires found == StopReasons(stops) + if |done| < |limited| then {"total_examined_edge_limit"} else {}
    requires stops == [] && done == limited <==> Fits(db, cap, targets, limited, spent)
    requires spent + g.edges <= cap.maxTotalExaminedEdges && (done != limited ==> spent + g.edges == cap.maxTotalExaminedEdges)
    ensures var chosen: set<string> := if |sources| > cap.maxSourcesPerRule then {"source_limit"} else {};
            chosen + found == StopReasons(stops) + LimitReasons(cap, |sources|, |targets|, |done|)
    ensures stops == [] && LimitReasons(cap, |sources|, |targets|, |done|) == {} <==> SourcesFit(db, cap, targets, sources, spent)
    ensures CountsOk(cap, done, |sources|, |targets|, spent, g)
  {
    hide StopReasons, Fits;
    assert "source_limit" in {"source_limit"} && "total_examined_edge_limit" in {"total_examined_edge_limit"};
    assert done == limited <==> |done| == |limited|;
  }

  method Evaluate(run: Run, rule: Rule) returns (report: Report)
    requires run.Valid()
    modifies run
    ensures run.Valid() && run.total == old(run.total) + report.examinedEdges
    ensures ReportTrue(run.db, run.cap, rule, old(run.total), report)
    ensures report.reasons * BUDGET_REASONS == {}
            <==> SourcesFit(run.db, run.cap, Selected(run.db, rule.targets),
                            Evaluated(run.db, rule, |Selected(run.db, rule.sources)|), old(run.total))
    ensures OutcomeRight(report) && ReasonsRight(run.db, run.cap, rule, report)
    ensures report.outcome == SatisfiedWithinScope
            <==> Selected(run.db, rule.sources) != {} && Selected(run.db, rule.targets) != {}
                 && SourcesFit(run.db, run.cap, Selected(run.db, rule.targets),
                               Evaluated(run.db, rule, |Selected(run.db, rule.sources)|), old(run.total))
                 && (forall s, t :: !Violates(run.db, rule, s, t))
                 && (forall s :: s in Selected(run.db, rule.sources) ==> FullyResolved(run.db, s))
  {
    hide Run.Valid, Gathering, ReportTrue, StrictTotal, Ascending, StringLess, OutcomeOf, CountsOk, StopReasons, LimitReasons, BoundaryLess,
         SelectionReasons, BUDGET_REASONS, SourcesFit, Selected, OutcomeRight, ReasonsRight, Violates, FullyResolved,
         HasBudgetReason, Evaluated;
    StringOrder();
    var universe := Universe(run.db);
    var selected := SelectAll(run.db, universe, rule.sources);
    var sources := Sorted(selected, StringLess);
    var targets := SelectAll(run.db, universe, rule.targets);
    ghost var g, done;
    var examples, pairs, stops, bs, reasons, evaluated, edges, visited;
    g, done, examples, pairs, stops, bs, reasons, evaluated, edges, visited := EvaluateSelected(run, sources, targets);
    var chosen := SelectionReasons(|sources|, |targets|);
    report := BuildReport(run.cap, rule, |sources|, |targets|, examples, pairs, stops, bs, chosen + reasons, evaluated, edges, visited);
    assert chosen + (StopReasons(stops) + LimitReasons(run.cap, |sources|, |targets|, |done|))
        == chosen + StopReasons(stops) + LimitReasons(run.cap, |sources|, |targets|, |done|);
    EvaluatedOnes(run.db, rule, sources, done);
    AssembledTrue(run.db, run.cap, rule, done, targets, old(run.total), g, |sources|, |targets|);
    BudgetFree(run.db, run.cap, rule, old(run.total), report);
    ReasonsAreRight(run.db, run.cap, rule, old(run.total), report);
    BudgetReasonIs(report);
    VerdictIsExact(run.db, run.cap, rule, old(run.total), report);
  }

  lemma EvaluatedOnes(db: Snapshot, rule: Rule, sources: seq<string>, done: seq<string>)
    requires StrictTotal(StringLess) && sources == Sorted(Selected(db, rule.sources), StringLess) && done <= sources
    ensures done == Evaluated(db, rule, |done|) && sources == Evaluated(db, rule, |Selected(db, rule.sources)|)
  {
    hide StringLess, StrictTotal, Selected;
  }
}
