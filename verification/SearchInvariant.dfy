/**
  The state of one breadth-first search, as values, and why it is sound and complete.
 */
module SearchInvariant {
  import opened Wrappers
  import opened Ordering
  import opened ImportGraph

  type ParentMap = map<string, (string, string)>

  /** `dist` is the depth at which a file was discovered; `done` are the files whose rows were all examined. */
  datatype View = View(
    visited: set<string>,
    parent: ParentMap,
    found: map<string, seq<Step>>,
    dist: map<string, nat>,
    done: set<string>)

  ghost predicate ParentOk(db: Snapshot, w: View, v: string)
    requires v in w.parent && v in w.dist
  {
    var (before, id) := w.parent[v];
    before in w.dist && w.dist[v] == w.dist[before] + 1 && IsImport(db, Step(before, id, v))
  }

  /** The parent pointers form a tree of import steps rooted at the source. */
  ghost predicate Tree(db: Snapshot, source: string, w: View) {
    && source in w.visited && w.dist.Keys == w.visited && w.dist[source] == 0
    && w.parent.Keys == w.visited - {source}
    && (forall v :: v in w.parent ==> ParentOk(db, w, v))
    && (forall v :: v in w.visited ==> Admissible(db, v))
    && w.done <= w.visited
  }

  ghost function StepsTo(db: Snapshot, source: string, w: View, v: string): (steps: seq<Step>)
    requires Tree(db, source, w) && v in w.visited
    ensures Chain(db, source, steps, v) && |steps| == w.dist[v]
    decreases w.dist[v]
  {
    if v !in w.parent then []
    else
      assert ParentOk(db, w, v);
      var (before, id) := w.parent[v];
      ChainExtends(db, source, StepsTo(db, source, w, before), Step(before, id, v));
      StepsTo(db, source, w, before) + [Step(before, id, v)]
  }

  ghost predicate Shortest(db: Snapshot, source: string, steps: seq<Step>, t: string) {
    steps != [] && Chain(db, source, steps, t) && NoneShorter(db, source, t, |steps|)
  }

  ghost predicate FoundOk(db: Snapshot, source: string, targets: set<string>, found: map<string, seq<Step>>) {
    forall t :: t in found ==> t in targets && Shortest(db, source, found[t], t)
  }

  ghost predicate Sound(db: Snapshot, source: string, targets: set<string>, w: View) {
    Tree(db, source, w) && FoundOk(db, source, targets, w.found)
  }

  /** An examined usable row has its file visited one level down at most and its target found. */
  ghost predicate Followed(w: View, targets: set<string>, p: string, to: string)
  {
    && p in w.dist && to in w.dist && to in w.visited && w.dist[to] <= w.dist[p] + 1
    && (to in targets ==> to in w.found && |w.found[to]| <= w.dist[p] + 1)
  }

  ghost predicate RowHandled(db: Snapshot, targets: set<string>, w: View, bs: set<Boundary>, p: string, row: Row)
    requires w.dist.Keys == w.visited && p in w.visited
  {
    match RowBoundary(db, p, row)
    case Some(b) => b in bs
    case None => Followed(w, targets, p, db.entityPath(row.target.value))
  }

  ghost predicate RowsHandled(db: Snapshot, targets: set<string>, w: View, bs: set<Boundary>, p: string, k: nat)
    requires w.dist.Keys == w.visited && p in w.visited && k <= |db.imports(p)|
  {
    && (db.dynamicCall(p).Some? ==> Boundary("dynamic_import_call", p, db.dynamicCall(p).value) in bs)
    && forall j :: 0 <= j < k ==> RowHandled(db, targets, w, bs, p, db.imports(p)[j])
  }

  ghost predicate FileHandled(db: Snapshot, targets: set<string>, w: View, bs: set<Boundary>, p: string)
    requires w.dist.Keys == w.visited && p in w.visited
  {
    RowsHandled(db, targets, w, bs, p, |db.imports(p)|)
  }

  lemma RowsComplete(db: Snapshot, targets: set<string>, w: View, bs: set<Boundary>, p: string, k: nat)
    requires w.dist.Keys == w.visited && p in w.visited && k == |db.imports(p)| && RowsHandled(db, targets, w, bs, p, k)
    ensures FileHandled(db, targets, w, bs, p)
  {
    hide RowsHandled;
  }

  ghost predicate Covered(db: Snapshot, targets: set<string>, w: View, bs: set<Boundary>)
    requires w.dist.Keys == w.visited && w.done <= w.visited
  {
    forall p :: p in w.done ==> FileHandled(db, targets, w, bs, p)
  }

  /** Every file discovered before depth `d` has been examined. */
  ghost predicate Layered(w: View, d: nat)
    requires w.dist.Keys == w.visited
  {
    forall v :: v in w.visited && w.dist[v] < d ==> v in w.done
  }

  /** Each new boundary belongs to a visited file. */
  ghost predicate BoundariesOk(db: Snapshot, w: View, before: set<Boundary>, bs: set<Boundary>) {
    && before <= bs
    && forall b :: b in bs && b !in before ==> exists p :: p in w.visited && IsBoundaryOf(db, p, b)
  }

  ghost predicate Searching(db: Snapshot, source: string, targets: set<string>, w: View,
                            before: set<Boundary>, bs: set<Boundary>, d: nat) {
    Sound(db, source, targets, w) && Covered(db, targets, w, bs) && Layered(w, d) && BoundariesOk(db, w, before, bs)
  }

  // ----- what handled rows mean for chains

  /** A usable step out of an examined file has been followed. */
  lemma StepFollowed(db: Snapshot, source: string, targets: set<string>, w: View, bs: set<Boundary>, s: Step)
    requires Sound(db, source, targets, w) && Covered(db, targets, w, bs)
    requires s.before in w.done && IsImport(db, s)
    ensures Followed(w, targets, s.before, s.after)
  {
    var k :| 0 <= k < |db.imports(s.before)| && IsRow(db, s, k);
    assert FileHandled(db, targets, w, bs, s.before);
    assert RowHandled(db, targets, w, bs, s.before, db.imports(s.before)[k]);
  }

  /** Files at distance at most `d` are discovered, at their exact distance or less. */
  lemma {:induction false} ShortChainVisited(db: Snapshot, source: string, targets: set<string>, w: View,
                                             bs: set<Boundary>, d: nat, steps: seq<Step>, v: string)
    requires Sound(db, source, targets, w) && Covered(db, targets, w, bs) && Layered(w, d)
    requires Chain(db, source, steps, v) && |steps| <= d
    ensures v in w.visited && w.dist[v] <= |steps|
    decreases |steps|
  {
    if steps != [] {
      var last := steps[|steps| - 1];
      ShortChainVisited(db, source, targets, w, bs, d, steps[..|steps| - 1], last.before);
      StepFollowed(db, source, targets, w, bs, last);
    }
  }

  /** A target reached in at most `d` steps has been found. */
  lemma ShortChainFound(db: Snapshot, source: string, targets: set<string>, w: View,
                        bs: set<Boundary>, d: nat, steps: seq<Step>, t: string)
    requires Sound(db, source, targets, w) && Covered(db, targets, w, bs) && Layered(w, d)
    requires Chain(db, source, steps, t) && 0 < |steps| <= d && t in targets
    ensures t in w.found
  {
    var last := steps[|steps| - 1];
    ShortChainVisited(db, source, targets, w, bs, d, steps[..|steps| - 1], last.before);
    StepFollowed(db, source, targets, w, bs, last);
  }

  lemma NotVisitedIsFar(db: Snapshot, source: string, targets: set<string>, w: View, bs: set<Boundary>, d: nat, v: string)
    requires Sound(db, source, targets, w) && Covered(db, targets, w, bs) && Layered(w, d) && v !in w.visited
    ensures NoneShorter(db, source, v, d + 1)
  {
    forall steps | steps != [] && Chain(db, source, steps, v) ensures d + 1 <= |steps| {
      if |steps| <= d { ShortChainVisited(db, source, targets, w, bs, d, steps, v); }
    }
  }

  lemma NotFoundIsFar(db: Snapshot, source: string, targets: set<string>, w: View, bs: set<Boundary>, d: nat, t: string)
    requires Sound(db, source, targets, w) && Covered(db, targets, w, bs) && Layered(w, d)
    requires t in targets && t !in w.found
    ensures NoneShorter(db, source, t, d + 1)
  {
    forall steps | steps != [] && Chain(db, source, steps, t) ensures d + 1 <= |steps| {
      if |steps| <= d { ShortChainFound(db, source, targets, w, bs, d, steps, t); }
    }
  }

  // ----- the steps of the search keep the invariant

  lemma Shape(db: Snapshot, source: string, targets: set<string>, w: View,
              before: set<Boundary>, bs: set<Boundary>, d: nat)
    requires Searching(db, source, targets, w, before, bs, d)
    ensures w.dist.Keys == w.visited && w.done <= w.visited && Tree(db, source, w)
  {}

  lemma BoundaryKeeps(db: Snapshot, source: string, targets: set<string>, w: View,
                      before: set<Boundary>, bs: set<Boundary>, d: nat, p: string, b: Boundary)
    requires Searching(db, source, targets, w, before, bs, d) && p in w.visited && IsBoundaryOf(db, p, b)
    ensures Searching(db, source, targets, w, before, bs + {b}, d)
  {
    forall q | q in w.done ensures FileHandled(db, targets, w, bs + {b}, q) {
      assert FileHandled(db, targets, w, bs, q);
    }
  }

  lemma RowsHandledMonotone(db: Snapshot, targets: set<string>, w: View, w': View, bs: set<Boundary>, bs': set<Boundary>, p: string, k: nat)
    requires w.dist.Keys == w.visited && w'.dist.Keys == w'.visited && p in w.visited && k <= |db.imports(p)|
    requires w.visited <= w'.visited && (forall v :: v in w.visited ==> w'.dist[v] == w.dist[v])
    requires forall t :: t in w.found ==> t in w'.found && w'.found[t] == w.found[t]
    requires bs <= bs'
    requires RowsHandled(db, targets, w, bs, p, k)
    ensures RowsHandled(db, targets, w', bs', p, k)
  {
    forall j | 0 <= j < k ensures RowHandled(db, targets, w', bs', p, db.imports(p)[j]) {
      assert RowHandled(db, targets, w, bs, p, db.imports(p)[j]);
    }
  }

  /** Nothing known is lost, and every new file lies at depth `d + 1`. */
  ghost predicate Grows(w: View, w': View, d: nat) {
    && w.dist.Keys == w.visited && w'.dist.Keys == w'.visited
    && w.visited <= w'.visited && (forall v :: v in w.visited ==> w'.dist[v] == w.dist[v])
    && (forall v :: v in w'.visited && v !in w.visited ==> w'.dist[v] == d + 1)
    && (forall t :: t in w.found ==> t in w'.found && w'.found[t] == w.found[t])
  }

  lemma GrowsShape(w: View, w': View, d: nat)
    requires Grows(w, w', d)
    ensures w'.dist.Keys == w'.visited && w.visited <= w'.visited
    ensures forall v :: v in w.visited ==> v in w'.dist && v in w.dist && w'.dist[v] == w.dist[v]
  {}

  lemma GrowsIgnoresDone(w: View, w': View, d: nat, done: set<string>)
    requires Grows(w, w', d)
    ensures Grows(w, w'.(done := done), d)
  {}

  lemma GrowsTransitive(w: View, w': View, w'': View, d: nat)
    requires Grows(w, w', d) && Grows(w', w'', d)
    ensures Grows(w, w'', d)
  {}

  lemma CoveredGrows(db: Snapshot, targets: set<string>, w: View, w': View, bs: set<Boundary>, d: nat)
    requires Grows(w, w', d) && w'.done == w.done && w.done <= w.visited && Covered(db, targets, w, bs)
    ensures Covered(db, targets, w', bs)
  {
    forall p | p in w'.done ensures FileHandled(db, targets, w', bs, p) {
      assert FileHandled(db, targets, w, bs, p);
      RowsHandledMonotone(db, targets, w, w', bs, bs, p, |db.imports(p)|);
    }
  }

  /** Recording the chain to a target that was not found yet: it is a shortest one. */
  lemma FindKeeps(db: Snapshot, source: string, targets: set<string>, w: View,
                  before: set<Boundary>, bs: set<Boundary>, d: nat, s: Step)
    requires Searching(db, source, targets, w, before, bs, d)
    requires s.before in w.visited && w.dist[s.before] == d && IsImport(db, s)
    requires s.after in targets && s.after !in w.found
    ensures Searching(db, source, targets, w.(found := w.found[s.after := StepsTo(db, source, w, s.before) + [s]]), before, bs, d)
  {
    hide Chain, IsImport, NoneShorter, Covered, Tree, FoundOk;
    Shape(db, source, targets, w, before, bs, d);
    var steps := StepsTo(db, source, w, s.before) + [s];
    ChainExtends(db, source, StepsTo(db, source, w, s.before), s);
    NotFoundIsFar(db, source, targets, w, bs, d, s.after);
    AddFound(db, source, targets, w.found, steps, s.after);
    var w' := w.(found := w.found[s.after := steps]);
    SameTree(db, source, w, w');
    CoveredGrows(db, targets, w, w', bs, d);
  }

  lemma AddFound(db: Snapshot, source: string, targets: set<string>, found: map<string, seq<Step>>, steps: seq<Step>, to: string)
    requires FoundOk(db, source, targets, found) && to in targets && Shortest(db, source, steps, to)
    ensures FoundOk(db, source, targets, found[to := steps])
  {
    hide Shortest;
    forall t | t in found[to := steps]
      ensures t in targets && Shortest(db, source, found[to := steps][t], t)
    {
      if t != to { assert Shortest(db, source, found[t], t); }
    }
  }

  lemma SameTree(db: Snapshot, source: string, w: View, w': View)
    requires Tree(db, source, w) && w'.done <= w.visited
    requires w'.visited == w.visited && w'.parent == w.parent && w'.dist == w.dist
    ensures Tree(db, source, w')
  {
    forall v | v in w'.parent ensures ParentOk(db, w', v) { assert ParentOk(db, w, v); }
  }

  /** Discovering a file one level down. */
  lemma VisitKeeps(db: Snapshot, source: string, targets: set<string>, w: View,
                   before: set<Boundary>, bs: set<Boundary>, d: nat, s: Step)
    requires Searching(db, source, targets, w, before, bs, d)
    requires s.before in w.visited && w.dist[s.before] == d && IsImport(db, s) && Admissible(db, s.after)
    requires s.after !in w.visited
    ensures Searching(db, source, targets, Visit(w, s, d), before, bs, d)
  {
    hide Chain, IsImport, NoneShorter, Covered, FoundOk;
    var w' := Visit(w, s, d);
    assert w'.parent.Keys == w'.visited - {source};
    forall v | v in w'.parent ensures ParentOk(db, w', v) {
      if v != s.after { assert ParentOk(db, w, v); }
    }
    CoveredGrows(db, targets, w, w', bs, d);
  }

  lemma VisitShape(w: View, s: Step, d: nat)
    requires w.dist.Keys == w.visited && s.after !in w.visited
    ensures var w' := Visit(w, s, d);
            && Grows(w, w', d) && w'.found == w.found && w'.done == w.done && w'.visited == w.visited + {s.after}
            && |w'.visited| == |w.visited| + 1 && w'.dist[s.after] == d + 1
  {}

  ghost function Visit(w: View, s: Step, d: nat): View {
    w.(visited := w.visited + {s.after},
       parent := w.parent[s.after := (s.before, s.id)],
       dist := w.dist[s.after := d + 1])
  }

  lemma DoneKeeps(db: Snapshot, source: string, targets: set<string>, w: View,
                  before: set<Boundary>, bs: set<Boundary>, d: nat, p: string)
    requires Searching(db, source, targets, w, before, bs, d)
    requires p in w.visited && FileHandled(db, targets, w, bs, p)
    ensures Searching(db, source, targets, w.(done := w.done + {p}), before, bs, d)
  {
    var w' := w.(done := w.done + {p});
    SameTree(db, source, w, w');
    forall q | q in w'.done ensures FileHandled(db, targets, w', bs, q) {
      assert q != p ==> FileHandled(db, targets, w, bs, q);
      RowsHandledMonotone(db, targets, w, w', bs, bs, q, |db.imports(q)|);
    }
  }

  // ----- a finished search is exact

  /** The result of a search that no bound stopped. */
  ghost predicate Exact(db: Snapshot, source: string, targets: set<string>, w: View, before: set<Boundary>, bs: set<Boundary>) {
    && (forall v :: v in w.visited <==> Reachable(db, source, v))
    && (forall t :: t in w.found <==> t in targets && Imports(db, source, t))
    && (forall b :: b in bs <==> b in before || exists p :: Reachable(db, source, p) && IsBoundaryOf(db, p, b))
  }

  lemma FinishedIsExact(db: Snapshot, source: string, targets: set<string>, w: View,
                        before: set<Boundary>, bs: set<Boundary>, d: nat)
    requires Searching(db, source, targets, w, before, bs, d) && w.done == w.visited
    ensures Exact(db, source, targets, w, before, bs)
  {
    forall v
      ensures v in w.visited <==> Reachable(db, source, v)
    {
      if v in w.visited {
        assert Chain(db, source, StepsTo(db, source, w, v), v);
      } else if Reachable(db, source, v) {
        var steps :| Chain(db, source, steps, v);
        ShortChainVisited(db, source, targets, w, bs, |steps|, steps, v);
      }
    }
    forall t
      ensures t in w.found <==> t in targets && Imports(db, source, t)
    {
      if t in w.found {
        assert Shortest(db, source, w.found[t], t);
      } else if t in targets && Imports(db, source, t) {
        var steps :| steps != [] && Chain(db, source, steps, t);
        ShortChainFound(db, source, targets, w, bs, |steps|, steps, t);
      }
    }
    forall p, b | Reachable(db, source, p) && IsBoundaryOf(db, p, b)
      ensures b in bs
    {
      assert p in w.done;
      HandledHasBoundary(db, targets, w, bs, p, b);
    }
  }

  lemma HandledHasBoundary(db: Snapshot, targets: set<string>, w: View, bs: set<Boundary>, p: string, b: Boundary)
    requires w.dist.Keys == w.visited && p in w.visited
    requires FileHandled(db, targets, w, bs, p) && IsBoundaryOf(db, p, b)
    ensures b in bs
  {
    if !(db.dynamicCall(p).Some? && b == Boundary("dynamic_import_call", p, db.dynamicCall(p).value)) {
      var k :| 0 <= k < |db.imports(p)| && RowBoundary(db, p, db.imports(p)[k]) == Some(b);
      assert RowHandled(db, targets, w, bs, p, db.imports(p)[k]);
    }
  }

  // ----- budgets

  datatype Limits = Limits(
    maxDepth: nat,
    maxVisitedNodes: nat,
    maxExaminedEdges: nat,
    maxTotalExaminedEdges: nat,
    maxSourcesPerRule: nat,
    maxCounterexamplesPerRule: nat,
    maxBoundariesPerRule: nat)

  /** The ranges that `normalize_limits` enforces. */
  predicate InRange(cap: Limits) {
    && 1 <= cap.maxDepth <= 32
    && 1 <= cap.maxVisitedNodes <= 1000
    && cap.maxExaminedEdges <= 10000
    && cap.maxTotalExaminedEdges <= 2000000
    && 1 <= cap.maxSourcesPerRule <= 4096
    && 1 <= cap.maxCounterexamplesPerRule <= 64
    && cap.maxBoundariesPerRule <= 256
  }

  datatype Stop = DepthLimit | VisitedNodeLimit | ExaminedEdgeLimit | TotalExaminedEdgeLimit

  /** While depth `d` is examined: `following` holds the files discovered from it. */
  ghost predicate Expanding(db: Snapshot, cap: Limits, source: string, targets: set<string>, w: View,
                            before: set<Boundary>, bs: set<Boundary>, d: nat, following: set<string>) {
    && Searching(db, source, targets, w, before, bs, d)
    && d <= cap.maxDepth
    && (forall v :: v in w.visited ==> w.dist[v] <= d + 1)
    && (forall v :: v in following <==> v in w.visited && w.dist[v] == d + 1)
    && (d == cap.maxDepth ==> following == {})
    && WithinCaps(cap, w)
  }

  lemma ExpandingShape(db: Snapshot, cap: Limits, source: string, targets: set<string>, w: View,
                       before: set<Boundary>, bs: set<Boundary>, d: nat, following: set<string>)
    requires Expanding(db, cap, source, targets, w, before, bs, d, following)
    ensures w.dist.Keys == w.visited && w.done <= w.visited && Tree(db, source, w) && Grows(w, w, d)
    ensures d <= cap.maxDepth
  {}

  ghost function AtDepth(w: View, d: nat): set<string> {
    set v | v in w.visited && v in w.dist && w.dist[v] == d
  }

  ghost predicate WithinCaps(cap: Limits, w: View) {
    && |w.visited| <= cap.maxVisitedNodes
    && forall t :: t in w.found ==> |w.found[t]| <= cap.maxDepth
  }

  ghost predicate ChainOfLength(db: Snapshot, from: string, to: string, n: nat) {
    exists steps :: |steps| == n && Chain(db, from, steps, to)
  }

  /** `q` would still change the result and lies exactly one step beyond depth `d`. */
  ghost predicate Beyond(db: Snapshot, source: string, targets: set<string>, w: View, d: nat, q: string) {
    && (q !in w.visited || (q in targets && q !in w.found))
    && ChainOfLength(db, source, q, d + 1)
    && NoneShorter(db, source, q, d + 1)
  }

  /** What each stop reason certifies: something the search did not get to, and the bound that kept it away. */
  ghost predicate StopJustified(db: Snapshot, cap: Limits, source: string, targets: set<string>, w: View,
                                d: nat, edges: nat, total: nat, stop: Stop) {
    match stop
    case DepthLimit => d == cap.maxDepth && exists q :: Beyond(db, source, targets, w, cap.maxDepth, q)
    case VisitedNodeLimit => |w.visited| == cap.maxVisitedNodes && exists q :: q !in w.visited && Reachable(db, source, q)
    case ExaminedEdgeLimit => edges == cap.maxExaminedEdges && edges < RowsOf(db, w.visited)
    case TotalExaminedEdgeLimit => total == cap.maxTotalExaminedEdges && edges < RowsOf(db, w.visited)
  }

  /** Rows examined: all those of the files done, and no row of a visited file twice. */
  ghost predicate EdgesCounted(db: Snapshot, w: View, edges: nat) {
    RowsOf(db, w.done) <= edges <= RowsOf(db, w.visited)
  }

  /** Everything within `d` steps is known: the files, the targets, and the boundaries of the files before depth `d`. */
  ghost predicate CompleteWithin(db: Snapshot, source: string, targets: set<string>, w: View, bs: set<Boundary>, d: nat) {
    && (forall steps, v :: Chain(db, source, steps, v) && |steps| <= d ==>
          v in w.visited && (steps != [] && v in targets ==> v in w.found))
    && (forall steps, v, b :: Chain(db, source, steps, v) && |steps| < d && IsBoundaryOf(db, v, b) ==> b in bs)
  }

  /** What a search from an admissible source guarantees, whether or not a bound stopped it. */
  ghost predicate SearchResult(db: Snapshot, cap: Limits, source: string, targets: set<string>, w: View,
                               d: nat, edges: nat, total: nat, stop: Option<Stop>, before: set<Boundary>, bs: set<Boundary>) {
    && Sound(db, source, targets, w) && BoundariesOk(db, w, before, bs) && WithinCaps(cap, w)
    && (forall v :: v in w.visited ==> w.dist[v] <= cap.maxDepth)
    && EdgesCounted(db, w, edges) && d <= cap.maxDepth && CompleteWithin(db, source, targets, w, bs, d)
    && match stop
       case None => Exact(db, source, targets, w, before, bs) && edges == RowsOf(db, w.visited)
       case Some(reason) => StopJustified(db, cap, source, targets, w, d, edges, total, reason)
  }

  lemma DepthStopJustified(db: Snapshot, cap: Limits, source: string, targets: set<string>, w: View,
                           before: set<Boundary>, bs: set<Boundary>, following: set<string>, edges: nat, total: nat, s: Step)
    requires Expanding(db, cap, source, targets, w, before, bs, cap.maxDepth, following)
    requires s.before in w.visited && w.dist[s.before] == cap.maxDepth && IsImport(db, s)
    requires s.after !in w.visited || (s.after in targets && s.after !in w.found)
    ensures Beyond(db, source, targets, w, cap.maxDepth, s.after)
    ensures StopJustified(db, cap, source, targets, w, cap.maxDepth, edges, total, DepthLimit)
  {
    hide Covered, BoundariesOk, Layered, FoundOk, ParentOk, WithinCaps;
    OneStepFurther(db, source, w, s);
    if s.after !in w.visited {
      NotVisitedIsFar(db, source, targets, w, bs, cap.maxDepth, s.after);
    } else {
      NotFoundIsFar(db, source, targets, w, bs, cap.maxDepth, s.after);
    }
  }

  lemma OneStepFurther(db: Snapshot, source: string, w: View, s: Step)
    requires Tree(db, source, w) && s.before in w.visited && IsImport(db, s)
    ensures ChainOfLength(db, source, s.after, w.dist[s.before] + 1)
  {
    hide Chain, IsImport;
    var steps := StepsTo(db, source, w, s.before);
    ChainExtends(db, source, steps, s);
    assert |steps + [s]| == w.dist[s.before] + 1;
  }

  /** Recording a found target during the examination of depth `d`. */
  lemma FindExpands(db: Snapshot, cap: Limits, source: string, targets: set<string>, w: View,
                    before: set<Boundary>, bs: set<Boundary>, d: nat, following: set<string>, s: Step)
    requires Expanding(db, cap, source, targets, w, before, bs, d, following) && d < cap.maxDepth
    requires s.before in w.visited && w.dist[s.before] == d && IsImport(db, s)
    requires s.after in targets && s.after !in w.found
    ensures var w' := w.(found := w.found[s.after := StepsTo(db, source, w, s.before) + [s]]);
            Expanding(db, cap, source, targets, w', before, bs, d, following) && Grows(w, w', d)
  {
    hide Searching, IsImport, Chain, Tree;
    Shape(db, source, targets, w, before, bs, d);
    FindKeeps(db, source, targets, w, before, bs, d, s);
  }

  /** Discovering a file during the examination of depth `d`. */
  lemma VisitExpands(db: Snapshot, cap: Limits, source: string, targets: set<string>, w: View,
                     before: set<Boundary>, bs: set<Boundary>, d: nat, following: set<string>, s: Step)
    requires Expanding(db, cap, source, targets, w, before, bs, d, following)
    requires d < cap.maxDepth && |w.visited| < cap.maxVisitedNodes
    requires s.before in w.visited && w.dist[s.before] == d && IsImport(db, s) && Admissible(db, s.after)
    requires s.after !in w.visited
    ensures Expanding(db, cap, source, targets, Visit(w, s, d), before, bs, d, following + {s.after})
    ensures Grows(w, Visit(w, s, d), d)
  {
    hide Searching, IsImport, Chain, Tree, Admissible, Visit;
    Shape(db, source, targets, w, before, bs, d);
    VisitShape(w, s, d);
    VisitKeeps(db, source, targets, w, before, bs, d, s);
  }

  /** A target already found while depth `d` is examined was found within `d + 1` steps. */
  lemma FoundInTime(db: Snapshot, source: string, targets: set<string>, w: View, s: Step)
    requires Sound(db, source, targets, w) && s.before in w.visited && IsImport(db, s) && s.after in w.found
    ensures |w.found[s.after]| <= w.dist[s.before] + 1
  {
    OneStepFurther(db, source, w, s);
    assert Shortest(db, source, w.found[s.after], s.after);
  }

  /** A step to a visited file, found if it is a target, needs nothing more. */
  lemma SeenIsFollowed(db: Snapshot, cap: Limits, source: string, targets: set<string>, w: View,
                       before: set<Boundary>, bs: set<Boundary>, d: nat, following: set<string>, s: Step)
    requires Expanding(db, cap, source, targets, w, before, bs, d, following)
    requires s.before in w.visited && w.dist[s.before] == d && IsImport(db, s) && s.after in w.visited
    requires s.after in targets ==> s.after in w.found
    ensures Followed(w, targets, s.before, s.after)
  {
    hide Chain, IsImport, Covered, BoundariesOk, Layered;
    if s.after in w.found { FoundInTime(db, source, targets, w, s); }
  }

  lemma VisitIsFollowed(db: Snapshot, cap: Limits, source: string, targets: set<string>, w: View,
                        before: set<Boundary>, bs: set<Boundary>, d: nat, following: set<string>, s: Step)
    requires Expanding(db, cap, source, targets, w, before, bs, d, following)
    requires s.before in w.visited && w.dist[s.before] == d && IsImport(db, s) && s.after !in w.visited
    requires s.after in targets ==> s.after in w.found
    ensures Followed(Visit(w, s, d), targets, s.before, s.after)
  {
    hide Chain, IsImport, Covered, BoundariesOk, Layered, Visit;
    VisitShape(w, s, d);
    if s.after in w.found { FoundInTime(db, source, targets, w, s); }
  }

  /** Row `k` of a file that is not done is not examined yet. */
  lemma RowIsLeft(db: Snapshot, w: View, p: string, k: nat)
    requires w.done <= w.visited && p in w.visited && p !in w.done && k < |db.imports(p)|
    ensures EdgesCounted(db, w, RowsOf(db, w.done) + k) && EdgesCounted(db, w, RowsOf(db, w.done) + k + 1)
  {
    RowsOfAdd(db, w.done, p);
    RowsOfMonotone(db, w.done + {p}, w.visited);
  }

  lemma RowsRemain(db: Snapshot, w: View, edges: nat)
    requires EdgesCounted(db, w, edges + 1)
    ensures edges < RowsOf(db, w.visited)
  {}

  lemma NoneExamined(db: Snapshot, w: View)
    requires w.done <= w.visited
    ensures EdgesCounted(db, w, RowsOf(db, w.done))
  {
    RowsOfMonotone(db, w.done, w.visited);
  }

  lemma AllExamined(db: Snapshot, w: View, done: set<string>, edges: nat)
    requires done <= w.visited && edges == RowsOf(db, done)
    ensures EdgesCounted(db, w.(done := done), edges)
  {
    RowsOfMonotone(db, done, w.visited);
  }

  lemma StartEdges(db: Snapshot, w: View)
    requires w.done == {}
    ensures RowsOf(db, w.done) == 0 && DoneBelow(w, 0)
  {}

  /** No file of the current level is done before its turn. */
  lemma NotDoneYet(w: View, d: nat, level: seq<string>, i: nat)
    requires DoneBelow(w, d) && i < |level| && Ascending(level, StringLess) && level[i] in AtDepth(w, d)
    ensures level[i] !in w.done + set v | v in level[..i]
  {
    StringOrder();
    hide StringLess;
  }

  lemma OneInOrder(v: string)
    ensures Ascending([v], StringLess)
  {}

  lemma EdgesStayCounted(db: Snapshot, w: View, w': View, d: nat, edges: nat)
    requires EdgesCounted(db, w, edges) && Grows(w, w', d) && w'.done == w.done
    ensures EdgesCounted(db, w', edges)
  {
    RowsOfMonotone(db, w.visited, w'.visited);
  }

  /** The files done lie before depth `d`. */
  ghost predicate DoneBelow(w: View, d: nat) {
    forall v :: v in w.done ==> v in w.dist && w.dist[v] < d
  }

  lemma NodeStopJustified(db: Snapshot, cap: Limits, source: string, targets: set<string>, w: View,
                          before: set<Boundary>, bs: set<Boundary>, d: nat, following: set<string>,
                          edges: nat, total: nat, s: Step)
    requires Expanding(db, cap, source, targets, w, before, bs, d, following) && |w.visited| >= cap.maxVisitedNodes
    requires s.before in w.visited && IsImport(db, s) && s.after !in w.visited
    ensures StopJustified(db, cap, source, targets, w, d, edges, total, VisitedNodeLimit)
  {
    StepReaches(db, source, w, s);
  }

  /** Reporting a boundary of a visited file. */
  lemma BoundaryExpands(db: Snapshot, cap: Limits, source: string, targets: set<string>, w: View,
                        before: set<Boundary>, bs: set<Boundary>, d: nat, following: set<string>, p: string, b: Boundary)
    requires Expanding(db, cap, source, targets, w, before, bs, d, following)
    requires p in w.visited && IsBoundaryOf(db, p, b)
    ensures Expanding(db, cap, source, targets, w, before, bs + {b}, d, following)
  {
    hide Searching, IsBoundaryOf;
    BoundaryKeeps(db, source, targets, w, before, bs, d, p, b);
  }

  /** A row that is no usable import: its boundary is reported and the row is handled. */
  lemma RowIsBoundary(db: Snapshot, cap: Limits, source: string, targets: set<string>, w: View,
                      before: set<Boundary>, bs: set<Boundary>, d: nat, following: set<string>, p: string, k: nat)
    requires Expanding(db, cap, source, targets, w, before, bs, d, following) && p in w.visited
    requires k < |db.imports(p)| && RowsHandled(db, targets, w, bs, p, k) && RowBoundary(db, p, db.imports(p)[k]).Some?
    ensures var bs' := bs + {RowBoundary(db, p, db.imports(p)[k]).value};
            Expanding(db, cap, source, targets, w, before, bs', d, following) && RowsHandled(db, targets, w, bs', p, k + 1)
  {
    hide Expanding, Followed;
    ExpandingShape(db, cap, source, targets, w, before, bs, d, following);
    var b := RowBoundary(db, p, db.imports(p)[k]).value;
    assert IsBoundaryOf(db, p, b);
    BoundaryExpands(db, cap, source, targets, w, before, bs, d, following, p, b);
    RowsHandledMonotone(db, targets, w, w, bs, bs + {b}, p, k);
  }

  /** A usable row that was followed is handled. */
  lemma RowIsFollowed(db: Snapshot, targets: set<string>, w: View, w': View, bs: set<Boundary>, d: nat, p: string, k: nat)
    requires Grows(w, w', d) && p in w.visited && k < |db.imports(p)|
    requires RowsHandled(db, targets, w, bs, p, k) && RowBoundary(db, p, db.imports(p)[k]).None?
    requires Followed(w', targets, p, db.entityPath(db.imports(p)[k].target.value))
    ensures RowsHandled(db, targets, w', bs, p, k + 1)
  {
    hide Followed;
    RowsHandledMonotone(db, targets, w, w', bs, bs, p, k);
  }

  /** A file all of whose rows are handled is done. */
  lemma DoneExpands(db: Snapshot, cap: Limits, source: string, targets: set<string>, w: View,
                    before: set<Boundary>, bs: set<Boundary>, d: nat, following: set<string>, p: string)
    requires Expanding(db, cap, source, targets, w, before, bs, d, following)
    requires p in w.visited && FileHandled(db, targets, w, bs, p)
    ensures Expanding(db, cap, source, targets, w.(done := w.done + {p}), before, bs, d, following)
  {
    hide Searching, FileHandled;
    DoneKeeps(db, source, targets, w, before, bs, d, p);
  }

  /** Before any row of a file is examined only its dynamic call matters. */
  lemma CallHandled(db: Snapshot, cap: Limits, source: string, targets: set<string>, w: View,
                    before: set<Boundary>, bs: set<Boundary>, d: nat, following: set<string>, p: string)
    requires Expanding(db, cap, source, targets, w, before, bs, d, following) && p in w.visited
    ensures var bs' := bs + match db.dynamicCall(p) case Some(call) => {Boundary("dynamic_import_call", p, call)} case None => {};
            Expanding(db, cap, source, targets, w, before, bs', d, following) && RowsHandled(db, targets, w, bs', p, 0)
  {
    hide Expanding;
    ExpandingShape(db, cap, source, targets, w, before, bs, d, following);
    if db.dynamicCall(p).Some? {
      var b := Boundary("dynamic_import_call", p, db.dynamicCall(p).value);
      assert IsBoundaryOf(db, p, b);
      BoundaryExpands(db, cap, source, targets, w, before, bs, d, following, p, b);
    } else {
      assert bs + {} == bs;
    }
  }

  /** The search of an admissible source starts at depth 0 with only the source known. */
  lemma StartExpands(db: Snapshot, cap: Limits, source: string, targets: set<string>, before: set<Boundary>)
    requires InRange(cap) && Admissible(db, source)
    ensures Expanding(db, cap, source, targets, View({source}, map[], map[], map[source := 0], {}), before, before, 0, {})
    ensures AtDepth(View({source}, map[], map[], map[source := 0], {}), 0) == {source}
  {}

  /** A level fully examined at depth `d` opens depth `d + 1`. */
  lemma NextLevel(db: Snapshot, cap: Limits, source: string, targets: set<string>, w: View,
                  before: set<Boundary>, bs: set<Boundary>, d: nat, following: set<string>)
    requires Expanding(db, cap, source, targets, w, before, bs, d, following) && d < cap.maxDepth
    requires AtDepth(w, d) <= w.done
    ensures Expanding(db, cap, source, targets, w, before, bs, d + 1, {})
    ensures following == AtDepth(w, d + 1)
  {
    hide Sound, Covered, BoundariesOk;
    ExpandingShape(db, cap, source, targets, w, before, bs, d, following);
  }

  /** Files new since the level began lie one level down, so the level's files are all known. */
  lemma LevelClosed(db: Snapshot, cap: Limits, source: string, targets: set<string>, w0: View, w: View,
                    before: set<Boundary>, bs: set<Boundary>, d: nat, following: set<string>)
    requires Expanding(db, cap, source, targets, w, before, bs, d, following)
    requires Grows(w0, w, d) && w0.done <= w0.visited
    requires DoneBelow(w0, d) && w.done == w0.done + AtDepth(w0, d)
    ensures AtDepth(w, d) <= w.done && DoneBelow(w, d + 1)
    ensures d >= cap.maxDepth ==> following == {}
  {
    hide Searching;
  }

  /** While depth `d` is examined everything within `d` steps is known. */
  lemma DepthsComplete(db: Snapshot, cap: Limits, source: string, targets: set<string>, w: View,
                       before: set<Boundary>, bs: set<Boundary>, d: nat, following: set<string>)
    requires Expanding(db, cap, source, targets, w, before, bs, d, following)
    ensures CompleteWithin(db, source, targets, w, bs, d)
  {
    hide Chain, IsBoundaryOf, FileHandled;
    forall steps, v | Chain(db, source, steps, v) && |steps| <= d
      ensures v in w.visited && w.dist[v] <= |steps| && (steps != [] && v in targets ==> v in w.found)
    {
      ShortChainVisited(db, source, targets, w, bs, d, steps, v);
      if steps != [] && v in targets { ShortChainFound(db, source, targets, w, bs, d, steps, v); }
    }
    forall steps, v, b | Chain(db, source, steps, v) && |steps| < d && IsBoundaryOf(db, v, b)
      ensures b in bs
    {
      assert v in w.visited && w.dist[v] <= |steps|;
      HandledHasBoundary(db, targets, w, bs, v, b);
    }
  }

  /** A search whose last level is examined and leaves nothing to follow is exact. */
  lemma SearchEnds(db: Snapshot, cap: Limits, source: string, targets: set<string>, w: View,
                   before: set<Boundary>, bs: set<Boundary>, d: nat, following: set<string>, edges: nat, total: nat)
    requires Expanding(db, cap, source, targets, w, before, bs, d, following)
    requires following == {} && AtDepth(w, d) <= w.done && edges == RowsOf(db, w.done)
    ensures SearchResult(db, cap, source, targets, w, d, edges, total, None, before, bs)
  {
    hide Covered, BoundariesOk, Exact, FoundOk, ParentOk, CompleteWithin;
    DepthsComplete(db, cap, source, targets, w, before, bs, d, following);
    forall v | v in w.visited ensures v in w.done && w.dist[v] <= d {
      assert w.dist[v] == d + 1 ==> v in following;
    }
    assert w.done == w.visited;
    FinishedIsExact(db, source, targets, w, before, bs, d);
  }

  lemma SearchStops(db: Snapshot, cap: Limits, source: string, targets: set<string>, w: View,
                    before: set<Boundary>, bs: set<Boundary>, d: nat, following: set<string>,
                    edges: nat, total: nat, reason: Stop)
    requires Expanding(db, cap, source, targets, w, before, bs, d, following)
    requires EdgesCounted(db, w, edges) && StopJustified(db, cap, source, targets, w, d, edges, total, reason)
    ensures SearchResult(db, cap, source, targets, w, d, edges, total, Some(reason), before, bs)
  {
    hide Covered, BoundariesOk, StopJustified, FoundOk, ParentOk, CompleteWithin;
    DepthsComplete(db, cap, source, targets, w, before, bs, d, following);
    forall v | v in w.visited ensures w.dist[v] <= cap.maxDepth {
      assert w.dist[v] == d + 1 ==> v in following;
    }
  }

  lemma StepReaches(db: Snapshot, source: string, w: View, s: Step)
    requires Tree(db, source, w) && s.before in w.visited && IsImport(db, s)
    ensures Reachable(db, source, s.after)
  {
    hide Chain, IsImport;
    ChainExtends(db, source, StepsTo(db, source, w, s.before), s);
  }

  // ----- when the search completes

  /** `files` are the files the source reaches. */
  ghost predicate ReachedFiles(db: Snapshot, source: string, files: set<string>) {
    forall v :: v in files <==> Reachable(db, source, v)
  }

  ghost predicate ReachedWithin(db: Snapshot, source: string, v: string, depth: nat) {
    exists steps :: |steps| <= depth && Chain(db, source, steps, v)
  }

  ghost predicate ImportedWithin(db: Snapshot, source: string, t: string, depth: nat) {
    exists steps :: 0 < |steps| <= depth && Chain(db, source, steps, t)
  }

  /** What the source reaches fits every bound, with `spent` rows examined before. */
  ghost predicate FitsBounds(db: Snapshot, cap: Limits, source: string, targets: set<string>, spent: nat, files: set<string>) {
    && ReachedFiles(db, source, files)
    && |files| <= cap.maxVisitedNodes
    && RowsOf(db, files) <= cap.maxExaminedEdges
    && spent + RowsOf(db, files) <= cap.maxTotalExaminedEdges
    && (forall v :: v in files ==> ReachedWithin(db, source, v, cap.maxDepth))
    && (forall t :: t in targets && Imports(db, source, t) ==> ImportedWithin(db, source, t, cap.maxDepth))
  }

  ghost predicate Completable(db: Snapshot, cap: Limits, source: string, targets: set<string>, spent: nat) {
    exists files :: FitsBounds(db, cap, source, targets, spent, files)
  }

  lemma ExactFits(db: Snapshot, cap: Limits, source: string, targets: set<string>, w: View,
                  d: nat, spent: nat, edges: nat, total: nat, before: set<Boundary>, bs: set<Boundary>)
    requires SearchResult(db, cap, source, targets, w, d, edges, total, None, before, bs)
    requires total == spent + edges && edges <= cap.maxExaminedEdges && total <= cap.maxTotalExaminedEdges
    ensures FitsBounds(db, cap, source, targets, spent, w.visited)
  {
    hide CompleteWithin, BoundariesOk, ParentOk, Chain;
    forall v | v in w.visited
      ensures ReachedWithin(db, source, v, cap.maxDepth)
    {
      assert |StepsTo(db, source, w, v)| <= cap.maxDepth;
    }
    forall t | t in targets && Imports(db, source, t)
      ensures ImportedWithin(db, source, t, cap.maxDepth)
    {
      assert t in w.found;
      assert Shortest(db, source, w.found[t], t);
    }
  }

  lemma StopExceeds(db: Snapshot, cap: Limits, source: string, targets: set<string>, w: View,
                    d: nat, spent: nat, edges: nat, total: nat, reason: Stop, before: set<Boundary>, bs: set<Boundary>, files: set<string>)
    requires SearchResult(db, cap, source, targets, w, d, edges, total, Some(reason), before, bs)
    requires total == spent + edges
    ensures !FitsBounds(db, cap, source, targets, spent, files)
  {
    hide CompleteWithin, BoundariesOk, ParentOk, Chain, FoundOk;
    if ReachedFiles(db, source, files) {
      forall v | v in w.visited ensures v in files { assert Chain(db, source, StepsTo(db, source, w, v), v); }
      RowsOfMonotone(db, w.visited, files);
      match reason
      case DepthLimit =>
        var q :| Beyond(db, source, targets, w, cap.maxDepth, q);
        FarTargetMisses(db, source, w, targets, cap.maxDepth, q);
      case VisitedNodeLimit =>
        var q :| q !in w.visited && Reachable(db, source, q);
        MoreFiles(w.visited, files, q);
      case _ =>
    }
  }

  lemma MoreFiles(some: set<string>, files: set<string>, q: string)
    requires some <= files && q in files && q !in some
    ensures |files| > |some|
  {
    assert some + {q} + (files - some - {q}) == files;
  }

  /** A file or target beyond depth `d` is reached or imported, and not within `d` steps. */
  lemma FarTargetMisses(db: Snapshot, source: string, w: View, targets: set<string>, d: nat, q: string)
    requires Beyond(db, source, targets, w, d, q) && source in w.visited
    ensures Reachable(db, source, q) && Imports(db, source, q) && !ImportedWithin(db, source, q, d)
    ensures q !in targets ==> !ReachedWithin(db, source, q, d)
    ensures q !in w.visited ==> !ReachedWithin(db, source, q, d)
  {
    hide Chain;
    var far :| |far| == d + 1 && Chain(db, source, far, q);
    assert far != [];
    forall steps | |steps| <= d && q !in w.visited
      ensures !Chain(db, source, steps, q)
    {
      EmptyChain(db, source, q);
    }
  }

  lemma EmptyChain(db: Snapshot, source: string, q: string)
    ensures Chain(db, source, [], q) <==> source == q
  {}

  /** A search completes exactly when what its source reaches fits every bound. */
  lemma CompletesIffFits(db: Snapshot, cap: Limits, source: string, targets: set<string>, w: View,
                         d: nat, spent: nat, edges: nat, total: nat, stop: Option<Stop>, before: set<Boundary>, bs: set<Boundary>)
    requires SearchResult(db, cap, source, targets, w, d, edges, total, stop, before, bs)
    requires total == spent + edges && edges <= cap.maxExaminedEdges && total <= cap.maxTotalExaminedEdges
    ensures stop == None <==> Completable(db, cap, source, targets, spent)
  {
    hide SearchResult, FitsBounds;
    match stop
    case None => ExactFits(db, cap, source, targets, w, d, spent, edges, total, before, bs);
    case Some(reason) =>
      forall files: set<string> ensures !FitsBounds(db, cap, source, targets, spent, files) {
        StopExceeds(db, cap, source, targets, w, d, spent, edges, total, reason, before, bs, files);
      }
  }

  // ----- the result, read off the stored records

  /** The files visited are closed under the stored imports of supported files and are all reached by them, the targets found are
      the imported ones, and the boundaries are exactly those of the visited files. */
  ghost predicate StoredExactly(db: Snapshot, source: string, targets: set<string>, w: View, before: set<Boundary>, bs: set<Boundary>) {
    && source in w.visited
    && (forall p, id, q :: p in w.visited && RowImports(db, p, id, q) ==> q in w.visited && (q in targets ==> q in w.found))
    && (forall q :: q in w.visited && q != source ==> exists p, id :: p in w.visited && RowImports(db, p, id, q))
    && (forall q :: q in w.found ==> q in targets && exists p, id :: p in w.visited && RowImports(db, p, id, q))
    && (forall b :: b in bs <==> b in before || exists p :: p in w.visited && FileReports(db, p, b))
  }

  lemma ExactIsStored(db: Snapshot, cap: Limits, source: string, targets: set<string>, w: View,
                      d: nat, edges: nat, total: nat, before: set<Boundary>, bs: set<Boundary>)
    requires SearchResult(db, cap, source, targets, w, d, edges, total, None, before, bs)
    ensures StoredExactly(db, source, targets, w, before, bs)
  {
    hide CompleteWithin, BoundariesOk, EdgesCounted, IsImport, RowImports, IsBoundaryOf, FileReports, Reachable;
    forall p, id, q | p in w.visited && RowImports(db, p, id, q)
      ensures q in w.visited && (q in targets ==> q in w.found)
    {
      ImportMeans(db, Step(p, id, q));
      StepStaysReached(db, source, w, Step(p, id, q));
    }
    forall q | q in w.visited && q != source
      ensures exists p, id :: p in w.visited && RowImports(db, p, id, q)
    {
      assert ParentOk(db, w, q);
      var (p, id) := w.parent[q];
      ImportMeans(db, Step(p, id, q));
      assert p in w.visited && RowImports(db, p, id, q);
    }
    forall q | q in w.found
      ensures q in targets && exists p, id :: p in w.visited && RowImports(db, p, id, q)
    {
      var s := LastStep(db, source, w.found[q], q);
      ImportMeans(db, s);
      assert s.before in w.visited && RowImports(db, s.before, s.id, q);
    }
    forall b
      ensures b in bs <==> b in before || exists p :: p in w.visited && FileReports(db, p, b)
    {
      forall p ensures IsBoundaryOf(db, p, b) <==> FileReports(db, p, b) { BoundaryMeans(db, p, b); }
      assert (exists p :: Reachable(db, source, p) && IsBoundaryOf(db, p, b))
        <==> (exists p :: p in w.visited && FileReports(db, p, b));
    }
  }

  lemma StepStaysReached(db: Snapshot, source: string, w: View, s: Step)
    requires Tree(db, source, w) && s.before in w.visited && IsImport(db, s)
    ensures Reachable(db, source, s.after) && Imports(db, source, s.after)
  {
    hide Chain, IsImport;
    var steps := StepsTo(db, source, w, s.before);
    ChainExtends(db, source, steps, s);
    assert steps + [s] != [];
  }

  lemma LastStep(db: Snapshot, source: string, steps: seq<Step>, q: string) returns (s: Step)
    requires Shortest(db, source, steps, q)
    ensures s.after == q && IsImport(db, s) && Reachable(db, source, s.before)
  {
    s := steps[|steps| - 1];
    assert Chain(db, source, steps[..|steps| - 1], s.before);
  }

  lemma VisitedAreSupported(db: Snapshot, source: string, w: View)
    requires Tree(db, source, w)
    ensures forall p :: p in w.visited ==> PythonFile(db, p)
  {
    hide Admissible, PythonFile;
    forall p | p in w.visited ensures PythonFile(db, p) { ClassifyMeans(db, p, ""); }
  }
}
