/**
  The budgeted breadth-first search of `_Run.traverse`, with its memo caches and its trace object.
 */
module ImportSearch {
  import opened Wrappers
  import opened Ordering
  import opened ImportGraph
  import opened SearchInvariant

  class Trace {
    const source: string
    var visited: set<string>
    var parent: ParentMap
    var found: map<string, seq<Step>>
    var edges: nat
    var depth: nat
    var stop: Option<Stop>
    ghost var dist: map<string, nat>
    ghost var done: set<string>

    constructor (source: string)
      ensures this.source == source && View() == SearchInvariant.View({}, map[], map[], map[], {})
      ensures edges == 0 && depth == 0 && stop == None
    {
      this.source := source;
      visited, parent, found, edges, depth, stop := {}, map[], map[], 0, 0, None;
      dist, done := map[], {};
    }

    ghost function View(): View
      reads this
    {
      SearchInvariant.View(visited, parent, found, dist, done)
    }

    method Discover(s: Step)
      modifies `visited, `parent, `dist
      ensures View() == Visit(old(View()), s, depth)
    {
      visited := visited + {s.after};
      parent := parent[s.after := (s.before, s.id)];
      dist := dist[s.after := depth + 1];
    }

    /** Follow the parent pointers back to the source, then reverse. */
    method Chain(node: string, ghost db: Snapshot) returns (steps: seq<Step>)
      requires Tree(db, source, View()) && node in visited
      ensures steps == StepsTo(db, source, View(), node)
    {
      var at := node;
      steps := [];
      while at in parent
        invariant at in visited
        invariant StepsTo(db, source, View(), at) + steps == StepsTo(db, source, View(), node)
        decreases dist[at]
      {
        assert ParentOk(db, View(), at);
        var (before, id) := parent[at];
        steps := [Step(before, id, at)] + steps;
        at := before;
      }
    }
  }

  class Run {
    const db: Snapshot
    const cap: Limits
    var total: nat
    var adjacencyCache: map<string, seq<Row>>
    var probeCache: map<string, Option<string>>
    var pathCache: map<string, string>
    var adjacencyQueries: nat
    var probeQueries: nat
    var entityQueries: nat

    /** The caches repeat the database, each key was queried once, and the run budget is kept. */
    ghost predicate Valid()
      reads this
    {
      && InRange(cap)
      && (forall p :: p in adjacencyCache ==> adjacencyCache[p] == ImportGraph.Adjacency(db, p))
      && (forall p :: p in probeCache ==> probeCache[p] == db.dynamicCall(p))
      && (forall e :: e in pathCache ==> pathCache[e] == db.entityPath(e))
      && adjacencyQueries == |adjacencyCache| && probeQueries == |probeCache| && entityQueries == |pathCache|
      && total <= cap.maxTotalExaminedEdges
    }

    constructor (db: Snapshot, cap: Limits)
      requires InRange(cap)
      ensures Valid() && this.db == db && this.cap == cap && total == 0
    {
      this.db, this.cap, total := db, cap, 0;
      adjacencyCache, probeCache, pathCache := map[], map[], map[];
      adjacencyQueries, probeQueries, entityQueries := 0, 0, 0;
    }

    method EntityPath(entityId: string) returns (path: string)
      requires Valid()
      modifies this`pathCache, this`entityQueries
      ensures Valid() && path == db.entityPath(entityId)
    {
      if entityId !in pathCache {
        entityQueries := entityQueries + 1;
        pathCache := pathCache[entityId := db.entityPath(entityId)];
      }
      path := pathCache[entityId];
    }

    method Adjacency(path: string) returns (rows: seq<Row>)
      requires Valid()
      modifies this`adjacencyCache, this`adjacencyQueries
      ensures Valid() && rows == ImportGraph.Adjacency(db, path)
    {
      if path !in adjacencyCache {
        adjacencyQueries := adjacencyQueries + 1;
        adjacencyCache := adjacencyCache[path := ImportGraph.Adjacency(db, path)];
      }
      rows := adjacencyCache[path];
    }

    method DynamicCall(path: string) returns (call: Option<string>)
      requires Valid()
      modifies this`probeCache, this`probeQueries
      ensures Valid() && call == db.dynamicCall(path)
    {
      if path !in probeCache {
        probeQueries := probeQueries + 1;
        probeCache := probeCache[path := db.dynamicCall(path)];
      }
      call := probeCache[path];
    }

    /** An import of the admissible file `s.after`, met in a file at the current depth. */
    method Follow(trace: Trace, targets: set<string>, s: Step, following: set<string>,
                  ghost before: set<Boundary>, ghost bs: set<Boundary>)
      returns (following': set<string>)
      requires Valid() && trace.stop == None
      requires Expanding(db, cap, trace.source, targets, trace.View(), before, bs, trace.depth, following)
      requires s.before in trace.visited && trace.dist[s.before] == trace.depth
      requires IsImport(db, s) && Admissible(db, s.after)
      modifies trace`visited, trace`parent, trace`found, trace`stop, trace`dist
      ensures Expanding(db, cap, trace.source, targets, trace.View(), before, bs, trace.depth, following')
      ensures Grows(old(trace.View()), trace.View(), trace.depth)
      ensures trace.stop == None ==> Followed(trace.View(), targets, s.before, s.after)
      ensures trace.stop.Some? ==>
                StopJustified(db, cap, trace.source, targets, trace.View(), trace.depth, trace.edges, total, trace.stop.value)
    {
      hide Expanding, Tree, Grows, Followed, StopJustified, Admissible, IsImport, Visit;
      following' := following;
      ghost var (source, d) := (trace.source, trace.depth);
      ghost var w := trace.View();
      ExpandingShape(db, cap, source, targets, w, before, bs, d, following);
      if trace.depth >= cap.maxDepth {
        if s.after !in trace.visited || (s.after in targets && s.after !in trace.found) {
          trace.stop := Some(DepthLimit);
          DepthStopJustified(db, cap, source, targets, w, before, bs, following, trace.edges, total, s);
        } else {
          SeenIsFollowed(db, cap, source, targets, w, before, bs, d, following, s);
        }
        return;
      }
      if s.after in targets && s.after !in trace.found {
        FindExpands(db, cap, source, targets, w, before, bs, d, following, s);
        var steps := trace.Chain(s.before, db);
        trace.found := trace.found[s.after := steps + [s]];
      }
      ghost var w1 := trace.View();
      if s.after in trace.visited {
        SeenIsFollowed(db, cap, source, targets, w1, before, bs, d, following, s);
        return;
      }
      if |trace.visited| >= cap.maxVisitedNodes {
        trace.stop := Some(VisitedNodeLimit);
        NodeStopJustified(db, cap, source, targets, w1, before, bs, d, following, trace.edges, total, s);
        return;
      }
      VisitExpands(db, cap, source, targets, w1, before, bs, d, following, s);
      VisitIsFollowed(db, cap, source, targets, w1, before, bs, d, following, s);
      GrowsTransitive(w, w1, Visit(w1, s, d), d);
      trace.Discover(s);
      following' := following + {s.after};
    }

    /** One stored row of a file at the current depth, past the budget checks. */
    method ExamineRow(trace: Trace, targets: set<string>, bs: set<Boundary>, current: string, row: Row, ghost k: nat,
                      following: set<string>, ghost before: set<Boundary>)
      returns (bs': set<Boundary>, following': set<string>)
      requires Valid() && trace.stop == None
      requires Expanding(db, cap, trace.source, targets, trace.View(), before, bs, trace.depth, following)
      requires current in trace.visited && trace.dist[current] == trace.depth
      requires k < |db.imports(current)| && row == db.imports(current)[k]
      requires trace.dist.Keys == trace.visited && RowsHandled(db, targets, trace.View(), bs, current, k)
      modifies this`pathCache, this`entityQueries
      modifies trace`visited, trace`parent, trace`found, trace`stop, trace`dist
      ensures Valid()
      ensures Expanding(db, cap, trace.source, targets, trace.View(), before, bs', trace.depth, following')
      ensures Grows(old(trace.View()), trace.View(), trace.depth)
      ensures trace.stop == None ==> RowsHandled(db, targets, trace.View(), bs', current, k + 1)
      ensures trace.stop.Some? ==>
                StopJustified(db, cap, trace.source, targets, trace.View(), trace.depth, trace.edges, total, trace.stop.value)
    {
      hide Expanding, Tree, Grows, Followed, StopJustified, RowsHandled;
      ghost var w := trace.View();
      ExpandingShape(db, cap, trace.source, targets, w, before, bs, trace.depth, following);
      bs', following' := bs, following;
      if !Resolved(row) {
        RowIsBoundary(db, cap, trace.source, targets, w, before, bs, trace.depth, following, current, k);
        bs' := bs + {Boundary("unresolved_import", current, row.id)};
        return;
      }
      var destination := EntityPath(row.target.value);
      var refusal := Classify(db, destination);
      if refusal.Some? {
        RowIsBoundary(db, cap, trace.source, targets, w, before, bs, trace.depth, following, current, k);
        bs' := bs + {Boundary(refusal.value, destination, row.id)};
        return;
      }
      var s := Step(current, row.id, destination);
      assert IsRow(db, s, k);
      following' := Follow(trace, targets, s, following, before, bs);
      if trace.stop == None { RowIsFollowed(db, targets, w, trace.View(), bs, trace.depth, current, k); }
    }

    /** The edge budgets of the search and of the run, checked before each row. */
    method Charge(trace: Trace, ghost targets: set<string>)
      requires Valid() && trace.stop == None && trace.edges <= cap.maxExaminedEdges
      requires trace.edges < RowsOf(db, trace.visited)
      modifies this`total, trace`edges, trace`stop
      ensures Valid() && trace.edges <= cap.maxExaminedEdges
      ensures trace.stop == None ==> trace.edges == old(trace.edges) + 1 && total == old(total) + 1
      ensures trace.stop.Some? ==> trace.edges == old(trace.edges) && total == old(total)
      ensures trace.stop.Some? ==>
                StopJustified(db, cap, trace.source, targets, trace.View(), trace.depth, trace.edges, total, trace.stop.value)
    {
      if trace.edges >= cap.maxExaminedEdges {
        trace.stop := Some(ExaminedEdgeLimit);
        return;
      }
      if total >= cap.maxTotalExaminedEdges {
        trace.stop := Some(TotalExaminedEdgeLimit);
        return;
      }
      trace.edges := trace.edges + 1;
      total := total + 1;
    }

    /** One row, charged to the budgets first. */
    method ExamineNext(trace: Trace, targets: set<string>, bs: set<Boundary>, current: string, row: Row, ghost k: nat,
                       following: set<string>, ghost before: set<Boundary>, ghost w: View)
      returns (bs': set<Boundary>, following': set<string>)
      requires Valid() && trace.stop == None && trace.edges <= cap.maxExaminedEdges
      requires Expanding(db, cap, trace.source, targets, trace.View(), before, bs, trace.depth, following)
      requires current in w.visited && Grows(w, trace.View(), trace.depth)
      requires trace.dist.Keys == trace.visited && current in trace.visited && trace.dist[current] == trace.depth
      requires k < |db.imports(current)| && row == db.imports(current)[k]
      requires trace.done <= trace.visited && current !in trace.done && trace.edges == RowsOf(db, trace.done) + k
      requires RowsHandled(db, targets, trace.View(), bs, current, k)
      modifies this`total, this`pathCache, this`entityQueries
      modifies trace`visited, trace`parent, trace`found, trace`edges, trace`stop, trace`dist
      ensures Valid() && trace.edges <= cap.maxExaminedEdges
      ensures total - old(total) == trace.edges - old(trace.edges)
      ensures Expanding(db, cap, trace.source, targets, trace.View(), before, bs', trace.depth, following')
      ensures Grows(w, trace.View(), trace.depth)
      ensures trace.stop == None ==> trace.edges == old(trace.edges) + 1
      ensures EdgesCounted(db, trace.View(), trace.edges)
      ensures trace.stop == None ==>
                trace.dist.Keys == trace.visited && current in trace.visited && trace.dist[current] == trace.depth
                && trace.done <= trace.visited && RowsHandled(db, targets, trace.View(), bs', current, k + 1)
      ensures trace.stop.Some? ==>
                StopJustified(db, cap, trace.source, targets, trace.View(), trace.depth, trace.edges, total, trace.stop.value)
    {
      hide Valid, Expanding, Grows, StopJustified, RowsHandled, EdgesCounted, RowsOf;
      ghost var w1 := trace.View();
      bs', following' := bs, following;
      RowIsLeft(db, w1, current, k);
      RowsRemain(db, w1, trace.edges);
      Charge(trace, targets);
      assert trace.View() == w1;
      if trace.stop.Some? { return; }
      bs', following' := ExamineRow(trace, targets, bs, current, row, k, following, before);
      GrowsTransitive(w, w1, trace.View(), trace.depth);
      GrowsShape(w1, trace.View(), trace.depth);
      EdgesStayCounted(db, w1, trace.View(), trace.depth, trace.edges);
    }

    /** The dynamic-call probe of one file. */
    method Probe(trace: Trace, ghost targets: set<string>, bs: set<Boundary>, current: string,
                 ghost following: set<string>, ghost before: set<Boundary>)
      returns (bs': set<Boundary>)
      requires Valid()
      requires Expanding(db, cap, trace.source, targets, trace.View(), before, bs, trace.depth, following)
      requires trace.dist.Keys == trace.visited && current in trace.visited
      modifies this`probeCache, this`probeQueries
      ensures Valid()
      ensures Expanding(db, cap, trace.source, targets, trace.View(), before, bs', trace.depth, following)
      ensures RowsHandled(db, targets, trace.View(), bs', current, 0)
    {
      hide Valid, Expanding, RowsHandled;
      CallHandled(db, cap, trace.source, targets, trace.View(), before, bs, trace.depth, following, current);
      var call := DynamicCall(current);
      bs' := if call.Some? then bs + {Boundary("dynamic_import_call", current, call.value)} else bs;
      assert bs + {} == bs;
    }

    /** The dynamic-call probe and the rows of one file at the current depth. */
    method ExamineRows(trace: Trace, targets: set<string>, bs: set<Boundary>, current: string,
                       following: set<string>, ghost before: set<Boundary>)
      returns (bs': set<Boundary>, following': set<string>)
      requires Valid() && trace.stop == None && trace.edges <= cap.maxExaminedEdges
      requires Expanding(db, cap, trace.source, targets, trace.View(), before, bs, trace.depth, following)
      requires current in trace.visited && current in trace.dist && trace.dist[current] == trace.depth
      requires current !in trace.done && trace.edges == RowsOf(db, trace.done)
      modifies this, trace`visited, trace`parent, trace`found, trace`edges, trace`stop, trace`dist
      ensures Valid() && trace.edges <= cap.maxExaminedEdges
      ensures total - old(total) == trace.edges - old(trace.edges)
      ensures EdgesCounted(db, trace.View(), trace.edges)
      ensures trace.stop == None ==> trace.edges == RowsOf(db, trace.done) + |db.imports(current)|
      ensures Expanding(db, cap, trace.source, targets, trace.View(), before, bs', trace.depth, following')
      ensures Grows(old(trace.View()), trace.View(), trace.depth)
      ensures trace.stop == None ==> trace.dist.Keys == trace.visited && current in trace.visited
                                     && FileHandled(db, targets, trace.View(), bs', current)
      ensures trace.stop.Some? ==>
                StopJustified(db, cap, trace.source, targets, trace.View(), trace.depth, trace.edges, total, trace.stop.value)
    {
      hide Valid, Expanding, Tree, Grows, StopJustified, RowsHandled, FileHandled, EdgesCounted, RowsOf, InRange, ImportGraph.Adjacency,
           BoundariesOk, WithinCaps;
      ghost var (d, start) := (trace.depth, trace.edges);
      ghost var w := trace.View();
      ExpandingShape(db, cap, trace.source, targets, w, before, bs, d, following);
      following' := following;
      NoneExamined(db, w);
      bs' := Probe(trace, targets, bs, current, following, before);
      var rows := Adjacency(current);
      AdjacencyRows(db, current);
      for k := 0 to |rows|
        invariant Valid() && trace.stop == None && trace.edges <= cap.maxExaminedEdges
        invariant trace.edges == start + k && total == old(total) + k
        invariant trace.done <= trace.visited && EdgesCounted(db, trace.View(), trace.edges)
        invariant Expanding(db, cap, trace.source, targets, trace.View(), before, bs', d, following')
        invariant Grows(w, trace.View(), d)
        invariant trace.dist.Keys == trace.visited && current in trace.visited && trace.dist[current] == d
        invariant RowsHandled(db, targets, trace.View(), bs', current, k)
      {
        bs', following' := ExamineNext(trace, targets, bs', current, rows[k], k, following', before, w);
        if trace.stop.Some? { return; }
      }
      Budget();
      RowsComplete(db, targets, trace.View(), bs', current, |rows|);
    }

    lemma Budget()
      requires Valid()
      ensures InRange(cap) && cap.maxExaminedEdges < ROW_LIMIT && total <= cap.maxTotalExaminedEdges
    {}

    /** One file of the level; without a stop it ends up done. */
    method ExamineFile(trace: Trace, targets: set<string>, bs: set<Boundary>, current: string,
                       following: set<string>, ghost before: set<Boundary>)
      returns (bs': set<Boundary>, following': set<string>)
      requires Valid() && trace.stop == None && trace.edges <= cap.maxExaminedEdges
      requires Expanding(db, cap, trace.source, targets, trace.View(), before, bs, trace.depth, following)
      requires current in trace.visited && current in trace.dist && trace.dist[current] == trace.depth
      requires current !in trace.done && trace.edges == RowsOf(db, trace.done)
      modifies this, trace`visited, trace`parent, trace`found, trace`edges, trace`stop, trace`dist, trace`done
      ensures Valid() && trace.edges <= cap.maxExaminedEdges
      ensures total - old(total) == trace.edges - old(trace.edges)
      ensures EdgesCounted(db, trace.View(), trace.edges)
      ensures trace.stop == None ==> trace.edges == RowsOf(db, trace.done)
      ensures Expanding(db, cap, trace.source, targets, trace.View(), before, bs', trace.depth, following')
      ensures Grows(old(trace.View()), trace.View(), trace.depth)
      ensures trace.stop == None ==> trace.done == old(trace.done) + {current}
      ensures trace.stop.Some? ==>
                StopJustified(db, cap, trace.source, targets, trace.View(), trace.depth, trace.edges, total, trace.stop.value)
    {
      hide Valid, Expanding, Tree, Grows, StopJustified, FileHandled, EdgesCounted, RowsOf;
      bs', following' := ExamineRows(trace, targets, bs, current, following, before);
      if trace.stop.Some? { return; }
      ghost var w := trace.View();
      DoneExpands(db, cap, trace.source, targets, w, before, bs', trace.depth, following', current);
      GrowsIgnoresDone(old(trace.View()), w, trace.depth, trace.done + {current});
      RowsOfAdd(db, trace.done, current);
      ExpandingShape(db, cap, trace.source, targets, w, before, bs', trace.depth, following');
      AllExamined(db, w, trace.done + {current}, trace.edges);
      trace.done := trace.done + {current};
    }

    method Traverse(source: string, targets: set<string>, boundaries: set<Boundary>)
      returns (trace: Trace, bs: set<Boundary>)
      requires Valid()
      modifies this
      ensures Valid() && fresh(trace) && trace.source == source
      ensures total == old(total) + trace.edges && trace.edges <= cap.maxExaminedEdges
      ensures !Admissible(db, source) ==>
                bs == boundaries + {Boundary(Classify(db, source).value, source, "")}
                && trace.visited == {} && trace.found == map[] && trace.stop == None && trace.edges == 0
      ensures Admissible(db, source) ==>
                && SearchResult(db, cap, source, targets, trace.View(), trace.depth, trace.edges, total, trace.stop, boundaries, bs)
                && (trace.stop == None <==> Completable(db, cap, source, targets, old(total)))
      ensures forall p :: p in trace.visited ==> p in db.observations && db.observations[p] == Observation("python", "indexed")
      ensures source !in db.observations || db.observations[source].state != "indexed" ==>
                trace.visited == {} && bs == boundaries + {Boundary("file_not_indexed", source, "")}
      ensures source in db.observations && db.observations[source].state == "indexed" && db.observations[source].language != "python" ==>
                trace.visited == {} && bs == boundaries + {Boundary("import_language_unsupported", source, "")}
      ensures source in db.observations && db.observations[source] == Observation("python", "indexed") && trace.stop == None ==>
                StoredExactly(db, source, targets, trace.View(), boundaries, bs)
    {
      hide Valid, SearchResult, Expanding, AtDepth, Completable;
      Budget();
      trace := new Trace(source);
      bs := boundaries;
      var kind := Classify(db, source);
      ClassifyMeans(db, source, if kind.Some? then kind.value else "");
      if kind.Some? {
        bs := bs + {Boundary(kind.value, source, "")};
        return;
      }
      trace.visited := {source};
      trace.dist := map[source := 0];
      StartExpands(db, cap, source, targets, boundaries);
      bs := ExamineLevels(trace, targets, boundaries);
      Budget();
      CompletesIffFits(db, cap, source, targets, trace.View(), trace.depth, old(total), trace.edges, total, trace.stop, boundaries, bs);
      Supported(trace, targets, boundaries, bs);
    }

    lemma Supported(trace: Trace, targets: set<string>, boundaries: set<Boundary>, bs: set<Boundary>)
      requires SearchResult(db, cap, trace.source, targets, trace.View(), trace.depth, trace.edges, total, trace.stop, boundaries, bs)
      ensures forall p :: p in trace.visited ==> PythonFile(db, p)
      ensures trace.stop == None ==> StoredExactly(db, trace.source, targets, trace.View(), boundaries, bs)
    {
      VisitedAreSupported(db, trace.source, trace.View());
      if trace.stop == None {
        ExactIsStored(db, cap, trace.source, targets, trace.View(), trace.depth, trace.edges, total, boundaries, bs);
      }
    }

    /** Level after level, until one leaves nothing to follow, the depth limit, or a stop. */
    method ExamineLevels(trace: Trace, targets: set<string>, before: set<Boundary>) returns (bs: set<Boundary>)
      requires Valid() && trace.stop == None && trace.edges == 0 && trace.depth == 0
      requires Expanding(db, cap, trace.source, targets, trace.View(), before, before, 0, {})
      requires AtDepth(trace.View(), 0) == {trace.source} && trace.done == {}
      modifies this, trace`visited, trace`parent, trace`found, trace`edges, trace`depth, trace`stop, trace`dist, trace`done
      ensures Valid() && total == old(total) + trace.edges && trace.edges <= cap.maxExaminedEdges
      ensures SearchResult(db, cap, trace.source, targets, trace.View(), trace.depth, trace.edges, total, trace.stop, before, bs)
    {
      hide Valid, Expanding, StopJustified, SearchResult, StrictTotal, Ascending, AtDepth, DoneBelow, EdgesCounted;
      StringOrder();
      StartEdges(db, trace.View());
      OneInOrder(trace.source);
      bs := before;
      var level := [trace.source];
      while level != []
        invariant Valid() && trace.stop == None && trace.edges <= cap.maxExaminedEdges
        invariant total == old(total) + trace.edges
        invariant Expanding(db, cap, trace.source, targets, trace.View(), before, bs, trace.depth, {})
        invariant trace.edges == RowsOf(db, trace.done) && DoneBelow(trace.View(), trace.depth)
        invariant Ascending(level, StringLess)
        invariant forall v :: v in level <==> v in AtDepth(trace.View(), trace.depth)
        decreases cap.maxDepth - trace.depth
      {
        var following;
        bs, following := ExamineLevel(trace, targets, bs, level, before);
        if trace.stop.Some? {
          SearchStops(db, cap, trace.source, targets, trace.View(), before, bs, trace.depth, following, trace.edges, total, trace.stop.value);
          return;
        }
        if trace.depth >= cap.maxDepth {
          SearchEnds(db, cap, trace.source, targets, trace.View(), before, bs, trace.depth, following, trace.edges, total);
          return;
        }
        NextLevel(db, cap, trace.source, targets, trace.View(), before, bs, trace.depth, following);
        level := Sorted(following, StringLess);
        trace.depth := trace.depth + 1;
      }
      assert AtDepth(trace.View(), trace.depth) == {};
      SearchEnds(db, cap, trace.source, targets, trace.View(), before, bs, trace.depth, {}, trace.edges, total);
    }

    /** The files of one level in order. */
    method ExamineLevel(trace: Trace, targets: set<string>, bs: set<Boundary>, level: seq<string>, ghost before: set<Boundary>)
      returns (bs': set<Boundary>, following: set<string>)
      requires Valid() && trace.stop == None && trace.edges <= cap.maxExaminedEdges
      requires Expanding(db, cap, trace.source, targets, trace.View(), before, bs, trace.depth, {})
      requires Ascending(level, StringLess)
      requires forall v :: v in level <==> v in AtDepth(trace.View(), trace.depth)
      requires trace.edges == RowsOf(db, trace.done) && DoneBelow(trace.View(), trace.depth)
      modifies this, trace`visited, trace`parent, trace`found, trace`edges, trace`stop, trace`dist, trace`done
      ensures Valid() && trace.edges <= cap.maxExaminedEdges
      ensures total - old(total) == trace.edges - old(trace.edges)
      ensures Expanding(db, cap, trace.source, targets, trace.View(), before, bs', trace.depth, following)
      ensures trace.stop == None && trace.depth >= cap.maxDepth ==> following == {}
      ensures EdgesCounted(db, trace.View(), trace.edges)
      ensures trace.stop == None ==>
                AtDepth(trace.View(), trace.depth) <= trace.done
                && trace.edges == RowsOf(db, trace.done) && DoneBelow(trace.View(), trace.depth + 1)
      ensures trace.stop.Some? ==>
                StopJustified(db, cap, trace.source, targets, trace.View(), trace.depth, trace.edges, total, trace.stop.value)
    {
      hide Valid, Expanding, Tree, StopJustified, Grows, Admissible, EdgesCounted, DoneBelow, Ascending, StringLess, RowsOf;
      ghost var (source, d) := (trace.source, trace.depth);
      ghost var w := trace.View();
      ExpandingShape(db, cap, source, targets, w, before, bs, d, {});
      bs', following := bs, {};
      NoneExamined(db, w);
      assert w.done + (set v | v in level[..0]) == w.done;
      for i := 0 to |level|
        invariant Valid() && trace.stop == None && trace.edges <= cap.maxExaminedEdges
        invariant total - old(total) == trace.edges - old(trace.edges)
        invariant Expanding(db, cap, source, targets, trace.View(), before, bs', d, following)
        invariant Grows(w, trace.View(), d)
        invariant trace.done == w.done + set v | v in level[..i]
        invariant trace.edges == RowsOf(db, trace.done) && EdgesCounted(db, trace.View(), trace.edges)
      {
        assert level[i] in level;
        assert level[i] in AtDepth(w, d);
        ghost var w1 := trace.View();
        GrowsShape(w, w1, d);
        NotDoneYet(w, d, level, i);
        bs', following := ExamineFile(trace, targets, bs', level[i], following, before);
        GrowsTransitive(w, w1, trace.View(), d);
        if trace.stop.Some? { return; }
        assert level[..i + 1] == level[..i] + [level[i]];
      }
      assert level[..|level|] == level;
      GrowsShape(w, trace.View(), d);
      assert AtDepth(w, d) == set v | v in level;
      LevelClosed(db, cap, source, targets, w, trace.View(), before, bs', d, following);
    }
  }
}
