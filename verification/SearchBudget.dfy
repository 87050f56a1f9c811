/**
  Searching several sources one after another on the run's one edge budget.
 */
module SearchBudget {
  import opened ImportGraph
  import opened SearchInvariant

  /** The next source may be searched, and its search completes with `edges` rows. A refused source costs nothing. */
  ghost predicate FitsNext(db: Snapshot, cap: Limits, targets: set<string>, source: string, spent: nat, edges: int) {
    && spent < cap.maxTotalExaminedEdges
    && if Admissible(db, source) then exists files :: FitsBounds(db, cap, source, targets, spent, files) && edges == RowsOf(db, files)
       else edges == 0
  }

  /** Searching `sources` in order completes every time, with `edges` rows in all. */
  ghost predicate FitsWith(db: Snapshot, cap: Limits, targets: set<string>, sources: seq<string>, spent: nat, edges: nat) {
    if sources == [] then edges == 0
    else
      var (front, last) := (sources[..|sources| - 1], sources[|sources| - 1]);
      exists before: nat ::
        FitsWith(db, cap, targets, front, spent, before) && FitsNext(db, cap, targets, last, spent + before, edges - before)
  }

  ghost predicate Fits(db: Snapshot, cap: Limits, targets: set<string>, sources: seq<string>, spent: nat) {
    exists edges :: FitsWith(db, cap, targets, sources, spent, edges)
  }

  lemma NothingFits(db: Snapshot, cap: Limits, targets: set<string>, spent: nat)
    ensures FitsWith(db, cap, targets, [], spent, 0)
  {}

  lemma ReachedOnce(db: Snapshot, source: string, files: set<string>, others: set<string>)
    requires ReachedFiles(db, source, files) && ReachedFiles(db, source, others)
    ensures files == others
  {
    hide Reachable;
    assert forall v :: v in files <==> v in others;
  }

  lemma {:induction false} FitsOnce(db: Snapshot, cap: Limits, targets: set<string>, sources: seq<string>, spent: nat, a: nat, b: nat)
    requires FitsWith(db, cap, targets, sources, spent, a) && FitsWith(db, cap, targets, sources, spent, b)
    ensures a == b
  {
    hide FitsBounds, Admissible;
    if sources != [] {
      var (front, last) := (sources[..|sources| - 1], sources[|sources| - 1]);
      var x: nat :| FitsWith(db, cap, targets, front, spent, x) && FitsNext(db, cap, targets, last, spent + x, a - x);
      var y: nat :| FitsWith(db, cap, targets, front, spent, y) && FitsNext(db, cap, targets, last, spent + y, b - y);
      FitsOnce(db, cap, targets, front, spent, x, y);
      NextOnce(db, cap, targets, last, spent + x, a - x, b - y);
    }
  }

  lemma NextOnce(db: Snapshot, cap: Limits, targets: set<string>, source: string, spent: nat, a: int, b: int)
    requires FitsNext(db, cap, targets, source, spent, a) && FitsNext(db, cap, targets, source, spent, b)
    ensures a == b
  {
    hide Reachable, ReachedWithin, ImportedWithin, Imports;
    if Admissible(db, source) {
      var files :| FitsBounds(db, cap, source, targets, spent, files) && a == RowsOf(db, files);
      var others :| FitsBounds(db, cap, source, targets, spent, others) && b == RowsOf(db, others);
      ReachedOnce(db, source, files, others);
    }
  }

  lemma FitsExtends(db: Snapshot, cap: Limits, targets: set<string>, sources: seq<string>, source: string,
                    spent: nat, before: nat, more: nat)
    requires FitsWith(db, cap, targets, sources, spent, before) && FitsNext(db, cap, targets, source, spent + before, more)
    ensures FitsWith(db, cap, targets, sources + [source], spent, before + more)
  {
    hide FitsNext;
    var all := sources + [source];
    var edges := before + more;
    assert all[..|all| - 1] == sources && edges - before == more;
    var (front, last) := (all[..|all| - 1], all[|all| - 1]);
    assert FitsWith(db, cap, targets, front, spent, before) && FitsNext(db, cap, targets, last, spent + before, edges - before);
    assert FitsWith(db, cap, targets, all, spent, edges);
  }

  lemma FitsShrinks(db: Snapshot, cap: Limits, targets: set<string>, sources: seq<string>, source: string, spent: nat)
    returns (before: nat, more: int)
    requires Fits(db, cap, targets, sources + [source], spent)
    ensures FitsWith(db, cap, targets, sources, spent, before) && FitsNext(db, cap, targets, source, spent + before, more)
  {
    hide FitsNext;
    var all := sources + [source];
    assert all[..|all| - 1] == sources;
    var edges: nat :| FitsWith(db, cap, targets, all, spent, edges);
    var x: nat :| FitsWith(db, cap, targets, all[..|all| - 1], spent, x)
                  && FitsNext(db, cap, targets, all[|all| - 1], spent + x, edges - x);
    before, more := x, edges - x;
  }

  lemma ShortFits(db: Snapshot, cap: Limits, targets: set<string>, sources: seq<string>, spent: nat, edges: nat)
    requires FitsWith(db, cap, targets, sources, spent, edges)
    ensures Fits(db, cap, targets, sources, spent)
  {}

  lemma {:induction false} PrefixFits(db: Snapshot, cap: Limits, targets: set<string>, sources: seq<string>, spent: nat, k: nat)
    requires Fits(db, cap, targets, sources, spent) && k <= |sources|
    ensures Fits(db, cap, targets, sources[..k], spent)
    decreases |sources|
  {
    hide Fits, FitsWith;
    if k == |sources| {
      assert sources[..k] == sources;
    } else {
      var (front, last) := (sources[..|sources| - 1], sources[|sources| - 1]);
      assert front + [last] == sources && front[..k] == sources[..k];
      var before, more := FitsShrinks(db, cap, targets, front, last, spent);
      assert Fits(db, cap, targets, front, spent) by { ShortFits(db, cap, targets, front, spent, before); }
      PrefixFits(db, cap, targets, front, spent, k);
    }
  }

  /** The state of the loop over the sources: nothing has stopped exactly when the sources so far fit. */
  ghost predicate FitsSoFar(db: Snapshot, cap: Limits, targets: set<string>, sources: seq<string>, spent: nat, edges: nat, stopped: bool) {
    if stopped then !Fits(db, cap, targets, sources, spent) else FitsWith(db, cap, targets, sources, spent, edges)
  }

  lemma FitsStep(db: Snapshot, cap: Limits, targets: set<string>, sources: seq<string>, spent: nat, edges: nat, stopped: bool,
                 source: string, more: nat, stops: bool)
    requires FitsSoFar(db, cap, targets, sources, spent, edges, stopped) && spent + edges < cap.maxTotalExaminedEdges
    requires !stops <==> !Admissible(db, source) || Completable(db, cap, source, targets, spent + edges)
    requires !stops && Admissible(db, source) ==> exists files :: ReachedFiles(db, source, files) && more == RowsOf(db, files)
    requires !Admissible(db, source) ==> more == 0
    ensures FitsSoFar(db, cap, targets, sources + [source], spent, edges + more, stopped || stops)
  {
    hide FitsWith, Admissible, FitsBounds;
    if stopped || stops {
      if Fits(db, cap, targets, sources + [source], spent) {
        var before, rows := FitsShrinks(db, cap, targets, sources, source, spent);
        ShortFits(db, cap, targets, sources, spent, before);
        if !stopped { FitsOnce(db, cap, targets, sources, spent, before, edges); }
      }
    } else {
      if Admissible(db, source) { ReachedFits(db, cap, source, targets, spent + edges, more); }
      FitsExtends(db, cap, targets, sources, source, spent, edges, more);
    }
  }

  lemma ReachedFits(db: Snapshot, cap: Limits, source: string, targets: set<string>, spent: nat, more: nat)
    requires Completable(db, cap, source, targets, spent)
    requires exists files :: ReachedFiles(db, source, files) && more == RowsOf(db, files)
    ensures exists files :: FitsBounds(db, cap, source, targets, spent, files) && more == RowsOf(db, files)
  {
    hide ReachedFiles;
    var files :| FitsBounds(db, cap, source, targets, spent, files);
    var others :| ReachedFiles(db, source, others) && more == RowsOf(db, others);
    ReachedOnce(db, source, files, others);
  }

  /** A spent budget keeps the next source from being searched. */
  lemma SpentFits(db: Snapshot, cap: Limits, targets: set<string>, sources: seq<string>, spent: nat, edges: nat, stopped: bool, k: nat)
    requires k < |sources| && FitsSoFar(db, cap, targets, sources[..k], spent, edges, stopped)
    requires spent + edges >= cap.maxTotalExaminedEdges
    ensures !Fits(db, cap, targets, sources, spent)
  {
    hide FitsWith;
    assert sources[..k + 1] == sources[..k] + [sources[k]];
    if Fits(db, cap, targets, sources, spent) {
      PrefixFits(db, cap, targets, sources, spent, k + 1);
      var before, rows := FitsShrinks(db, cap, targets, sources[..k], sources[k], spent);
      ShortFits(db, cap, targets, sources[..k], spent, before);
      if !stopped { FitsOnce(db, cap, targets, sources[..k], spent, before, edges); }
    }
  }
}
