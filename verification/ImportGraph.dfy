/**
  The snapshot an architecture check reads, and the file-level import graph it stands for.
 */
module ImportGraph {
  import opened Wrappers

  datatype Observation = Observation(language: string, state: string)

  /** One stored import assertion of a file. */
  datatype Row = Row(id: string, target: Option<string>, resolution: string)

  /** One import step: importing file, assertion id, imported file. */
  datatype Step = Step(before: string, id: string, after: string)

  /** (kind, path, assertion id or ""). */
  datatype Boundary = Boundary(kind: string, path: string, id: string)

  /** The database, as total functions of its keys. */
  datatype Snapshot = Snapshot(
    observations: map<string, Observation>,
    imports: string -> seq<Row>,
    entityPath: string -> string,
    dynamicCall: string -> Option<string>)

  const ROW_LIMIT := 10001
  const EDGE_RESOLUTIONS: set<string> := {"EXTRACTED", "INFERRED"}
  const IMPORT_LANGUAGES: set<string> := {"python"}

  /** What the adjacency query returns: at most `ROW_LIMIT` rows. */
  function Adjacency(db: Snapshot, path: string): seq<Row> {
    var rows := db.imports(path);
    if |rows| <= ROW_LIMIT then rows else rows[..ROW_LIMIT]
  }

  lemma AdjacencyRows(db: Snapshot, path: string)
    ensures var rows := Adjacency(db, path);
            rows <= db.imports(path) && (|rows| < ROW_LIMIT ==> rows == db.imports(path))
  {}

  /** The boundary kind that makes `path` non-traversable, or None if it is admissible. */
  function Classify(db: Snapshot, path: string): Option<string> {
    if path !in db.observations || db.observations[path].state != "indexed" then Some("file_not_indexed")
    else if db.observations[path].language !in IMPORT_LANGUAGES then Some("import_language_unsupported")
    else None
  }

  predicate Admissible(db: Snapshot, path: string) { Classify(db, path).None? }

  predicate Resolved(row: Row) { row.resolution in EDGE_RESOLUTIONS && row.target.Some? }

  /** The row is an import of the admissible file `to`. */
  predicate LeadsTo(db: Snapshot, row: Row, to: string) {
    Resolved(row) && db.entityPath(row.target.value) == to && Admissible(db, to)
  }

  /** The boundary a row contributes, if it is not a usable import. */
  function RowBoundary(db: Snapshot, path: string, row: Row): Option<Boundary> {
    if !Resolved(row) then Some(Boundary("unresolved_import", path, row.id))
    else
      var to := db.entityPath(row.target.value);
      match Classify(db, to)
      case Some(kind) => Some(Boundary(kind, to, row.id))
      case None => None
  }

  /** Row `k` of the stored imports of `s.before`, wherever it lies, is the step `s`. */
  ghost predicate IsImport(db: Snapshot, s: Step) {
    exists k :: 0 <= k < |db.imports(s.before)| && IsRow(db, s, k)
  }

  ghost predicate IsRow(db: Snapshot, s: Step, k: int)
    requires 0 <= k < |db.imports(s.before)|
  {
    var row := db.imports(s.before)[k];
    row.id == s.id && LeadsTo(db, row, s.after)
  }

  ghost predicate Chain(db: Snapshot, from: string, steps: seq<Step>, to: string) {
    if steps == [] then from == to
    else
      var last := steps[|steps| - 1];
      last.after == to && IsImport(db, last) && Chain(db, from, steps[..|steps| - 1], last.before)
  }

  lemma ChainExtends(db: Snapshot, from: string, steps: seq<Step>, s: Step)
    requires Chain(db, from, steps, s.before) && IsImport(db, s)
    ensures Chain(db, from, steps + [s], s.after)
  {
    assert (steps + [s])[..|steps|] == steps;
  }

  /** No nonempty chain to `to` is shorter than `n`. */
  ghost predicate NoneShorter(db: Snapshot, from: string, to: string, n: nat) {
    forall steps :: steps != [] && Chain(db, from, steps, to) ==> n <= |steps|
  }

  ghost predicate Reachable(db: Snapshot, from: string, to: string) {
    exists steps :: Chain(db, from, steps, to)
  }

  /** `from` reaches `to` by at least one import, possibly around a cycle. */
  ghost predicate Imports(db: Snapshot, from: string, to: string) {
    exists steps :: steps != [] && Chain(db, from, steps, to)
  }

  /** The boundaries of one file: its dynamic call and its unusable rows. */
  ghost predicate IsBoundaryOf(db: Snapshot, path: string, b: Boundary) {
    || (db.dynamicCall(path).Some? && b == Boundary("dynamic_import_call", path, db.dynamicCall(path).value))
    || exists k :: 0 <= k < |db.imports(path)| && RowBoundary(db, path, db.imports(path)[k]) == Some(b)
  }

  // ----- how many rows some files have

  ghost function RowsOf(db: Snapshot, files: set<string>): nat {
    if files == {} then 0
    else
      var p :| p in files;
      |db.imports(p)| + RowsOf(db, files - {p})
  }

  lemma {:induction false} RowsOfTake(db: Snapshot, files: set<string>, p: string)
    requires p in files
    ensures RowsOf(db, files) == |db.imports(p)| + RowsOf(db, files - {p})
    decreases |files|
  {
    var q :| q in files && RowsOf(db, files) == |db.imports(q)| + RowsOf(db, files - {q});
    if p != q {
      RowsOfTake(db, files - {q}, p);
      RowsOfTake(db, files - {p}, q);
      assert files - {q} - {p} == files - {p} - {q};
    }
  }

  lemma RowsOfAdd(db: Snapshot, files: set<string>, p: string)
    requires p !in files
    ensures RowsOf(db, files + {p}) == RowsOf(db, files) + |db.imports(p)|
  {
    RowsOfTake(db, files + {p}, p);
    assert files + {p} - {p} == files;
  }

  lemma {:induction false} RowsOfMonotone(db: Snapshot, some: set<string>, files: set<string>)
    requires some <= files
    ensures RowsOf(db, some) <= RowsOf(db, files)
    decreases |some|
  {
    if some != {} {
      var p :| p in some;
      RowsOfTake(db, some, p);
      RowsOfTake(db, files, p);
      RowsOfMonotone(db, some - {p}, files - {p});
    }
  }

  // ----- the same, read off the stored records

  /** An indexed file in the one supported language. */
  ghost predicate PythonFile(db: Snapshot, p: string) {
    p in db.observations && db.observations[p] == Observation("python", "indexed")
  }

  ghost predicate NamesTarget(row: Row) {
    (row.resolution == "EXTRACTED" || row.resolution == "INFERRED") && row.target.Some?
  }

  /** Why `p` is refused. */
  ghost predicate RefusedAs(db: Snapshot, p: string, kind: string) {
    if p !in db.observations || db.observations[p].state != "indexed" then kind == "file_not_indexed"
    else db.observations[p].language != "python" && kind == "import_language_unsupported"
  }

  /** The boundary `b` of one stored row of `p`. */
  ghost predicate RowReports(db: Snapshot, p: string, row: Row, b: Boundary) {
    b.id == row.id
    && if NamesTarget(row) then b.path == db.entityPath(row.target.value) && RefusedAs(db, b.path, b.kind)
       else b.path == p && b.kind == "unresolved_import"
  }

  /** `p` has a stored row that imports the supported file `q`. */
  ghost predicate RowImports(db: Snapshot, p: string, id: string, q: string) {
    exists k :: 0 <= k < |db.imports(p)| && RowNames(db, db.imports(p)[k], id, q)
  }

  ghost predicate RowNames(db: Snapshot, row: Row, id: string, q: string) {
    row.id == id && NamesTarget(row) && db.entityPath(row.target.value) == q && PythonFile(db, q)
  }

  lemma ClassifyMeans(db: Snapshot, p: string, kind: string)
    ensures Admissible(db, p) <==> PythonFile(db, p)
    ensures Classify(db, p) == Some(kind) <==> RefusedAs(db, p, kind)
  {
    assert "file_not_indexed"[0] == 'f' && "import_language_unsupported"[0] == 'i';
  }

  lemma RowMeans(db: Snapshot, p: string, row: Row, b: Boundary)
    ensures RowBoundary(db, p, row) == Some(b) <==> RowReports(db, p, row, b)
    ensures RowBoundary(db, p, row) == None <==> NamesTarget(row) && PythonFile(db, db.entityPath(row.target.value))
  {
    if row.target.Some? {
      ClassifyMeans(db, db.entityPath(row.target.value), b.kind);
    }
  }

  lemma ImportMeans(db: Snapshot, s: Step)
    ensures IsImport(db, s) <==> RowImports(db, s.before, s.id, s.after)
  {
    ClassifyMeans(db, s.after, "");
    if IsImport(db, s) {
      var k :| 0 <= k < |db.imports(s.before)| && IsRow(db, s, k);
      assert RowNames(db, db.imports(s.before)[k], s.id, s.after);
    }
    if RowImports(db, s.before, s.id, s.after) {
      var k :| 0 <= k < |db.imports(s.before)| && RowNames(db, db.imports(s.before)[k], s.id, s.after);
      assert IsRow(db, s, k);
    }
  }

  /** The boundary `b` of the file `p`: its dynamic call's, or one of its rows'. */
  ghost predicate FileReports(db: Snapshot, p: string, b: Boundary) {
    || (b.kind == "dynamic_import_call" && b.path == p && db.dynamicCall(p) == Some(b.id))
    || exists k :: 0 <= k < |db.imports(p)| && RowReports(db, p, db.imports(p)[k], b)
  }

  lemma BoundaryMeans(db: Snapshot, p: string, b: Boundary)
    ensures IsBoundaryOf(db, p, b) <==> FileReports(db, p, b)
  {
    hide RowBoundary, RowReports;
    forall k | 0 <= k < |db.imports(p)|
      ensures RowBoundary(db, p, db.imports(p)[k]) == Some(b) <==> RowReports(db, p, db.imports(p)[k], b)
    {
      RowMeans(db, p, db.imports(p)[k], b);
    }
  }
}
