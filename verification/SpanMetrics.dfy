/**
  `metrics`: how many bytes of the useful labels a selection of sources covers.
  Byte counts are sizes of sets of (file version, position) pairs. `inline` stands for the decoded inline bytes.
*/
module SpanMetrics {
  import opened Wrappers
  import opened SpanUnion
  import opened Ordering

  type Key = (string, string)

  datatype Source = Source(available: bool, path: string, sha: string, span: Span, inline: Option<seq<bv8>>) {
    function Key(): Key { (path, sha) }
  }

  datatype Label = Label(path: string, sha: string, span: Span) {
    function Key(): Key { (path, sha) }
  }

  datatype Fixture = Fixture(hashes: map<string, string>, files: map<string, seq<bv8>>)

  datatype Fault = SourceDiffers | FileMissing | OutsideSource | InlineDiffers

  datatype Metrics = Metrics(usefulLabel: int, usefulReference: nat, usefulInline: nat,
                             uniqueReference: nat, uniqueInline: nat,
                             redundantReference: int, redundantInline: int, selectedFiles: seq<string>)

  type Spans = map<Key, seq<Span>>

  // ----- the bytes of spans

  predicate Holds(s: Span, b: int) {
    s.start <= b < s.end
  }

  function SpanBytes(s: Span): set<int> {
    set b | s.start <= b < s.end && Holds(s, b)
  }

  ghost function RowBytes(rows: seq<Span>): set<int> {
    if rows == [] then {} else SpanBytes(rows[0]) + RowBytes(rows[1..])
  }

  ghost function Tagged(key: Key, bytes: set<int>): set<(Key, int)> {
    set b | b in bytes :: (key, b)
  }

  ghost function MapBytes(m: Spans): set<(Key, int)> {
    set k, b | k in m && b in RowBytes(m[k]) :: (k, b)
  }

  function Rows(m: Spans, key: Key): seq<Span> {
    if key in m then m[key] else []
  }

  lemma {:induction false} RowBytesReached(rows: seq<Span>, b: int)
    ensures b in RowBytes(rows) <==> Reaches(rows, 2 * b + 1)
  {
    if rows != [] {
      ReachesFirst(rows, 2 * b + 1);
      RowBytesReached(rows[1..], b);
      assert Holds(rows[0], b) <==> Touches(rows[0], 2 * b + 1);
    }
  }

  // ----- what the sources and labels say

  ghost predicate Selected(s: Source, inlineOnly: bool) {
    s.available && (inlineOnly ==> s.inline.Some?)
  }

  /** The bytes of a file version that the sources reference, or carry inline. */
  ghost function Bytes(sources: seq<Source>, inlineOnly: bool): set<(Key, int)> {
    if sources == [] then {}
    else
      var (front, last) := (sources[..|sources| - 1], sources[|sources| - 1]);
      Bytes(front, inlineOnly) + if Selected(last, inlineOnly) then Tagged(last.Key(), SpanBytes(last.span)) else {}
  }

  ghost function LabelBytes(labels: seq<Label>): set<(Key, int)> {
    if labels == [] then {}
    else
      var (front, last) := (labels[..|labels| - 1], labels[|labels| - 1]);
      LabelBytes(front) + Tagged(last.Key(), SpanBytes(last.span))
  }

  /** The lengths of the same spans, added up. */
  ghost function Summed(sources: seq<Source>, inlineOnly: bool): int {
    if sources == [] then 0
    else
      var (front, last) := (sources[..|sources| - 1], sources[|sources| - 1]);
      Summed(front, inlineOnly) + if Selected(last, inlineOnly) then last.span.end - last.span.start else 0
  }

  ghost function Files(sources: seq<Source>): set<string> {
    set i | 0 <= i < |sources| && sources[i].available :: sources[i].path
  }

  function FaultOf(s: Source, fixture: Fixture): Option<Fault> {
    if !s.available then None
    else if s.path !in fixture.hashes || fixture.hashes[s.path] != s.sha then Some(SourceDiffers)
    else if s.path !in fixture.files then Some(FileMissing)
    else
      var raw := fixture.files[s.path];
      if !(0 <= s.span.start <= s.span.end <= |raw|) then Some(OutsideSource)
      else if s.inline.Some? && s.inline.value != raw[s.span.start..s.span.end] then Some(InlineDiffers)
      else None
  }

  ghost function FirstFault(sources: seq<Source>, fixture: Fixture): Option<Fault> {
    if sources == [] then None
    else if FaultOf(sources[0], fixture).Some? then FaultOf(sources[0], fixture)
    else FirstFault(sources[1..], fixture)
  }

  /** A source that passes: not available, or of the frozen version, inside its file, with the file's own bytes inline. */
  ghost predicate Sound(s: Source, fixture: Fixture) {
    s.available ==>
      && s.path in fixture.hashes && fixture.hashes[s.path] == s.sha && s.path in fixture.files
      && 0 <= s.span.start && s.span.start <= s.span.end && s.span.end <= |fixture.files[s.path]|
      && (s.inline.Some? ==> s.inline.value == fixture.files[s.path][s.span.start..s.span.end])
  }

  /** What is wrong with a source, the first of the four tests that fails. */
  ghost predicate Wrong(s: Source, fixture: Fixture, fault: Fault) {
    && s.available
    && var frozen := s.path in fixture.hashes && fixture.hashes[s.path] == s.sha;
       match fault
       case SourceDiffers => !frozen
       case FileMissing => frozen && s.path !in fixture.files
       case OutsideSource =>
         frozen && s.path in fixture.files
         && (s.span.start < 0 || s.span.start > s.span.end || s.span.end > |fixture.files[s.path]|)
       case InlineDiffers =>
         frozen && s.path in fixture.files
         && 0 <= s.span.start && s.span.start <= s.span.end && s.span.end <= |fixture.files[s.path]|
         && s.inline.Some? && s.inline.value != fixture.files[s.path][s.span.start..s.span.end]
  }

  lemma FaultMeans(s: Source, fixture: Fixture, fault: Fault)
    ensures FaultOf(s, fixture) == Some(fault) <==> Wrong(s, fixture, fault)
    ensures FaultOf(s, fixture) == None <==> Sound(s, fixture)
  {}

  /** The first source that does not pass decides. */
  ghost predicate FirstWrong(sources: seq<Source>, fixture: Fixture, fault: Fault) {
    exists i :: 0 <= i < |sources| && Wrong(sources[i], fixture, fault) && forall j :: 0 <= j < i ==> Sound(sources[j], fixture)
  }

  lemma {:induction false} FirstFaultMeans(sources: seq<Source>, fixture: Fixture, fault: Fault)
    ensures FirstFault(sources, fixture) == Some(fault) <==> FirstWrong(sources, fixture, fault)
    ensures FirstFault(sources, fixture) == None <==> forall i :: 0 <= i < |sources| ==> Sound(sources[i], fixture)
  {
    hide FaultOf, Wrong, Sound;
    if sources != [] {
      var rest := sources[1..];
      FirstFaultMeans(rest, fixture, fault);
      FaultMeans(sources[0], fixture, fault);
      if FaultOf(sources[0], fixture).Some? { FaultMeans(sources[0], fixture, FaultOf(sources[0], fixture).value); }
      NotBoth(sources[0], fixture, fault);
      assert forall i :: 0 <= i < |rest| ==> rest[i] == sources[i + 1];
      if FirstWrong(rest, fixture, fault) && Sound(sources[0], fixture) {
        var i :| 0 <= i < |rest| && Wrong(rest[i], fixture, fault) && forall j :: 0 <= j < i ==> Sound(rest[j], fixture);
        assert Wrong(sources[i + 1], fixture, fault);
        forall j | 0 <= j < i + 1 ensures Sound(sources[j], fixture) { if j > 0 { assert Sound(rest[j - 1], fixture); } }
      }
      if FirstWrong(sources, fixture, fault) && !Wrong(sources[0], fixture, fault) {
        var i :| 0 <= i < |sources| && Wrong(sources[i], fixture, fault) && forall j :: 0 <= j < i ==> Sound(sources[j], fixture);
        assert i > 0 && Wrong(rest[i - 1], fixture, fault);
        forall j | 0 <= j < i - 1 ensures Sound(rest[j], fixture) { assert Sound(sources[j + 1], fixture); }
      }
      if forall i :: 0 <= i < |rest| ==> Sound(rest[i], fixture) {
        forall i | 1 <= i < |sources| ensures Sound(sources[i], fixture) { assert Sound(rest[i - 1], fixture); }
      }
    }
  }

  lemma NotBoth(s: Source, fixture: Fixture, fault: Fault)
    ensures !(Sound(s, fixture) && Wrong(s, fixture, fault))
  {}

  // ----- gathering the spans of each file version

  ghost predicate AllOrdered(m: Spans) {
    forall k, s :: k in m && s in m[k] ==> Ordered(s)
  }

  function Add(m: Spans, key: Key, s: Span): Spans {
    m[key := Rows(m, key) + [s]]
  }

  lemma {:induction false} RowBytesOneMore(rows: seq<Span>, s: Span)
    ensures RowBytes(rows + [s]) == RowBytes(rows) + SpanBytes(s)
  {
    hide SpanBytes;
    if rows == [] {
      assert [s][1..] == [];
    } else {
      RowBytesOneMore(rows[1..], s);
      assert (rows + [s])[1..] == rows[1..] + [s];
    }
  }

  lemma AddBytes(m: Spans, key: Key, s: Span)
    ensures MapBytes(Add(m, key, s)) == MapBytes(m) + Tagged(key, SpanBytes(s))
    ensures AllOrdered(m) && Ordered(s) ==> AllOrdered(Add(m, key, s))
  {
    hide SpanBytes, Ordered;
    RowBytesOneMore(Rows(m, key), s);
    forall k, b
      ensures (k, b) in MapBytes(Add(m, key, s)) <==> (k, b) in MapBytes(m) + Tagged(key, SpanBytes(s))
    {
      assert RowBytes([]) == {};
    }
  }

  method UnionAll(m: Spans) returns (merged: Spans)
    ensures AllGapped(merged) && MapBytes(merged) == MapBytes(m) && MergedStrays(merged, m)
    ensures AllOrdered(m) ==> AllOrdered(merged)
  {
    hide IsMerge;
    merged := map[];
    var left := m.Keys;
    while left != {}
      invariant left <= m.Keys && merged.Keys == m.Keys - left
      invariant forall k :: k in merged ==> IsMerge(merged[k], m[k])
    {
      var key :| key in left;
      var rows := Union(m[key]);
      merged := merged[key := rows];
      left := left - {key};
    }
    MergedBytes(m, merged);
  }

  ghost predicate AllGapped(m: Spans) {
    forall k :: k in m ==> Gapped(m[k])
  }

  /** The spans left over that end before they start are those no earlier span absorbed. */
  ghost predicate MergedStrays(merged: Spans, m: Spans) {
    forall k, s :: !Ordered(s) ==> (k in merged && s in merged[k] <==> k in m && s in m[k] && !Absorbed(s, m[k]))
  }

  lemma MergedBytes(m: Spans, merged: Spans)
    requires merged.Keys == m.Keys && forall k :: k in merged ==> IsMerge(merged[k], m[k])
    ensures AllGapped(merged) && MapBytes(merged) == MapBytes(m) && MergedStrays(merged, m)
    ensures AllOrdered(m) ==> AllOrdered(merged)
  {
    hide Reaches, Gapped, RowBytes, Absorbed, Ordered;
    forall k, b | k in m
      ensures b in RowBytes(merged[k]) <==> b in RowBytes(m[k])
    {
      assert IsMerge(merged[k], m[k]);
      RowBytesReached(merged[k], b);
      RowBytesReached(m[k], b);
    }
    forall k, b
      ensures (k, b) in MapBytes(merged) <==> (k, b) in MapBytes(m)
    {}
  }

  // ----- measuring

  function RowsSize(rows: seq<Span>): int {
    if rows == [] then 0 else rows[0].end - rows[0].start + RowsSize(rows[1..])
  }

  function Overlap(a: Span, b: Span): nat {
    var (low, high) := (if a.start < b.start then b.start else a.start, if a.end < b.end then a.end else b.end);
    if low < high then high - low else 0
  }

  function SpanOverlap(s: Span, labels: seq<Span>): nat {
    if labels == [] then 0 else Overlap(s, labels[0]) + SpanOverlap(s, labels[1..])
  }

  function RowsOverlap(rows: seq<Span>, labels: seq<Span>): nat {
    if rows == [] then 0 else SpanOverlap(rows[0], labels) + RowsOverlap(rows[1..], labels)
  }

  lemma {:induction false} SpanLength(s: Span)
    requires Ordered(s)
    ensures |SpanBytes(s)| == s.end - s.start
    decreases s.end - s.start
  {
    if s.start < s.end {
      var shorter := Span(s.start, s.end - 1);
      SpanLength(shorter);
      assert SpanBytes(s) == SpanBytes(shorter) + {s.end - 1};
    } else {
      assert SpanBytes(s) == {};
    }
  }

  lemma OverlapLength(a: Span, b: Span)
    ensures |SpanBytes(a) * SpanBytes(b)| == Overlap(a, b)
  {
    var (low, high) := (if a.start < b.start then b.start else a.start, if a.end < b.end then a.end else b.end);
    if low < high {
      assert SpanBytes(a) * SpanBytes(b) == SpanBytes(Span(low, high));
      SpanLength(Span(low, high));
    } else {
      assert SpanBytes(a) * SpanBytes(b) == {};
    }
  }

  lemma FirstApart(rows: seq<Span>)
    requires Gapped(rows) && rows != []
    ensures Gapped(rows[1..]) && SpanBytes(rows[0]) !! RowBytes(rows[1..])
  {
    forall b | b in SpanBytes(rows[0])
      ensures b !in RowBytes(rows[1..])
    {
      Gaps(rows, 2 * b + 1);
      RowBytesReached(rows[1..], b);
    }
  }

  predicate Proper(rows: seq<Span>) {
    forall s :: s in rows ==> Ordered(s)
  }

  /** The size of gapped spans is the number of their bytes, less the lengths of those that end before they start. */
  lemma {:induction false} SizeIsBytes(rows: seq<Span>)
    requires Gapped(rows)
    ensures RowsSize(rows) <= |RowBytes(rows)|
    ensures RowsSize(rows) == |RowBytes(rows)| <==> Proper(rows)
  {
    hide SpanBytes, Gapped;
    if rows != [] {
      FirstApart(rows);
      SizeIsBytes(rows[1..]);
      assert forall s :: s in rows <==> s == rows[0] || s in rows[1..];
      if Ordered(rows[0]) { SpanLength(rows[0]); } else { NoBytes(rows[0]); }
    }
  }

  lemma NoBytes(s: Span)
    requires !Ordered(s)
    ensures SpanBytes(s) == {}
  {}

  lemma {:induction false} SpanOverlapIsBytes(s: Span, labels: seq<Span>)
    requires Gapped(labels)
    ensures SpanOverlap(s, labels) == |SpanBytes(s) * RowBytes(labels)|
  {
    hide SpanBytes, Gapped, Overlap, Ordered;
    if labels == [] {
      assert SpanBytes(s) * {} == {};
    } else {
      FirstApart(labels);
      OverlapLength(s, labels[0]);
      SpanOverlapIsBytes(s, labels[1..]);
      SplitMeet(SpanBytes(labels[0]), RowBytes(labels[1..]), SpanBytes(s));
    }
  }

  /** Two disjoint sets meet a third in disjoint parts. */
  lemma SplitMeet<T>(a: set<T>, b: set<T>, c: set<T>)
    requires a !! b
    ensures |(a + b) * c| == |a * c| + |b * c| && |c * (a + b)| == |c * a| + |c * b|
  {
    assert (a + b) * c == a * c + b * c && a * c !! b * c;
    assert c * (a + b) == (a + b) * c && c * a == a * c && c * b == b * c;
  }

  lemma {:induction false} OverlapIsBytes(rows: seq<Span>, labels: seq<Span>)
    requires Gapped(rows) && Gapped(labels)
    ensures RowsOverlap(rows, labels) == |RowBytes(rows) * RowBytes(labels)|
  {
    hide SpanBytes, Gapped;
    if rows == [] {
      assert {} * RowBytes(labels) == {};
    } else {
      FirstApart(rows);
      SpanOverlapIsBytes(rows[0], labels);
      OverlapIsBytes(rows[1..], labels);
      SplitMeet(SpanBytes(rows[0]), RowBytes(rows[1..]), RowBytes(labels));
    }
  }

  lemma Pick<T>(s: set<T>) returns (x: T)
    requires s != {}
    ensures x in s
  {
    x :| x in s;
  }

  lemma {:induction false} TaggedSize(key: Key, bytes: set<int>)
    ensures |Tagged(key, bytes)| == |bytes|
  {
    if bytes != {} {
      var b := Pick(bytes);
      TaggedSize(key, bytes - {b});
      assert Tagged(key, bytes) == Tagged(key, bytes - {b}) + {(key, b)};
    } else {
      assert Tagged(key, bytes) == {};
    }
  }

  /** Taking one file version out of `m` splits off its bytes. */
  lemma TakeKey(m: Spans, labels: Spans, key: Key)
    requires key in m && AllGapped(m) && AllGapped(labels)
    ensures |MapBytes(m)| >= |MapBytes(m - {key})| + RowsSize(m[key])
    ensures |MapBytes(m)| == |MapBytes(m - {key})| + RowsSize(m[key]) <==> Proper(m[key])
    ensures |MapBytes(m) * MapBytes(labels)|
            == |MapBytes(m - {key}) * MapBytes(labels)| + RowsOverlap(m[key], Rows(labels, key))
  {
    hide RowBytes, Gapped, RowsSize, RowsOverlap, MapBytes, Tagged, Proper;
    NoRows();
    var own := RowBytes(m[key]);
    KeyBytes(m, key);
    SplitMeet(MapBytes(m - {key}), Tagged(key, own), MapBytes(labels));
    KeyMeets(labels, key, own);
    TaggedSize(key, own);
    TaggedSize(key, own * RowBytes(Rows(labels, key)));
    SizeIsBytes(m[key]);
    OverlapIsBytes(m[key], Rows(labels, key));
  }

  lemma KeyBytes(m: Spans, key: Key)
    requires key in m
    ensures MapBytes(m) == MapBytes(m - {key}) + Tagged(key, RowBytes(m[key]))
    ensures MapBytes(m - {key}) !! Tagged(key, RowBytes(m[key]))
  {
    hide RowBytes;
    forall k, b
      ensures (k, b) in MapBytes(m) <==> (k, b) in MapBytes(m - {key}) + Tagged(key, RowBytes(m[key]))
    {
      if k != key && k in m { assert (m - {key})[k] == m[k]; }
    }
  }

  lemma KeyMeets(labels: Spans, key: Key, own: set<int>)
    ensures Tagged(key, own) * MapBytes(labels) == Tagged(key, own * RowBytes(Rows(labels, key)))
  {
    hide RowBytes;
    NoRows();
  }

  lemma NoRows()
    ensures RowBytes([]) == {} && Gapped([])
  {}

  method Size(values: Spans) returns (n: int)
    requires AllGapped(values)
    ensures n <= |MapBytes(values)| && (n == |MapBytes(values)| <==> AllOrdered(values))
  {
    hide Gapped, Proper, MapBytes, Ordered;
    n := 0;
    var left := values;
    while left != map[]
      invariant AllGapped(left) && n + |MapBytes(left)| <= |MapBytes(values)|
      invariant left.Keys <= values.Keys && forall k :: k in left ==> left[k] == values[k]
      invariant n + |MapBytes(left)| == |MapBytes(values)| <==> forall k :: k in values && k !in left ==> Proper(values[k])
      decreases |left|
    {
      var key :| key in left;
      TakeKey(left, map[], key);
      OneKeyLess(values, left, key);
      n := n + RowsSize(left[key]);
      left := left - {key};
    }
    EmptyMapBytes();
    AllProper(values);
  }

  lemma OneKeyLess(values: Spans, left: Spans, key: Key)
    requires left.Keys <= values.Keys && key in left && values[key] == left[key]
    ensures (forall k :: k in values && k !in left - {key} ==> Proper(values[k]))
       <==> Proper(left[key]) && forall k :: k in values && k !in left ==> Proper(values[k])
  {
    hide Proper;
    assert forall k :: k in left - {key} <==> k in left && k != key;
  }

  lemma AllProper(values: Spans)
    ensures AllOrdered(values) <==> forall k :: k in values ==> Proper(values[k])
  {}

  method Covered(values: Spans, labels: Spans) returns (n: nat)
    requires AllGapped(values) && AllGapped(labels)
    ensures n == |MapBytes(values) * MapBytes(labels)|
  {
    n := 0;
    var left := values;
    while left != map[]
      invariant AllGapped(left)
      invariant n + |MapBytes(left) * MapBytes(labels)| == |MapBytes(values) * MapBytes(labels)|
      decreases |left|
    {
      var key :| key in left;
      TakeKey(left, labels, key);
      n := n + RowsOverlap(left[key], Rows(labels, key));
      left := left - {key};
    }
    assert MapBytes(map[]) * MapBytes(labels) == {};
  }

  // ----- the whole account

  /** Label `i` ends before it starts, and no label of its file version reaches its start from before. */
  ghost predicate Stray(useful: seq<Label>, i: nat)
    requires i < |useful|
  {
    !Ordered(useful[i].span) && !Absorbed(useful[i].span, SpansOf(useful, useful[i].Key()))
  }

  ghost predicate NoStrays(useful: seq<Label>) {
    forall i :: 0 <= i < |useful| ==> !Stray(useful, i)
  }

  /** The spans of one file version, in order. */
  ghost function SpansOf(useful: seq<Label>, key: Key): seq<Span> {
    if useful == [] then []
    else
      var (front, last) := (useful[..|useful| - 1], useful[|useful| - 1]);
      SpansOf(front, key) + if last.Key() == key then [last.span] else []
  }

  ghost predicate LabelAt(useful: seq<Label>, i: int, key: Key, s: Span) {
    0 <= i < |useful| && useful[i].Key() == key && useful[i].span == s
  }

  lemma {:induction false} SpansOfMembers(useful: seq<Label>, key: Key, s: Span)
    ensures s in SpansOf(useful, key) <==> exists i :: LabelAt(useful, i, key, s)
  {
    if useful != [] {
      var (n, front) := (|useful| - 1, useful[..|useful| - 1]);
      SpansOfMembers(front, key, s);
      if i :| LabelAt(front, i, key, s) { assert LabelAt(useful, i, key, s); }
      if i :| LabelAt(useful, i, key, s) { assert i != n ==> LabelAt(front, i, key, s); }
      assert LabelAt(useful, n, key, s) <==> useful[n].Key() == key && useful[n].span == s;
    }
  }

  lemma NotStray(useful: seq<Label>, i: nat)
    requires NoStrays(useful) && i < |useful|
    ensures !Stray(useful, i)
  {}

  /** The merged labels are all proper exactly when no label strays. */
  lemma ProperIffNoStrays(useful: seq<Label>, labels: Spans, merged: Spans)
    requires forall key :: Rows(labels, key) == SpansOf(useful, key)
    requires MergedStrays(merged, labels)
    ensures AllOrdered(merged) <==> NoStrays(useful)
  {
    hide Absorbed, Ordered, SpansOf;
    if AllOrdered(merged) {
      forall i | 0 <= i < |useful| ensures !Stray(useful, i) {
        var (key, s) := (useful[i].Key(), useful[i].span);
        SpansOfMembers(useful, key, s);
        assert LabelAt(useful, i, key, s);
        assert Rows(labels, key) == SpansOf(useful, key);
      }
    }
    if NoStrays(useful) {
      forall k, s | k in merged && s in merged[k] ensures Ordered(s) {
        if !Ordered(s) {
          SpansOfMembers(useful, k, s);
          assert Rows(labels, k) == SpansOf(useful, k);
          var i :| LabelAt(useful, i, k, s);
          NotStray(useful, i);
        }
      }
    }
  }

  ghost predicate Accounts(m: Metrics, sources: seq<Source>, useful: seq<Label>) {
    var (reference, inline, wanted) := (Bytes(sources, false), Bytes(sources, true), LabelBytes(useful));
    && m.usefulLabel <= |wanted| && (m.usefulLabel == |wanted| <==> NoStrays(useful))
    && m.usefulReference == |reference * wanted|
    && m.usefulInline == |inline * wanted|
    && m.uniqueReference == |reference|
    && m.uniqueInline == |inline|
    && m.redundantReference == Summed(sources, false) - |reference|
    && m.redundantInline == Summed(sources, true) - |inline|
    && Ascending(m.selectedFiles, StringLess)
    && forall path :: path in m.selectedFiles <==> path in Files(sources)
  }

  method GatherLabels(useful: seq<Label>) returns (labels: Spans)
    ensures MapBytes(labels) == LabelBytes(useful) && forall key :: Rows(labels, key) == SpansOf(useful, key)
  {
    hide MapBytes;
    labels := map[];
    EmptyMapBytes();
    for i := 0 to |useful|
      invariant MapBytes(labels) == LabelBytes(useful[..i])
      invariant forall key :: Rows(labels, key) == SpansOf(useful[..i], key)
    {
      var span := useful[i];
      assert span in useful;
      AddBytes(labels, span.Key(), span.span);
      labels := Add(labels, span.Key(), span.span);
      assert useful[..i + 1][..i] == useful[..i];
    }
    assert useful[..|useful|] == useful;
  }

  lemma EmptyMapBytes()
    ensures MapBytes(map[]) == {}
  {}

  lemma OneMoreSource(sources: seq<Source>, i: nat, inlineOnly: bool)
    requires i < |sources|
    ensures var s := sources[i];
            && Bytes(sources[..i + 1], inlineOnly)
               == Bytes(sources[..i], inlineOnly) + (if Selected(s, inlineOnly) then Tagged(s.Key(), SpanBytes(s.span)) else {})
            && Summed(sources[..i + 1], inlineOnly)
               == Summed(sources[..i], inlineOnly) + (if Selected(s, inlineOnly) then s.span.end - s.span.start else 0)
            && Files(sources[..i + 1]) == Files(sources[..i]) + (if s.available then {s.path} else {})
  {
    hide Selected, SpanBytes;
    assert sources[..i + 1][..i] == sources[..i];
    forall path
      ensures path in Files(sources[..i + 1]) <==> path in Files(sources[..i]) || (sources[i].available && path == sources[i].path)
    {
      assert sources[..i + 1] == sources[..i] + [sources[i]];
      if j :| 0 <= j < i && sources[j].available && path == sources[j].path { assert sources[..i][j] == sources[j] == sources[..i + 1][j]; }
    }
  }

  datatype Gathered = Gathered(references: Spans, inline: Spans, summedReference: int, summedInline: int, files: set<string>)

  ghost predicate Gathers(g: Gathered, sources: seq<Source>) {
    && AllOrdered(g.references) && MapBytes(g.references) == Bytes(sources, false)
    && AllOrdered(g.inline) && MapBytes(g.inline) == Bytes(sources, true)
    && g.summedReference == Summed(sources, false) && g.summedInline == Summed(sources, true)
    && g.files == Files(sources)
  }

  lemma NothingGathered()
    ensures Gathers(Gathered(map[], map[], 0, 0, {}), [])
  {}

  /** One more source, gathered. */
  function Gather(g: Gathered, s: Source): Gathered {
    if !s.available then g
    else
      var length := s.span.end - s.span.start;
      var next := g.(references := Add(g.references, s.Key(), s.span), summedReference := g.summedReference + length,
                     files := g.files + {s.path});
      if s.inline.None? then next
      else next.(inline := Add(g.inline, s.Key(), s.span), summedInline := g.summedInline + length)
  }

  lemma GatherOne(g: Gathered, sources: seq<Source>, i: nat)
    requires i < |sources| && Gathers(g, sources[..i]) && (sources[i].available ==> Ordered(sources[i].span))
    ensures Gathers(Gather(g, sources[i]), sources[..i + 1])
  {
    hide MapBytes, SpanBytes, AllOrdered, Files, Add, Ordered, Tagged, Bytes, Summed;
    OneMoreSource(sources, i, false);
    OneMoreSource(sources, i, true);
    AddBytes(g.references, sources[i].Key(), sources[i].span);
    AddBytes(g.inline, sources[i].Key(), sources[i].span);
  }

  method GatherSources(sources: seq<Source>, fixture: Fixture) returns (r: Result<Gathered, Fault>)
    ensures r.Err? <==> FirstFault(sources, fixture).Some?
    ensures r.Err? ==> r.error == FirstFault(sources, fixture).value
    ensures r.Ok? ==> Gathers(r.value, sources)
  {
    hide Gathers, Add;
    var references: Spans, inline: Spans, summedReference, summedInline, files: set<string> := map[], map[], 0, 0, {};
    NothingGathered();
    assert sources[0..] == sources && sources[..0] == [];
    for i := 0 to |sources|
      invariant FirstFault(sources[i..], fixture) == FirstFault(sources, fixture)
      invariant Gathers(Gathered(references, inline, summedReference, summedInline, files), sources[..i])
    {
      var source := sources[i];
      assert sources[i..][1..] == sources[i + 1..];
      ghost var before := Gathered(references, inline, summedReference, summedInline, files);
      if source.available {
        if source.path !in fixture.hashes || fixture.hashes[source.path] != source.sha { return Err(SourceDiffers); }
        if source.path !in fixture.files { return Err(FileMissing); }
        var raw := fixture.files[source.path];
        var (start, end) := (source.span.start, source.span.end);
        if !(0 <= start <= end <= |raw|) { return Err(OutsideSource); }
        var key := source.Key();
        references := Add(references, key, source.span);
        summedReference := summedReference + (end - start);
        files := files + {source.path};
        if source.inline.Some? {
          if source.inline.value != raw[start..end] { return Err(InlineDiffers); }
          inline := Add(inline, key, source.span);
          summedInline := summedInline + (end - start);
        }
      }
      assert Gathered(references, inline, summedReference, summedInline, files) == Gather(before, source);
      GatherOne(before, sources, i);
    }
    assert sources[..|sources|] == sources && sources[|sources|..] == [];
    r := Ok(Gathered(references, inline, summedReference, summedInline, files));
  }

  method Account(sources: seq<Source>, useful: seq<Label>, fixture: Fixture) returns (r: Result<Metrics, Fault>)
    ensures r.Ok? <==> forall i :: 0 <= i < |sources| ==> Sound(sources[i], fixture)
    ensures r.Err? ==> FirstWrong(sources, fixture, r.error)
    ensures r.Err? <==> FirstFault(sources, fixture).Some?
    ensures r.Err? ==> r.error == FirstFault(sources, fixture).value
    ensures r.Ok? ==> Accounts(r.value, sources, useful)
  {
    hide MapBytes, AllOrdered, Files, AllGapped, Bytes, LabelBytes, Summed, Sound, FirstWrong, FirstFault;
    var gathered := GatherSources(sources, fixture);
    FirstFaultMeans(sources, fixture, if gathered.Err? then gathered.error else SourceDiffers);
    if gathered.Err? { return Err(gathered.error); }
    var g := gathered.value;
    var references := UnionAll(g.references);
    var inline := UnionAll(g.inline);
    var labels := GatherLabels(useful);
    ghost var unmerged := labels;
    labels := UnionAll(labels);
    ProperIffNoStrays(useful, unmerged, labels);
    var referenceBytes := Size(references);
    var inlineBytes := Size(inline);
    var labelBytes := Size(labels);
    var usefulReference := Covered(references, labels);
    var usefulInline := Covered(inline, labels);
    StringOrder();
    r := Ok(Metrics(labelBytes, usefulReference, usefulInline, referenceBytes, inlineBytes,
                    g.summedReference - referenceBytes, g.summedInline - inlineBytes, Ordering.Sorted(g.files, StringLess)));
  }

  // ----- redundancy

  ghost predicate Apart(s: Source, t: Source, inlineOnly: bool) {
    Selected(s, inlineOnly) && Selected(t, inlineOnly) && s.Key() == t.Key() ==> SpanBytes(s.span) !! SpanBytes(t.span)
  }

  ghost predicate Disjoint(sources: seq<Source>, inlineOnly: bool) {
    forall i, j :: 0 <= i < j < |sources| ==> Apart(sources[i], sources[j], inlineOnly)
  }

  /** Redundant bytes are never negative, and zero exactly when no byte of a file version is selected twice. */
  lemma {:induction false} RedundantBytes(sources: seq<Source>, inlineOnly: bool)
    requires forall s :: s in sources && s.available ==> Ordered(s.span)
    ensures Summed(sources, inlineOnly) >= |Bytes(sources, inlineOnly)|
    ensures Summed(sources, inlineOnly) == |Bytes(sources, inlineOnly)| <==> Disjoint(sources, inlineOnly)
  {
    hide SpanBytes, Tagged, Ordered, Disjoint;
    if sources == [] {
      DisjointNone(inlineOnly);
    } else {
      var (front, last) := (sources[..|sources| - 1], sources[|sources| - 1]);
      RedundantBytes(front, inlineOnly);
      DisjointOneMore(sources, inlineOnly);
      if Selected(last, inlineOnly) {
        var (before, own) := (Bytes(front, inlineOnly), Tagged(last.Key(), SpanBytes(last.span)));
        SpanLength(last.span);
        TaggedSize(last.Key(), SpanBytes(last.span));
        Inclusion(before, own);
      }
    }
  }

  lemma Inclusion<T>(a: set<T>, b: set<T>)
    ensures |a + b| == |a| + |b| - |a * b|
    ensures |a * b| == 0 <==> a !! b
  {
    if !(a !! b) {
      var x :| x in a && x in b;
      assert x in a * b;
    }
    assert |a * b| == 0 <==> a * b == {};
  }

  lemma DisjointNone(inlineOnly: bool)
    ensures Disjoint([], inlineOnly)
  {}

  lemma DisjointOneMore(sources: seq<Source>, inlineOnly: bool)
    requires sources != []
    ensures var (front, last) := (sources[..|sources| - 1], sources[|sources| - 1]);
            Disjoint(sources, inlineOnly)
            <==> Disjoint(front, inlineOnly)
                 && (Selected(last, inlineOnly) ==> Bytes(front, inlineOnly) !! Tagged(last.Key(), SpanBytes(last.span)))
  {
    hide SpanBytes, Selected, Bytes, Tagged, Apart;
    var (front, last) := (sources[..|sources| - 1], sources[|sources| - 1]);
    assert sources == front + [last];
    if Selected(last, inlineOnly) {
      ApartFromAll(front, last, inlineOnly);
    } else {
      forall i | 0 <= i < |front| ensures Apart(front[i], last, inlineOnly) { UnselectedApart(front[i], last, inlineOnly); }
    }
  }

  lemma UnselectedApart(s: Source, t: Source, inlineOnly: bool)
    requires !Selected(t, inlineOnly)
    ensures Apart(s, t, inlineOnly)
  {}

  lemma {:induction false} ApartFromAll(front: seq<Source>, last: Source, inlineOnly: bool)
    requires Selected(last, inlineOnly)
    ensures (forall i :: 0 <= i < |front| ==> Apart(front[i], last, inlineOnly))
            <==> Bytes(front, inlineOnly) !! Tagged(last.Key(), SpanBytes(last.span))
  {
    hide SpanBytes, Selected, Apart, Tagged;
    if front != [] {
      var (rest, s) := (front[..|front| - 1], front[|front| - 1]);
      ApartFromAll(rest, last, inlineOnly);
      assert front == rest + [s];
      ApartIsDisjoint(s, last, inlineOnly);
    }
  }

  lemma ApartIsDisjoint(s: Source, t: Source, inlineOnly: bool)
    requires Selected(t, inlineOnly)
    ensures Apart(s, t, inlineOnly)
            <==> (Selected(s, inlineOnly) ==> Tagged(s.Key(), SpanBytes(s.span)) !! Tagged(t.Key(), SpanBytes(t.span)))
  {
    hide SpanBytes, Selected;
    if !Apart(s, t, inlineOnly) {
      var (own, other) := (SpanBytes(s.span), SpanBytes(t.span));
      assert own * other == {} ==> own !! other by { Inclusion(own, other); }
      var b := Pick(own * other);
      assert (s.Key(), b) in Tagged(s.Key(), SpanBytes(s.span)) * Tagged(t.Key(), SpanBytes(t.span));
    }
  }

  lemma {:induction false} InlineIsReferenced(sources: seq<Source>)
    ensures Bytes(sources, true) <= Bytes(sources, false)
  {
    hide SpanBytes, Tagged;
    if sources != [] { InlineIsReferenced(sources[..|sources| - 1]); }
  }

  lemma Smaller<T>(a: set<T>, b: set<T>)
    requires a <= b
    ensures |a| <= |b|
  {
    assert a + (b - a) == b;
  }

  lemma {:induction false} FaultlessOrdered(sources: seq<Source>, fixture: Fixture)
    requires FirstFault(sources, fixture).None?
    ensures forall s :: s in sources && s.available ==> Ordered(s.span)
  {
    if sources != [] {
      FaultlessOrdered(sources[1..], fixture);
      assert forall s :: s in sources <==> s == sources[0] || s in sources[1..];
    }
  }

  /** The counts of an account bound each other, and nothing is redundant exactly when no byte is selected twice. */
  lemma AccountIsConsistent(m: Metrics, sources: seq<Source>, useful: seq<Label>, fixture: Fixture)
    requires FirstFault(sources, fixture).None? && Accounts(m, sources, useful)
    ensures m.usefulInline <= m.usefulReference <= |LabelBytes(useful)|
    ensures NoStrays(useful) ==> m.usefulReference <= m.usefulLabel
    ensures m.usefulReference <= m.uniqueReference && m.usefulInline <= m.uniqueInline <= m.uniqueReference
    ensures m.redundantReference >= 0 && (m.redundantReference == 0 <==> Disjoint(sources, false))
    ensures m.redundantInline >= 0 && (m.redundantInline == 0 <==> Disjoint(sources, true))
  {
    hide Bytes, LabelBytes, Summed, Files, Disjoint;
    var (reference, inline, wanted) := (Bytes(sources, false), Bytes(sources, true), LabelBytes(useful));
    InlineIsReferenced(sources);
    FaultlessOrdered(sources, fixture);
    RedundantBytes(sources, false);
    RedundantBytes(sources, true);
    Smaller(inline * wanted, reference * wanted);
    Smaller(reference * wanted, wanted);
    Smaller(reference * wanted, reference);
    Smaller(inline * wanted, inline);
    Smaller(inline, reference);
  }

  /** One label that ends before it starts makes the label count negative. */
  lemma ReversedLabelMiscounts(m: Metrics, sources: seq<Source>)
    requires Accounts(m, sources, [Label("a.py", "0", Span(5, 3))])
    ensures m.usefulLabel < 0
  {
    var useful := [Label("a.py", "0", Span(5, 3))];
    assert useful[..0] == [] && SpanBytes(Span(5, 3)) == {};
    assert LabelBytes(useful) == {};
    assert SpansOf(useful, useful[0].Key()) == [Span(5, 3)];
    assert Stray(useful, 0);
  }
}
