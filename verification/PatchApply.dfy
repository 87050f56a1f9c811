/**
  `apply`: exact application of one file patch, when it succeeds, and its meaning as a sequence of replacements.
  `ids` stands for the two git blob ids of some bytes.
 */
module PatchApply {
  import opened Wrappers
  import opened HunkGrammar

  datatype Op = Create | Delete | Modify

  datatype FilePatch = FilePatch(op: Op, hunks: seq<Hunk>, oldBlob: Option<string>, newBlob: Option<string>)

  // ----- lines of a file

  function FindLf(data: Bytes): (k: nat)
    ensures k <= |data| && (forall i :: 0 <= i < k ==> data[i] != LF) && (k < |data| ==> data[k] == LF)
  {
    if data == [] || data[0] == LF then 0 else 1 + FindLf(data[1..])
  }

  /** Each line with its LF; the last one may lack it. */
  function SplitLines(data: Bytes): seq<Bytes>
    decreases |data|
  {
    var k := FindLf(data);
    if k < |data| then [data[..k + 1]] + SplitLines(data[k + 1..])
    else if data != [] then [data]
    else []
  }

  /** `_split`: `data.find(b"\n", start)` until there is no further LF. */
  method Split(data: Bytes) returns (lines: seq<Bytes>)
    ensures lines == SplitLines(data)
  {
    hide FindLf, SplitLines;
    lines := [];
    var start := 0;
    assert data[0..] == data;
    while true
      invariant start <= |data| && lines + SplitLines(data[start..]) == SplitLines(data)
      decreases |data| - start
    {
      SplitStep(data, start);
      var end := start + FindLf(data[start..]);
      if end >= |data| { break; }
      lines := lines + [data[start..end + 1]];
      start := end + 1;
    }
    if start < |data| { lines := lines + [data[start..]]; }
  }

  lemma SplitStep(data: Bytes, start: nat)
    requires start <= |data|
    ensures var end := start + FindLf(data[start..]);
            SplitLines(data[start..])
            == if end < |data| then [data[start..end + 1]] + SplitLines(data[end + 1..])
               else if start < |data| then [data[start..]] else []
  {
    hide FindLf, SplitLines;
    var rest := data[start..];
    var k := FindLf(rest);
    FirstSplit(rest);
    if k < |rest| {
      assert rest[..k + 1] == data[start..start + k + 1];
      assert rest[k + 1..] == data[start + k + 1..];
    } else {
      assert start + k >= |data|;
    }
  }

  lemma FirstSplit(data: Bytes)
    ensures var k := FindLf(data);
            SplitLines(data)
            == if k < |data| then [data[..k + 1]] + SplitLines(data[k + 1..]) else if data != [] then [data] else []
  {
    hide FindLf;
  }

  function Concat(lines: seq<Bytes>): Bytes {
    if lines == [] then [] else lines[0] + Concat(lines[1..])
  }

  predicate EndsLf(line: Bytes) { line != [] && line[|line| - 1] == LF }

  /** No LF except possibly as the last byte. */
  predicate OneLine(line: Bytes) {
    forall i :: 0 <= i < |line| - 1 ==> line[i] != LF
  }

  predicate AllEndLf(lines: seq<Bytes>) {
    forall i :: 0 <= i < |lines| - 1 ==> EndsLf(lines[i])
  }

  /** Lines as a file can have them: none empty, and an LF at the end of each but possibly the last. */
  ghost predicate FileLines(lines: seq<Bytes>) {
    lines != [] ==> lines[0] != [] && OneLine(lines[0]) && (|lines| > 1 ==> EndsLf(lines[0])) && FileLines(lines[1..])
  }

  lemma {:induction false} FileLinesMembers(lines: seq<Bytes>)
    ensures FileLines(lines) <==> AllEndLf(lines) && forall l :: l in lines ==> l != [] && OneLine(l)
  {
    hide OneLine, EndsLf;
    if lines != [] {
      var rest := lines[1..];
      FileLinesMembers(rest);
      assert lines[0] in lines;
      assert forall l :: l in lines <==> l == lines[0] || l in rest;
      if AllEndLf(lines) {
        forall i | 0 <= i < |rest| - 1 ensures EndsLf(rest[i]) { assert rest[i] == lines[i + 1]; }
      }
      if AllEndLf(rest) && (|lines| > 1 ==> EndsLf(lines[0])) {
        forall i | 0 <= i < |lines| - 1 ensures EndsLf(lines[i]) { if i > 0 { assert lines[i] == rest[i - 1]; } }
      }
    }
  }

  lemma FirstLine(data: Bytes)
    ensures var k := FindLf(data);
            if k < |data| then OneLine(data[..k + 1]) && EndsLf(data[..k + 1]) else OneLine(data)
  {
    var k := FindLf(data);
    hide FindLf;
    if k < |data| {
      var line := data[..k + 1];
      forall i | 0 <= i < |line| - 1 ensures line[i] != LF { assert line[i] == data[i]; }
      assert line[|line| - 1] == data[k];
    }
  }

  lemma {:induction false} SplitIsFileLines(data: Bytes)
    ensures FileLines(SplitLines(data)) && Concat(SplitLines(data)) == data
    decreases |data|
  {
    hide OneLine, EndsLf, FindLf;
    var k := FindLf(data);
    FirstLine(data);
    if k < |data| {
      SplitIsFileLines(data[k + 1..]);
      assert SplitLines(data)[1..] == SplitLines(data[k + 1..]);
      assert data == data[..k + 1] + data[k + 1..];
    } else if data != [] {
      assert SplitLines(data)[1..] == [];
    }
  }

  lemma {:induction false} ConcatSplits(lines: seq<Bytes>)
    requires FileLines(lines)
    ensures SplitLines(Concat(lines)) == lines
  {
    if lines != [] {
      var (first, rest) := (lines[0], lines[1..]);
      ConcatSplits(rest);
      FindLfIs(first, Concat(rest));
      var data := first + Concat(rest);
      assert data[..|first|] == first && data[|first|..] == Concat(rest);
      assert lines == [first] + rest;
      if !EndsLf(first) { assert data == first; }
    }
  }

  lemma {:induction false} FindLfIs(first: Bytes, rest: Bytes)
    requires first != [] && OneLine(first)
    ensures EndsLf(first) ==> FindLf(first + rest) == |first| - 1
    ensures !EndsLf(first) && rest == [] ==> FindLf(first + rest) == |first|
  {
    if |first| > 1 {
      var tail := first[1..];
      assert OneLine(tail) by { forall i | 0 <= i < |tail| - 1 ensures tail[i] != LF { assert tail[i] == first[i + 1]; } }
      assert tail[|tail| - 1] == first[|first| - 1];
      FindLfIs(tail, rest);
      assert (first + rest)[1..] == tail + rest;
      assert first[0] != LF;
    }
  }

  // ----- the two sides of a hunk

  function FileLine(line: BodyLine): Bytes {
    line.content + if line.noNewline then [] else [LF]
  }

  function OldLines(body: seq<BodyLine>): seq<Bytes> {
    if body == [] then []
    else (if OnOld(body[0]) then [FileLine(body[0])] else []) + OldLines(body[1..])
  }

  function NewLines(body: seq<BodyLine>): seq<Bytes> {
    if body == [] then []
    else (if OnNew(body[0]) then [FileLine(body[0])] else []) + NewLines(body[1..])
  }

  function NewAnchor(h: Hunk): int {
    if h.newCount == 0 then h.newStart else h.newStart - 1
  }

  // ----- the one-pass splice

  ghost predicate Fits(source: seq<Bytes>, cursor: nat, h: Hunk) {
    var removed := OldLines(h.lines);
    && cursor <= h.Anchor() <= |source|
    && h.Anchor() + |removed| <= |source|
    && source[h.Anchor()..h.Anchor() + |removed|] == removed
  }

  ghost function Splice(source: seq<Bytes>, hunks: seq<Hunk>, cursor: nat, out: seq<Bytes>): (r: Option<(seq<Bytes>, seq<nat>)>)
    requires cursor <= |source|
    ensures r.Some? ==> |r.value.1| == |hunks|
  {
    if hunks == [] then Some((out + source[cursor..], []))
    else
      var h := hunks[0];
      if !Fits(source, cursor, h) then None
      else
        var kept := out + source[cursor..h.Anchor()];
        match Splice(source, hunks[1..], h.Anchor() + |OldLines(h.lines)|, kept + NewLines(h.lines))
        case None => None
        case Some((result, positions)) => Some((result, [|kept|] + positions))
  }

  predicate BlobMatches(blob: Option<string>, absent: bool, data: Bytes, ids: Bytes -> (string, string)) {
    match blob
    case None => true
    case Some(token) => if absent then Zeros(token) else token <= ids(data).0 || token <= ids(data).1
  }

  predicate Zeros(token: string) {
    token != "" && forall c :: c in token ==> c == '0'
  }

  /** The checks after splicing, in order. */
  ghost function Finish(fp: FilePatch, out: seq<Bytes>, positions: seq<nat>, limit: nat, ids: Bytes -> (string, string))
    : Result<Option<Bytes>, Reason>
    requires |positions| == |fp.hunks|
  {
    var result := Concat(out);
    if fp.op == Delete && result != [] then Err(BaseMismatch)
    else if |result| > limit then Err(LimitExceeded)
    else if exists k :: 0 <= k < |positions| && NewAnchor(fp.hunks[k]) != positions[k] then Err(MalformedPatch)
    else if !AllEndLf(out) then Err(MalformedPatch)
    else if !BlobMatches(fp.newBlob, fp.op == Delete, result, ids) then Err(MalformedPatch)
    else Ok(if fp.op == Delete then None else Some(result))
  }

  function Data(base: Option<Bytes>): Bytes {
    match base case None => [] case Some(data) => data
  }

  /** What applying `fp` to `base` means. */
  ghost function Applied(fp: FilePatch, base: Option<Bytes>, limit: nat, ids: Bytes -> (string, string)): Result<Option<Bytes>, Reason> {
    if !BlobMatches(fp.oldBlob, fp.op == Create, Data(base), ids) then Err(BaseMismatch)
    else
      match Splice(SplitLines(Data(base)), fp.hunks, 0, [])
      case None => Err(BaseMismatch)
      case Some((out, positions)) => Finish(fp, out, positions, limit, ids)
  }

  // ----- replacing the hunks one at a time, last first

  ghost function ReplaceOne(lines: seq<Bytes>, h: Hunk): seq<Bytes>
    requires 0 <= h.Anchor() <= h.Anchor() + |OldLines(h.lines)| <= |lines|
  {
    lines[..h.Anchor()] + NewLines(h.lines) + lines[h.Anchor() + |OldLines(h.lines)|..]
  }

  /** The hunk's old lines stand at its old anchor. */
  ghost predicate StandsIn(lines: seq<Bytes>, h: Hunk) {
    && 0 <= h.Anchor() <= h.Anchor() + |OldLines(h.lines)| <= |lines|
    && lines[h.Anchor()..h.Anchor() + |OldLines(h.lines)|] == OldLines(h.lines)
  }

  /** `result` comes from `lines` by replacing the last hunk's old lines at its old anchor, then those of the one before
      it, and so on. */
  ghost predicate ReplacedLastFirst(lines: seq<Bytes>, hunks: seq<Hunk>, result: seq<Bytes>) {
    if hunks == [] then result == lines
    else
      exists later :: ReplacedLastFirst(lines, hunks[1..], later)
                      && StandsIn(later, hunks[0]) && result == ReplaceOne(later, hunks[0])
  }

  /** Each hunk's old side begins at or after the end of the one before it, the first at or after `cursor`. */
  ghost predicate InOrder(hunks: seq<Hunk>, cursor: nat) {
    hunks != [] ==> cursor <= hunks[0].Anchor() && InOrder(hunks[1..], hunks[0].Anchor() + |OldLines(hunks[0].lines)|)
  }

  /** The one-pass splice leaves the lines before the first hunk alone and replaces hunk by hunk behind them. */
  lemma {:induction false} SpliceReplaces(source: seq<Bytes>, hunks: seq<Hunk>, cursor: nat, out: seq<Bytes>)
    requires cursor <= |source| && Splice(source, hunks, cursor, out).Some?
    ensures var result := Splice(source, hunks, cursor, out).value.0;
            && out <= result && ReplacedLastFirst(source, hunks, source[..cursor] + result[|out|..]) && InOrder(hunks, cursor)
  {
    hide OldLines, NewLines, ReplacedLastFirst;
    var result := Splice(source, hunks, cursor, out).value.0;
    if hunks == [] {
      assert source[..cursor] + result[|out|..] == source;
      NothingReplaced(source);
    } else {
      var h := hunks[0];
      var (a, b, added) := (h.Anchor(), h.Anchor() + |OldLines(h.lines)|, NewLines(h.lines));
      var next := out + source[cursor..a] + added;
      SpliceReplaces(source, hunks[1..], b, next);
      var rest := result[|next|..];
      assert result == next + rest;
      Rearrange(source, cursor, a, b, out, added, rest);
      assert source[..cursor] + result[|out|..] == ReplaceOne(source[..b] + rest, h);
      assert (source[..b] + rest)[a..b] == source[a..b];
      FrontReplaced(source, hunks, source[..b] + rest, source[..cursor] + result[|out|..]);
    }
  }

  lemma NothingReplaced(lines: seq<Bytes>)
    ensures ReplacedLastFirst(lines, [], lines)
  {}

  lemma FrontReplaced(lines: seq<Bytes>, hunks: seq<Hunk>, later: seq<Bytes>, result: seq<Bytes>)
    requires hunks != [] && ReplacedLastFirst(lines, hunks[1..], later)
    requires StandsIn(later, hunks[0]) && result == ReplaceOne(later, hunks[0])
    ensures ReplacedLastFirst(lines, hunks, result)
  {
    hide ReplaceOne, StandsIn;
  }

  lemma Rearrange(source: seq<Bytes>, cursor: nat, a: nat, b: nat, out: seq<Bytes>, added: seq<Bytes>, rest: seq<Bytes>)
    requires cursor <= a <= b <= |source|
    ensures var (result, later) := (out + source[cursor..a] + added + rest, source[..b] + rest);
            out <= result && source[..cursor] + result[|out|..] == later[..a] + added + later[b..]
  {
    var (result, later) := (out + source[cursor..a] + added + rest, source[..b] + rest);
    assert result[|out|..] == source[cursor..a] + added + rest;
    assert later[..a] == source[..a] && later[b..] == rest;
    assert source[..cursor] + (source[cursor..a] + added + rest) == source[..a] + added + rest;
  }

  /** Hunks in order that can be replaced at all begin inside the lines. */
  lemma {:induction false} BeginsInside(lines: seq<Bytes>, hunks: seq<Hunk>, cursor: nat, result: seq<Bytes>)
    requires hunks != [] && InOrder(hunks, cursor) && ReplacedLastFirst(lines, hunks, result)
    ensures cursor <= hunks[0].Anchor() <= hunks[0].Anchor() + |OldLines(hunks[0].lines)| <= |lines|
  {
    hide OldLines, NewLines, ReplacedLastFirst;
    var later := BeforeFirst(lines, hunks, result);
    if |hunks| == 1 { NothingElse(lines, later); }
    if |hunks| > 1 { BeginsInside(lines, hunks[1..], hunks[0].Anchor() + |OldLines(hunks[0].lines)|, later); }
  }

  /** Replacing hunks in order leaves the lines before the first alone, and is what the splice does. */
  lemma {:induction false} ReplacementSplices(source: seq<Bytes>, hunks: seq<Hunk>, cursor: nat, out: seq<Bytes>, result: seq<Bytes>)
    requires cursor <= |source| && InOrder(hunks, cursor) && ReplacedLastFirst(source, hunks, result)
    ensures cursor <= |result| && result[..cursor] == source[..cursor]
    ensures Splice(source, hunks, cursor, out).Some? && Splice(source, hunks, cursor, out).value.0 == out + result[cursor..]
  {
    hide OldLines, NewLines, Splice, StandsIn, ReplacedLastFirst;
    if hunks == [] {
      NothingElse(source, result);
      SpliceNothing(source, cursor, out);
    } else {
      BeginsInside(source, hunks, cursor, result);
      var later := BeforeFirst(source, hunks, result);
      var h := hunks[0];
      var (a, b, added) := (h.Anchor(), h.Anchor() + |OldLines(h.lines)|, NewLines(h.lines));
      ReplacementSplices(source, hunks[1..], b, out + source[cursor..a] + added, later);
      hide InOrder;
      StandsInBoth(source, later, h);
      SpliceFirst(source, hunks, cursor, out);
      OneReplaced(source, later, result, cursor, a, b, added);
      assert out + source[cursor..a] + added + later[b..] == out + (source[cursor..a] + added + later[b..]);
    }
  }

  lemma NothingElse(lines: seq<Bytes>, result: seq<Bytes>)
    requires ReplacedLastFirst(lines, [], result)
    ensures result == lines
  {}

  /** The lines before the first hunk was replaced, as the last one. */
  lemma BeforeFirst(lines: seq<Bytes>, hunks: seq<Hunk>, result: seq<Bytes>) returns (later: seq<Bytes>)
    requires hunks != [] && ReplacedLastFirst(lines, hunks, result)
    ensures ReplacedLastFirst(lines, hunks[1..], later) && StandsIn(later, hunks[0])
    ensures var h := hunks[0];
            && 0 <= h.Anchor() <= h.Anchor() + |OldLines(h.lines)| <= |later|
            && result == later[..h.Anchor()] + NewLines(h.lines) + later[h.Anchor() + |OldLines(h.lines)|..]
  {
    hide OldLines, NewLines;
    later :| ReplacedLastFirst(lines, hunks[1..], later) && StandsIn(later, hunks[0]) && result == ReplaceOne(later, hunks[0]);
  }

  lemma StandsInBoth(source: seq<Bytes>, later: seq<Bytes>, h: Hunk)
    requires StandsIn(later, h)
    requires var b := h.Anchor() + |OldLines(h.lines)|; b <= |source| && later[..b] == source[..b]
    ensures StandsIn(source, h)
  {
    hide OldLines, NewLines;
    var (a, b) := (h.Anchor(), h.Anchor() + |OldLines(h.lines)|);
    assert source[a..b] == source[..b][a..] && later[a..b] == later[..b][a..];
  }

  lemma SpliceNothing(source: seq<Bytes>, cursor: nat, out: seq<Bytes>)
    requires cursor <= |source|
    ensures Splice(source, [], cursor, out) == Some((out + source[cursor..], []))
  {}

  lemma SpliceFirst(source: seq<Bytes>, hunks: seq<Hunk>, cursor: nat, out: seq<Bytes>)
    requires hunks != [] && StandsIn(source, hunks[0]) && cursor <= hunks[0].Anchor()
    ensures var h := hunks[0];
            var (r, later) := (Splice(source, hunks, cursor, out),
                               Splice(source, hunks[1..], h.Anchor() + |OldLines(h.lines)|,
                                      out + source[cursor..h.Anchor()] + NewLines(h.lines)));
            r.Some? == later.Some? && (r.Some? ==> r.value.0 == later.value.0)
  {
    hide OldLines, NewLines;
  }

  lemma OneReplaced(source: seq<Bytes>, later: seq<Bytes>, result: seq<Bytes>, cursor: nat, a: nat, b: nat, added: seq<Bytes>)
    requires cursor <= a <= b <= |source| && b <= |later| && later[..b] == source[..b]
    requires result == later[..a] + added + later[b..]
    ensures cursor <= |result| && result[..cursor] == source[..cursor]
    ensures result[cursor..] == source[cursor..a] + added + later[b..]
  {
    assert later[..a] == later[..b][..a] == source[..b][..a] == source[..a];
    assert source[..a] == source[..cursor] + source[cursor..a];
    assert result == source[..cursor] + (source[cursor..a] + added + later[b..]);
  }

  /** One pass succeeds with `result` exactly when the hunks are in order and replacing their old lines from last to
      first, at their old anchors, gives `result`. */
  lemma SpliceIsReplacement(source: seq<Bytes>, hunks: seq<Hunk>, result: seq<Bytes>)
    ensures Splice(source, hunks, 0, []).Some? && Splice(source, hunks, 0, []).value.0 == result
       <==> InOrder(hunks, 0) && ReplacedLastFirst(source, hunks, result)
  {
    hide Splice, ReplacedLastFirst, InOrder;
    if Splice(source, hunks, 0, []).Some? {
      SpliceReplaces(source, hunks, 0, []);
      var out := Splice(source, hunks, 0, []).value.0;
      assert source[..0] + out[0..] == out;
    }
    if InOrder(hunks, 0) && ReplacedLastFirst(source, hunks, result) {
      ReplacementSplices(source, hunks, 0, [], result);
      assert [] + result[0..] == result;
    }
  }

  /** Where the hunk before the `k`-th ends on the old side. */
  ghost function EndBefore(hunks: seq<Hunk>, cursor: int, k: nat): int
    requires k < |hunks|
  {
    if k == 0 then cursor else hunks[k - 1].Anchor() + |OldLines(hunks[k - 1].lines)|
  }

  /** Every hunk's old lines stand at its anchor, at or after the end of the one before it. */
  ghost predicate AllStand(source: seq<Bytes>, hunks: seq<Hunk>, cursor: int) {
    forall k :: 0 <= k < |hunks| ==> EndBefore(hunks, cursor, k) <= hunks[k].Anchor() && StandsIn(source, hunks[k])
  }

  lemma AllStandFirst(source: seq<Bytes>, hunks: seq<Hunk>, cursor: int)
    requires hunks != []
    ensures AllStand(source, hunks, cursor)
       <==> cursor <= hunks[0].Anchor() && StandsIn(source, hunks[0])
            && AllStand(source, hunks[1..], hunks[0].Anchor() + |OldLines(hunks[0].lines)|)
  {
    hide OldLines, StandsIn;
    var (rest, b) := (hunks[1..], hunks[0].Anchor() + |OldLines(hunks[0].lines)|);
    assert EndBefore(hunks, cursor, 0) == cursor;
    assert forall k :: 0 <= k < |rest| ==> rest[k] == hunks[k + 1] && EndBefore(rest, b, k) == EndBefore(hunks, cursor, k + 1);
    if AllStand(source, rest, b) && cursor <= hunks[0].Anchor() && StandsIn(source, hunks[0]) {
      forall k | 0 <= k < |hunks| ensures EndBefore(hunks, cursor, k) <= hunks[k].Anchor() && StandsIn(source, hunks[k]) {
        if k > 0 { assert rest[k - 1] == hunks[k]; }
      }
    }
  }

  /** The splice succeeds exactly when every hunk's old lines stand where they should. */
  lemma {:induction false} SplicesIffAllStand(source: seq<Bytes>, hunks: seq<Hunk>, cursor: nat, out: seq<Bytes>)
    requires cursor <= |source|
    ensures Splice(source, hunks, cursor, out).Some? <==> AllStand(source, hunks, cursor)
  {
    hide OldLines, NewLines, AllStand;
    if hunks == [] {
      assert AllStand(source, [], cursor) by { NothingStands(source, cursor); }
    } else {
      var h := hunks[0];
      AllStandFirst(source, hunks, cursor);
      if Fits(source, cursor, h) {
        SplicesIffAllStand(source, hunks[1..], h.Anchor() + |OldLines(h.lines)|, out + source[cursor..h.Anchor()] + NewLines(h.lines));
      }
    }
  }

  lemma NothingStands(source: seq<Bytes>, cursor: int)
    ensures AllStand(source, [], cursor)
  {}

  // ----- lengths and positions

  ghost function Growth(hunks: seq<Hunk>): int {
    if hunks == [] then 0 else |NewLines(hunks[0].lines)| - |OldLines(hunks[0].lines)| + Growth(hunks[1..])
  }

  /** Added and removed lines, as `FilePatch.added` and `FilePatch.removed` count them. */
  function Tagged(body: seq<BodyLine>, tag: Tag): nat {
    if body == [] then 0 else (if body[0].tag == tag then 1 else 0) + Tagged(body[1..], tag)
  }

  function TaggedAll(hunks: seq<Hunk>, tag: Tag): nat {
    if hunks == [] then 0 else Tagged(hunks[0].lines, tag) + TaggedAll(hunks[1..], tag)
  }

  lemma {:induction false} SidesDiffer(body: seq<BodyLine>)
    ensures |NewLines(body)| - |OldLines(body)| == Tagged(body, New) - Tagged(body, Old)
  {
    if body != [] { SidesDiffer(body[1..]); }
  }

  lemma {:induction false} GrowthCounts(hunks: seq<Hunk>)
    ensures Growth(hunks) == TaggedAll(hunks, New) - TaggedAll(hunks, Old)
  {
    if hunks != [] {
      SidesDiffer(hunks[0].lines);
      GrowthCounts(hunks[1..]);
    }
  }

  /** Each hunk lands at its old anchor plus the length change of the hunks before it. */
  lemma {:induction false} SplicePositions(source: seq<Bytes>, hunks: seq<Hunk>, cursor: nat, out: seq<Bytes>, k: nat)
    requires cursor <= |source| && Splice(source, hunks, cursor, out).Some? && k < |hunks|
    ensures Splice(source, hunks, cursor, out).value.1[k] == hunks[k].Anchor() + (|out| - cursor) + Growth(hunks[..k])
  {
    var h := hunks[0];
    if k > 0 {
      var kept := out + source[cursor..h.Anchor()];
      SplicePositions(source, hunks[1..], h.Anchor() + |OldLines(h.lines)|, kept + NewLines(h.lines), k - 1);
      assert hunks[1..][..k - 1] == hunks[..k][1..];
    }
  }

  lemma {:induction false} SpliceLength(source: seq<Bytes>, hunks: seq<Hunk>, cursor: nat, out: seq<Bytes>)
    requires cursor <= |source| && Splice(source, hunks, cursor, out).Some?
    ensures |Splice(source, hunks, cursor, out).value.0| == |source| + (|out| - cursor) + Growth(hunks)
  {
    if hunks != [] {
      var h := hunks[0];
      var kept := out + source[cursor..h.Anchor()];
      SpliceLength(source, hunks[1..], h.Anchor() + |OldLines(h.lines)|, kept + NewLines(h.lines));
    }
  }

  /** The result has the source's lines plus the added minus the removed ones, and every hunk lands at its old
      anchor plus the length change so far. */
  lemma SpliceShape(source: seq<Bytes>, hunks: seq<Hunk>)
    requires Splice(source, hunks, 0, []).Some?
    ensures var (out, positions) := Splice(source, hunks, 0, []).value;
            && |out| == |source| + TaggedAll(hunks, New) - TaggedAll(hunks, Old)
            && forall k :: 0 <= k < |hunks| ==> positions[k] == hunks[k].Anchor() + Growth(hunks[..k])
  {
    SpliceLength(source, hunks, 0, []);
    GrowthCounts(hunks);
    forall k | 0 <= k < |hunks|
      ensures Splice(source, hunks, 0, []).value.1[k] == hunks[k].Anchor() + Growth(hunks[..k])
    {
      SplicePositions(source, hunks, 0, [], k);
    }
  }

  // ----- the method

  ghost function WithPositions(positions: seq<nat>, r: Option<(seq<Bytes>, seq<nat>)>): Option<(seq<Bytes>, seq<nat>)> {
    match r
    case None => None
    case Some((result, rest)) => Some((result, positions + rest))
  }

  lemma SpliceStep(source: seq<Bytes>, hunks: seq<Hunk>, cursor: nat, out: seq<Bytes>, positions: seq<nat>)
    requires cursor <= |source| && hunks != []
    ensures var h := hunks[0];
            WithPositions(positions, Splice(source, hunks, cursor, out))
            == if !Fits(source, cursor, h) then None
               else
                 var kept := out + source[cursor..h.Anchor()];
                 WithPositions(positions + [|kept|],
                               Splice(source, hunks[1..], h.Anchor() + |OldLines(h.lines)|, kept + NewLines(h.lines)))
  {
    hide OldLines, NewLines;
    var h := hunks[0];
    if Fits(source, cursor, h) {
      var kept := out + source[cursor..h.Anchor()];
      var r := Splice(source, hunks[1..], h.Anchor() + |OldLines(h.lines)|, kept + NewLines(h.lines));
      if r.Some? { assert positions + ([|kept|] + r.value.1) == positions + [|kept|] + r.value.1; }
    }
  }

  method SpliceAll(source: seq<Bytes>, hunks: seq<Hunk>) returns (r: Option<(seq<Bytes>, seq<nat>)>)
    ensures r == Splice(source, hunks, 0, [])
  {
    hide OldLines, NewLines, Splice;
    var out: seq<Bytes>, cursor: nat, positions: seq<nat> := [], 0, [];
    WithNoPositions(Splice(source, hunks, 0, []));
    assert hunks[0..] == hunks;
    for i := 0 to |hunks|
      invariant cursor <= |source|
      invariant WithPositions(positions, Splice(source, hunks[i..], cursor, out)) == Splice(source, hunks, 0, [])
    {
      var hunk := hunks[i];
      SpliceStep(source, hunks[i..], cursor, out, positions);
      assert hunks[i..][1..] == hunks[i + 1..];
      var removed, added := OldLines(hunk.lines), NewLines(hunk.lines);
      var anchor := hunk.Anchor();
      if !(cursor <= anchor <= |source|) { return None; }
      out := out + source[cursor..anchor];
      positions := positions + [|out|];
      if anchor + |removed| > |source| || source[anchor..anchor + |removed|] != removed { return None; }
      out := out + added;
      cursor := anchor + |removed|;
    }
    assert hunks[|hunks|..] == [];
    SpliceEnd(source, cursor, out, positions);
    out := out + source[cursor..];
    r := Some((out, positions));
  }

  lemma WithNoPositions(r: Option<(seq<Bytes>, seq<nat>)>)
    ensures WithPositions([], r) == r
  {
    if r.Some? { assert [] + r.value.1 == r.value.1; }
  }

  lemma SpliceEnd(source: seq<Bytes>, cursor: nat, out: seq<Bytes>, positions: seq<nat>)
    requires cursor <= |source|
    ensures WithPositions(positions, Splice(source, [], cursor, out)) == Some((out + source[cursor..], positions))
  {
    assert positions + [] == positions;
  }

  // ----- when a patch applies, and how it fails, by line numbers

  lemma {:induction false} OldSidesJoin(a: seq<BodyLine>, b: seq<BodyLine>)
    ensures OldLines(a + b) == OldLines(a) + OldLines(b)
  {
    hide FileLine, OnOld;
    if a == [] {
      assert a + b == b;
    } else {
      OldSidesJoin(a[1..], b);
      var (all, head) := (a + b, if OnOld(a[0]) then [FileLine(a[0])] else []);
      assert all[0] == a[0] && all[1..] == a[1..] + b;
      assert OldLines(all) == head + (OldLines(a[1..]) + OldLines(b));
      assert OldLines(a) == head + OldLines(a[1..]);
    }
  }

  lemma {:induction false} NewSidesJoin(a: seq<BodyLine>, b: seq<BodyLine>)
    ensures NewLines(a + b) == NewLines(a) + NewLines(b)
  {
    hide FileLine, OnNew;
    if a == [] {
      assert a + b == b;
    } else {
      NewSidesJoin(a[1..], b);
      var (all, head) := (a + b, if OnNew(a[0]) then [FileLine(a[0])] else []);
      assert all[0] == a[0] && all[1..] == a[1..] + b;
      assert NewLines(all) == head + (NewLines(a[1..]) + NewLines(b));
      assert NewLines(a) == head + NewLines(a[1..]);
    }
  }

  /** The file lines of a side are those of its lines one after another: content and LF, unless the newline is missing. */
  lemma SideLaws(a: seq<BodyLine>, b: seq<BodyLine>, line: BodyLine)
    ensures OldLines([]) == [] && OldLines(a + b) == OldLines(a) + OldLines(b)
    ensures NewLines([]) == [] && NewLines(a + b) == NewLines(a) + NewLines(b)
    ensures var bytes := if line.noNewline then line.content else line.content + [10];
            && OldLines([line]) == (if line.tag == New then [] else [bytes])
            && NewLines([line]) == (if line.tag == Old then [] else [bytes])
  {
    OldSidesJoin(a, b);
    NewSidesJoin(a, b);
    assert [line][1..] == [];
    assert line.content + [] == line.content;
  }

  lemma {:induction false} ConcatLaws(a: seq<Bytes>, b: seq<Bytes>, line: Bytes)
    ensures Concat([]) == [] && Concat([line]) == line && Concat(a + b) == Concat(a) + Concat(b)
  {
    assert [line][1..] == [];
    if a == [] {
      assert a + b == b;
    } else {
      ConcatLaws(a[1..], b, line);
      assert (a + b)[1..] == a[1..] + b;
    }
  }

  /** The token names one of the two blob ids by a prefix, or absence by zeros. */
  ghost predicate NamesBlob(blob: Option<string>, absent: bool, data: Bytes, ids: Bytes -> (string, string)) {
    blob.Some? ==>
      var (token, id) := (blob.value, ids(data));
      if absent then |token| > 0 && forall i :: 0 <= i < |token| ==> token[i] == '0'
      else (|token| <= |id.0| && id.0[..|token|] == token) || (|token| <= |id.1| && id.1[..|token|] == token)
  }

  /** The old side is at `at`: line number `at + 1`, or behind line number `at` if it is empty. */
  ghost predicate OldSideAt(source: seq<Bytes>, h: Hunk, at: nat) {
    && (if h.oldCount > 0 then h.oldStart == at + 1 else h.oldStart == at)
    && at + |OldLines(h.lines)| <= |source| && source[at..at + |OldLines(h.lines)|] == OldLines(h.lines)
  }

  ghost predicate NewSideAt(h: Hunk, at: int) {
    if h.newCount > 0 then h.newStart == at + 1 else h.newStart == at
  }

  /** Each hunk's old lines stand at its line number, behind those of the hunk before it. */
  ghost predicate Placed(source: seq<Bytes>, hunks: seq<Hunk>, ats: seq<nat>) {
    && |ats| == |hunks|
    && (forall k :: 0 <= k < |hunks| ==> OldSideAt(source, hunks[k], ats[k]))
    && forall k :: 0 < k < |hunks| ==> ats[k - 1] + |OldLines(hunks[k - 1].lines)| <= ats[k]
  }

  /** The lines from `from` on, with each hunk's old lines exchanged for its new ones. */
  ghost function Rewritten(source: seq<Bytes>, hunks: seq<Hunk>, ats: seq<nat>, from: nat): seq<Bytes>
    requires |ats| == |hunks|
  {
    if hunks == [] then Rest(source, from)
    else
      Rest(source[..Least(ats[0], |source|)], from) + NewLines(hunks[0].lines)
      + Rewritten(source, hunks[1..], ats[1..], ats[0] + |OldLines(hunks[0].lines)|)
  }

  function Least(a: nat, b: nat): nat { if a <= b then a else b }

  function Rest(lines: seq<Bytes>, from: nat): seq<Bytes> {
    if from <= |lines| then lines[from..] else []
  }

  /** `ats` places the hunks in the base, and `lines` is what replacing them gives; a deletion leaves nothing. */
  ghost predicate Patched(fp: FilePatch, base: Option<Bytes>, ats: seq<nat>, lines: seq<Bytes>) {
    && |ats| == |fp.hunks| && Placed(SplitLines(Data(base)), fp.hunks, ats)
    && lines == Rewritten(SplitLines(Data(base)), fp.hunks, ats, 0)
  }

  /** New line numbers as announced, an LF inside, and the announced blob. */
  ghost predicate AsAnnounced(fp: FilePatch, ats: seq<nat>, lines: seq<Bytes>, ids: Bytes -> (string, string)) {
    && (forall k :: 0 <= k < |fp.hunks| && k < |ats| ==> NewSideAt(fp.hunks[k], ats[k] + Growth(fp.hunks[..k])))
    && (forall i :: 0 <= i < |lines| - 1 ==> lines[i] != [] && lines[i][|lines[i]| - 1] == 10)
    && NamesBlob(fp.newBlob, fp.op == Delete, Concat(lines), ids)
  }

  /** The patch applies and gives `result`. */
  ghost predicate Accepts(fp: FilePatch, base: Option<Bytes>, limit: nat, ids: Bytes -> (string, string), result: Option<Bytes>) {
    && NamesBlob(fp.oldBlob, fp.op == Create, Data(base), ids)
    && exists ats, lines :: Patched(fp, base, ats, lines)
         && (fp.op == Delete ==> Concat(lines) == []) && |Concat(lines)| <= limit
         && AsAnnounced(fp, ats, lines, ids)
         && result == if fp.op == Delete then None else Some(Concat(lines))
  }

  /** The base is not the one the patch is for. */
  ghost predicate Mismatches(fp: FilePatch, base: Option<Bytes>, ids: Bytes -> (string, string)) {
    || !NamesBlob(fp.oldBlob, fp.op == Create, Data(base), ids)
    || (forall ats, lines :: !Patched(fp, base, ats, lines))
    || (fp.op == Delete && exists ats, lines :: Patched(fp, base, ats, lines) && Concat(lines) != [])
  }

  ghost predicate Exceeds(fp: FilePatch, base: Option<Bytes>, limit: nat) {
    exists ats, lines :: Patched(fp, base, ats, lines) && |Concat(lines)| > limit
  }

  ghost predicate Misannounced(fp: FilePatch, base: Option<Bytes>, ids: Bytes -> (string, string)) {
    exists ats, lines :: Patched(fp, base, ats, lines) && !AsAnnounced(fp, ats, lines, ids)
  }

  lemma NamesBlobIs(blob: Option<string>, absent: bool, data: Bytes, ids: Bytes -> (string, string))
    ensures NamesBlob(blob, absent, data, ids) <==> BlobMatches(blob, absent, data, ids)
  {
    if blob.Some? {
      var (token, id) := (blob.value, ids(data));
      assert forall i :: 0 <= i < |token| ==> token[i] in token;
      if absent && NamesBlob(blob, absent, data, ids) {
        assert forall c :: c in token ==> c == '0';
      }
      assert token <= id.0 <==> |token| <= |id.0| && id.0[..|token|] == token;
      assert token <= id.1 <==> |token| <= |id.1| && id.1[..|token|] == token;
    }
  }

  ghost function Anchors(hunks: seq<Hunk>): (ats: seq<int>)
    ensures |ats| == |hunks| && forall k :: 0 <= k < |ats| ==> ats[k] == hunks[k].Anchor()
  {
    seq(|hunks|, k requires 0 <= k < |hunks| => hunks[k].Anchor())
  }

  lemma PlacedIffAllStand(source: seq<Bytes>, hunks: seq<Hunk>, ats: seq<nat>)
    requires |ats| == |hunks|
    ensures Placed(source, hunks, ats) <==> AllStand(source, hunks, 0) && forall k :: 0 <= k < |hunks| ==> ats[k] == hunks[k].Anchor()
  {
    hide OldLines;
    forall k | 0 <= k < |hunks|
      ensures OldSideAt(source, hunks[k], ats[k]) <==> StandsIn(source, hunks[k]) && ats[k] == hunks[k].Anchor()
    {}
    hide OldSideAt, StandsIn;
    if Placed(source, hunks, ats) {
      forall k | 0 <= k < |hunks| ensures EndBefore(hunks, 0, k) <= hunks[k].Anchor() && StandsIn(source, hunks[k]) {}
    }
    if AllStand(source, hunks, 0) && forall k :: 0 <= k < |hunks| ==> ats[k] == hunks[k].Anchor() {
      forall k | 0 < k < |hunks| ensures ats[k - 1] + |OldLines(hunks[k - 1].lines)| <= ats[k] {
        assert EndBefore(hunks, 0, k) <= hunks[k].Anchor();
      }
    }
  }

  lemma PlacedRest(source: seq<Bytes>, hunks: seq<Hunk>, ats: seq<nat>)
    requires hunks != [] && |ats| == |hunks| && Placed(source, hunks, ats)
    ensures Placed(source, hunks[1..], ats[1..])
    ensures |hunks| > 1 ==> ats[0] + |OldLines(hunks[0].lines)| <= ats[1]
    ensures ats[0] == hunks[0].Anchor() && StandsIn(source, hunks[0])
  {
    hide OldLines;
    forall k | 0 <= k < |hunks[1..]| ensures OldSideAt(source, hunks[1..][k], ats[1..][k]) {
      assert OldSideAt(source, hunks[k + 1], ats[k + 1]);
    }
    forall k | 0 < k < |hunks[1..]| ensures ats[1..][k - 1] + |OldLines(hunks[1..][k - 1].lines)| <= ats[1..][k] {
      assert ats[k] + |OldLines(hunks[k].lines)| <= ats[k + 1];
    }
    assert OldSideAt(source, hunks[0], ats[0]);
  }

  /** The splice computes the rewritten lines. */
  lemma {:induction false} PlacedSplices(source: seq<Bytes>, hunks: seq<Hunk>, ats: seq<nat>, cursor: nat, out: seq<Bytes>)
    requires cursor <= |source| && |ats| == |hunks| && Placed(source, hunks, ats) && (hunks != [] ==> cursor <= ats[0])
    ensures Splice(source, hunks, cursor, out).Some?
    ensures Splice(source, hunks, cursor, out).value.0 == out + Rewritten(source, hunks, ats, cursor)
  {
    hide OldLines, NewLines, Splice, StandsIn, Placed, Rewritten;
    if hunks == [] {
      SpliceNothing(source, cursor, out);
      NothingRewritten(source, ats, cursor);
    } else {
      PlacedRest(source, hunks, ats);
      var (a, b, added) := (ats[0], ats[0] + |OldLines(hunks[0].lines)|, NewLines(hunks[0].lines));
      assert b <= |source| by { StandsInside(source, hunks[0]); }
      PlacedSplices(source, hunks[1..], ats[1..], b, out + source[cursor..a] + added);
      SpliceFirst(source, hunks, cursor, out);
      RewrittenFirst(source, hunks, ats, cursor);
      assert out + source[cursor..a] + added + Rewritten(source, hunks[1..], ats[1..], b)
          == out + (source[cursor..a] + added + Rewritten(source, hunks[1..], ats[1..], b));
    }
  }

  lemma NothingRewritten(source: seq<Bytes>, ats: seq<nat>, from: nat)
    requires ats == [] && from <= |source|
    ensures Rewritten(source, [], ats, from) == source[from..]
  {}

  lemma RewrittenFirst(source: seq<Bytes>, hunks: seq<Hunk>, ats: seq<nat>, from: nat)
    requires hunks != [] && |ats| == |hunks| && from <= ats[0] <= |source|
    ensures Rewritten(source, hunks, ats, from)
         == source[from..ats[0]] + NewLines(hunks[0].lines)
            + Rewritten(source, hunks[1..], ats[1..], ats[0] + |OldLines(hunks[0].lines)|)
  {
    hide OldLines, NewLines;
    assert Rest(source[..ats[0]], from) == source[from..ats[0]];
  }

  lemma StandsInside(source: seq<Bytes>, h: Hunk)
    requires StandsIn(source, h)
    ensures 0 <= h.Anchor() <= h.Anchor() + |OldLines(h.lines)| <= |source|
  {}

  /** Placing is possible exactly when the splice succeeds, in one way, with one result. */
  lemma PatchedIsSplice(fp: FilePatch, base: Option<Bytes>, ats: seq<nat>, lines: seq<Bytes>)
    ensures var spliced := Splice(SplitLines(Data(base)), fp.hunks, 0, []);
            Patched(fp, base, ats, lines) <==> spliced.Some? && lines == spliced.value.0 && ats == Anchors(fp.hunks)
  {
    hide Splice, SplitLines, OldLines, NewLines, Placed, AllStand, Rewritten;
    var source := SplitLines(Data(base));
    SplicesIffAllStand(source, fp.hunks, 0, []);
    if |ats| == |fp.hunks| {
      PlacedIffAllStand(source, fp.hunks, ats);
      assert ats == Anchors(fp.hunks) <==> forall k :: 0 <= k < |fp.hunks| ==> ats[k] == fp.hunks[k].Anchor();
      if Placed(source, fp.hunks, ats) {
        PlacedSplices(source, fp.hunks, ats, 0, []);
        assert [] + Rewritten(source, fp.hunks, ats, 0) == Rewritten(source, fp.hunks, ats, 0);
      }
    }
  }

  lemma StandingAnchors(source: seq<Bytes>, hunks: seq<Hunk>)
    requires AllStand(source, hunks, 0)
    ensures forall k :: 0 <= k < |hunks| ==> hunks[k].Anchor() >= 0
  {
    hide OldLines;
    forall k | 0 <= k < |hunks| ensures hunks[k].Anchor() >= 0 { assert StandsIn(source, hunks[k]); }
  }

  lemma PatchedAnchors(fp: FilePatch, base: Option<Bytes>)
    requires Splice(SplitLines(Data(base)), fp.hunks, 0, []).Some?
    ensures forall k :: 0 <= k < |fp.hunks| ==> fp.hunks[k].Anchor() >= 0
  {
    hide Splice, SplitLines, AllStand;
    SplicesIffAllStand(SplitLines(Data(base)), fp.hunks, 0, []);
    StandingAnchors(SplitLines(Data(base)), fp.hunks);
  }

  /** The one placing, if there is any. */
  ghost function Ats(hunks: seq<Hunk>): (ats: seq<nat>)
    requires forall k :: 0 <= k < |hunks| ==> hunks[k].Anchor() >= 0
    ensures ats == Anchors(hunks)
  {
    seq(|hunks|, k requires 0 <= k < |hunks| => hunks[k].Anchor())
  }

  /** The closing checks by line numbers. */
  lemma AnnouncedIs(fp: FilePatch, base: Option<Bytes>, ids: Bytes -> (string, string))
    requires Splice(SplitLines(Data(base)), fp.hunks, 0, []).Some?
    requires forall k :: 0 <= k < |fp.hunks| ==> fp.hunks[k].Anchor() >= 0
    ensures var (lines, positions) := Splice(SplitLines(Data(base)), fp.hunks, 0, []).value;
            AsAnnounced(fp, Ats(fp.hunks), lines, ids)
            <==> (forall k :: 0 <= k < |positions| ==> NewAnchor(fp.hunks[k]) == positions[k]) && AllEndLf(lines)
                 && BlobMatches(fp.newBlob, fp.op == Delete, Concat(lines), ids)
  {
    hide Splice, SplitLines, BlobMatches, NamesBlob, Growth, Concat;
    SpliceShape(SplitLines(Data(base)), fp.hunks);
    NamesBlobIs(fp.newBlob, fp.op == Delete, Concat(Splice(SplitLines(Data(base)), fp.hunks, 0, []).value.0), ids);
  }

  /** Acceptance and each failure, in the documented order. */
  lemma AppliedMeans(fp: FilePatch, base: Option<Bytes>, limit: nat, ids: Bytes -> (string, string))
    ensures var r := Applied(fp, base, limit, ids);
            && (forall result :: r == Ok(result) <==> Accepts(fp, base, limit, ids, result))
            && (r == Err(BaseMismatch) <==> Mismatches(fp, base, ids))
            && (r == Err(LimitExceeded) <==> !Mismatches(fp, base, ids) && Exceeds(fp, base, limit))
            && (r == Err(MalformedPatch)
                <==> !Mismatches(fp, base, ids) && !Exceeds(fp, base, limit) && Misannounced(fp, base, ids))
  {
    hide Splice, SplitLines, BlobMatches, NamesBlob, Patched, AsAnnounced, Concat, AllEndLf, NewAnchor;
    NamesBlobIs(fp.oldBlob, fp.op == Create, Data(base), ids);
    forall ats, lines { PatchedIsSplice(fp, base, ats, lines); }
    var spliced := Splice(SplitLines(Data(base)), fp.hunks, 0, []);
    if spliced.Some? {
      PatchedAnchors(fp, base);
      AnnouncedIs(fp, base, ids);
      assert Patched(fp, base, Ats(fp.hunks), spliced.value.0);
    }
  }

  method Apply(fp: FilePatch, base: Option<Bytes>, limit: nat, ids: Bytes -> (string, string))
    returns (r: Result<Option<Bytes>, Reason>)
    ensures r == Applied(fp, base, limit, ids)
    ensures forall result :: r == Ok(result) <==> Accepts(fp, base, limit, ids, result)
    ensures r == Err(BaseMismatch) <==> Mismatches(fp, base, ids)
    ensures r == Err(LimitExceeded) <==> !Mismatches(fp, base, ids) && Exceeds(fp, base, limit)
    ensures r == Err(MalformedPatch)
       <==> !Mismatches(fp, base, ids) && !Exceeds(fp, base, limit) && Misannounced(fp, base, ids)
  {
    hide Splice, BlobMatches, SplitLines, Concat, AllEndLf, Accepts, Mismatches, Exceeds, Misannounced;
    AppliedMeans(fp, base, limit, ids);
    var data := Data(base);
    if !BlobMatches(fp.oldBlob, fp.op == Create, data, ids) { return Err(BaseMismatch); }
    var source := Split(data);
    var spliced := SpliceAll(source, fp.hunks);
    if spliced.None? { return Err(BaseMismatch); }
    var (out, positions) := spliced.value;
    var result := Concat(out);
    if fp.op == Delete && result != [] { return Err(BaseMismatch); }
    if |result| > limit { return Err(LimitExceeded); }
    for k := 0 to |positions|
      invariant forall j :: 0 <= j < k ==> NewAnchor(fp.hunks[j]) == positions[j]
    {
      if NewAnchor(fp.hunks[k]) != positions[k] { return Err(MalformedPatch); }
    }
    if !AllEndLf(out) { return Err(MalformedPatch); }
    if !BlobMatches(fp.newBlob, fp.op == Delete, result, ids) { return Err(MalformedPatch); }
    r := Ok(if fp.op == Delete then None else Some(result));
  }

  /** A successful application replaced the hunks' lines in the base, each at the announced new position, fits the
      limit and carries the announced blob; only a deletion yields no file, and only from an emptied one. */
  lemma AppliedIsReplacement(fp: FilePatch, base: Option<Bytes>, limit: nat, ids: Bytes -> (string, string), result: Option<Bytes>)
    requires Applied(fp, base, limit, ids) == Ok(result)
    ensures result.None? <==> fp.op == Delete
    ensures |Data(result)| <= limit && BlobMatches(fp.newBlob, fp.op == Delete, Data(result), ids)
    ensures BlobMatches(fp.oldBlob, fp.op == Create, Data(base), ids)
    ensures exists lines :: Concat(lines) == Data(result) && AllEndLf(lines)
                            && ReplacedLastFirst(SplitLines(Data(base)), fp.hunks, lines)
    ensures forall k :: 0 <= k < |fp.hunks| ==> NewAnchor(fp.hunks[k]) == fp.hunks[k].Anchor() + Growth(fp.hunks[..k])
  {
    hide Splice, SplitLines, BlobMatches, ReplacedLastFirst, Concat, AllEndLf, Growth;
    var source := SplitLines(Data(base));
    SpliceIsReplacement(source, fp.hunks, Splice(source, fp.hunks, 0, []).value.0);
    SpliceShape(source, fp.hunks);
  }
}
