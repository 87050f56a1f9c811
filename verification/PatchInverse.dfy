/**
  The inverse of a file patch, and when it undoes the patch.
 */
module PatchInverse {
  import opened Wrappers
  import opened HunkGrammar
  import opened HunkParser
  import opened PatchApply

  // ----- the inverse patch

  function SwapTag(tag: Tag): Tag {
    match tag
    case Context => Context
    case Old => New
    case New => Old
  }

  function SwapLines(body: seq<BodyLine>): seq<BodyLine> {
    if body == [] then [] else [body[0].(tag := SwapTag(body[0].tag))] + SwapLines(body[1..])
  }

  function InverseHunk(h: Hunk): Hunk {
    Hunk(h.newStart, h.newCount, h.oldStart, h.oldCount, SwapLines(h.lines))
  }

  function InverseHunks(hunks: seq<Hunk>): (r: seq<Hunk>)
    ensures |r| == |hunks| && forall k :: 0 <= k < |r| ==> r[k] == InverseHunk(hunks[k])
  {
    if hunks == [] then [] else [InverseHunk(hunks[0])] + InverseHunks(hunks[1..])
  }

  function Inverse(fp: FilePatch): FilePatch {
    FilePatch(match fp.op case Create => Delete case Delete => Create case Modify => Modify,
              InverseHunks(fp.hunks), fp.newBlob, fp.oldBlob)
  }

  lemma {:induction false} SwappedSides(body: seq<BodyLine>)
    ensures OldLines(SwapLines(body)) == NewLines(body) && NewLines(SwapLines(body)) == OldLines(body)
  {
    if body != [] {
      SwappedSides(body[1..]);
      var swapped := SwapLines(body);
      assert swapped[1..] == SwapLines(body[1..]);
      assert FileLine(swapped[0]) == FileLine(body[0]);
    }
  }

  lemma InverseAnchors(h: Hunk)
    ensures InverseHunk(h).Anchor() == NewAnchor(h) && NewAnchor(InverseHunk(h)) == h.Anchor()
  {}

  ghost predicate LandsAt(hunks: seq<Hunk>, positions: seq<nat>) {
    |positions| == |hunks| && forall k :: 0 <= k < |hunks| ==> NewAnchor(hunks[k]) == positions[k]
  }

  /** Splicing the inverse hunks into the spliced lines restores the source, and each lands at its old anchor. */
  lemma {:induction false} SpliceInverts(source: seq<Bytes>, hunks: seq<Hunk>, cursor: nat, out: seq<Bytes>)
    requires cursor <= |source| && Splice(source, hunks, cursor, out).Some?
    requires LandsAt(hunks, Splice(source, hunks, cursor, out).value.1)
    ensures var result := Splice(source, hunks, cursor, out).value.0;
            && out <= result
            && Splice(result, InverseHunks(hunks), |out|, source[..cursor]).Some?
            && Splice(result, InverseHunks(hunks), |out|, source[..cursor]).value.0 == source
            && LandsAt(InverseHunks(hunks), Splice(result, InverseHunks(hunks), |out|, source[..cursor]).value.1)
  {
    hide OldLines, NewLines, LandsAt, Fits, AllEndLf;
    var (result, positions) := Splice(source, hunks, cursor, out).value;
    if hunks == [] {
      assert result[|out|..] == source[cursor..];
      assert source[..cursor] + source[cursor..] == source;
      NothingLands();
    } else {
      var h := hunks[0];
      FitsParts(source, cursor, h);
      var (a, removed, added) := (h.Anchor(), OldLines(h.lines), NewLines(h.lines));
      var kept := out + source[cursor..a];
      LandsFront(hunks, positions);
      SpliceInverts(source, hunks[1..], a + |removed|, kept + added);
      Pieces(source, cursor, a, removed, out, added, result);
      InverseFits(h, result, |out|, |kept|);
      assert InverseHunks(hunks)[1..] == InverseHunks(hunks[1..]);
      var back := Splice(result, InverseHunks(hunks[1..]), |kept + added|, source[..a + |removed|]).value;
      InverseLands(hunks, back.1, a);
    }
  }

  lemma NothingLands()
    ensures LandsAt([], [])
  {}

  lemma FitsParts(source: seq<Bytes>, cursor: nat, h: Hunk)
    requires Fits(source, cursor, h)
    ensures cursor <= h.Anchor() <= h.Anchor() + |OldLines(h.lines)| <= |source|
    ensures source[h.Anchor()..h.Anchor() + |OldLines(h.lines)|] == OldLines(h.lines)
  {}

  lemma LandsFront(hunks: seq<Hunk>, positions: seq<nat>)
    requires hunks != [] && LandsAt(hunks, positions)
    ensures NewAnchor(hunks[0]) == positions[0] && LandsAt(hunks[1..], positions[1..])
  {}

  lemma Pieces(source: seq<Bytes>, cursor: nat, a: nat, removed: seq<Bytes>, out: seq<Bytes>, added: seq<Bytes>, result: seq<Bytes>)
    requires cursor <= a <= a + |removed| <= |source| && source[a..a + |removed|] == removed
    requires out + source[cursor..a] + added <= result
    ensures var kept := out + source[cursor..a];
            && out <= result && |out| <= |kept| <= |kept| + |added| <= |result|
            && source[..cursor] + result[|out|..|kept|] + removed == source[..a + |removed|]
            && |source[..cursor] + result[|out|..|kept|]| == a
            && result[|kept|..|kept| + |added|] == added
  {
    var kept := out + source[cursor..a];
    assert result[..|kept| + |added|] == kept + added;
    assert result[|out|..|kept|] == source[cursor..a];
  }

  lemma InverseFits(h: Hunk, result: seq<Bytes>, cursor: nat, at: nat)
    requires cursor <= at <= at + |NewLines(h.lines)| <= |result| && NewAnchor(h) == at
    requires result[at..at + |NewLines(h.lines)|] == NewLines(h.lines)
    ensures Fits(result, cursor, InverseHunk(h)) && InverseHunk(h).Anchor() == at
    ensures OldLines(InverseHunk(h).lines) == NewLines(h.lines) && NewLines(InverseHunk(h).lines) == OldLines(h.lines)
  {
    SwappedSides(h.lines);
    InverseAnchors(h);
  }

  lemma InverseLands(hunks: seq<Hunk>, rest: seq<nat>, a: nat)
    requires hunks != [] && hunks[0].Anchor() == a && LandsAt(InverseHunks(hunks[1..]), rest)
    ensures LandsAt(InverseHunks(hunks), [a] + rest)
  {
    InverseAnchors(hunks[0]);
    assert InverseHunks(hunks)[1..] == InverseHunks(hunks[1..]);
    forall k | 0 <= k < |hunks| ensures NewAnchor(InverseHunks(hunks)[k]) == ([a] + rest)[k] {
      if k > 0 { assert InverseHunks(hunks)[k] == InverseHunks(hunks[1..])[k - 1]; }
    }
  }

  // ----- when the inverse patch undoes the patch

  /** Parsed content holds no LF: patch lines are split at LF. */
  ghost predicate PlainContent(hunks: seq<Hunk>) {
    forall k, i :: 0 <= k < |hunks| && 0 <= i < |hunks[k].lines| ==> LF !in hunks[k].lines[i].content
  }

  /** A "+" line with empty content that lacks its newline: a line of no bytes at all. */
  predicate AddsNothing(line: BodyLine) {
    line.tag == New && line.content == [] && line.noNewline
  }

  predicate HasEmptyAddition(hunks: seq<Hunk>) {
    exists h :: h in hunks && exists l :: l in h.lines && AddsNothing(l)
  }

  lemma {:induction false} SideMembers(body: seq<BodyLine>, x: Bytes)
    ensures x in OldLines(body) <==> exists i :: 0 <= i < |body| && OnOld(body[i]) && FileLine(body[i]) == x
    ensures x in NewLines(body) <==> exists i :: 0 <= i < |body| && OnNew(body[i]) && FileLine(body[i]) == x
  {
    hide OnOld, OnNew, FileLine;
    if body != [] {
      var rest := body[1..];
      SideMembers(rest, x);
      if i :| 0 <= i < |rest| && OnOld(rest[i]) && FileLine(rest[i]) == x { assert body[i + 1] == rest[i]; }
      if i :| 0 <= i < |rest| && OnNew(rest[i]) && FileLine(rest[i]) == x { assert body[i + 1] == rest[i]; }
      if i :| 0 <= i < |body| && OnOld(body[i]) && FileLine(body[i]) == x { if i > 0 { assert rest[i - 1] == body[i]; } }
      if i :| 0 <= i < |body| && OnNew(body[i]) && FileLine(body[i]) == x { if i > 0 { assert rest[i - 1] == body[i]; } }
    }
  }

  /** Every old-side line of a spliced hunk is a line of the source. */
  lemma {:induction false} OldLinesInSource(source: seq<Bytes>, hunks: seq<Hunk>, cursor: nat, out: seq<Bytes>, k: nat, x: Bytes)
    requires cursor <= |source| && Splice(source, hunks, cursor, out).Some? && k < |hunks| && x in OldLines(hunks[k].lines)
    ensures x in source
  {
    hide OldLines, NewLines, Fits;
    var h := hunks[0];
    FitsParts(source, cursor, h);
    if k == 0 {
      var i :| 0 <= i < |OldLines(h.lines)| && OldLines(h.lines)[i] == x;
      assert source[h.Anchor()..h.Anchor() + |OldLines(h.lines)|][i] == source[h.Anchor() + i];
    } else {
      var kept := out + source[cursor..h.Anchor()];
      OldLinesInSource(source, hunks[1..], h.Anchor() + |OldLines(h.lines)|, kept + NewLines(h.lines), k - 1, x);
    }
  }

  /** Where a line of the spliced result can come from. */
  ghost predicate Sourced(source: seq<Bytes>, hunks: seq<Hunk>, out: seq<Bytes>, x: Bytes) {
    x in out || x in source || exists k :: 0 <= k < |hunks| && x in NewLines(hunks[k].lines)
  }

  lemma {:induction false} SplicedLines(source: seq<Bytes>, hunks: seq<Hunk>, cursor: nat, out: seq<Bytes>, x: Bytes)
    requires cursor <= |source| && Splice(source, hunks, cursor, out).Some?
    requires x in Splice(source, hunks, cursor, out).value.0
    ensures Sourced(source, hunks, out, x)
  {
    hide OldLines, NewLines, Fits;
    if hunks != [] {
      var h := hunks[0];
      FitsParts(source, cursor, h);
      var kept := out + source[cursor..h.Anchor()];
      var next := kept + NewLines(h.lines);
      SplicedLines(source, hunks[1..], h.Anchor() + |OldLines(h.lines)|, next, x);
      if x in next {
        assert x in out || x in source[cursor..h.Anchor()] || x in NewLines(h.lines);
      } else if x !in source {
        var k :| 0 <= k < |hunks[1..]| && x in NewLines(hunks[1..][k].lines);
        assert hunks[1..][k] == hunks[k + 1];
      }
    }
  }

  lemma FileLineShape(line: BodyLine)
    requires LF !in line.content
    ensures OneLine(FileLine(line)) && (FileLine(line) == [] <==> line.content == [] && line.noNewline)
  {
    forall i | 0 <= i < |FileLine(line)| - 1 ensures FileLine(line)[i] != LF { assert FileLine(line)[i] == line.content[i]; }
  }

  /** Without an empty addition, the spliced lines are lines a file can have. */
  lemma SplicedAreFileLines(source: seq<Bytes>, hunks: seq<Hunk>)
    requires FileLines(source) && PlainContent(hunks) && !HasEmptyAddition(hunks)
    requires Splice(source, hunks, 0, []).Some? && AllEndLf(Splice(source, hunks, 0, []).value.0)
    ensures FileLines(Splice(source, hunks, 0, []).value.0)
  {
    hide Splice, FileLines, FileLine, OneLine, AllEndLf, EndsLf, OldLines, NewLines, AddsNothing;
    var out := Splice(source, hunks, 0, []).value.0;
    FileLinesMembers(source);
    FileLinesMembers(out);
    forall x | x in out
      ensures x != [] && OneLine(x)
    {
      SplicedLines(source, hunks, 0, [], x);
      if x !in source {
        var k :| 0 <= k < |hunks| && x in NewLines(hunks[k].lines);
        SideMembers(hunks[k].lines, x);
        var i :| 0 <= i < |hunks[k].lines| && OnNew(hunks[k].lines[i]) && FileLine(hunks[k].lines[i]) == x;
        NewLineIsFileLine(source, hunks, k, i);
      }
    }
  }

  lemma NewLineIsFileLine(source: seq<Bytes>, hunks: seq<Hunk>, k: nat, i: nat)
    requires forall l :: l in source ==> l != []
    requires PlainContent(hunks) && !HasEmptyAddition(hunks) && Splice(source, hunks, 0, []).Some?
    requires k < |hunks| && i < |hunks[k].lines| && OnNew(hunks[k].lines[i])
    ensures FileLine(hunks[k].lines[i]) != [] && OneLine(FileLine(hunks[k].lines[i]))
  {
    hide Splice, OneLine, OldLines, NewLines;
    var line := hunks[k].lines[i];
    FileLineShape(line);
    assert hunks[k] in hunks && line in hunks[k].lines;
    assert !AddsNothing(line);
    if FileLine(line) == [] {
      assert OnOld(line);
      SideMembers(hunks[k].lines, []);
      OldLinesInSource(source, hunks, 0, [], k, []);
    }
  }

  /** With an empty addition, the inverse hunks fit no file: one of them expects a line of no bytes. */
  lemma EmptyAdditionBlocks(data: Bytes, hunks: seq<Hunk>)
    requires HasEmptyAddition(hunks)
    ensures Splice(SplitLines(data), InverseHunks(hunks), 0, []) == None
  {
    hide Splice, FileLines, OneLine, EndsLf, SplitLines, OldLines, NewLines;
    var h :| h in hunks && exists l :: l in h.lines && AddsNothing(l);
    var l :| l in h.lines && AddsNothing(l);
    var k :| 0 <= k < |hunks| && hunks[k] == h;
    var i :| 0 <= i < |h.lines| && h.lines[i] == l;
    assert FileLine(l) == [] && OnNew(l);
    SideMembers(h.lines, []);
    SwappedSides(h.lines);
    assert InverseHunks(hunks)[k] == InverseHunk(h);
    SplitIsFileLines(data);
    FileLinesMembers(SplitLines(data));
    if Splice(SplitLines(data), InverseHunks(hunks), 0, []).Some? {
      OldLinesInSource(SplitLines(data), InverseHunks(hunks), 0, [], k, []);
    }
  }

  /** Applying the inverse patch to the result gives the base back exactly when no "+" line is empty and lacks its
      newline (the parser admits such a line, and it adds no bytes), the base fits the size limit, and it is absent
      just for a creation. */
  lemma InverseRestores(fp: FilePatch, base: Option<Bytes>, limit: nat, ids: Bytes -> (string, string), result: Option<Bytes>)
    requires Applied(fp, base, limit, ids) == Ok(result) && PlainContent(fp.hunks)
    ensures Applied(Inverse(fp), result, limit, ids) == Ok(base)
       <==> !HasEmptyAddition(fp.hunks) && |Data(base)| <= limit && (base.None? <==> fp.op == Create)
  {
    hide Splice, HasEmptyAddition, PlainContent, SplitLines, Concat, AllEndLf, BlobMatches, NewAnchor;
    if |Data(base)| <= limit && (base.None? <==> fp.op == Create) {
      FittingInverseRestores(fp, base, limit, ids, result);
    }
  }

  lemma FittingInverseRestores(fp: FilePatch, base: Option<Bytes>, limit: nat, ids: Bytes -> (string, string), result: Option<Bytes>)
    requires Applied(fp, base, limit, ids) == Ok(result)
    requires PlainContent(fp.hunks) && |Data(base)| <= limit && (base.None? <==> fp.op == Create)
    ensures Applied(Inverse(fp), result, limit, ids) == Ok(base) <==> !HasEmptyAddition(fp.hunks)
  {
    hide Splice, FileLines, SplitLines, Concat, AllEndLf, BlobMatches, HasEmptyAddition, PlainContent;
    var source := SplitLines(Data(base));
    var (out, positions) := Splice(source, fp.hunks, 0, []).value;
    assert Data(result) == Concat(out);
    SplitIsFileLines(Data(base));
    if HasEmptyAddition(fp.hunks) {
      EmptyAdditionBlocks(Data(result), fp.hunks);
    } else {
      SplicedAreFileLines(source, fp.hunks);
      ConcatSplits(out);
      LandsFromFinish(fp.hunks, positions);
      SpliceInverts(source, fp.hunks, 0, []);
      assert source[..0] == [];
      FileLinesMembers(source);
      var (back, landed) := Splice(out, InverseHunks(fp.hunks), 0, []).value;
      InverseFinishes(fp, base, back, landed, limit, ids);
    }
  }

  lemma LandsFromFinish(hunks: seq<Hunk>, positions: seq<nat>)
    requires |positions| == |hunks| && !exists k :: 0 <= k < |positions| && NewAnchor(hunks[k]) != positions[k]
    ensures LandsAt(hunks, positions)
  {}

  /** Restoring the base passes every closing check. */
  lemma InverseFinishes(fp: FilePatch, base: Option<Bytes>, back: seq<Bytes>, landed: seq<nat>, limit: nat, ids: Bytes -> (string, string))
    requires LandsAt(InverseHunks(fp.hunks), landed) && AllEndLf(back) && Concat(back) == Data(base)
    requires |Data(base)| <= limit && (base.None? <==> fp.op == Create)
    requires BlobMatches(fp.oldBlob, fp.op == Create, Data(base), ids)
    ensures Finish(Inverse(fp), back, landed, limit, ids) == Ok(base)
  {
    hide AllEndLf, BlobMatches, Concat;
  }

  // ----- parsed patches

  /** Hunks parsed from lines split at LF have plain content. */
  lemma ParsedIsPlain(lines: seq<Bytes>, start: nat, end: nat, soFar: nat, maxHunks: nat, hunks: seq<Hunk>)
    requires forall l :: l in lines ==> LF !in l
    requires HunksAt(lines, start, soFar, maxHunks, []) == Ok((hunks, end))
    ensures PlainContent(hunks)
  {
    hide HunksAt, Encodes, WellFormed, MarkerTaken, ParseHeader;
    HunksAtIsGrammar(lines, start, end, soFar, maxHunks, hunks);
    var cuts :| CutsApart(lines, start, end, hunks, cuts);
    forall k, i | 0 <= k < |hunks| && 0 <= i < |hunks[k].lines|
      ensures LF !in hunks[k].lines[i].content
    {
      assert Spells(lines, cuts[k], cuts[k + 1], hunks[k]);
      EncodedIsPlain(lines[cuts[k] + 1..cuts[k + 1]], hunks[k].lines, i);
    }
  }

  lemma {:induction false} EncodedIsPlain(segment: seq<Bytes>, body: seq<BodyLine>, i: nat)
    requires Encodes(segment, body) && i < |body| && forall l :: l in segment ==> LF !in l
    ensures LF !in body[i].content
  {
    if i > 0 {
      EncodedIsPlain(if body[0].noNewline then segment[2..] else segment[1..], body[1..], i - 1);
    } else {
      assert segment[0] in segment;
      assert body[0].content == segment[0][1..];
    }
  }

  lemma {:induction false} SidesCounted(body: seq<BodyLine>)
    ensures |OldLines(body)| == OldSide(body) && |NewLines(body)| == NewSide(body)
  {
    if body != [] { SidesCounted(body[1..]); }
  }

  lemma {:induction false} SwappedLines(body: seq<BodyLine>)
    ensures |SwapLines(body)| == |body|
    ensures forall i :: 0 <= i < |body| ==> SwapLines(body)[i] == body[i].(tag := SwapTag(body[i].tag))
  {
    if body != [] { SwappedLines(body[1..]); }
  }

  /** A well-formed hunk that lands at a position swaps into a well-formed hunk. */
  lemma InverseWellFormed(h: Hunk)
    requires WellFormed(h) && NewAnchor(h) >= 0
    ensures WellFormed(InverseHunk(h))
  {
    hide OldSide, NewSide, OldLines, NewLines, SwapLines;
    var (body, swapped) := (h.lines, SwapLines(h.lines));
    SidesCounted(body);
    SidesCounted(swapped);
    SwappedSides(body);
    SwappedLines(body);
    assert HasChange(swapped) by {
      var l :| l in body && l.tag != Context;
      var i :| 0 <= i < |body| && body[i] == l;
      assert swapped[i] in swapped;
    }
  }

  lemma {:induction false} PositionsAdvance(source: seq<Bytes>, hunks: seq<Hunk>, cursor: nat, out: seq<Bytes>, k: nat)
    requires cursor <= |source| && Splice(source, hunks, cursor, out).Some? && k < |hunks|
    ensures var positions := Splice(source, hunks, cursor, out).value.1;
            && positions[k] >= |out|
            && (k + 1 < |hunks| ==> positions[k + 1] >= positions[k] + |NewLines(hunks[k].lines)|)
  {
    hide OldLines, NewLines, Fits;
    var h := hunks[0];
    FitsParts(source, cursor, h);
    var kept := out + source[cursor..h.Anchor()];
    if k > 0 {
      PositionsAdvance(source, hunks[1..], h.Anchor() + |OldLines(h.lines)|, kept + NewLines(h.lines), k - 1);
    } else if |hunks| > 1 {
      PositionsAdvance(source, hunks[1..], h.Anchor() + |OldLines(h.lines)|, kept + NewLines(h.lines), 0);
    }
  }

  /** The inverse of an applied patch is again a patch of the grammar: its hunks are well-formed and ordered. */
  lemma InverseIsPatch(source: seq<Bytes>, hunks: seq<Hunk>)
    requires Splice(source, hunks, 0, []).Some? && LandsAt(hunks, Splice(source, hunks, 0, []).value.1)
    requires forall k :: 0 <= k < |hunks| ==> WellFormed(hunks[k])
    ensures forall k :: 0 <= k < |hunks| ==> WellFormed(InverseHunks(hunks)[k])
    ensures Ordered(InverseHunks(hunks))
  {
    hide Splice, OldLines, NewLines, WellFormed;
    forall k | 0 <= k < |hunks| ensures WellFormed(InverseHunks(hunks)[k]) { InverseWellFormed(hunks[k]); }
    forall k | 0 <= k < |hunks| - 1
      ensures InverseHunks(hunks)[k + 1].Anchor() >= InverseHunks(hunks)[k].Anchor() + InverseHunks(hunks)[k].oldCount
    {
      PositionsAdvance(source, hunks, 0, [], k);
      NewSideCount(hunks[k]);
      InverseAnchors(hunks[k]);
      InverseAnchors(hunks[k + 1]);
    }
  }

  lemma NewSideCount(h: Hunk)
    requires WellFormed(h)
    ensures |NewLines(h.lines)| == h.newCount
  {
    SidesCounted(h.lines);
  }

  // ----- the condition is needed: a patch that appends a "+" line of no bytes applies, and its inverse does not

  const LINE: Bytes := [120, LF]
  const APPENDING: seq<BodyLine> := [BodyLine(Context, [120], false), BodyLine(New, [], true)]
  const APPENDING_HUNK: Hunk := Hunk(1, 1, 1, 2, APPENDING)

  /** "@@ -1 +1,2 @@", " x", "+", "\ " */
  const PATCH_LINES: seq<Bytes> :=
    [[64, 64, 32, 45, 49, 32, 43, 49, 44, 50, 32, 64, 64], [32, 120], [43], [92, 32]]

  lemma HeaderLineParses()
    ensures ParseHeader(PATCH_LINES[0]) == Some(Header(1, 1, 1, 2))
  {
    var one: Bytes, two: Bytes, oneTwo: Bytes := [49], [50], [49, 44, 50];
    assert Value([]) == 0;
    assert NumberForm(one, 1) && NumberForm(two, 2) by {
      assert one[..0] == [] && two[..0] == [];
    }
    assert oneTwo == one + ([COMMA] + two);
    assert CountedForm(oneTwo, one, two, 1, 2);
    assert RangeForm(one, 1, 1) && RangeForm(oneTwo, 1, 2);
    assert PATCH_LINES[0] == OPENING + (one + (MIDDLE + (oneTwo + (CLOSING + []))));
    assert HeaderParts(PATCH_LINES[0], Header(1, 1, 1, 2), one, oneTwo, []);
    HeaderIsForm(PATCH_LINES[0], Header(1, 1, 1, 2));
  }

  lemma AppendingIsWellFormed()
    ensures WellFormed(APPENDING_HUNK)
  {
    hide OldSide, NewSide, OldLines, NewLines;
    AppendingSides();
    SidesCounted(APPENDING);
    assert APPENDING[1] in APPENDING;
  }

  /** The parser reads these lines as that hunk. */
  lemma AppendingParses()
    ensures HunksAt(PATCH_LINES, 0, 0, 256, []) == Ok(([APPENDING_HUNK], 4))
  {
    hide ParseHeader, HunksAt, WellFormed;
    HeaderLineParses();
    AppendingIsWellFormed();
    var (segment, tail) := (PATCH_LINES[1..4], APPENDING[1..]);
    assert segment == [[32, 120], [43], [92, 32]] && segment[1..] == [[43], [92, 32]] && segment[1..][2..] == [];
    assert tail[1..] == [];
    assert Encodes(segment[1..], tail);
    assert Encodes(segment, APPENDING);
    assert Spells(PATCH_LINES, 0, 4, APPENDING_HUNK);
    assert CutsApart(PATCH_LINES, 0, 4, [APPENDING_HUNK], [0, 4]);
    assert IsHunkList(PATCH_LINES, 0, 4, 0, 256, [APPENDING_HUNK]);
    HunksAtIsGrammar(PATCH_LINES, 0, 4, 0, 256, [APPENDING_HUNK]);
  }

  lemma LineSplits()
    ensures SplitLines(LINE) == [LINE] && Concat([LINE, []]) == LINE && AllEndLf([LINE, []])
  {
    assert Concat([[]]) == [];
    assert [LINE, []][1..] == [[]];
    assert FindLf(LINE) == 1 by { assert LINE[1..] == [LF]; }
    assert LINE[2..] == [] && LINE[..2] == LINE;
    assert SplitLines([]) == [];
  }

  lemma AppendingSides()
    ensures OldLines(APPENDING) == [LINE] && NewLines(APPENDING) == [LINE, []]
  {
    var tail := APPENDING[1..];
    assert tail == [APPENDING[1]] && tail[1..] == [];
    assert FileLine(APPENDING[0]) == LINE && FileLine(tail[0]) == [];
    assert OldLines(tail) == [] && NewLines(tail) == [[]];
    assert OldLines(APPENDING) == [LINE] + [];
    assert NewLines(APPENDING) == [LINE] + [[]];
  }

  lemma AppendingSplices()
    ensures Splice([LINE], [APPENDING_HUNK], 0, []) == Some(([LINE, []], [0]))
  {
    hide OldLines, NewLines, FileLine;
    AppendingSides();
    var source := [LINE];
    assert source[0..1] == source;
    assert Fits(source, 0, APPENDING_HUNK);
    assert [APPENDING_HUNK][1..] == [];
    var kept: seq<Bytes> := [] + source[0..0];
    assert kept == [];
    var out := kept + NewLines(APPENDING_HUNK.lines);
    assert out + source[1..] == [LINE, []];
    assert [0] + [] == [0];
    assert Splice(source, [], 1, out) == Some(([LINE, []], []));
  }

  lemma EmptyAdditionIsNotUndone(ids: Bytes -> (string, string))
    ensures var fp := FilePatch(Modify, [APPENDING_HUNK], None, None);
            && HunksAt(PATCH_LINES, 0, 0, 256, []) == Ok((fp.hunks, 4)) && WellFormed(APPENDING_HUNK)
            && Applied(fp, Some(LINE), 1048576, ids) == Ok(Some(LINE))
            && Applied(Inverse(fp), Some(LINE), 1048576, ids) == Err(BaseMismatch)
  {
    hide Splice, SplitLines, Concat, AllEndLf, OldLines, NewLines, HunksAt, WellFormed;
    AppendingParses();
    AppendingIsWellFormed();
    LineSplits();
    AppendingSplices();
    assert AddsNothing(APPENDING[1]) && APPENDING[1] in APPENDING_HUNK.lines && APPENDING_HUNK in [APPENDING_HUNK];
    assert HasEmptyAddition([APPENDING_HUNK]);
    EmptyAdditionBlocks(LINE, [APPENDING_HUNK]);
  }
}
