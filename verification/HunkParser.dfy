/**
  `_hunk` and the hunk loop of `_section`: count-driven parsing with the no-newline marker.
 */
module HunkParser {
  import opened Wrappers
  import opened HunkGrammar

  function Hit(b: bool): nat { if b then 1 else 0 }

  ghost function OldSide(body: seq<BodyLine>): nat {
    if body == [] then 0 else Hit(OnOld(body[0])) + OldSide(body[1..])
  }

  ghost function NewSide(body: seq<BodyLine>): nat {
    if body == [] then 0 else Hit(OnNew(body[0])) + NewSide(body[1..])
  }

  // ----- the grammar

  /** A line without its newline is the last of each side it is on. */
  ghost predicate MarkersLast(body: seq<BodyLine>) {
    forall i, j :: 0 <= i < j < |body| && body[i].noNewline ==>
      !(OnOld(body[i]) && OnOld(body[j])) && !(OnNew(body[i]) && OnNew(body[j]))
  }

  predicate HasChange(body: seq<BodyLine>) {
    exists l :: l in body && l.tag != Context
  }

  ghost predicate WellFormed(h: Hunk) {
    && (h.oldCount > 0 ==> h.oldStart > 0)
    && OldSide(h.lines) == h.oldCount && NewSide(h.lines) == h.newCount
    && HasChange(h.lines) && MarkersLast(h.lines)
  }

  /** `segment` spells `body`: one tagged line each, with a marker line after a line that lacks its newline. */
  ghost predicate Encodes(segment: seq<Bytes>, body: seq<BodyLine>) {
    if body == [] then segment == []
    else
      && segment != [] && segment[0] == [TagByte(body[0].tag)] + body[0].content
      && if body[0].noNewline then |segment| >= 2 && IsMarker(segment[1]) && Encodes(segment[2..], body[1..])
         else Encodes(segment[1..], body[1..])
  }

  /** The marker that could follow the last line has been taken. */
  ghost predicate MarkerTaken(lines: seq<Bytes>, end: nat, body: seq<BodyLine>) {
    body != [] && !body[|body| - 1].noNewline ==> end >= |lines| || !IsMarker(lines[end])
  }

  /** `lines[at..end]` spells the hunk `h`. */
  ghost predicate Spells(lines: seq<Bytes>, at: nat, end: nat, h: Hunk) {
    && at < end <= |lines|
    && ParseHeader(lines[at]) == Some(Header(h.oldStart, h.oldCount, h.newStart, h.newCount))
    && WellFormed(h)
    && Encodes(lines[at + 1..end], h.lines)
    && MarkerTaken(lines, end, h.lines)
  }

  // ----- reading whole units: a tagged line and the marker after it

  function TagOf(line: Bytes): Option<Tag> {
    if line == [] then None
    else if line[0] == SPACE then Some(Context)
    else if line[0] == MINUS then Some(Old)
    else if line[0] == PLUS then Some(New)
    else None
  }

  datatype Sides = Sides(oldLeft: nat, newLeft: nat, oldClosed: bool, newClosed: bool) {
    /** A line with this tag is still expected. */
    predicate Allows(tag: Tag) {
      && (tag != New ==> !oldClosed && oldLeft > 0)
      && (tag != Old ==> !newClosed && newLeft > 0)
    }

    function Take(tag: Tag): Sides
      requires Allows(tag)
    {
      Sides(if tag != New then oldLeft - 1 else oldLeft, if tag != Old then newLeft - 1 else newLeft, oldClosed, newClosed)
    }

    function Close(tag: Tag): Sides {
      Sides(oldLeft, newLeft, oldClosed || tag != New, newClosed || tag != Old)
    }
  }

  ghost function Units(lines: seq<Bytes>, at: nat, s: Sides): (r: Option<(seq<BodyLine>, nat)>)
    decreases s.oldLeft + s.newLeft
  {
    if s.oldLeft == 0 && s.newLeft == 0 then Some(([], at))
    else if at >= |lines| || TagOf(lines[at]).None? || !s.Allows(TagOf(lines[at]).value) then None
    else
      var tag := TagOf(lines[at]).value;
      var marked := at + 1 < |lines| && IsMarker(lines[at + 1]);
      var taken := s.Take(tag);
      match Units(lines, if marked then at + 2 else at + 1, if marked then taken.Close(tag) else taken)
      case None => None
      case Some((rest, end)) => Some(([BodyLine(tag, lines[at][1..], marked)] + rest, end))
  }

  ghost function HunkAt(lines: seq<Bytes>, at: nat): Option<(Hunk, nat)>
    requires at < |lines|
  {
    match ParseHeader(lines[at])
    case None => None
    case Some(h) =>
      if h.oldCount > 0 && h.oldStart == 0 then None
      else
        match Units(lines, at + 1, Sides(h.oldCount, h.newCount, false, false))
        case None => None
        case Some((body, end)) =>
          if HasChange(body) then Some((Hunk(h.oldStart, h.oldCount, h.newStart, h.newCount, body), end)) else None
  }

  // ----- the units are the grammar

  /** Nothing more on a closed side. */
  ghost predicate Respects(body: seq<BodyLine>, s: Sides) {
    && (s.oldClosed ==> OldSide(body) == 0)
    && (s.newClosed ==> NewSide(body) == 0)
  }

  lemma {:induction false} NoneOnSide(body: seq<BodyLine>)
    ensures OldSide(body) == 0 <==> forall l :: l in body ==> !OnOld(l)
    ensures NewSide(body) == 0 <==> forall l :: l in body ==> !OnNew(l)
  {
    if body != [] {
      NoneOnSide(body[1..]);
      assert body[0] in body;
      assert forall l :: l in body <==> l == body[0] || l in body[1..];
    }
  }

  /** Reading the front line off a body whose markers are last. */
  lemma MarkersLastFront(body: seq<BodyLine>)
    requires body != []
    ensures MarkersLast(body) <==>
            && MarkersLast(body[1..])
            && (body[0].noNewline && OnOld(body[0]) ==> OldSide(body[1..]) == 0)
            && (body[0].noNewline && OnNew(body[0]) ==> NewSide(body[1..]) == 0)
  {
    var rest := body[1..];
    NoneOnSide(rest);
    if MarkersLast(body) {
      forall i, j | 0 <= i < j < |rest| && rest[i].noNewline
        ensures !(OnOld(rest[i]) && OnOld(rest[j])) && !(OnNew(rest[i]) && OnNew(rest[j]))
      {
        assert body[i + 1] == rest[i] && body[j + 1] == rest[j];
      }
      forall l | l in rest && body[0].noNewline
        ensures !(OnOld(body[0]) && OnOld(l)) && !(OnNew(body[0]) && OnNew(l))
      {
        var j :| 0 <= j < |rest| && rest[j] == l;
        assert body[j + 1] == l;
      }
    }
    if MarkersLast(rest) && (body[0].noNewline && OnOld(body[0]) ==> OldSide(rest) == 0)
       && (body[0].noNewline && OnNew(body[0]) ==> NewSide(rest) == 0) {
      forall i, j | 0 <= i < j < |body| && body[i].noNewline
        ensures !(OnOld(body[i]) && OnOld(body[j])) && !(OnNew(body[i]) && OnNew(body[j]))
      {
        assert body[j] == rest[j - 1] && body[j] in rest;
        if i > 0 { assert body[i] == rest[i - 1]; }
      }
    }
  }

  lemma {:induction false} UnitsSound(lines: seq<Bytes>, at: nat, s: Sides)
    requires Units(lines, at, s).Some? && at <= |lines|
    ensures var (body, end) := Units(lines, at, s).value;
            && at <= end <= |lines| && Encodes(lines[at..end], body)
            && OldSide(body) == s.oldLeft && NewSide(body) == s.newLeft
            && MarkersLast(body) && Respects(body, s) && MarkerTaken(lines, end, body)
    decreases s.oldLeft + s.newLeft
  {
    hide MarkersLast, IsMarker, Encodes, MarkerTaken;
    var (body, end) := Units(lines, at, s).value;
    EmptyBody(lines, at);
    if s.oldLeft > 0 || s.newLeft > 0 {
      var tag := TagOf(lines[at]).value;
      var marked := at + 1 < |lines| && IsMarker(lines[at + 1]);
      var next := if marked then at + 2 else at + 1;
      var s' := if marked then s.Take(tag).Close(tag) else s.Take(tag);
      UnitsSound(lines, next, s');
      assert body[1..] == Units(lines, next, s').value.0;
      MarkersLastFront(body);
      EncodesFront(lines, at, end, body, next);
    }
  }

  lemma {:induction false} UnitsComplete(lines: seq<Bytes>, at: nat, end: nat, s: Sides, body: seq<BodyLine>)
    requires at <= end <= |lines| && Encodes(lines[at..end], body)
    requires OldSide(body) == s.oldLeft && NewSide(body) == s.newLeft
    requires MarkersLast(body) && Respects(body, s) && MarkerTaken(lines, end, body)
    ensures Units(lines, at, s) == Some((body, end))
    decreases |body|
  {
    hide MarkersLast, IsMarker, Encodes, MarkerTaken;
    if body != [] {
      var (front, rest) := (body[0], body[1..]);
      MarkersLastFront(body);
      FollowingMarker(lines, at, end, body);
      var next := if front.noNewline then at + 2 else at + 1;
      EncodesFront(lines, at, end, body, next);
      var s' := if front.noNewline then s.Take(front.tag).Close(front.tag) else s.Take(front.tag);
      UnitsComplete(lines, next, end, s', rest);
      assert body == [front] + rest;
    } else {
      assert at == end by { EmptyEncodes(lines[at..end]); }
    }
  }

  lemma EmptyEncodes(segment: seq<Bytes>)
    requires Encodes(segment, [])
    ensures segment == []
  {}

  lemma EmptyBody(lines: seq<Bytes>, at: nat)
    ensures at <= |lines| ==> Encodes(lines[at..at], []) && MarkerTaken(lines, at, [])
    ensures MarkersLast([])
  {}

  /** A segment spells a body exactly when its first unit spells the front line and the rest spells the rest. */
  lemma EncodesFront(lines: seq<Bytes>, at: nat, end: nat, body: seq<BodyLine>, next: nat)
    requires body != [] && next == if body[0].noNewline then at + 2 else at + 1
    requires at < next <= end <= |lines| && (body[0].noNewline ==> IsMarker(lines[at + 1]))
    ensures Encodes(lines[at..end], body)
       <==> TagOf(lines[at]) == Some(body[0].tag) && lines[at][1..] == body[0].content && Encodes(lines[next..end], body[1..])
    ensures MarkerTaken(lines, end, body[1..]) && (body[1..] == [] ==> body[0].noNewline || end >= |lines| || !IsMarker(lines[end]))
       <==> MarkerTaken(lines, end, body)
  {
    hide IsMarker;
    var segment := lines[at..end];
    assert segment[0] == lines[at] && segment[next - at..] == lines[next..end];
    if body[0].noNewline { assert segment[1] == lines[at + 1]; }
    if TagOf(lines[at]).Some? { assert lines[at] == [TagByte(TagOf(lines[at]).value)] + lines[at][1..]; }
    if lines[at] == [TagByte(body[0].tag)] + body[0].content {
      assert TagOf(lines[at]) == Some(body[0].tag) && lines[at][1..] == body[0].content;
    }
  }

  /** After a line comes a marker exactly when the line lacks its newline. */
  lemma FollowingMarker(lines: seq<Bytes>, at: nat, end: nat, body: seq<BodyLine>)
    requires at <= end <= |lines| && body != [] && Encodes(lines[at..end], body) && MarkerTaken(lines, end, body)
    ensures at < end
    ensures at + 1 < |lines| && IsMarker(lines[at + 1]) <==> body[0].noNewline
    ensures body[0].noNewline ==> at + 2 <= end
    ensures body[1..] == [] && !body[0].noNewline ==> at + 1 == end
  {
    if body[0].noNewline {
      assert lines[at..end][1] == lines[at + 1];
    } else if |body| > 1 {
      assert lines[at..end][1..][0] == lines[at + 1];
      assert lines[at + 1] == [TagByte(body[1..][0].tag)] + body[1..][0].content;
    }
  }

  /** The parser accepts exactly the hunks the grammar spells: it returns `h` and stops at `end` if and only
      if `lines[at..end]` spells `h`. */
  lemma HunkAtIsGrammar(lines: seq<Bytes>, at: nat, end: nat, h: Hunk)
    requires at < |lines|
    ensures HunkAt(lines, at) == Some((h, end)) <==> Spells(lines, at, end, h)
  {
    hide Units, Encodes, MarkersLast, OldSide, NewSide, MarkerTaken, ParseHeader, HasChange;
    if HunkAt(lines, at) == Some((h, end)) {
      UnitsSound(lines, at + 1, Sides(h.oldCount, h.newCount, false, false));
    }
    if Spells(lines, at, end, h) {
      UnitsComplete(lines, at + 1, end, Sides(h.oldCount, h.newCount, false, false), h.lines);
    }
  }

  // ----- the loop

  function MarkLast(acc: seq<BodyLine>): (r: seq<BodyLine>)
    requires acc != []
    ensures |r| == |acc|
  {
    acc[..|acc| - 1] + [acc[|acc| - 1].(noNewline := true)]
  }

  ghost predicate Pending(lines: seq<Bytes>, at: nat, acc: seq<BodyLine>) {
    acc != [] && !acc[|acc| - 1].noNewline && at < |lines| && IsMarker(lines[at])
  }

  ghost function Prefixed(acc: seq<BodyLine>, r: Option<(seq<BodyLine>, nat)>): Option<(seq<BodyLine>, nat)> {
    match r
    case None => None
    case Some((rest, end)) => Some((acc + rest, end))
  }

  /** What the rest of the input makes of the lines read so far. */
  ghost function Resume(lines: seq<Bytes>, at: nat, acc: seq<BodyLine>, s: Sides): Option<(seq<BodyLine>, nat)> {
    if Pending(lines, at, acc) then Prefixed(MarkLast(acc), Units(lines, at + 1, s.Close(acc[|acc| - 1].tag)))
    else Prefixed(acc, Units(lines, at, s))
  }

  /** `_marker`: bind a marker to the line before it, or reject it. */
  method Marker(acc: seq<BodyLine>, s: Sides) returns (r: Option<(seq<BodyLine>, Sides)>)
    ensures r == if acc == [] || acc[|acc| - 1].noNewline then None else Some((MarkLast(acc), s.Close(acc[|acc| - 1].tag)))
  {
    if acc == [] || acc[|acc| - 1].noNewline { return None; }
    var tag := acc[|acc| - 1].tag;
    var closed := s;
    if tag == Context {
      closed := closed.(oldClosed := true, newClosed := true);
    } else if tag == Old {
      closed := closed.(oldClosed := true);
    } else {
      closed := closed.(newClosed := true);
    }
    r := Some((MarkLast(acc), closed));
  }

  lemma TakeLine(lines: seq<Bytes>, at: nat, acc: seq<BodyLine>, s: Sides, tag: Tag)
    requires at < |lines| && !IsMarker(lines[at]) && (s.oldLeft > 0 || s.newLeft > 0)
    requires TagOf(lines[at]) == Some(tag) && s.Allows(tag)
    ensures Resume(lines, at + 1, acc + [BodyLine(tag, lines[at][1..], false)], s.Take(tag)) == Resume(lines, at, acc, s)
  {
    hide IsMarker;
    var more := acc + [BodyLine(tag, lines[at][1..], false)];
    var marked := at + 1 < |lines| && IsMarker(lines[at + 1]);
    var line := BodyLine(tag, lines[at][1..], marked);
    var taken := s.Take(tag);
    var r := Units(lines, if marked then at + 2 else at + 1, if marked then taken.Close(tag) else taken);
    assert MarkLast(more) == acc + [line.(noNewline := true)];
    assert (if marked then MarkLast(more) else more) == acc + [line];
    if r.Some? { assert acc + ([line] + r.value.0) == acc + [line] + r.value.0; }
  }

  lemma TakeMarker(lines: seq<Bytes>, at: nat, acc: seq<BodyLine>, s: Sides)
    requires Pending(lines, at, acc)
    ensures Resume(lines, at + 1, MarkLast(acc), s.Close(acc[|acc| - 1].tag)) == Resume(lines, at, acc, s)
  {}

  /** No way on: the input ends, or the next line fits neither side. */
  lemma Stuck(lines: seq<Bytes>, at: nat, acc: seq<BodyLine>, s: Sides)
    requires (s.oldLeft > 0 || s.newLeft > 0) && !Pending(lines, at, acc)
    requires at >= |lines| || TagOf(lines[at]).None? || !s.Allows(TagOf(lines[at]).value)
    ensures Resume(lines, at, acc, s) == None
  {}

  /** The body loop and the marker after it. */
  method ParseBody(lines: seq<Bytes>, start: nat, first: Sides) returns (r: Option<(seq<BodyLine>, nat)>)
    requires start <= |lines| && !first.oldClosed && !first.newClosed
    ensures first.oldLeft + first.newLeft > 0 ==> r == Units(lines, start, first)
    ensures first.oldLeft + first.newLeft == 0 ==> r == None || r == Some(([], start))
  {
    hide Resume, Units;
    var at, s := start, first;
    var acc: seq<BodyLine> := [];
    StartResume(lines, start, first);
    while s.oldLeft > 0 || s.newLeft > 0
      invariant start <= at <= |lines|
      invariant Resume(lines, at, acc, s) == Units(lines, start, first)
      invariant acc == [] ==> s == first && at == start
      invariant first.oldLeft + first.newLeft == 0 ==> acc == []
      invariant s.oldLeft == 0 && s.newLeft == 0 && acc != [] ==> !acc[|acc| - 1].noNewline
      decreases |lines| - at
    {
      if at >= |lines| {
        Stuck(lines, at, acc, s);
        return None;
      }
      var line := lines[at];
      if IsMarker(line) {
        var bound := Marker(acc, s);
        if bound.None? {
          Stuck(lines, at, acc, s);
          return None;
        }
        TakeMarker(lines, at, acc, s);
        acc, s := bound.value.0, bound.value.1;
      } else {
        var tag := TagOf(line);
        if tag.None? || !s.Allows(tag.value) {
          Stuck(lines, at, acc, s);
          return None;
        }
        TakeLine(lines, at, acc, s, tag.value);
        acc, s := acc + [BodyLine(tag.value, line[1..], false)], s.Take(tag.value);
      }
      at := at + 1;
    }
    EndResume(lines, at, acc, s);
    if at < |lines| && IsMarker(lines[at]) {
      var bound := Marker(acc, s);
      if bound.None? { return None; }
      acc, at := bound.value.0, at + 1;
    }
    r := Some((acc, at));
  }

  lemma StartResume(lines: seq<Bytes>, start: nat, first: Sides)
    ensures Resume(lines, start, [], first) == Units(lines, start, first)
  {
    var r := Units(lines, start, first);
    if r.Some? { assert [] + r.value.0 == r.value.0; }
  }

  lemma EndResume(lines: seq<Bytes>, at: nat, acc: seq<BodyLine>, s: Sides)
    requires s.oldLeft == 0 && s.newLeft == 0
    ensures Resume(lines, at, acc, s) == Some(if Pending(lines, at, acc) then (MarkLast(acc), at + 1) else (acc, at))
  {
    assert acc + [] == acc;
    if acc != [] { assert MarkLast(acc) + [] == MarkLast(acc); }
  }

  /** `_hunk`: header, body, and at least one change. */
  method ParseHunk(lines: seq<Bytes>, at: nat) returns (r: Option<(Hunk, nat)>)
    requires at < |lines|
    ensures r == HunkAt(lines, at)
  {
    hide Units;
    var header := ParseHeader(lines[at]);
    if header.None? { return None; }
    var h := header.value;
    if h.oldCount > 0 && h.oldStart == 0 { return None; }
    var first := Sides(h.oldCount, h.newCount, false, false);
    var body := ParseBody(lines, at + 1, first);
    NothingExpected(lines, at + 1, first);
    if body.None? || !HasChange(body.value.0) { return None; }
    r := Some((Hunk(h.oldStart, h.oldCount, h.newStart, h.newCount, body.value.0), body.value.1));
  }

  lemma NothingExpected(lines: seq<Bytes>, at: nat, s: Sides)
    ensures s.oldLeft + s.newLeft == 0 ==> Units(lines, at, s) == Some(([], at))
    ensures !HasChange([])
  {}

  // ----- rendering

  ghost function RenderBody(body: seq<BodyLine>, note: Bytes): seq<Bytes> {
    if body == [] then []
    else
      [[TagByte(body[0].tag)] + body[0].content]
      + (if body[0].noNewline then [[BACKSLASH, SPACE] + note] else [])
      + RenderBody(body[1..], note)
  }

  lemma {:induction false} RenderEncodes(body: seq<BodyLine>, note: Bytes)
    ensures Encodes(RenderBody(body, note), body)
  {
    if body != [] {
      RenderEncodes(body[1..], note);
      var lines := RenderBody(body, note);
      var rest := RenderBody(body[1..], note);
      if body[0].noNewline {
        assert lines[2..] == rest;
      } else {
        assert lines[1..] == rest;
      }
    }
  }

  /** Rendering a well-formed hunk anywhere in a patch and parsing it there gives back that hunk and consumes
      exactly its lines, whichever header form, trailing text and marker wording are used. */
  lemma RenderedParses(before: seq<Bytes>, h: Hunk, shortOld: bool, shortNew: bool, tail: Bytes, note: Bytes, after: seq<Bytes>)
    requires WellFormed(h) && TailOk(tail)
    requires h.oldStart < NUMBER_LIMIT && h.oldCount < NUMBER_LIMIT && h.newStart < NUMBER_LIMIT && h.newCount < NUMBER_LIMIT
    requires after == [] || !IsMarker(after[0])
    ensures var header := PrintHeader(Header(h.oldStart, h.oldCount, h.newStart, h.newCount), shortOld, shortNew, tail);
            var rendered := [header] + RenderBody(h.lines, note);
            HunkAt(before + rendered + after, |before|) == Some((h, |before| + |rendered|))
  {
    hide ParseHeader, PrintHeader, WellFormed, IsMarker, HunkAt;
    var numbers := Header(h.oldStart, h.oldCount, h.newStart, h.newCount);
    var body := RenderBody(h.lines, note);
    var rendered := [PrintHeader(numbers, shortOld, shortNew, tail)] + body;
    var lines := before + rendered + after;
    var end := |before| + |rendered|;
    HeaderReads(numbers, shortOld, shortNew, tail);
    RenderEncodes(h.lines, note);
    assert lines[|before|] == rendered[0];
    assert lines[|before| + 1..end] == body;
    assert end < |lines| ==> lines[end] == after[0];
    HunkAtIsGrammar(lines, |before|, end, h);
  }

  // ----- the hunks of one file

  predicate StartsHunk(line: Bytes) { |line| >= 2 && line[0] == AT && line[1] == AT }

  /** Each hunk begins at or after the end of the one before it. */
  ghost predicate Ordered(hunks: seq<Hunk>) {
    forall i :: 0 <= i < |hunks| - 1 ==> hunks[i + 1].Anchor() >= hunks[i].Anchor() + hunks[i].oldCount
  }

  /** The hunks' lines follow one another from `at` to `end`. */
  ghost predicate SpellsAll(lines: seq<Bytes>, at: nat, end: nat, hunks: seq<Hunk>) {
    exists cuts :: CutsApart(lines, at, end, hunks, cuts)
  }

  ghost predicate CutsApart(lines: seq<Bytes>, at: nat, end: nat, hunks: seq<Hunk>, cuts: seq<nat>) {
    && |cuts| == |hunks| + 1 && cuts[0] == at && cuts[|hunks|] == end
    && forall i :: 0 <= i < |hunks| ==> Spells(lines, cuts[i], cuts[i + 1], hunks[i])
  }

  lemma SpellsOneMore(lines: seq<Bytes>, at: nat, mid: nat, end: nat, hunks: seq<Hunk>, h: Hunk)
    requires SpellsAll(lines, at, mid, hunks) && Spells(lines, mid, end, h)
    ensures SpellsAll(lines, at, end, hunks + [h])
  {
    hide Spells;
    var cuts :| CutsApart(lines, at, mid, hunks, cuts);
    assert CutsApart(lines, at, end, hunks + [h], cuts + [end]);
  }

  lemma SpellsNone(lines: seq<Bytes>, at: nat)
    ensures SpellsAll(lines, at, at, [])
  {
    assert CutsApart(lines, at, at, [], [at]);
  }

  /** The hunk loop from `at`, with `acc` already read. */
  ghost function HunksAt(lines: seq<Bytes>, at: nat, soFar: nat, maxHunks: nat, acc: seq<Hunk>): Result<(seq<Hunk>, nat), Reason>
    decreases |lines| - at
  {
    if at < |lines| && StartsHunk(lines[at]) then
      if soFar + |acc| >= maxHunks then Err(LimitExceeded)
      else
        match HunkAt(lines, at)
        case None => Err(MalformedPatch)
        case Some((h, next)) =>
          HunkAtIsGrammar(lines, at, next, h);
          if acc != [] && h.Anchor() < acc[|acc| - 1].Anchor() + acc[|acc| - 1].oldCount then Err(MalformedPatch)
          else HunksAt(lines, next, soFar, maxHunks, acc + [h])
    else if acc == [] then Err(MalformedPatch)
    else Ok((acc, at))
  }

  ghost predicate HunkLine(line: Bytes) {
    |line| >= 2 && line[0] == 64 && line[1] == 64
  }

  /** The hunks of a file section: ordered, within the limit, spelled one after another, up to the first
      line that starts no hunk. */
  ghost predicate IsHunkList(lines: seq<Bytes>, start: nat, end: nat, soFar: nat, maxHunks: nat, hunks: seq<Hunk>) {
    && hunks != [] && soFar + |hunks| <= maxHunks && Ordered(hunks)
    && SpellsAll(lines, start, end, hunks)
    && (end < |lines| ==> !HunkLine(lines[end]))
  }

  lemma {:induction false} HunksAtSound(lines: seq<Bytes>, start: nat, at: nat, soFar: nat, maxHunks: nat, acc: seq<Hunk>)
    requires SpellsAll(lines, start, at, acc) && Ordered(acc) && (acc != [] ==> soFar + |acc| <= maxHunks)
    requires HunksAt(lines, at, soFar, maxHunks, acc).Ok?
    ensures var (hunks, end) := HunksAt(lines, at, soFar, maxHunks, acc).value;
            IsHunkList(lines, start, end, soFar, maxHunks, hunks)
    decreases |lines| - at
  {
    hide HunkAt, Spells, SpellsAll;
    if at < |lines| && StartsHunk(lines[at]) {
      var (h, next) := HunkAt(lines, at).value;
      HunkAtIsGrammar(lines, at, next, h);
      SpellsEnds(lines, at, next, h);
      SpellsOneMore(lines, start, at, next, acc, h);
      HunksAtSound(lines, start, next, soFar, maxHunks, acc + [h]);
    }
  }

  lemma {:induction false} HunksAtComplete(lines: seq<Bytes>, start: nat, end: nat, soFar: nat, maxHunks: nat,
                                           hunks: seq<Hunk>, cuts: seq<nat>, k: nat)
    requires IsHunkList(lines, start, end, soFar, maxHunks, hunks) && CutsApart(lines, start, end, hunks, cuts)
    requires k <= |hunks|
    ensures HunksAt(lines, cuts[k], soFar, maxHunks, hunks[..k]) == Ok((hunks, end))
    decreases |hunks| - k
  {
    hide HunkAt, SpellsAll, Spells;
    if k < |hunks| {
      HunksAtComplete(lines, start, end, soFar, maxHunks, hunks, cuts, k + 1);
      assert hunks[..k] + [hunks[k]] == hunks[..k + 1];
      SpellsEnds(lines, cuts[k], cuts[k + 1], hunks[k]);
      HunkAtIsGrammar(lines, cuts[k], cuts[k + 1], hunks[k]);
      HeaderStartsHunk(lines, cuts[k], cuts[k + 1], hunks[k]);
    } else {
      assert hunks[..k] == hunks;
    }
  }

  lemma HeaderStartsHunk(lines: seq<Bytes>, at: nat, end: nat, h: Hunk)
    requires Spells(lines, at, end, h)
    ensures at < |lines| && StartsHunk(lines[at])
  {
    assert OPENING <= lines[at];
    assert OPENING[0] == lines[at][0] && OPENING[1] == lines[at][1];
  }

  /** The hunk loop accepts exactly the hunk lists of the grammar. */
  lemma HunksAtIsGrammar(lines: seq<Bytes>, start: nat, end: nat, soFar: nat, maxHunks: nat, hunks: seq<Hunk>)
    ensures HunksAt(lines, start, soFar, maxHunks, []) == Ok((hunks, end))
       <==> IsHunkList(lines, start, end, soFar, maxHunks, hunks)
  {
    hide HunksAt, Ordered;
    if HunksAt(lines, start, soFar, maxHunks, []) == Ok((hunks, end)) {
      SpellsNone(lines, start);
      assert Ordered([]) by { OrderedNone(); }
      HunksAtSound(lines, start, start, soFar, maxHunks, []);
    }
    if IsHunkList(lines, start, end, soFar, maxHunks, hunks) {
      var cuts :| CutsApart(lines, start, end, hunks, cuts);
      HunksAtComplete(lines, start, end, soFar, maxHunks, hunks, cuts, 0);
      assert hunks[..0] == [];
    }
  }

  /** The bytes of an encoded body: " ", "-" or "+" before each content, and a line of "\ " behind one without its newline. */
  lemma {:induction false} EncodedBytes(segment: seq<Bytes>, body: seq<BodyLine>)
    requires Encodes(segment, body) && body != []
    ensures segment[0] == [match body[0].tag case Context => 32 case Old => 45 case New => 43] + body[0].content
    ensures var used := if body[0].noNewline then 2 else 1;
            && used <= |segment| && Encodes(segment[used..], body[1..])
            && (body[0].noNewline ==> |segment[1]| >= 2 && segment[1][0] == 92 && segment[1][1] == 32)
  {}

  // ----- how a hunk list fails

  /** How many hunks there is room for. */
  function Room(soFar: nat, maxHunks: nat): nat {
    if soFar >= maxHunks then 0 else maxHunks - soFar
  }

  /** As many ordered hunks as there is room for, and one more line that starts one. */
  ghost predicate OverLimit(lines: seq<Bytes>, start: nat, soFar: nat, maxHunks: nat, hunks: seq<Hunk>, end: nat) {
    && SpellsAll(lines, start, end, hunks) && Ordered(hunks) && |hunks| == Room(soFar, maxHunks)
    && end < |lines| && HunkLine(lines[end])
  }

  lemma {:induction false} LimitSound(lines: seq<Bytes>, start: nat, at: nat, soFar: nat, maxHunks: nat, acc: seq<Hunk>)
    requires SpellsAll(lines, start, at, acc) && Ordered(acc) && |acc| <= Room(soFar, maxHunks)
    requires HunksAt(lines, at, soFar, maxHunks, acc) == Err(LimitExceeded)
    ensures exists hunks, end :: OverLimit(lines, start, soFar, maxHunks, hunks, end)
    decreases |lines| - at
  {
    hide HunkAt, Spells, SpellsAll;
    if soFar + |acc| >= maxHunks {
      assert OverLimit(lines, start, soFar, maxHunks, acc, at);
    } else {
      var (h, next) := HunkAt(lines, at).value;
      HunkAtIsGrammar(lines, at, next, h);
      SpellsEnds(lines, at, next, h);
      SpellsOneMore(lines, start, at, next, acc, h);
      LimitSound(lines, start, next, soFar, maxHunks, acc + [h]);
    }
  }

  lemma {:induction false} LimitComplete(lines: seq<Bytes>, start: nat, end: nat, soFar: nat, maxHunks: nat,
                                         hunks: seq<Hunk>, cuts: seq<nat>, k: nat)
    requires OverLimit(lines, start, soFar, maxHunks, hunks, end) && CutsApart(lines, start, end, hunks, cuts)
    requires k <= |hunks|
    ensures HunksAt(lines, cuts[k], soFar, maxHunks, hunks[..k]) == Err(LimitExceeded)
    decreases |hunks| - k
  {
    hide HunkAt, SpellsAll, Spells;
    if k < |hunks| {
      LimitComplete(lines, start, end, soFar, maxHunks, hunks, cuts, k + 1);
      assert hunks[..k] + [hunks[k]] == hunks[..k + 1];
      SpellsEnds(lines, cuts[k], cuts[k + 1], hunks[k]);
      HunkAtIsGrammar(lines, cuts[k], cuts[k + 1], hunks[k]);
      HeaderStartsHunk(lines, cuts[k], cuts[k + 1], hunks[k]);
    } else {
      assert hunks[..k] == hunks;
    }
  }

  lemma {:induction false} NeverMismatch(lines: seq<Bytes>, at: nat, soFar: nat, maxHunks: nat, acc: seq<Hunk>)
    ensures HunksAt(lines, at, soFar, maxHunks, acc) != Err(BaseMismatch)
    decreases |lines| - at
  {
    hide HunkAt, Spells;
    if at < |lines| && StartsHunk(lines[at]) && soFar + |acc| < maxHunks && HunkAt(lines, at).Some? {
      var (h, next) := HunkAt(lines, at).value;
      HunkAtIsGrammar(lines, at, next, h);
      SpellsEnds(lines, at, next, h);
      NeverMismatch(lines, next, soFar, maxHunks, acc + [h]);
    }
  }

  lemma LimitIs(lines: seq<Bytes>, start: nat, soFar: nat, maxHunks: nat)
    ensures HunksAt(lines, start, soFar, maxHunks, []) == Err(LimitExceeded)
       <==> exists hunks, end :: OverLimit(lines, start, soFar, maxHunks, hunks, end)
  {
    hide HunksAt, Ordered, CutsApart;
    if HunksAt(lines, start, soFar, maxHunks, []) == Err(LimitExceeded) {
      SpellsNone(lines, start);
      OrderedNone();
      LimitSound(lines, start, start, soFar, maxHunks, []);
    }
    forall hunks, end | OverLimit(lines, start, soFar, maxHunks, hunks, end)
      ensures HunksAt(lines, start, soFar, maxHunks, []) == Err(LimitExceeded)
    {
      var cuts := Cuts(lines, start, end, hunks);
      LimitComplete(lines, start, end, soFar, maxHunks, hunks, cuts, 0);
      assert hunks[..0] == [];
    }
  }

  /** The limit is the reason exactly if one more hunk starts behind as many ordered ones as there is room for; any other
      list that is not accepted is malformed. */
  lemma HunksAtFailures(lines: seq<Bytes>, start: nat, soFar: nat, maxHunks: nat)
    ensures var r := HunksAt(lines, start, soFar, maxHunks, []);
            && (r == Err(LimitExceeded) <==> exists hunks, end :: OverLimit(lines, start, soFar, maxHunks, hunks, end))
            && (r == Err(MalformedPatch)
                <==> (forall hunks, end :: !OverLimit(lines, start, soFar, maxHunks, hunks, end))
                     && forall hunks, end: nat :: !IsHunkList(lines, start, end, soFar, maxHunks, hunks))
  {
    hide HunksAt, IsHunkList, OverLimit;
    var r := HunksAt(lines, start, soFar, maxHunks, []);
    NeverMismatch(lines, start, soFar, maxHunks, []);
    LimitIs(lines, start, soFar, maxHunks);
    forall hunks, end: nat
      ensures r == Ok((hunks, end)) <==> IsHunkList(lines, start, end, soFar, maxHunks, hunks)
    {
      HunksAtIsGrammar(lines, start, end, soFar, maxHunks, hunks);
    }
    if r.Ok? {
      var (hunks, end) := r.value;
      assert r == Ok((hunks, end));
      assert IsHunkList(lines, start, end, soFar, maxHunks, hunks);
    } else {
      assert r == Err(r.error) && r.error != BaseMismatch;
      forall hunks, end: nat ensures !IsHunkList(lines, start, end, soFar, maxHunks, hunks) { assert r != Ok((hunks, end)); }
    }
  }

  lemma Cuts(lines: seq<Bytes>, start: nat, end: nat, hunks: seq<Hunk>) returns (cuts: seq<nat>)
    requires SpellsAll(lines, start, end, hunks)
    ensures CutsApart(lines, start, end, hunks, cuts) && |cuts| == |hunks| + 1 && cuts[0] == start
  {
    hide Spells;
    cuts :| CutsApart(lines, start, end, hunks, cuts);
  }

  /** The order of hunks by line numbers: each begins behind the last old line of the one before it. */
  lemma OrderedMeans(hunks: seq<Hunk>)
    ensures Ordered(hunks) <==> forall i :: 0 <= i < |hunks| - 1 ==> BeginsBehind(hunks[i], hunks[i + 1])
  {}

  /** Line numbers count from 1, and an empty old side stands behind the line it names. */
  predicate BeginsBehind(g: Hunk, h: Hunk) {
    var lastOfG := if g.oldCount > 0 then g.oldStart + g.oldCount - 1 else g.oldStart;
    if h.oldCount > 0 then h.oldStart > lastOfG else h.oldStart >= lastOfG
  }

  lemma OrderedNone()
    ensures Ordered([])
  {}

  /** The hunk loop of `_section`. */
  method ParseHunks(lines: seq<Bytes>, start: nat, soFar: nat, maxHunks: nat) returns (r: Result<(seq<Hunk>, nat), Reason>)
    ensures r == HunksAt(lines, start, soFar, maxHunks, [])
  {
    hide HunkAt;
    var at, hunks := start, [];
    while at < |lines| && StartsHunk(lines[at])
      invariant HunksAt(lines, at, soFar, maxHunks, hunks) == HunksAt(lines, start, soFar, maxHunks, [])
      decreases |lines| - at
    {
      if soFar + |hunks| >= maxHunks { return Err(LimitExceeded); }
      var parsed := ParseHunk(lines, at);
      if parsed.None? { return Err(MalformedPatch); }
      var (hunk, next) := parsed.value;
      HunkAtIsGrammar(lines, at, next, hunk);
      if hunks != [] && hunk.Anchor() < hunks[|hunks| - 1].Anchor() + hunks[|hunks| - 1].oldCount { return Err(MalformedPatch); }
      hunks, at := hunks + [hunk], next;
    }
    if hunks == [] { return Err(MalformedPatch); }
    r := Ok((hunks, at));
  }

  lemma SpellsEnds(lines: seq<Bytes>, at: nat, end: nat, h: Hunk)
    requires Spells(lines, at, end, h)
    ensures at < end <= |lines|
  {}
}
