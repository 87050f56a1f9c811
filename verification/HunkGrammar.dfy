/**
  One hunk of a unified diff: its lines, its header and the grammar of its body (the
  "Diff -u or -U Output Format" of the POSIX.1-2017 `diff` utility).
 */
module HunkGrammar {
  import opened Wrappers

  newtype byte = x: int | 0 <= x < 256

  type Bytes = seq<byte>

  const LF: byte := 10
  const SPACE: byte := 32
  const PLUS: byte := 43
  const COMMA: byte := 44
  const MINUS: byte := 45
  const AT: byte := 64
  const BACKSLASH: byte := 92

  datatype Tag = Context | Old | New

  datatype BodyLine = BodyLine(tag: Tag, content: Bytes, noNewline: bool)

  datatype Hunk = Hunk(oldStart: nat, oldCount: nat, newStart: nat, newCount: nat, lines: seq<BodyLine>) {
    /** The 0-based line before which the hunk's old side begins. */
    function Anchor(): int {
      if oldCount == 0 then oldStart else oldStart - 1
    }
  }

  /** Why a patch is rejected. */
  datatype Reason = BaseMismatch | LimitExceeded | MalformedPatch

  function TagByte(tag: Tag): byte {
    match tag
    case Context => SPACE
    case Old => MINUS
    case New => PLUS
  }

  predicate OnOld(line: BodyLine) { line.tag != New }

  predicate OnNew(line: BodyLine) { line.tag != Old }

  /** The "no newline at end of file" marker: a backslash and a space, then anything. */
  predicate IsMarker(line: Bytes) {
    |line| >= 2 && line[0] == BACKSLASH && line[1] == SPACE
  }

  // ----- decimal numbers

  predicate IsDigit(b: byte) { 48 <= b <= 57 }

  /** How many digits `s` starts with. */
  function DigitRun(s: Bytes): (k: nat)
    ensures k <= |s| && (forall i :: 0 <= i < k ==> IsDigit(s[i])) && (k < |s| ==> !IsDigit(s[k]))
  {
    if s != [] && IsDigit(s[0]) then 1 + DigitRun(s[1..]) else 0
  }

  function DigitValue(d: byte): nat
    requires IsDigit(d)
  {
    d as int - 48
  }

  function Value(digits: Bytes): nat
    requires forall d :: d in digits ==> IsDigit(d)
  {
    if digits == [] then 0
    else
      assert digits[|digits| - 1] in digits;
      10 * Value(digits[..|digits| - 1]) + DigitValue(digits[|digits| - 1])
  }

  function Decimal(n: nat): (digits: Bytes)
    ensures digits != [] && forall d :: d in digits ==> IsDigit(d)
  {
    if n < 10 then [(n + 48) as byte] else Decimal(n / 10) + [(n % 10 + 48) as byte]
  }

  lemma {:induction false} ValueOfDecimal(n: nat)
    ensures Value(Decimal(n)) == n
  {
    if n < 10 {
      assert Decimal(n)[..0] == [];
    } else {
      ValueOfDecimal(n / 10);
      assert Decimal(n)[..|Decimal(n)| - 1] == Decimal(n / 10);
    }
  }

  function Power10(k: nat): nat { if k == 0 then 1 else 10 * Power10(k - 1) }

  lemma {:induction false} DecimalLength(n: nat, k: nat)
    requires n < Power10(k) && k > 0
    ensures |Decimal(n)| <= k
  {
    if n >= 10 {
      assert Power10(1) == 10 * Power10(0) == 10;
      assert Power10(k) == 10 * Power10(k - 1);
      DecimalLength(n / 10, k - 1);
    }
  }

  // ----- the header "@@ -S[,C] +T[,D] @@[ any]"

  /** One to nine digits, and what follows them. */
  function ReadNumber(s: Bytes): Option<(nat, Bytes)> {
    var k := DigitRun(s);
    if 1 <= k <= 9 then
      assert forall d :: d in s[..k] ==> IsDigit(d);
      Some((Value(s[..k]), s[k..]))
    else None
  }

  /** ",C", or nothing for a count of one. */
  function ReadCount(s: Bytes): Option<(nat, Bytes)> {
    if s != [] && s[0] == COMMA then ReadNumber(s[1..]) else Some((1, s))
  }

  function ReadRange(s: Bytes): Option<(nat, nat, Bytes)> {
    match ReadNumber(s)
    case None => None
    case Some((start, more)) =>
      match ReadCount(more)
      case None => None
      case Some((count, rest)) => Some((start, count, rest))
  }

  datatype Header = Header(oldStart: nat, oldCount: nat, newStart: nat, newCount: nat)

  const OPENING: Bytes := [AT, AT, SPACE, MINUS]
  const MIDDLE: Bytes := [SPACE, PLUS]
  const CLOSING: Bytes := [SPACE, AT, AT]

  predicate TailOk(tail: Bytes) {
    tail == [] || (tail[0] == SPACE && LF !in tail)
  }

  function ParseHeader(line: Bytes): Option<Header> {
    if !(OPENING <= line) then None
    else
      match ReadRange(line[|OPENING|..])
      case None => None
      case Some((oldStart, oldCount, s)) =>
        if !(MIDDLE <= s) then None
        else
          match ReadRange(s[|MIDDLE|..])
          case None => None
          case Some((newStart, newCount, t)) =>
            if CLOSING <= t && TailOk(t[|CLOSING|..]) then Some(Header(oldStart, oldCount, newStart, newCount)) else None
  }

  /** A start and a count as the header prints them; a count of one may be left out. */
  function PrintRange(start: nat, count: nat, short: bool, rest: Bytes): Bytes {
    Decimal(start) + if short && count == 1 then rest else [COMMA] + (Decimal(count) + rest)
  }

  function PrintHeader(h: Header, shortOld: bool, shortNew: bool, tail: Bytes): Bytes {
    OPENING + PrintRange(h.oldStart, h.oldCount, shortOld,
                MIDDLE + PrintRange(h.newStart, h.newCount, shortNew, CLOSING + tail))
  }

  const NUMBER_LIMIT := 1000000000

  lemma {:induction false} DigitRunIs(digits: Bytes, rest: Bytes)
    requires (forall d :: d in digits ==> IsDigit(d)) && (rest != [] ==> !IsDigit(rest[0]))
    ensures DigitRun(digits + rest) == |digits|
  {
    if digits != [] {
      assert digits[0] in digits;
      assert (digits + rest)[1..] == digits[1..] + rest;
      DigitRunIs(digits[1..], rest);
    } else {
      assert digits + rest == rest;
    }
  }

  /** A printed number is read back, when no digit follows it. */
  lemma NumberReads(n: nat, rest: Bytes)
    requires n < NUMBER_LIMIT && (rest != [] ==> !IsDigit(rest[0]))
    ensures ReadNumber(Decimal(n) + rest) == Some((n, rest))
  {
    var digits := Decimal(n);
    DigitRunIs(digits, rest);
    assert (digits + rest)[..|digits|] == digits && (digits + rest)[|digits|..] == rest;
    assert Power10(9) == NUMBER_LIMIT by { Billion(); }
    DecimalLength(n, 9);
    ValueOfDecimal(n);
  }

  lemma Billion()
    ensures Power10(9) == 1000000000
  {
    assert Power10(3) == 1000;
    assert Power10(6) == 1000 * Power10(3);
    assert Power10(9) == 1000 * Power10(6);
  }

  /** A printed range is read back in front of a space. */
  lemma RangeReads(start: nat, count: nat, short: bool, rest: Bytes)
    requires start < NUMBER_LIMIT && count < NUMBER_LIMIT && rest != [] && rest[0] == SPACE
    ensures ReadRange(PrintRange(start, count, short, rest)) == Some((start, count, rest))
  {
    hide ReadNumber, Decimal;
    if short && count == 1 {
      NumberReads(start, rest);
    } else {
      var more := [COMMA] + (Decimal(count) + rest);
      NumberReads(start, more);
      NumberReads(count, rest);
      assert more[1..] == Decimal(count) + rest;
    }
  }

  /** Every header the grammar can print, with or without counts of one, is parsed back. */
  lemma HeaderReads(h: Header, shortOld: bool, shortNew: bool, tail: Bytes)
    requires h.oldStart < NUMBER_LIMIT && h.oldCount < NUMBER_LIMIT && h.newStart < NUMBER_LIMIT && h.newCount < NUMBER_LIMIT
    requires TailOk(tail)
    ensures ParseHeader(PrintHeader(h, shortOld, shortNew, tail)) == Some(h)
  {
    hide ReadRange, PrintRange;
    var second := CLOSING + tail;
    var middle := PrintRange(h.newStart, h.newCount, shortNew, second);
    var first := MIDDLE + middle;
    RangeReads(h.oldStart, h.oldCount, shortOld, first);
    RangeReads(h.newStart, h.newCount, shortNew, second);
    DropPrefix(OPENING, PrintRange(h.oldStart, h.oldCount, shortOld, first));
    DropPrefix(MIDDLE, middle);
    DropPrefix(CLOSING, tail);
  }

  lemma DropPrefix(a: Bytes, b: Bytes)
    ensures a <= a + b && (a + b)[|a|..] == b
  {}

  // ----- exactly which lines are headers

  /** One to nine digits, leading zeros included. */
  ghost predicate NumberForm(s: Bytes, n: nat) {
    1 <= |s| <= 9 && (forall d :: d in s ==> 48 <= d && d <= 57) && Value(s) == n
  }

  /** The digits' value, most significant first. */
  lemma ValueLaws(digits: Bytes, d: byte)
    requires (forall x :: x in digits ==> 48 <= x && x <= 57) && 48 <= d <= 57
    ensures Value([]) == 0 && Value(digits + [d]) == 10 * Value(digits) + (d as int - 48)
  {
    assert (digits + [d])[..|digits|] == digits;
  }

  ghost predicate RangeForm(s: Bytes, start: nat, count: nat) {
    || (count == 1 && NumberForm(s, start))
    || exists digits, more :: CountedForm(s, digits, more, start, count)
  }

  ghost predicate CountedForm(s: Bytes, digits: Bytes, more: Bytes, start: nat, count: nat) {
    s == digits + ([44] + more) && NumberForm(digits, start) && NumberForm(more, count)
  }

  /** "@@ -" old range " +" new range " @@" tail. */
  ghost predicate HeaderParts(line: Bytes, h: Header, older: Bytes, newer: Bytes, tail: Bytes) {
    && line == [64, 64, 32, 45] + (older + ([32, 43] + (newer + ([32, 64, 64] + tail))))
    && RangeForm(older, h.oldStart, h.oldCount) && RangeForm(newer, h.newStart, h.newCount)
    && (tail != [] ==> tail[0] == 32 && forall i :: 0 <= i < |tail| ==> tail[i] != 10)
  }

  ghost predicate HeaderForm(line: Bytes, h: Header) {
    exists older, newer, tail :: HeaderParts(line, h, older, newer, tail)
  }

  lemma NumberFormReads(digits: Bytes, n: nat, rest: Bytes)
    requires NumberForm(digits, n) && (rest != [] ==> !IsDigit(rest[0]))
    ensures ReadNumber(digits + rest) == Some((n, rest))
  {
    DigitRunIs(digits, rest);
    assert (digits + rest)[..|digits|] == digits && (digits + rest)[|digits|..] == rest;
  }

  lemma ReadNumberForm(s: Bytes)
    requires ReadNumber(s).Some?
    ensures var (n, rest) := ReadNumber(s).value;
            |rest| <= |s| && s == s[..|s| - |rest|] + rest && NumberForm(s[..|s| - |rest|], n)
  {}

  lemma RangeFormReads(range: Bytes, start: nat, count: nat, rest: Bytes)
    requires RangeForm(range, start, count) && rest != [] && rest[0] == SPACE
    ensures ReadRange(range + rest) == Some((start, count, rest))
  {
    hide ReadNumber, NumberForm;
    if count == 1 && NumberForm(range, start) {
      NumberFormReads(range, start, rest);
    } else {
      var digits, more :| CountedForm(range, digits, more, start, count);
      var tail := [COMMA] + more + rest;
      assert range + rest == digits + tail && tail[1..] == more + rest;
      NumberFormReads(digits, start, tail);
      NumberFormReads(more, count, rest);
    }
  }

  lemma ReadRangeForm(s: Bytes)
    requires ReadRange(s).Some?
    ensures var (start, count, rest) := ReadRange(s).value;
            |rest| <= |s| && s == s[..|s| - |rest|] + rest && RangeForm(s[..|s| - |rest|], start, count)
  {
    hide ReadNumber, NumberForm;
    ReadNumberForm(s);
    var (start, more) := ReadNumber(s).value;
    var (count, rest) := ReadCount(more).value;
    var digits := s[..|s| - |more|];
    if more != [] && more[0] == COMMA {
      ReadNumberForm(more[1..]);
      var last := more[1..][..|more| - 1 - |rest|];
      assert more == [COMMA] + (last + rest);
      assert s[..|s| - |rest|] == digits + ([COMMA] + last);
      assert CountedForm(s[..|s| - |rest|], digits, last, start, count);
    }
  }

  /** A line is read as the header `h` exactly when it has the header's form; the numbers may carry leading zeros. */
  lemma HeaderIsForm(line: Bytes, h: Header)
    ensures ParseHeader(line) == Some(h) <==> HeaderForm(line, h)
  {
    if HeaderForm(line, h) {
      var older, newer, tail :| HeaderParts(line, h, older, newer, tail);
      FormParses(line, h, older, newer, tail);
    }
    if ParseHeader(line) == Some(h) { ParsesForm(line, h); }
  }

  lemma FormParses(line: Bytes, h: Header, older: Bytes, newer: Bytes, tail: Bytes)
    requires HeaderParts(line, h, older, newer, tail)
    ensures ParseHeader(line) == Some(h)
  {
    hide ReadRange, RangeForm;
    var last := CLOSING + tail;
    var middle := MIDDLE + (newer + last);
    RangeFormReads(older, h.oldStart, h.oldCount, middle);
    RangeFormReads(newer, h.newStart, h.newCount, last);
    DropPrefix(OPENING, older + middle);
    DropPrefix(MIDDLE, newer + last);
    DropPrefix(CLOSING, tail);
  }

  lemma ParsesForm(line: Bytes, h: Header)
    requires ParseHeader(line) == Some(h)
    ensures HeaderForm(line, h)
  {
    hide ReadRange, RangeForm, TailOk, HeaderParts;
    var first := line[|OPENING|..];
    ReadRangeForm(first);
    var s := ReadRange(first).value.2;
    var second := s[|MIDDLE|..];
    ReadRangeForm(second);
    var t := ReadRange(second).value.2;
    var (older, newer, tail) := (first[..|first| - |s|], second[..|second| - |t|], t[|CLOSING|..]);
    assert t == CLOSING + tail && s == MIDDLE + second && line == OPENING + first;
    PartsFit(line, h, older, newer, tail);
  }

  lemma PartsFit(line: Bytes, h: Header, older: Bytes, newer: Bytes, tail: Bytes)
    requires line == OPENING + (older + (MIDDLE + (newer + (CLOSING + tail))))
    requires RangeForm(older, h.oldStart, h.oldCount) && RangeForm(newer, h.newStart, h.newCount) && TailOk(tail)
    ensures HeaderParts(line, h, older, newer, tail)
  {
    hide RangeForm;
  }
}
