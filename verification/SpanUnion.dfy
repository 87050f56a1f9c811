/**
  `union`: merging byte spans.
  A span holds the bytes from `start` up to but not including `end`; its borders count as touched even when it is empty.
*/
module SpanUnion {
  import opened Ordering

  datatype Span = Span(start: int, end: int)

  predicate Ordered(s: Span) { s.start <= s.end }

  /** Byte `b` is position 2b + 1, and the border before it is position 2b. */
  predicate Touches(s: Span, p: int) {
    2 * s.start <= p <= 2 * s.end
  }

  ghost predicate Reaches(spans: seq<Span>, p: int) {
    exists s :: s in spans && Touches(s, p)
  }

  ghost predicate SameReach(a: seq<Span>, b: seq<Span>) {
    forall p :: Reaches(a, p) <==> Reaches(b, p)
  }

  /** Ascending starts, each span ending before every later one starts. */
  predicate Gapped(spans: seq<Span>) {
    forall i, j :: 0 <= i < j < |spans| ==> spans[i].start <= spans[j].start && spans[i].end < spans[j].start
  }

  /** Proper spans, ascending, with a gap between any two. */
  predicate Separated(spans: seq<Span>) {
    Gapped(spans) && forall i :: 0 <= i < |spans| ==> Ordered(spans[i])
  }

  ghost predicate IsUnion(merged: seq<Span>, spans: seq<Span>) {
    Separated(merged) && SameReach(merged, spans)
  }

  /** A span that starts earlier reaches the start of `s`. */
  ghost predicate Absorbed(s: Span, spans: seq<Span>) {
    exists t :: t in spans && t.start < s.start <= t.end
  }

  /** Spans that end before they start touch nothing and pass through unless absorbed. */
  ghost predicate KeepsStrays(merged: seq<Span>, spans: seq<Span>) {
    forall s :: !Ordered(s) ==> (s in merged <==> s in spans && !Absorbed(s, spans))
  }

  ghost predicate IsMerge(merged: seq<Span>, spans: seq<Span>) {
    Gapped(merged) && SameReach(merged, spans) && KeepsStrays(merged, spans)
  }

  /** Merging proper spans gives their union. */
  lemma ProperMerge(merged: seq<Span>, spans: seq<Span>)
    requires IsMerge(merged, spans) && forall s :: s in spans ==> Ordered(s)
    ensures IsUnion(merged, spans)
  {
    forall i | 0 <= i < |merged| ensures Ordered(merged[i]) { assert merged[i] in merged; }
  }

  // ----- sorting pairs

  predicate Before(a: Span, b: Span) {
    a.start < b.start || (a.start == b.start && a.end <= b.end)
  }

  lemma BeforeOrder()
    ensures TotalPreorder(Before)
  {}

  // ----- the merge

  method Union(intervals: seq<Span>) returns (result: seq<Span>)
    ensures IsMerge(result, intervals)
  {
    hide IsMerge, Before, NonDescending, SortBy;
    BeforeOrder();
    var sorted := SortBy(intervals, Before);
    result := [];
    NothingMerged();
    assert sorted[..0] == [];
    for i := 0 to |sorted|
      invariant IsMerge(result, sorted[..i])
      invariant result != [] ==> forall j :: i <= j < |sorted| ==> result[|result| - 1].start <= sorted[j].start
    {
      var (start, end) := (sorted[i].start, sorted[i].end);
      SortedSpans(sorted, i);
      assert sorted[..i + 1] == sorted[..i] + [sorted[i]];
      var last := |result| - 1;
      if result != [] && start <= result[last].end {
        Widen(result, sorted[..i], sorted[i]);
        result := result[last := result[last].(end := if result[last].end < end then end else result[last].end)];
      } else {
        Append(result, sorted[..i], sorted[i]);
        result := result + [Span(start, end)];
      }
    }
    assert sorted[..|sorted|] == sorted;
    SameMerge(result, sorted, intervals);
  }

  lemma NothingMerged()
    ensures IsMerge([], [])
  {}

  lemma SortedSpans(sorted: seq<Span>, i: nat)
    requires NonDescending(sorted, Before) && i < |sorted|
    ensures forall j :: i < j < |sorted| ==> sorted[i].start <= sorted[j].start
    ensures forall t :: t in sorted[..i] ==> Before(t, sorted[i])
  {
    hide NonDescending;
    forall j | i < j < |sorted| ensures sorted[i].start <= sorted[j].start { NonDescendingAt(sorted, Before, i, j); }
    forall j | 0 <= j < i ensures Before(sorted[j], sorted[i]) { NonDescendingAt(sorted, Before, j, i); }
  }

  lemma SameMerge(merged: seq<Span>, a: seq<Span>, b: seq<Span>)
    requires IsMerge(merged, a) && forall x :: x in a <==> x in b
    ensures IsMerge(merged, b)
  {
    SameMembers(a, b);
    forall s ensures Absorbed(s, a) <==> Absorbed(s, b) {}
  }

  /** The span taken last absorbs nothing that came before it. */
  lemma AbsorbsNoEarlier(spans: seq<Span>, s: Span, x: Span)
    requires forall t :: t in spans ==> Before(t, s)
    requires x in spans
    ensures Absorbed(x, spans + [s]) <==> Absorbed(x, spans)
  {
    assert forall t :: t in spans + [s] <==> t in spans || t == s;
  }

  /** Whether the last merged span reaches a later start tells whether any span does. */
  lemma LastReaches(merged: seq<Span>, spans: seq<Span>, p: int)
    requires Gapped(merged) && SameReach(merged, spans) && merged != [] && merged[|merged| - 1].start <= p
    ensures p <= merged[|merged| - 1].end <==> Reaches(spans, 2 * p)
  {
    var last := merged[|merged| - 1];
    assert last in merged;
    if p <= last.end { assert Touches(last, 2 * p); }
    if Reaches(merged, 2 * p) {
      var o :| o in merged && Touches(o, 2 * p);
      var i :| 0 <= i < |merged| && merged[i] == o;
    }
  }

  /** A stray span is absorbed by those before it exactly when they reach its start. */
  lemma AbsorbedIfReached(spans: seq<Span>, s: Span)
    requires !Ordered(s) && forall t :: t in spans ==> Before(t, s)
    ensures Absorbed(s, spans) <==> Reaches(spans, 2 * s.start)
  {
    if Reaches(spans, 2 * s.start) {
      var t :| t in spans && Touches(t, 2 * s.start);
      assert t.start < s.start;
    }
    if Absorbed(s, spans) {
      var t :| t in spans && t.start < s.start <= t.end;
      assert Touches(t, 2 * s.start);
    }
  }

  lemma ReachesOneMore(spans: seq<Span>, s: Span, p: int)
    ensures Reaches(spans + [s], p) <==> Reaches(spans, p) || Touches(s, p)
  {
    hide Touches;
    assert s in spans + [s];
    if Reaches(spans, p) {
      var x :| x in spans && Touches(x, p);
      assert x in spans + [s];
    }
  }

  lemma Append(merged: seq<Span>, spans: seq<Span>, s: Span)
    requires IsMerge(merged, spans) && forall t :: t in spans ==> Before(t, s)
    requires merged != [] ==> merged[|merged| - 1].start <= s.start && merged[|merged| - 1].end < s.start
    ensures IsMerge(merged + [s], spans + [s])
  {
    hide Touches;
    forall p
      ensures Reaches(merged + [s], p) <==> Reaches(spans + [s], p)
    {
      ReachesOneMore(merged, s, p);
      ReachesOneMore(spans, s, p);
    }
    if !Ordered(s) {
      AbsorbedIfReached(spans, s);
      if merged != [] { LastReaches(merged, spans, s.start); } else { NothingReached(spans, s.start); }
    }
    StraysOneMore(merged, spans, s);
  }

  lemma NothingReached(spans: seq<Span>, p: int)
    requires SameReach([], spans)
    ensures !Reaches(spans, 2 * p)
  {
    assert !Reaches([], 2 * p);
  }

  lemma StraysOneMore(merged: seq<Span>, spans: seq<Span>, s: Span)
    requires KeepsStrays(merged, spans) && forall t :: t in spans ==> Before(t, s)
    requires !Ordered(s) ==> !Absorbed(s, spans)
    ensures KeepsStrays(merged + [s], spans + [s])
  {
    hide Before;
    forall x | !Ordered(x)
      ensures x in merged + [s] <==> x in spans + [s] && !Absorbed(x, spans + [s])
    {
      if x in spans { AbsorbsNoEarlier(spans, s, x); }
      if x == s { AbsorbsNotItself(spans, s); }
    }
  }

  lemma AbsorbsNotItself(spans: seq<Span>, s: Span)
    ensures Absorbed(s, spans + [s]) <==> Absorbed(s, spans)
  {
    assert forall t :: t in spans + [s] <==> t in spans || t == s;
  }

  lemma Widen(merged: seq<Span>, spans: seq<Span>, s: Span)
    requires IsMerge(merged, spans) && merged != [] && forall t :: t in spans ==> Before(t, s)
    requires var last := merged[|merged| - 1]; last.start <= s.start <= last.end
    ensures var last := merged[|merged| - 1];
            IsMerge(merged[|merged| - 1 := last.(end := if last.end < s.end then s.end else last.end)], spans + [s])
  {
    hide Before;
    var last := merged[|merged| - 1];
    var wide := last.(end := if last.end < s.end then s.end else last.end);
    var front := merged[..|merged| - 1];
    assert merged == front + [last];
    assert merged[|merged| - 1 := wide] == front + [wide];
    forall p
      ensures Reaches(front + [wide], p) <==> Reaches(spans + [s], p)
    {
      ReachesOneMore(front, last, p);
      ReachesOneMore(front, wide, p);
      ReachesOneMore(spans, s, p);
    }
    LastReaches(merged, spans, s.start);
    if !Ordered(s) { AbsorbedIfReached(spans, s); }
    WidenedStrays(front, last, wide, spans, s);
  }

  lemma WidenedStrays(front: seq<Span>, last: Span, wide: Span, spans: seq<Span>, s: Span)
    requires KeepsStrays(front + [last], spans) && Ordered(last) && Ordered(wide)
    requires forall t :: t in spans ==> Before(t, s)
    requires !Ordered(s) ==> Absorbed(s, spans)
    ensures KeepsStrays(front + [wide], spans + [s])
  {
    hide Before;
    forall x | !Ordered(x)
      ensures x in front + [wide] <==> x in spans + [s] && !Absorbed(x, spans + [s])
    {
      assert x in front + [wide] <==> x in front + [last];
      if x in spans { AbsorbsNoEarlier(spans, s, x); }
      if x == s { AbsorbsNotItself(spans, s); }
    }
  }

  lemma SameMembers(a: seq<Span>, b: seq<Span>)
    requires forall x :: x in a <==> x in b
    ensures SameReach(a, b)
  {}

  // ----- the merged list is determined by the touched positions alone

  lemma ReachesFirst(spans: seq<Span>, p: int)
    requires spans != []
    ensures Reaches(spans, p) <==> Touches(spans[0], p) || Reaches(spans[1..], p)
  {
    hide Touches;
    assert spans[0] in spans;
    assert forall x :: x in spans <==> x == spans[0] || x in spans[1..];
  }

  /** Nothing before the first span is touched, nothing up to two positions behind it either. */
  lemma Gaps(spans: seq<Span>, p: int)
    requires Gapped(spans)
    ensures spans == [] ==> !Reaches(spans, p)
    ensures spans != [] && p < 2 * spans[0].start ==> !Reaches(spans, p)
    ensures spans != [] && p <= 2 * spans[0].end + 1 ==> !Reaches(spans[1..], p)
  {
    if Reaches(spans, p) {
      var s :| s in spans && Touches(s, p);
      var i :| 0 <= i < |spans| && spans[i] == s;
      assert spans[0].start <= s.start;
    }
    if spans != [] && Reaches(spans[1..], p) {
      var s :| s in spans[1..] && Touches(s, p);
      var i :| 0 <= i < |spans[1..]| && spans[1..][i] == s;
      assert spans[i + 1] == s;
    }
  }

  lemma {:induction false} SeparatedUnique(a: seq<Span>, b: seq<Span>)
    requires Separated(a) && Separated(b) && SameReach(a, b)
    ensures a == b
  {
    hide Reaches, Touches, Separated;
    if a != [] {
      FirstAgrees(a, b);
      if b != [] { FirstAgrees(b, a); }
      var (restA, restB) := (a[1..], b[1..]);
      TailSeparated(a);
      TailSeparated(b);
      forall p
        ensures Reaches(restA, p) <==> Reaches(restB, p)
      {
        TailReach(a, p);
        TailReach(b, p);
      }
      SeparatedUnique(restA, restB);
      assert a == [a[0]] + restA && b == [b[0]] + restB;
    } else if b != [] {
      FirstAgrees(b, a);
    }
  }

  lemma TailSeparated(a: seq<Span>)
    requires Separated(a) && a != []
    ensures Separated(a[1..])
  {}

  lemma TailReach(a: seq<Span>, p: int)
    requires Separated(a) && a != []
    ensures Reaches(a[1..], p) <==> Reaches(a, p) && p > 2 * a[0].end
  {
    Gaps(a, p);
    ReachesFirst(a, p);
    if p <= 2 * a[0].end { Gaps(a, p); }
  }

  lemma FirstAgrees(a: seq<Span>, b: seq<Span>)
    requires Separated(a) && Separated(b) && SameReach(a, b) && a != []
    ensures b != [] && b[0].start <= a[0].start
    ensures b[0].start == a[0].start ==> b[0].end <= a[0].end
  {
    hide Reaches;
    var p := 2 * a[0].start;
    ReachesFirst(a, p);
    Gaps(b, p);
    assert Reaches(a, p) && Reaches(b, p);
    var q := 2 * a[0].end + 1;
    ReachesFirst(a, q);
    ReachesFirst(b, q);
    Gaps(a, q);
    assert !Reaches(a, q) && !Reaches(b, q);
  }

  /** Proper spans merge alike exactly when they touch the same positions; so neither the order of the spans nor
      repeating one matters, and merging again changes nothing. */
  lemma UnionIsCanonical(a: seq<Span>, mergedA: seq<Span>, b: seq<Span>, mergedB: seq<Span>)
    requires IsUnion(mergedA, a) && IsUnion(mergedB, b)
    ensures mergedA == mergedB <==> SameReach(a, b)
    ensures (forall s :: s in a <==> s in b) ==> mergedA == mergedB
    ensures b == mergedA ==> mergedB == mergedA
  {
    hide Reaches, Separated;
    assert forall p :: Reaches(mergedA, p) <==> Reaches(a, p);
    assert forall p :: Reaches(mergedB, p) <==> Reaches(b, p);
    if SameReach(a, b) { SeparatedUnique(mergedA, mergedB); }
    if forall s :: s in a <==> s in b {
      SameMembers(a, b);
    }
    if b == mergedA { SeparatedUnique(mergedA, mergedB); }
  }
}
