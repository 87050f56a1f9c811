/**
  Order statistics: the entry at a rank of a sorted list, said without sorting.
 */
module Ranks {
  import opened Ordering

  function AtMost(v: nat): nat -> bool { x => x <= v }

  function Below(v: nat): nat -> bool { x => x < v }

  /** How many entries satisfy `p`. */
  function Count(s: seq<nat>, p: nat -> bool): nat {
    if s == [] then 0 else (if p(s[0]) then 1 else 0) + Count(s[1..], p)
  }

  /** `v` is the `rank`-th smallest entry: `rank` entries are at most `v`, and fewer are below it. */
  ghost predicate AtRank(s: seq<nat>, rank: nat, v: nat) {
    v in s && Count(s, Below(v)) < rank <= Count(s, AtMost(v))
  }

  predicate NatLe(a: nat, b: nat) { a <= b }

  lemma NatOrder()
    ensures TotalPreorder(NatLe)
  {}

  lemma {:induction false} InsertCounts(x: nat, s: seq<nat>, p: nat -> bool)
    requires TotalPreorder(NatLe) && NonDescending(s, NatLe)
    ensures Count(Insert(x, s, NatLe), p) == Count(s, p) + if p(x) then 1 else 0
  {
    if s != [] {
      if NatLe(x, s[0]) {
        assert ([x] + s)[1..] == s;
      } else {
        InsertCounts(x, s[1..], p);
        assert Insert(x, s, NatLe)[1..] == Insert(x, s[1..], NatLe);
      }
    }
  }

  lemma {:induction false} SortCounts(s: seq<nat>, p: nat -> bool)
    requires TotalPreorder(NatLe)
    ensures Count(SortBy(s, NatLe), p) == Count(s, p)
  {
    if s != [] {
      SortCounts(s[1..], p);
      InsertCounts(s[0], SortBy(s[1..], NatLe), p);
    }
  }

  lemma {:induction false} CountBetween(s: seq<nat>, p: nat -> bool, low: nat, high: nat)
    requires low <= high <= |s|
    requires forall i :: 0 <= i < low ==> p(s[i])
    requires forall i :: high <= i < |s| ==> !p(s[i])
    ensures low <= Count(s, p) <= high
  {
    if s != [] {
      CountBetween(s[1..], p, if low == 0 then 0 else low - 1, if high == 0 then 0 else high - 1);
    }
  }

  lemma AroundIndex(sorted: seq<nat>, i: nat)
    requires NonDescending(sorted, NatLe) && i < |sorted|
    ensures forall j :: 0 <= j <= i ==> sorted[j] <= sorted[i]
    ensures forall j :: i <= j < |sorted| ==> sorted[i] <= sorted[j]
  {
    hide NonDescending;
    forall j | 0 <= j < i ensures sorted[j] <= sorted[i] { NonDescendingAt(sorted, NatLe, j, i); }
    forall j | i < j < |sorted| ensures sorted[i] <= sorted[j] { NonDescendingAt(sorted, NatLe, i, j); }
  }

  /** Indexing the sorted list gives the entry at the rank one higher. */
  lemma SortedAtRank(s: seq<nat>, i: nat)
    requires TotalPreorder(NatLe) && i < |s|
    ensures AtRank(s, i + 1, SortBy(s, NatLe)[i])
  {
    hide NonDescending, Count, SortBy, TotalPreorder;
    var sorted := SortBy(s, NatLe);
    var v := sorted[i];
    AroundIndex(sorted, i);
    CountBetween(sorted, AtMost(v), i + 1, |sorted|);
    CountBetween(sorted, Below(v), 0, i);
    SortCounts(s, AtMost(v));
    SortCounts(s, Below(v));
    assert v in sorted;
  }
}
