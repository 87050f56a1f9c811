/**
  `stability`: how alike the partitions of several seeds are, and how like the label-propagation one.
 */
module Stability {
  import opened Partitions
  import opened RandIndex

  function Ones(values: seq<real>): nat {
    if values == [] then 0 else Ones(values[..|values| - 1]) + if values[|values| - 1] == 1.0 then 1 else 0
  }

  /** How many of the pairs listed name equal partitions. */
  ghost function EqualPairs(parts: seq<Partition>, pairs: seq<(nat, nat)>): nat
    requires forall k :: 0 <= k < |pairs| ==> pairs[k].0 < |parts| && pairs[k].1 < |parts|
  {
    if pairs == [] then 0
    else
      var last := pairs[|pairs| - 1];
      EqualPairs(parts, pairs[..|pairs| - 1]) + if parts[last.0] == parts[last.1] then 1 else 0
  }

  /** The pairs of `a` with a + 1, ..., b - 1. */
  ghost function RowPairs(a: nat, b: nat): (pairs: seq<(nat, nat)>)
    requires a < b
    ensures forall k :: 0 <= k < |pairs| ==> pairs[k].0 == a < pairs[k].1 < b
  {
    if b == a + 1 then [] else RowPairs(a, b - 1) + [(a, b - 1)]
  }

  /** All pairs (x, y) with x < a and x < y < count, in the order the nested loops visit them. */
  ghost function AllPairs(count: nat, a: nat): (pairs: seq<(nat, nat)>)
    requires a <= count
    ensures forall k :: 0 <= k < |pairs| ==> pairs[k].0 < pairs[k].1 < count
  {
    if a == 0 then [] else AllPairs(count, a - 1) + RowPairs(a - 1, count)
  }

  /** The values listed so far belong to the pairs, and `identical` counts the ones among them. */
  ghost predicate Scored(parts: seq<Partition>, n: nat, pairs: seq<(nat, nat)>, pairwise: seq<real>, identical: nat) {
    && |pairwise| == |pairs|
    && (forall k :: 0 <= k < |pairs| ==>
          && pairs[k].0 < |parts| && pairs[k].1 < |parts|
          && IsAri(parts[pairs[k].0], parts[pairs[k].1], n, pairwise[k]))
    && identical == Ones(pairwise) == EqualPairs(parts, pairs)
  }

  lemma ScoreOne(parts: seq<Partition>, n: nat, pairs: seq<(nat, nat)>, pairwise: seq<real>, identical: nat, a: nat, b: nat, value: real)
    requires Scored(parts, n, pairs, pairwise, identical) && a < |parts| && b < |parts|
    requires IsAri(parts[a], parts[b], n, value) && (value == 1.0 <==> parts[a] == parts[b])
    ensures Scored(parts, n, pairs + [(a, b)], pairwise + [value], identical + if parts[a] == parts[b] then 1 else 0)
  {
    hide IsAri;
    assert (pairwise + [value])[..|pairwise|] == pairwise;
    assert (pairs + [(a, b)])[..|pairs|] == pairs;
  }

  /** The nested loops over the pairs. */
  method ScorePairs(leiden: seq<Partition>, n: nat) returns (pairwise: seq<real>, identical: nat)
    requires |leiden| >= 2 && forall i :: 0 <= i < |leiden| ==> Canonical(leiden[i], n)
    ensures Scored(leiden, n, AllPairs(|leiden|, |leiden|), pairwise, identical)
  {
    hide Canonical, Scored, AllPairs, RowPairs, IsAri;
    var count := |leiden|;
    pairwise, identical := [], 0;
    NothingScored(leiden, n);
    RowEnds(count, 0);
    for a := 0 to count
      invariant Scored(leiden, n, AllPairs(count, a), pairwise, identical)
    {
      RowEnds(count, a);
      for b := a + 1 to count
        invariant Scored(leiden, n, AllPairs(count, a) + RowPairs(a, b), pairwise, identical)
      {
        var value := Ari(leiden[a], leiden[b], n);
        ScoreOne(leiden, n, AllPairs(count, a) + RowPairs(a, b), pairwise, identical, a, b, value);
        RowGrows(count, a, b);
        pairwise := pairwise + [value];
        if leiden[a] == leiden[b] { identical := identical + 1; }
      }
    }
  }

  lemma RowEnds(count: nat, a: nat)
    requires a < count
    ensures AllPairs(count, a) + RowPairs(a, a + 1) == AllPairs(count, a)
    ensures AllPairs(count, a + 1) == AllPairs(count, a) + RowPairs(a, count)
    ensures AllPairs(count, 0) == []
  {}

  lemma RowGrows(count: nat, a: nat, b: nat)
    requires a < b < count
    ensures AllPairs(count, a) + RowPairs(a, b + 1) == AllPairs(count, a) + RowPairs(a, b) + [(a, b)]
  {}

  lemma NothingScored(parts: seq<Partition>, n: nat)
    ensures Scored(parts, n, [], [], 0)
  {}

  // ----- every pair is scored

  lemma {:induction false} InRow(a: nat, b: nat, y: nat)
    requires a < y < b
    ensures (a, y) in RowPairs(a, b)
  {
    if y < b - 1 { InRow(a, b - 1, y); }
  }

  lemma {:induction false} EveryPair(count: nat, a: nat, x: nat, y: nat)
    requires x < a <= count && x < y < count
    ensures (x, y) in AllPairs(count, a)
  {
    if x == a - 1 { InRow(a - 1, count, y); } else { EveryPair(count, a - 1, x, y); }
  }

  /** `p` comes before `q` when the nested loops run. */
  predicate EarlierPair(p: (nat, nat), q: (nat, nat)) {
    p.0 < q.0 || (p.0 == q.0 && p.1 < q.1)
  }

  ghost predicate InLoopOrder(pairs: seq<(nat, nat)>) {
    forall i, j :: 0 <= i < j < |pairs| ==> EarlierPair(pairs[i], pairs[j])
  }

  lemma {:induction false} RowInOrder(a: nat, b: nat)
    requires a < b
    ensures InLoopOrder(RowPairs(a, b))
  {
    if b > a + 1 { RowInOrder(a, b - 1); }
  }

  lemma {:induction false} PairsInOrder(count: nat, a: nat)
    requires a <= count
    ensures InLoopOrder(AllPairs(count, a)) && forall k :: 0 <= k < |AllPairs(count, a)| ==> AllPairs(count, a)[k].0 < a
  {
    if a > 0 {
      PairsInOrder(count, a - 1);
      RowInOrder(a - 1, count);
      var (before, row) := (AllPairs(count, a - 1), RowPairs(a - 1, count));
      assert AllPairs(count, a) == before + row;
    }
  }

  /** The pairs listed that name equal partitions. */
  ghost function EqualSet(parts: seq<Partition>, pairs: seq<(nat, nat)>): set<(nat, nat)>
    requires forall k :: 0 <= k < |pairs| ==> pairs[k].0 < |parts| && pairs[k].1 < |parts|
  {
    set k: nat | k < |pairs| && parts[pairs[k].0] == parts[pairs[k].1] :: pairs[k]
  }

  lemma EqualSetStep(parts: seq<Partition>, pairs: seq<(nat, nat)>)
    requires forall k :: 0 <= k < |pairs| ==> pairs[k].0 < |parts| && pairs[k].1 < |parts|
    requires pairs != [] && InLoopOrder(pairs)
    ensures var (n, front) := (|pairs| - 1, pairs[..|pairs| - 1]);
            |EqualSet(parts, pairs)| == |EqualSet(parts, front)| + if parts[pairs[n].0] == parts[pairs[n].1] then 1 else 0
  {
    var (n, front) := (|pairs| - 1, pairs[..|pairs| - 1]);
    assert pairs[n] !in EqualSet(parts, front);
    assert forall k: nat :: k < n ==> front[k] == pairs[k];
    assert EqualSet(parts, pairs) == EqualSet(parts, front) + if parts[pairs[n].0] == parts[pairs[n].1] then {pairs[n]} else {};
  }

  lemma {:induction false} EqualPairsCount(parts: seq<Partition>, pairs: seq<(nat, nat)>)
    requires (forall k :: 0 <= k < |pairs| ==> pairs[k].0 < |parts| && pairs[k].1 < |parts|) && InLoopOrder(pairs)
    ensures EqualPairs(parts, pairs) == |EqualSet(parts, pairs)|
  {
    hide EqualSet;
    if pairs != [] {
      EqualPairsCount(parts, pairs[..|pairs| - 1]);
      EqualSetStep(parts, pairs);
    } else {
      NoneEqual(parts);
    }
  }

  lemma NoneEqual(parts: seq<Partition>)
    ensures EqualSet(parts, []) == {}
  {}

  // ----- the summary

  function Sum(values: seq<real>): real {
    if values == [] then 0.0 else Sum(values[..|values| - 1]) + values[|values| - 1]
  }

  /** What makes it the sum. */
  lemma {:induction false} SumLaws(a: seq<real>, b: seq<real>, x: real)
    ensures Sum([]) == 0.0 && Sum([x]) == x && Sum(a + b) == Sum(a) + Sum(b)
  {
    assert [x][..0] == [];
    if b == [] {
      assert a + b == a;
    } else {
      SumLaws(a, b[..|b| - 1], x);
      assert (a + b)[..|a + b| - 1] == a + b[..|b| - 1];
    }
  }

  lemma {:induction false} SumBounds(values: seq<real>, low: real, high: real)
    requires forall v :: v in values ==> low <= v <= high
    ensures low * |values| as real <= Sum(values) <= high * |values| as real
  {
    if values != [] {
      var (front, last) := (values[..|values| - 1], values[|values| - 1]);
      assert values == front + [last];
      assert last in values && forall v :: v in front ==> v in values;
      SumBounds(front, low, high);
      OneMore(low, |front|);
      OneMore(high, |front|);
    }
  }

  lemma OneMore(x: real, n: nat)
    ensures x * (n + 1) as real == x * n as real + x
  {}

  datatype Summary = Summary(
    pairwise: seq<real>,
    minimum: real,
    mean: real,
    identical: nat,
    identicalShare: real,
    distinct: nat,
    againstLpa: seq<real>)

  ghost predicate IsMinimum(values: seq<real>, low: real) {
    low in values && forall v :: v in values ==> low <= v
  }

  ghost predicate IsSummary(lpa: Partition, leiden: seq<Partition>, n: nat, s: Summary) {
    && Scored(leiden, n, AllPairs(|leiden|, |leiden|), s.pairwise, s.identical)
    && s.pairwise != []
    && IsMinimum(s.pairwise, s.minimum)
    && s.mean == Sum(s.pairwise) / |s.pairwise| as real
    && s.identicalShare == s.identical as real / |s.pairwise| as real
    && s.distinct == |set p | p in leiden|
    && |s.againstLpa| == |leiden| && forall i :: 0 <= i < |leiden| ==> IsAri(lpa, leiden[i], n, s.againstLpa[i])
  }

  method MinimumOf(values: seq<real>) returns (low: real)
    requires values != []
    ensures IsMinimum(values, low)
  {
    low := values[0];
    for k := 1 to |values|
      invariant low in values && forall j :: 0 <= j < k ==> low <= values[j]
    {
      if values[k] < low { low := values[k]; }
    }
  }

  method AgainstLpa(lpa: Partition, leiden: seq<Partition>, n: nat) returns (values: seq<real>)
    requires Canonical(lpa, n) && forall i :: 0 <= i < |leiden| ==> Canonical(leiden[i], n)
    ensures |values| == |leiden| && forall i :: 0 <= i < |leiden| ==> IsAri(lpa, leiden[i], n, values[i])
  {
    hide Canonical, IsAri;
    values := [];
    for i := 0 to |leiden|
      invariant |values| == i && forall j :: 0 <= j < i ==> IsAri(lpa, leiden[j], n, values[j])
    {
      var value := Ari(lpa, leiden[i], n);
      values := values + [value];
    }
  }

  method Stability(lpa: Partition, leiden: seq<Partition>, n: nat) returns (s: Summary)
    requires Canonical(lpa, n) && |leiden| >= 2 && forall i :: 0 <= i < |leiden| ==> Canonical(leiden[i], n)
    ensures IsSummary(lpa, leiden, n, s)
  {
    hide Canonical, Scored, AllPairs, IsAri, IsMinimum;
    var pairwise, identical := ScorePairs(leiden, n);
    assert pairwise != [] by {
      ScoredLength(leiden, n, AllPairs(|leiden|, |leiden|), pairwise, identical);
      EveryPair(|leiden|, |leiden|, 0, 1);
    }
    var low := MinimumOf(pairwise);
    var againstLpa := AgainstLpa(lpa, leiden, n);
    var count := |pairwise| as real;
    s := Summary(pairwise, low, Sum(pairwise) / count, identical, identical as real / count, |set p | p in leiden|, againstLpa);
  }

  lemma ScoredLength(parts: seq<Partition>, n: nat, pairs: seq<(nat, nat)>, pairwise: seq<real>, identical: nat)
    requires Scored(parts, n, pairs, pairwise, identical)
    ensures |pairwise| == |pairs|
  {}

  /** The summary read off the partitions: the values are those of all pairs of seeds in loop order, the identical ones are
      the pairs of equal partitions, and the mean lies between the minimum and 1. */
  lemma SummaryMeans(lpa: Partition, leiden: seq<Partition>, n: nat, s: Summary)
    requires IsSummary(lpa, leiden, n, s) && forall i :: 0 <= i < |leiden| ==> Canonical(leiden[i], n)
    ensures ListsEveryPair(leiden, n, AllPairs(|leiden|, |leiden|), s.pairwise)
    ensures s.identical == |EqualSeeds(leiden)| && s.identicalShare * |s.pairwise| as real == s.identical as real
    ensures s.mean * |s.pairwise| as real == Sum(s.pairwise) && s.minimum <= s.mean <= 1.0
  {
    hide Canonical, IsAri, AllPairs, Sum, InLoopOrder, EqualSeeds, Scored, ListsEveryPair, IsMinimum;
    var pairs := AllPairs(|leiden|, |leiden|);
    PairsInOrder(|leiden|, |leiden|);
    forall a: nat, b: nat | a < b < |leiden| ensures (a, b) in pairs { EveryPair(|leiden|, |leiden|, a, b); }
    ScoredPairs(leiden, n, pairs, s.pairwise, s.identical);
    MeanBetween(leiden, n, pairs, s);
    assert 0.0 * |s.pairwise| as real == 0.0;
    Quotients(s.identicalShare, s.identical as real, |s.pairwise| as real, 0.0);
  }

  lemma ScoredPairs(leiden: seq<Partition>, n: nat, pairs: seq<(nat, nat)>, pairwise: seq<real>, identical: nat)
    requires Scored(leiden, n, pairs, pairwise, identical) && InLoopOrder(pairs)
    requires forall a: nat, b: nat :: (a, b) in pairs <==> a < b < |leiden|
    ensures ListsEveryPair(leiden, n, pairs, pairwise) && identical == |EqualSeeds(leiden)|
  {
    hide IsAri, InLoopOrder, EqualSeeds, EqualSet, EqualPairs, Ones;
    EqualPairsCount(leiden, pairs);
    SamePairSets(leiden, pairs);
  }

  /** `pairs` names the pairs of seeds in the order of the loops, each once, and `values` their indices. */
  ghost predicate ListsEveryPair(leiden: seq<Partition>, n: nat, pairs: seq<(nat, nat)>, values: seq<real>) {
    && InLoopOrder(pairs) && (forall a: nat, b: nat :: (a, b) in pairs <==> a < b < |leiden|)
    && |values| == |pairs|
    && forall k :: 0 <= k < |pairs| ==>
         pairs[k].0 < |leiden| && pairs[k].1 < |leiden| && IsAri(leiden[pairs[k].0], leiden[pairs[k].1], n, values[k])
  }

  ghost function EqualSeeds(leiden: seq<Partition>): set<(nat, nat)> {
    set a: nat, b: nat | a < |leiden| && b < |leiden| && a < b && leiden[a] == leiden[b] :: (a, b)
  }

  lemma MeanBetween(leiden: seq<Partition>, n: nat, pairs: seq<(nat, nat)>, s: Summary)
    requires (forall i :: 0 <= i < |leiden| ==> Canonical(leiden[i], n)) && ListsEveryPair(leiden, n, pairs, s.pairwise)
    requires s.pairwise != [] && IsMinimum(s.pairwise, s.minimum) && s.mean == Sum(s.pairwise) / |s.pairwise| as real
    ensures s.mean * |s.pairwise| as real == Sum(s.pairwise) && s.minimum <= s.mean <= 1.0
  {
    hide Canonical, IsAri, Sum;
    forall v | v in s.pairwise
      ensures s.minimum <= v <= 1.0
    {
      var k :| 0 <= k < |s.pairwise| && s.pairwise[k] == v;
      AriIsOne(leiden[pairs[k].0], leiden[pairs[k].1], n, v);
    }
    SumBounds(s.pairwise, s.minimum, 1.0);
    Quotients(s.mean, Sum(s.pairwise), |s.pairwise| as real, s.minimum);
  }

  lemma SamePairSets(leiden: seq<Partition>, pairs: seq<(nat, nat)>)
    requires forall k :: 0 <= k < |pairs| ==> pairs[k].0 < |leiden| && pairs[k].1 < |leiden|
    requires forall a: nat, b: nat :: (a, b) in pairs <==> a < b < |leiden|
    ensures EqualSet(leiden, pairs) == EqualSeeds(leiden)
  {
    forall a: nat, b: nat
      ensures (a, b) in EqualSet(leiden, pairs) <==> (a, b) in EqualSeeds(leiden)
    {
      if (a, b) in EqualSeeds(leiden) {
        var k: nat :| k < |pairs| && pairs[k] == (a, b);
        assert pairs[k] in EqualSet(leiden, pairs);
      }
      if (a, b) in EqualSet(leiden, pairs) { assert (a, b) in pairs; }
    }
  }

  lemma Quotients(q: real, x: real, y: real, low: real)
    requires y > 0.0 && q == x / y && low * y <= x
    ensures q * y == x && low <= q && (x <= y ==> q <= 1.0)
  {}

  /** Perfect stability, said in every field: the minimum is 1, all pairs are identical, one partition remains. */
  lemma StableIffOnePartition(lpa: Partition, leiden: seq<Partition>, n: nat, s: Summary)
    requires IsSummary(lpa, leiden, n, s) && forall i :: 0 <= i < |leiden| ==> Canonical(leiden[i], n)
    ensures s.minimum <= 1.0
    ensures s.minimum == 1.0 <==> s.distinct == 1
    ensures s.distinct == 1 <==> forall x, y :: 0 <= x < y < |leiden| ==> leiden[x] == leiden[y]
  {
    hide Canonical, IsAri, AllPairs;
    var pairs := AllPairs(|leiden|, |leiden|);
    assert 0 <= pairs[0].0 < pairs[0].1 < |leiden|;
    forall k | 0 <= k < |pairs|
      ensures s.pairwise[k] <= 1.0 && (s.pairwise[k] == 1.0 <==> leiden[pairs[k].0] == leiden[pairs[k].1])
    {
      AriIsOne(leiden[pairs[k].0], leiden[pairs[k].1], n, s.pairwise[k]);
    }
    var low :| 0 <= low < |pairs| && s.pairwise[low] == s.minimum;
    if s.minimum == 1.0 {
      forall x, y | 0 <= x < y < |leiden|
        ensures leiden[x] == leiden[y]
      {
        EveryPair(|leiden|, |leiden|, x, y);
        var k :| 0 <= k < |pairs| && pairs[k] == (x, y);
        assert s.pairwise[k] in s.pairwise;
      }
    }
    OneDistinct(leiden);
  }

  lemma OneDistinct(leiden: seq<Partition>)
    requires leiden != []
    ensures |set p | p in leiden| == 1 <==> forall x, y :: 0 <= x < y < |leiden| ==> leiden[x] == leiden[y]
  {
    var all := set p | p in leiden;
    assert leiden[0] in all;
    if |all| == 1 {
      assert |all - {leiden[0]}| == 0;
      forall x | 0 <= x < |leiden| ensures leiden[x] == leiden[0] {
        assert leiden[x] in all;
        assert leiden[x] !in all - {leiden[0]};
      }
    }
    if forall x, y :: 0 <= x < y < |leiden| ==> leiden[x] == leiden[y] {
      assert forall x :: 0 <= x < |leiden| ==> leiden[x] == leiden[0];
      assert all == {leiden[0]};
    }
  }
}
