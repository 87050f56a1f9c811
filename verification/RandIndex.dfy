/**
  The exact adjusted Rand index of two canonical partitions, by pair counting.
 */
module RandIndex {
  import opened Grouping
  import opened Partitions

  function PairsOf(count: nat): nat { count * (count - 1) / 2 }

  lemma PairsOfNext(c: nat)
    ensures PairsOf(0) == 0 && PairsOf(c + 1) == PairsOf(c) + c
  {
    assert (c + 1) * c == c * (c - 1) + 2 * c;
  }

  // ----- pairs of positions with equal entries

  ghost function Occurrences<T>(s: seq<T>, x: T): nat {
    if s == [] then 0 else Occurrences(s[..|s| - 1], x) + if s[|s| - 1] == x then 1 else 0
  }

  /** How many pairs of positions carry the same entry. */
  ghost function TogetherPairs<T>(s: seq<T>): nat {
    if s == [] then 0 else TogetherPairs(s[..|s| - 1]) + Occurrences(s[..|s| - 1], s[|s| - 1])
  }

  /** Positions that agree in `t` agree in `s`. */
  ghost predicate Refines<S, T>(t: seq<T>, s: seq<S>) {
    |t| == |s| && forall i, j :: 0 <= i < |s| && 0 <= j < |s| && t[i] == t[j] ==> s[i] == s[j]
  }

  lemma {:induction false} OccurrencesRefine<S, T>(t: seq<T>, s: seq<S>, y: T, x: S)
    requires |t| == |s| && forall i :: 0 <= i < |s| && t[i] == y ==> s[i] == x
    ensures Occurrences(t, y) <= Occurrences(s, x)
    ensures Occurrences(t, y) == Occurrences(s, x) ==> forall i :: 0 <= i < |s| && s[i] == x ==> t[i] == y
  {
    if s != [] {
      var k := |s| - 1;
      OccurrencesRefine(t[..k], s[..k], y, x);
      if Occurrences(t, y) == Occurrences(s, x) {
        forall i | 0 <= i < |s| && s[i] == x ensures t[i] == y {
          if i < k { assert s[..k][i] == x; }
        }
      }
    }
  }

  /** A refinement keeps fewer pairs together, and as many only if it groups alike. */
  lemma {:induction false} PairsRefine<S, T>(t: seq<T>, s: seq<S>)
    requires Refines(t, s)
    ensures TogetherPairs(t) <= TogetherPairs(s)
    ensures TogetherPairs(t) == TogetherPairs(s) ==> Refines(s, t)
  {
    if s != [] {
      var k := |s| - 1;
      var (t', s') := (t[..k], s[..k]);
      assert forall i :: 0 <= i < k ==> t'[i] == t[i] && s'[i] == s[i];
      PairsRefine(t', s');
      OccurrencesRefine(t', s', t[k], s[k]);
      if TogetherPairs(t) == TogetherPairs(s) {
        forall i, j | 0 <= i < |s| && 0 <= j < |s| && s[i] == s[j] ensures t[i] == t[j] {
          if i < k && j < k { assert s'[i] == s'[j]; }
          if i < k && j == k { assert s'[i] == s[k]; }
          if i == k && j < k { assert s'[j] == s[k]; }
        }
      }
    }
  }

  // ----- sums over a dictionary of counts

  ghost function SumPairs<K>(m: map<K, nat>): nat {
    if m == map[] then 0
    else
      var k :| k in m;
      PairsOf(m[k]) + SumPairs(m - {k})
  }

  lemma {:induction false} SumPairsTakes<K>(m: map<K, nat>, k: K)
    requires k in m
    ensures SumPairs(m) == PairsOf(m[k]) + SumPairs(m - {k})
    decreases |m|
  {
    var j :| j in m && SumPairs(m) == PairsOf(m[j]) + SumPairs(m - {j});
    if j != k {
      SumPairsTakes(m - {j}, k);
      SumPairsTakes(m - {k}, j);
      assert m - {j} - {k} == m - {k} - {j};
    }
  }

  lemma SumPairsChange<K>(m: map<K, nat>, k: K, c: nat)
    requires k in m
    ensures SumPairs(m[k := c]) + PairsOf(m[k]) == SumPairs(m) + PairsOf(c)
  {
    SumPairsTakes(m, k);
    SumPairsTakes(m[k := c], k);
    assert m[k := c] - {k} == m - {k};
  }

  lemma {:induction false} SumPairsZero<K>(m: map<K, nat>)
    requires forall k :: k in m ==> m[k] == 0
    ensures SumPairs(m) == 0
    decreases |m|
  {
    if m != map[] {
      var k :| k in m;
      SumPairsTakes(m, k);
      SumPairsZero(m - {k});
    }
  }

  /** Counting entries and adding up pairs counts the pairs of equal entries. */
  lemma {:induction false} CountsGivePairs<K>(s: seq<K>, m: map<K, nat>)
    requires forall x :: x in s ==> x in m
    requires forall x :: x in m ==> m[x] == Occurrences(s, x)
    ensures SumPairs(m) == TogetherPairs(s)
  {
    if s == [] {
      SumPairsZero(m);
    } else {
      var k := |s| - 1;
      var (init, x) := (s[..k], s[k]);
      assert x in s;
      var m' := m[x := Occurrences(init, x)];
      forall y | y in init ensures y in m' { assert y in s; }
      CountsGivePairs(init, m');
      SumPairsChange(m, x, Occurrences(init, x));
      PairsOfNext(Occurrences(init, x));
    }
  }

  // ----- block sizes

  lemma {:induction false} OccurrencesAreMembers(labels: seq<int>, c: int, members: set<int>)
    requires forall v :: v in members <==> 0 <= v < |labels| && labels[v] == c
    ensures Occurrences(labels, c) == |members|
  {
    if labels == [] {
      forall v ensures v !in members {}
      assert members == {};
    } else {
      var k := |labels| - 1;
      OccurrencesAreMembers(labels[..k], c, members - {k});
    }
  }

  ghost function BlockPairs(p: Partition, k: nat): nat
    requires k <= |p|
  {
    if k == 0 then 0 else BlockPairs(p, k - 1) + PairsOf(|p[k - 1]|)
  }

  lemma {:induction false} BlockPairsAreSumPairs(p: Partition, k: nat, m: map<int, nat>)
    requires k <= |p| && forall c :: c in m <==> 0 <= c < k
    requires forall c :: 0 <= c < k ==> m[c] == |p[c]|
    ensures SumPairs(m) == BlockPairs(p, k)
  {
    if k == 0 {
      assert forall c :: c !in m;
    } else {
      assert k - 1 in m.Keys;
      SumPairsTakes(m, k - 1);
      BlockPairsAreSumPairs(p, k - 1, m - {k - 1});
    }
  }

  /** The pair counts of the communities' sizes count the pairs kept together. */
  lemma BlocksGivePairs(p: Partition, n: nat, labels: seq<int>)
    requires Canonical(p, n) && IsMembership(p, n, labels)
    ensures BlockPairs(p, |p|) == TogetherPairs(labels)
  {
    var m := map c | 0 <= c < |p| :: |p[c]|;
    forall c | 0 <= c < |p|
      ensures |p[c]| == Occurrences(labels, c)
    {
      var members := set v | v in p[c];
      AscendingDistinct(p[c]);
      DistinctCardinality(p[c]);
      forall v ensures v in members <==> 0 <= v < n && labels[v] == c {
        if v in p[c] { assert Listed(v, p); }
      }
      OccurrencesAreMembers(labels, c, members);
    }
    BlockPairsAreSumPairs(p, |p|, m);
    forall x | x in labels ensures x in m {}
    CountsGivePairs(labels, m);
  }

  // ----- the index

  /** Position by position, the pair of both labels. */
  function Zip(left: seq<int>, right: seq<int>): (r: seq<(int, int)>)
    requires |left| == |right|
    ensures |r| == |left| && forall i :: 0 <= i < |r| ==> r[i] == (left[i], right[i])
  {
    seq(|left|, i requires 0 <= i < |left| => (left[i], right[i]))
  }

  /** Numerator and denominator of the index, scaled by twice the pair total, over whole numbers:
      (index - a b / total) / ((a + b) / 2 - a b / total). */
  function Scaled(index: nat, a: nat, b: nat, total: nat): (int, int) {
    (2 * index * total - 2 * a * b, (a + b) * total - 2 * a * b)
  }

  /** With 0 <= a, b <= total the scaled denominator is not negative, and it vanishes only at the two corners. */
  lemma DenominatorSign(a: nat, b: nat, total: nat)
    requires a <= total && b <= total
    ensures (a + b) * total - 2 * a * b >= 0
    ensures total > 0 && (a + b) * total == 2 * a * b ==> (a == 0 && b == 0) || (a == total && b == total)
  {
    var (x, y) := (a * (total - b), b * (total - a));
    assert x >= 0 && y >= 0;
    assert (a + b) * total - 2 * a * b == x + y by {
      assert x == a * total - a * b && y == b * total - b * a;
    }
    assert a > 0 && b < total ==> x > 0;
    assert b > 0 && a < total ==> y > 0;
  }

  lemma {:induction false} AllTogether(n: nat, ones: seq<int>, k: nat)
    requires |ones| == n && (forall i :: 0 <= i < n ==> ones[i] == 0) && k <= n
    ensures Occurrences(ones[..k], 0) == k && TogetherPairs(ones[..k]) == PairsOf(k)
  {
    if k > 0 {
      AllTogether(n, ones, k - 1);
      assert ones[..k][..k - 1] == ones[..k - 1];
      PairsOfNext(k - 1);
    }
  }

  lemma {:induction false} NoneTogether(n: nat, own: seq<int>, k: nat)
    requires |own| == n && (forall i :: 0 <= i < n ==> own[i] == i) && k <= n
    ensures forall x :: x >= k ==> Occurrences(own[..k], x) == 0
    ensures TogetherPairs(own[..k]) == 0
  {
    if k > 0 {
      NoneTogether(n, own, k - 1);
      assert own[..k][..k - 1] == own[..k - 1];
    }
  }

  /** Bounds and corners of the number of pairs a labelling keeps together. */
  lemma PairsCorners(labels: seq<int>)
    ensures TogetherPairs(labels) <= PairsOf(|labels|)
    ensures TogetherPairs(labels) == PairsOf(|labels|) ==> forall i, j :: 0 <= i < |labels| && 0 <= j < |labels| ==> labels[i] == labels[j]
    ensures TogetherPairs(labels) == 0 ==> forall i, j :: 0 <= i < j < |labels| ==> labels[i] != labels[j]
  {
    var n := |labels|;
    var ones: seq<int> := seq(n, _ => 0);
    AllTogether(n, ones, n);
    assert ones[..n] == ones;
    PairsRefine(labels, ones);
    if TogetherPairs(labels) == PairsOf(n) {
      assert Refines(ones, labels);
      forall i, j | 0 <= i < n && 0 <= j < n ensures labels[i] == labels[j] { assert ones[i] == ones[j]; }
    }
    var own: seq<int> := seq(n, i => i);
    NoneTogether(n, own, n);
    assert own[..n] == own;
    PairsRefine(own, labels);
    if TogetherPairs(labels) == 0 {
      assert Refines(labels, own);
    }
  }

  /** Distinct groupings never make the index degenerate: both divisors are positive. */
  lemma NeverDegenerate(left: seq<int>, right: seq<int>)
    requires |left| == |right| && !SameGrouping(left, right)
    ensures PairsOf(|left|) > 0
    ensures Scaled(0, TogetherPairs(left), TogetherPairs(right), PairsOf(|left|)).1 > 0
  {
    hide TogetherPairs, PairsOf, SameGrouping;
    var (n, a, b) := (|left|, TogetherPairs(left), TogetherPairs(right));
    PairsCorners(left);
    PairsCorners(right);
    DenominatorSign(a, b, PairsOf(n));
    var x, y := TreatedDifferently(left, right);
    assert a == 0 ==> left[x] != left[y];
    assert b == 0 ==> right[x] != right[y];
    assert a == PairsOf(n) ==> left[x] == left[y];
    assert b == PairsOf(n) ==> right[x] == right[y];
  }

  lemma TreatedDifferently(left: seq<int>, right: seq<int>) returns (x: nat, y: nat)
    requires |left| == |right| && !SameGrouping(left, right)
    ensures x < y < |left| && (left[x] == left[y] <==> right[x] != right[y])
    ensures PairsOf(|left|) > 0
  {
    var i, j :| 0 <= i < |left| && 0 <= j < |left| && (left[i] == left[j] <==> right[i] != right[j]);
    x, y := if i < j then i else j, if i < j then j else i;
    PairsOfNext(|left| - 1);
  }

  /** `Counter(zip(left, right))` and the sum of pairs over its counts. */
  method CountCells(cells: seq<(int, int)>) returns (counts: map<(int, int), nat>)
    ensures forall x :: x in cells ==> x in counts
    ensures forall x :: x in counts ==> counts[x] == Occurrences(cells, x)
  {
    counts := map[];
    for i := 0 to |cells|
      invariant forall j :: 0 <= j < i ==> cells[j] in counts
      invariant forall x :: Occurrences(cells[..i], x) == if x in counts then counts[x] else 0
    {
      counts := counts[cells[i] := (if cells[i] in counts then counts[cells[i]] else 0) + 1];
      assert cells[..i + 1][..i] == cells[..i];
    }
    assert cells[..|cells|] == cells;
  }

  method SumCells(counts: map<(int, int), nat>) returns (index: nat)
    ensures index == SumPairs(counts)
  {
    index := 0;
    var rest := counts;
    while rest != map[]
      invariant index + SumPairs(rest) == SumPairs(counts)
      decreases |rest|
    {
      var k :| k in rest;
      SumPairsTakes(rest, k);
      index := index + PairsOf(rest[k]);
      rest := rest - {k};
    }
  }

  method SumBlocks(p: Partition) returns (sum: nat)
    ensures sum == BlockPairs(p, |p|)
  {
    sum := 0;
    for c := 0 to |p|
      invariant sum == BlockPairs(p, c)
    {
      sum := sum + PairsOf(|p[c]|);
    }
  }

  lemma DivisorPositive(a: nat, b: nat, total: nat)
    requires total > 0 && Scaled(0, a, b, total).1 > 0
    ensures (a * b) as real / total as real < (a + b) as real / 2.0
  {
    var (e, t) := ((a * b) as real / total as real, total as real);
    assert e * t == (a * b) as real;
    HalfTimes(a + b, total, a * b);
    Cancel(e, (a + b) as real / 2.0, t);
  }

  lemma HalfTimes(s: nat, total: nat, product: nat)
    requires s * total > 2 * product
    ensures s as real / 2.0 * total as real > product as real
  {
    assert (s * total) as real == s as real * total as real;
    assert s as real / 2.0 * total as real == s as real * total as real / 2.0;
  }

  lemma Cancel(x: real, y: real, t: real)
    requires t > 0.0 && x * t < y * t
    ensures x < y
  {}

  // ----- the same numbers as sets of node pairs

  /** The node pairs that `p` keeps together. */
  ghost function Kept(p: Partition, n: nat): set<(nat, nat)> {
    set u: nat, v: nat | u < n && v < n && u < v && Together(p, u, v) :: (u, v)
  }

  /** The pairs of positions below `k` with equal entries. */
  ghost function EqualPositions<T>(s: seq<T>): set<(nat, nat)> {
    set u: nat, v: nat | u < |s| && v < |s| && u < v && s[u] == s[v] :: (u, v)
  }

  ghost function PairedWith<T>(s: seq<T>, k: nat, x: T): set<(nat, nat)>
    requires k <= |s|
  {
    set u: nat | u < k && s[u] == x :: (u, k)
  }

  lemma {:induction false} OccurrencesArePositions<T>(s: seq<T>, k: nat, x: T)
    requires k <= |s|
    ensures Occurrences(s[..k], x) == |set u: nat | u < k && s[u] == x|
  {
    if k > 0 {
      OccurrencesArePositions(s, k - 1, x);
      assert s[..k][..k - 1] == s[..k - 1];
      var before := set u: nat | u < k - 1 && s[u] == x;
      assert (set u: nat | u < k && s[u] == x) == before + if s[k - 1] == x then {k - 1} else {};
    }
  }

  ghost function Column(us: set<nat>, k: nat): set<(nat, nat)> {
    set u | u in us :: (u, k)
  }

  lemma {:induction false} ColumnSize(us: set<nat>, k: nat)
    ensures |Column(us, k)| == |us|
  {
    if us != {} {
      var u := PickOne(us);
      ColumnSize(us - {u}, k);
      assert Column(us, k) == Column(us - {u}, k) + {(u, k)};
    } else {
      assert Column(us, k) == {};
    }
  }

  lemma PickOne<T>(s: set<T>) returns (x: T)
    requires s != {}
    ensures x in s
  {
    x :| x in s;
  }

  lemma PairedCount<T>(s: seq<T>, k: nat, x: T)
    requires k <= |s|
    ensures |PairedWith(s, k, x)| == Occurrences(s[..k], x)
  {
    var us := set u: nat | u < k && s[u] == x;
    OccurrencesArePositions(s, k, x);
    ColumnSize(us, k);
    assert PairedWith(s, k, x) == Column(us, k);
  }

  /** The running count of equal pairs is the number of pairs of positions with equal entries. */
  lemma {:induction false} TogetherPairsArePositions<T>(s: seq<T>)
    ensures TogetherPairs(s) == |EqualPositions(s)|
  {
    if s == [] {
      assert EqualPositions(s) == {};
    } else {
      var (n, init) := (|s| - 1, s[..|s| - 1]);
      TogetherPairsArePositions(init);
      PairedCount(s, n, s[n]);
      EqualPositionsStep(s);
    }
  }

  lemma EqualPositionsStep<T>(s: seq<T>)
    requires s != []
    ensures var (n, init) := (|s| - 1, s[..|s| - 1]);
            |EqualPositions(s)| == |EqualPositions(init)| + |PairedWith(s, n, s[n])|
  {
    var (n, init) := (|s| - 1, s[..|s| - 1]);
    assert EqualPositions(s) == EqualPositions(init) + PairedWith(s, n, s[n]);
    assert EqualPositions(init) !! PairedWith(s, n, s[n]);
  }

  lemma KeptArePositions(p: Partition, n: nat, labels: seq<int>)
    requires Canonical(p, n) && IsMembership(p, n, labels)
    ensures Kept(p, n) == EqualPositions(labels)
  {
    MembershipGroups(p, n, labels);
  }

  lemma CommonPositions(left: seq<int>, right: seq<int>)
    requires |left| == |right|
    ensures EqualPositions(Zip(left, right)) == EqualPositions(left) * EqualPositions(right)
  {}

  // ----- the index of two partitions

  /** `value` is the adjusted Rand index: with a, b and both the node pairs kept together by `p`, by `q` and by both,
      (both - a b / total) / ((a + b) / 2 - a b / total), here over whole numbers; the divisor is positive. */
  ghost predicate IsAri(p: Partition, q: Partition, n: nat, value: real) {
    var (a, b, both, total) := (|Kept(p, n)|, |Kept(q, n)|, |Kept(p, n) * Kept(q, n)|, n * (n - 1) / 2);
    if p == q then value == 1.0
    else
      && (a + b) * total - 2 * (a * b) > 0
      && value * ((a + b) * total - 2 * (a * b)) as real == (2 * (both * total - a * b)) as real
  }

  lemma KeptBoth(p: Partition, q: Partition, n: nat, left: seq<int>, right: seq<int>)
    requires Canonical(p, n) && Canonical(q, n) && IsMembership(p, n, left) && IsMembership(q, n, right)
    ensures TogetherPairs(left) == |Kept(p, n)| && TogetherPairs(right) == |Kept(q, n)|
    ensures TogetherPairs(Zip(left, right)) == |Kept(p, n) * Kept(q, n)|
  {
    hide Canonical, MembershipAt, Kept, EqualPositions, TogetherPairs;
    KeptArePositions(p, n, left);
    KeptArePositions(q, n, right);
    CommonPositions(left, right);
    TogetherPairsArePositions(left);
    TogetherPairsArePositions(right);
    TogetherPairsArePositions(Zip(left, right));
  }

  /** Clearing the denominators of the value computed. */
  lemma ClearedOfDenominators(index: nat, a: nat, b: nat, total: nat, value: real)
    requires total > 0 && (a + b) * total - 2 * (a * b) > 0
    requires var (expected, maximum) := ((a * b) as real / total as real, (a + b) as real / 2.0);
             expected < maximum && value == (index as real - expected) / (maximum - expected)
    ensures value * ((a + b) * total - 2 * (a * b)) as real == (2 * (index * total - a * b)) as real
  {
    var (t, e, x) := (total as real, (a * b) as real / total as real, (a + b) as real / 2.0);
    assert e * t == (a * b) as real;
    assert value * (x - e) == index as real - e;
    assert (x - e) * (2.0 * t) == ((a + b) * total - 2 * (a * b)) as real by { Doubled(x, e, t, a + b, a * b, total); }
    assert (index as real - e) * (2.0 * t) == (2 * (index * total - a * b)) as real by {
      assert (index * total) as real == index as real * t;
      Spread(index as real, e, t);
    }
    Times(value, x - e, 2.0 * t);
  }

  lemma Doubled(x: real, e: real, t: real, sum: nat, product: nat, total: nat)
    requires x * 2.0 == sum as real && t == total as real && e * t == product as real
    ensures (x - e) * (2.0 * t) == (sum * total - 2 * product) as real
  {
    Spread(x, e, t);
    assert x * (2.0 * t) == (x * 2.0) * t;
    assert (sum * total) as real == sum as real * total as real;
  }

  lemma Spread(x: real, y: real, t: real)
    ensures (x - y) * (2.0 * t) == x * (2.0 * t) - 2.0 * (y * t)
    ensures x * (2.0 * t) == 2.0 * (x * t)
  {}

  lemma Times(x: real, y: real, z: real)
    ensures (x * y) * z == x * (y * z)
  {}

  lemma ValueIsAri(p: Partition, q: Partition, n: nat, both: nat, a: nat, b: nat, value: real)
    requires p != q && a == |Kept(p, n)| && b == |Kept(q, n)| && both == |Kept(p, n) * Kept(q, n)|
    requires PairsOf(n) > 0 && Scaled(0, a, b, PairsOf(n)).1 > 0
    requires var (expected, maximum) := ((a * b) as real / PairsOf(n) as real, (a + b) as real / 2.0);
             expected < maximum && value == (both as real - expected) / (maximum - expected)
    ensures IsAri(p, q, n, value)
  {
    hide Kept;
    assert 2 * a * b == 2 * (a * b);
    ClearedOfDenominators(both, a, b, PairsOf(n), value);
  }

  lemma EqualIsAri(p: Partition, n: nat)
    ensures IsAri(p, p, n, 1.0)
  {}

  /** The exact value; `first == second` short-cuts to 1, and the assertion on the divisor never fires. */
  method Ari(first: Partition, second: Partition, n: nat) returns (value: real)
    requires Canonical(first, n) && Canonical(second, n)
    ensures IsAri(first, second, n, value)
    ensures value <= 1.0 && (value == 1.0 <==> first == second)
  {
    hide Canonical, SameGrouping, IsMembership, MembershipAt, PairsOf, Zip, Kept, Together, TogetherPairs, IsAri, Scaled;
    if first == second {
      EqualIsAri(first, n);
      return 1.0;
    }
    MembersInRange(first, n);
    MembersInRange(second, n);
    var l := MembershipOf(first, n);
    var r := MembershipOf(second, n);
    CanonicalMembership(first, n, l[..]);
    CanonicalMembership(second, n, r[..]);
    ghost var left, right := l[..], r[..];
    EqualIffSameGrouping(first, second, n, left, right);
    var cells := CountCells(Zip(l[..], r[..]));
    var index := SumCells(cells);
    CountsGivePairs(Zip(left, right), cells);
    var sumA := SumBlocks(first);
    var sumB := SumBlocks(second);
    BlocksGivePairs(first, n, left);
    BlocksGivePairs(second, n, right);
    KeptBoth(first, second, n, left, right);
    var total := PairsOf(n);
    NeverDegenerate(left, right);
    DivisorPositive(sumA, sumB, total);
    var expected := (sumA * sumB) as real / total as real;
    var maximum := (sumA + sumB) as real / 2.0;
    assert maximum != expected;
    value := (index as real - expected) / (maximum - expected);
    ValueIsAri(first, second, n, index, sumA, sumB, value);
    AriIsOne(first, second, n, value);
  }

  lemma EqualIffSameGrouping(p: Partition, q: Partition, n: nat, left: seq<int>, right: seq<int>)
    requires Canonical(p, n) && Canonical(q, n) && IsMembership(p, n, left) && IsMembership(q, n, right)
    ensures p == q <==> SameGrouping(left, right)
  {
    MembershipGroups(p, n, left);
    MembershipGroups(q, n, right);
    CanonicalFormsAgree(left, right, p, q);
  }

  /** Distinct partitions score strictly below 1: no two of them keep the same pairs together. */
  lemma IndexBelowOne(p: Partition, q: Partition, n: nat)
    requires Canonical(p, n) && Canonical(q, n) && p != q
    ensures 2 * |Kept(p, n) * Kept(q, n)| < |Kept(p, n)| + |Kept(q, n)|
  {
    hide Canonical, Together;
    var (a, b) := (Kept(p, n), Kept(q, n));
    CommonSize(a, b);
    if a == b {
      forall u, v | 0 <= u < n && 0 <= v < n
        ensures Together(p, u, v) <==> Together(q, u, v)
      {
        TogetherTurns(p, n, u, v);
        TogetherTurns(q, n, u, v);
        assert (u, v) in a <==> (u, v) in b;
        assert (v, u) in a <==> (v, u) in b;
      }
      TogetherDetermines(p, q, n);
    }
  }

  lemma TogetherTurns(p: Partition, n: nat, u: int, v: int)
    requires Canonical(p, n) && 0 <= u < n
    ensures Together(p, u, v) <==> Together(p, v, u)
    ensures Together(p, u, u)
  {
    assert Listed(u, p);
  }

  lemma CommonSize<T>(a: set<T>, b: set<T>)
    ensures 2 * |a * b| <= |a| + |b|
    ensures 2 * |a * b| == |a| + |b| ==> a == b
  {
    assert a == a * b + (a - b) && b == a * b + (b - a);
    assert |a| == |a * b| + |a - b| && |b| == |a * b| + |b - a|;
    if 2 * |a * b| == |a| + |b| { assert a - b == {} && b - a == {}; }
  }

  /** The index is a symmetric function of the two partitions. */
  lemma AriSymmetric(p: Partition, q: Partition, n: nat, v: real, w: real)
    requires IsAri(p, q, n, v) && IsAri(q, p, n, w)
    ensures v == w
  {
    hide Kept;
    var (a, b, total) := (|Kept(p, n)|, |Kept(q, n)|, n * (n - 1) / 2);
    assert Kept(p, n) * Kept(q, n) == Kept(q, n) * Kept(p, n);
    assert a * b == b * a && a + b == b + a;
    if p != q { SameQuotient(v, w, ((a + b) * total - 2 * (a * b)) as real); }
  }

  lemma SameQuotient(v: real, w: real, d: real)
    requires d > 0.0 && v * d == w * d
    ensures v == w
  {}

  /** The index is at most 1, and 1 exactly for equal partitions. */
  lemma AriIsOne(p: Partition, q: Partition, n: nat, value: real)
    requires Canonical(p, n) && Canonical(q, n) && IsAri(p, q, n, value)
    ensures value <= 1.0 && (value == 1.0 <==> p == q)
  {
    hide Kept, Canonical;
    if p != q {
      IndexBelowOne(p, q, n);
      var (a, b, both, total) := (|Kept(p, n)|, |Kept(q, n)|, |Kept(p, n) * Kept(q, n)|, n * (n - 1) / 2);
      LessTimes(2 * both, a + b, total, a * b);
      BelowOne(value, (2 * (both * total - a * b)) as real, ((a + b) * total - 2 * (a * b)) as real);
    }
  }

  lemma LessTimes(x: nat, y: nat, total: int, product: nat)
    requires x < y && y * total - 2 * product > 0
    ensures total > 0 && x * total < y * total
  {}

  lemma BelowOne(v: real, x: real, y: real)
    requires y > 0.0 && v * y == x && x < y
    ensures v < 1.0
  {}

  /** The index is 0 exactly when the pairs kept together by both are as many as chance would have it. */
  lemma AriIsZero(p: Partition, q: Partition, n: nat, value: real)
    requires p != q && IsAri(p, q, n, value)
    ensures value == 0.0 <==> |Kept(p, n) * Kept(q, n)| * (n * (n - 1) / 2) == |Kept(p, n)| * |Kept(q, n)|
  {
    hide Kept;
    var (a, b, both, total) := (|Kept(p, n)|, |Kept(q, n)|, |Kept(p, n) * Kept(q, n)|, n * (n - 1) / 2);
    ZeroQuotient(value, (2 * (both * total - a * b)) as real, ((a + b) * total - 2 * (a * b)) as real);
  }

  lemma ZeroQuotient(v: real, x: real, y: real)
    requires y > 0.0 && v * y == x
    ensures v == 0.0 <==> x == 0.0
  {}
}
