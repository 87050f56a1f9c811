/**
  Modularity as a sum over the communities, read off the edges and the members themselves.
 */
module ModularityLaws {
  import opened UnionFind
  import opened Partitions

  /** The edges with both ends among `members`. */
  ghost function InnerEdges(edges: seq<Edge>, members: seq<int>): set<nat> {
    set i: nat | i < |edges| && edges[i].0 in members && edges[i].1 in members
  }

  /** The edge ends among `members`: first ends and second ends. */
  ghost function FirstEnds(edges: seq<Edge>, members: seq<int>): set<nat> {
    set i: nat | i < |edges| && edges[i].0 in members
  }

  ghost function SecondEnds(edges: seq<Edge>, members: seq<int>): set<nat> {
    set i: nat | i < |edges| && edges[i].1 in members
  }

  ghost function EndCount(edges: seq<Edge>, members: seq<int>): nat {
    |FirstEnds(edges, members)| + |SecondEnds(edges, members)|
  }

  /** A community's share: the fraction of edges inside it, less the square of the fraction of edge ends in it. */
  ghost function Share(edges: seq<Edge>, members: seq<int>): real
    requires edges != []
  {
    var (m, ends) := (|edges| as real, EndCount(edges, members) as real);
    |InnerEdges(edges, members)| as real / m - (ends / (2.0 * m)) * (ends / (2.0 * m))
  }

  ghost function ShareTotal(edges: seq<Edge>, p: Partition, k: nat): real
    requires edges != [] && k <= |p|
  {
    if k == 0 then 0.0 else ShareTotal(edges, p, k - 1) + Share(edges, p[k - 1])
  }

  ghost function InnerTotal(edges: seq<Edge>, p: Partition, k: nat): nat
    requires k <= |p|
  {
    if k == 0 then 0 else InnerTotal(edges, p, k - 1) + |InnerEdges(edges, p[k - 1])|
  }

  ghost function EndSquares(edges: seq<Edge>, p: Partition, k: nat): nat
    requires k <= |p|
  {
    if k == 0 then 0 else EndSquares(edges, p, k - 1) + EndCount(edges, p[k - 1]) * EndCount(edges, p[k - 1])
  }

  // ----- one fraction for the sum

  lemma Square(x: real, y: real, z: real)
    requires x * y == z
    ensures (x * x) * (y * y) == z * z
  {}

  /** inner/m - (ends/2m)^2, over the common denominator 4m^2. */
  lemma ShareScaled(m: nat, inner: nat, ends: nat)
    requires m > 0
    ensures var (r, h) := (m as real, ends as real / (2.0 * m as real));
            (inner as real / r - h * h) * (4.0 * (r * r)) == 4.0 * r * inner as real - ends as real * ends as real
  {
    var (r, e) := (m as real, ends as real);
    var (x, h) := (inner as real / r, e / (2.0 * r));
    assert x * r == inner as real && h * (2.0 * r) == e;
    Square(h, 2.0 * r, e);
    assert (2.0 * r) * (2.0 * r) == 4.0 * (r * r);
    assert x * (4.0 * (r * r)) == 4.0 * r * (x * r);
    Minus(x, h * h, 4.0 * (r * r));
  }

  lemma Minus(x: real, y: real, z: real)
    ensures (x - y) * z == x * z - y * z && (x + y) * z == x * z + y * z
  {}

  /** `x` times `scale` is `r` times `inner`, less `square`. */
  ghost predicate Scaled(x: real, scale: real, r: real, inner: real, square: real) {
    x * scale == r * inner - square
  }

  lemma AddScaled(total: real, share: real, scale: real, r: real, inners: real, inner: real, squares: real, square: real)
    requires Scaled(total, scale, r, inners, squares) && Scaled(share, scale, r, inner, square)
    ensures Scaled(total + share, scale, r, inners + inner, squares + square)
  {
    Minus(total, share, scale);
    Minus(inners, inner, r);
  }

  ghost function Scale(edges: seq<Edge>): real {
    4.0 * (|edges| as real * |edges| as real)
  }

  lemma {:induction false} ShareTotalScaled(edges: seq<Edge>, p: Partition, k: nat)
    requires edges != [] && k <= |p|
    ensures Scaled(ShareTotal(edges, p, k), Scale(edges), 4.0 * |edges| as real, InnerTotal(edges, p, k) as real, EndSquares(edges, p, k) as real)
  {
    hide Share, Scale, EndCount, Scaled;
    var r := 4.0 * |edges| as real;
    if k == 0 {
      NothingScaled(Scale(edges), r);
    } else {
      var (inner, ends) := (|InnerEdges(edges, p[k - 1])|, EndCount(edges, p[k - 1]));
      ShareTotalScaled(edges, p, k - 1);
      OneShareScaled(edges, p[k - 1]);
      AddScaled(ShareTotal(edges, p, k - 1), Share(edges, p[k - 1]), Scale(edges), r,
                InnerTotal(edges, p, k - 1) as real, inner as real, EndSquares(edges, p, k - 1) as real, (ends * ends) as real);
    }
  }

  lemma NothingScaled(scale: real, r: real)
    ensures Scaled(0.0, scale, r, 0.0, 0.0)
  {}

  lemma OneShareScaled(edges: seq<Edge>, members: seq<int>)
    requires edges != []
    ensures var ends := EndCount(edges, members);
            Scaled(Share(edges, members), Scale(edges), 4.0 * |edges| as real, |InnerEdges(edges, members)| as real, (ends * ends) as real)
  {
    hide InnerEdges, EndCount;
    var ends := EndCount(edges, members);
    ShareScaled(|edges|, |InnerEdges(edges, members)|, ends);
    assert (ends * ends) as real == ends as real * ends as real;
  }

  // ----- two partitions that fix the scale

  lemma AllIndices(edges: seq<Edge>, s: set<nat>)
    requires forall i: nat :: i in s <==> i < |edges|
    ensures |s| == |edges|
    decreases |edges|
  {
    if edges != [] {
      var n := |edges| - 1;
      AllIndices(edges[..n], s - {n});
    } else {
      assert s == {};
    }
  }

  /** One community of all the edges' ends has modularity 0. */
  lemma WholeIsZero(edges: seq<Edge>, members: seq<int>)
    requires edges != [] && forall e :: e in edges ==> e.0 in members && e.1 in members
    ensures ShareTotal(edges, [members], 1) == 0.0
  {
    forall i: nat | i < |edges| ensures edges[i].0 in members && edges[i].1 in members { assert edges[i] in edges; }
    AllIndices(edges, InnerEdges(edges, members));
    AllIndices(edges, FirstEnds(edges, members));
    AllIndices(edges, SecondEnds(edges, members));
    var m := |edges| as real;
    assert ShareTotal(edges, [members], 0) == 0.0;
    assert m / m == 1.0 && (2.0 * m) / (2.0 * m) == 1.0;
    assert EndCount(edges, members) as real == 2.0 * m;
  }

  /** Communities without an inner edge have the negated sum of squared degrees over 4m^2. */
  lemma SingletonsAreNegative(edges: seq<Edge>, p: Partition)
    requires edges != [] && (forall e :: e in edges ==> e.0 != e.1)
    requires forall c :: 0 <= c < |p| ==> |p[c]| == 1
    ensures ShareTotal(edges, p, |p|) * Scale(edges) == -(EndSquares(edges, p, |p|) as real)
  {
    hide ShareTotal, Scale, EndSquares;
    NoInner(edges, p, |p|);
    ShareTotalScaled(edges, p, |p|);
    assert 4.0 * |edges| as real * 0.0 == 0.0;
  }

  lemma {:induction false} NoInner(edges: seq<Edge>, p: Partition, k: nat)
    requires (forall e :: e in edges ==> e.0 != e.1) && k <= |p|
    requires forall c :: 0 <= c < |p| ==> |p[c]| == 1
    ensures InnerTotal(edges, p, k) == 0
  {
    if k > 0 {
      NoInner(edges, p, k - 1);
      forall i: nat | i < |edges| ensures edges[i].0 != edges[i].1 { assert edges[i] in edges; }
      assert InnerEdges(edges, p[k - 1]) == {};
    }
  }
}
