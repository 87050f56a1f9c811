/**
  `quality`: degrees, exact modularity and disconnected communities of one canonical partition.
 */
module Quality {
  import opened Ordering
  import Ranks
  import opened LabelSpec
  import opened Walks
  import opened UnionFind
  import opened Grouping
  import opened Partitions
  import opened ModularityLaws

  function Count(b: bool): nat { if b then 1 else 0 }

  // ----- counts over the edge list

  ghost function Degree(edges: seq<Edge>, v: int): nat {
    if edges == [] then 0
    else
      var e := edges[|edges| - 1];
      Degree(edges[..|edges| - 1], v) + Count(e.0 == v) + Count(e.1 == v)
  }

  /** How many edge ends lie in community `c`. */
  ghost function CommunityDegree(edges: seq<Edge>, labels: seq<int>, c: int): nat
    requires EdgesBelow(edges, |labels|)
  {
    if edges == [] then 0
    else
      var e := edges[|edges| - 1];
      CommunityDegree(edges[..|edges| - 1], labels, c) + Count(labels[e.0] == c) + Count(labels[e.1] == c)
  }

  /** How many edges lie inside community `c`. */
  ghost function Internal(edges: seq<Edge>, labels: seq<int>, c: int): nat
    requires EdgesBelow(edges, |labels|)
  {
    if edges == [] then 0
    else
      var e := edges[|edges| - 1];
      Internal(edges[..|edges| - 1], labels, c) + Count(labels[e.0] == c && labels[e.1] == c)
  }

  ghost function InternalTotal(edges: seq<Edge>, labels: seq<int>, k: nat): nat
    requires EdgesBelow(edges, |labels|)
  {
    if k == 0 then 0 else InternalTotal(edges, labels, k - 1) + Internal(edges, labels, k - 1)
  }

  ghost function DegreeTotal(edges: seq<Edge>, labels: seq<int>, k: nat): nat
    requires EdgesBelow(edges, |labels|)
  {
    if k == 0 then 0 else DegreeTotal(edges, labels, k - 1) + CommunityDegree(edges, labels, k - 1)
  }

  ghost function SquareTotal(edges: seq<Edge>, labels: seq<int>, k: nat): nat
    requires EdgesBelow(edges, |labels|)
  {
    if k == 0 then 0
    else SquareTotal(edges, labels, k - 1) + CommunityDegree(edges, labels, k - 1) * CommunityDegree(edges, labels, k - 1)
  }

  // ----- double counting

  /** Degrees of the nodes below `j` that carry label `c`. */
  ghost function NodeDegrees(edges: seq<Edge>, labels: seq<int>, c: int, j: nat): nat
    requires j <= |labels|
  {
    if j == 0 then 0 else NodeDegrees(edges, labels, c, j - 1) + if labels[j - 1] == c then Degree(edges, j - 1) else 0
  }

  lemma {:induction false} NodeDegreesStep(edges: seq<Edge>, labels: seq<int>, c: int, j: nat)
    requires EdgesBelow(edges, |labels|) && j <= |labels| && edges != []
    ensures var (init, e) := (edges[..|edges| - 1], edges[|edges| - 1]);
            NodeDegrees(edges, labels, c, j) == NodeDegrees(init, labels, c, j)
              + Count(e.0 < j && labels[e.0] == c) + Count(e.1 < j && labels[e.1] == c)
  {
    if j > 0 { NodeDegreesStep(edges, labels, c, j - 1); }
  }

  /** Summing degrees over a community's nodes counts the edge ends in it. */
  lemma {:induction false} DegreesCountEnds(edges: seq<Edge>, labels: seq<int>, c: int)
    requires EdgesBelow(edges, |labels|)
    ensures NodeDegrees(edges, labels, c, |labels|) == CommunityDegree(edges, labels, c)
  {
    if edges == [] {
      NoDegrees(labels, c, |labels|);
    } else {
      NodeDegreesStep(edges, labels, c, |labels|);
      DegreesCountEnds(edges[..|edges| - 1], labels, c);
    }
  }

  lemma {:induction false} NoDegrees(labels: seq<int>, c: int, j: nat)
    requires j <= |labels|
    ensures NodeDegrees([], labels, c, j) == 0
  {
    if j > 0 { NoDegrees(labels, c, j - 1); }
  }

  lemma {:induction false} DegreeTotalStep(edges: seq<Edge>, labels: seq<int>, k: nat)
    requires EdgesBelow(edges, |labels|) && edges != []
    ensures var (init, e) := (edges[..|edges| - 1], edges[|edges| - 1]);
            DegreeTotal(edges, labels, k) == DegreeTotal(init, labels, k)
              + Count(0 <= labels[e.0] < k) + Count(0 <= labels[e.1] < k)
  {
    if k > 0 { DegreeTotalStep(edges, labels, k - 1); }
  }

  lemma {:induction false} InternalTotalStep(edges: seq<Edge>, labels: seq<int>, k: nat)
    requires EdgesBelow(edges, |labels|) && edges != []
    ensures var (init, e) := (edges[..|edges| - 1], edges[|edges| - 1]);
            InternalTotal(edges, labels, k) == InternalTotal(init, labels, k)
              + Count(labels[e.0] == labels[e.1] && 0 <= labels[e.0] < k)
  {
    if k > 0 { InternalTotalStep(edges, labels, k - 1); }
  }

  /** Every edge has two ends in communities, and lies inside at most one. */
  lemma {:induction false} Totals(edges: seq<Edge>, labels: seq<int>, k: nat)
    requires EdgesBelow(edges, |labels|) && forall v :: 0 <= v < |labels| ==> 0 <= labels[v] < k
    ensures DegreeTotal(edges, labels, k) == 2 * |edges|
    ensures InternalTotal(edges, labels, k) <= |edges|
  {
    if edges == [] {
      NoTotals(labels, k);
    } else {
      DegreeTotalStep(edges, labels, k);
      InternalTotalStep(edges, labels, k);
      Totals(edges[..|edges| - 1], labels, k);
    }
  }

  lemma {:induction false} NoTotals(labels: seq<int>, k: nat)
    ensures DegreeTotal([], labels, k) == 0 && InternalTotal([], labels, k) == 0
  {
    if k > 0 { NoTotals(labels, k - 1); }
  }

  // ----- the bounds on modularity

  /** A community's ends: one for each edge touching it and one more for each edge inside. */
  lemma {:induction false} CommunityDegreeBound(edges: seq<Edge>, labels: seq<int>, c: int)
    requires EdgesBelow(edges, |labels|)
    ensures Internal(edges, labels, c) <= CommunityDegree(edges, labels, c) <= |edges| + Internal(edges, labels, c)
    ensures Internal(edges, labels, c) <= |edges|
  {
    if edges != [] { CommunityDegreeBound(edges[..|edges| - 1], labels, c); }
  }

  lemma {:induction false} SquaresBound(edges: seq<Edge>, labels: seq<int>, k: nat)
    requires EdgesBelow(edges, |labels|)
    ensures SquareTotal(edges, labels, k) <= |edges| * DegreeTotal(edges, labels, k) + 2 * (|edges| * InternalTotal(edges, labels, k))
    ensures DegreeTotal(edges, labels, k) <= SquareTotal(edges, labels, k)
  {
    if k > 0 {
      SquaresBound(edges, labels, k - 1);
      CommunityDegreeBound(edges, labels, k - 1);
      SquareStep(|edges|, SquareTotal(edges, labels, k - 1), DegreeTotal(edges, labels, k - 1),
                 InternalTotal(edges, labels, k - 1), CommunityDegree(edges, labels, k - 1), Internal(edges, labels, k - 1));
    }
  }

  lemma SquareStep(m: nat, squares: nat, degrees: nat, internals: nat, d: nat, i: nat)
    requires squares <= m * degrees + 2 * (m * internals) && degrees <= squares
    requires i <= d <= m + i && i <= m
    ensures squares + d * d <= m * (degrees + d) + 2 * (m * (internals + i))
    ensures degrees + d <= squares + d * d
  {
    Product(d, m + i, d);
    Product(d, 2 * m, i);
    Distribute(m, i, d);
    Distribute(degrees, d, m);
    Distribute(internals, i, m);
    if d > 0 { Product(1, d, d); }
  }

  lemma Product(a: nat, b: nat, c: nat)
    requires a <= b
    ensures a * c <= b * c
  {}

  lemma Distribute(a: nat, b: nat, c: nat)
    ensures (a + b) * c == a * c + b * c && c * (a + b) == a * c + b * c && c * a == a * c && c * b == b * c
    ensures 2 * c * b == 2 * (c * b)
  {}

  function Modularity(m: nat, internal: nat, squares: nat): real
    requires m > 0
  {
    (4 * m * internal - squares) as real / (4 * m * m) as real
  }

  ghost function ModularityOf(edges: seq<Edge>, labels: seq<int>, k: nat): real
    requires EdgesBelow(edges, |labels|) && edges != []
  {
    Modularity(|edges|, InternalTotal(edges, labels, k), SquareTotal(edges, labels, k))
  }

  /** The exact modularity of any labelling with labels below `k` lies in [-1/2, 1). */
  lemma ModularityBounds(edges: seq<Edge>, labels: seq<int>, k: nat)
    requires EdgesBelow(edges, |labels|) && edges != [] && forall v :: 0 <= v < |labels| ==> 0 <= labels[v] < k
    ensures -0.5 <= ModularityOf(edges, labels, k) < 1.0
  {
    Totals(edges, labels, k);
    SquaresBound(edges, labels, k);
    ModularityFraction(|edges|, InternalTotal(edges, labels, k), SquareTotal(edges, labels, k));
  }

  lemma ModularityFraction(m: nat, i: nat, s: nat)
    requires 0 < m && i <= m && 2 * m <= s <= m * (2 * m) + 2 * (m * i)
    ensures -0.5 <= Modularity(m, i, s) < 1.0
  {
    var (a, b) := (4 * m * i - s, 4 * m * m);
    assert b > 0 && -b <= 2 * a && a < b by {
      Products(m, i, m * m, m * i);
      Product(i, m, m);
      Product(1, m, m);
    }
    FractionBounds(a, b);
  }

  lemma Products(m: int, i: int, square: int, mixed: int)
    requires square == m * m && mixed == m * i
    ensures 4 * m * i == 4 * mixed && 4 * m * m == 4 * square && m * (2 * m) == 2 * square && i * m == mixed
  {}

  lemma FractionBounds(a: int, b: int)
    requires b > 0 && -b <= 2 * a && a < b
    ensures -0.5 <= a as real / b as real < 1.0
  {
    var q := a as real / b as real;
    assert q * b as real == a as real;
    RealProduct(q, 1.0, b as real);
    RealProduct(-0.5, q, b as real);
  }

  lemma RealProduct(p: real, q: real, b: real)
    requires b > 0.0
    ensures p * b < q * b <==> p < q
  {}

  // ----- the same counts, read off the communities' members

  lemma {:induction false} InternalIsInner(edges: seq<Edge>, labels: seq<int>, members: seq<int>, c: int)
    requires EdgesBelow(edges, |labels|) && forall x :: x in members <==> 0 <= x < |labels| && labels[x] == c
    ensures Internal(edges, labels, c) == |InnerEdges(edges, members)|
  {
    if edges == [] {
      assert InnerEdges(edges, members) == {};
    } else {
      var (k, init) := (|edges| - 1, edges[..|edges| - 1]);
      InternalIsInner(init, labels, members, c);
      var inner := edges[k].0 in members && edges[k].1 in members;
      assert InnerEdges(edges, members) == InnerEdges(init, members) + if inner then {k} else {};
    }
  }

  lemma {:induction false} DegreeIsEnds(edges: seq<Edge>, labels: seq<int>, members: seq<int>, c: int)
    requires EdgesBelow(edges, |labels|) && forall x :: x in members <==> 0 <= x < |labels| && labels[x] == c
    ensures CommunityDegree(edges, labels, c) == EndCount(edges, members)
  {
    if edges == [] {
      assert FirstEnds(edges, members) == {} && SecondEnds(edges, members) == {};
    } else {
      var (k, init) := (|edges| - 1, edges[..|edges| - 1]);
      DegreeIsEnds(init, labels, members, c);
      hide FirstEnds, SecondEnds;
      OneMoreEdge(edges, members);
    }
  }

  lemma OneMoreEdge(edges: seq<Edge>, members: seq<int>)
    requires edges != []
    ensures var (k, init) := (|edges| - 1, edges[..|edges| - 1]);
            && |FirstEnds(edges, members)| == |FirstEnds(init, members)| + Count(edges[k].0 in members)
            && |SecondEnds(edges, members)| == |SecondEnds(init, members)| + Count(edges[k].1 in members)
  {
    var (k, init) := (|edges| - 1, edges[..|edges| - 1]);
    assert FirstEnds(edges, members) == FirstEnds(init, members) + if edges[k].0 in members then {k} else {};
    assert SecondEnds(edges, members) == SecondEnds(init, members) + if edges[k].1 in members then {k} else {};
  }

  lemma {:induction false} TotalsOfMembers(edges: seq<Edge>, n: nat, labels: seq<int>, p: Partition, k: nat)
    requires EdgesBelow(edges, n) && Canonical(p, n) && |labels| == n && IsMembership(p, n, labels) && k <= |p|
    ensures InternalTotal(edges, labels, k) == InnerTotal(edges, p, k)
    ensures SquareTotal(edges, labels, k) == EndSquares(edges, p, k)
  {
    hide Canonical, IsMembership, Internal, CommunityDegree, InnerEdges, EndCount;
    if k > 0 {
      TotalsOfMembers(edges, n, labels, p, k - 1);
      MembersCarryLabel(p, n, labels, k - 1);
      InternalIsInner(edges, labels, p[k - 1], k - 1);
      DegreeIsEnds(edges, labels, p[k - 1], k - 1);
    }
  }

  /** The fraction computed is the sum of the communities' shares. */
  lemma ModularityIsShares(edges: seq<Edge>, p: Partition, inner: nat, squares: nat)
    requires edges != [] && inner == InnerTotal(edges, p, |p|) && squares == EndSquares(edges, p, |p|)
    ensures Modularity(|edges|, inner, squares) == ShareTotal(edges, p, |p|)
  {
    hide ShareTotal, InnerTotal, EndSquares;
    ShareTotalScaled(edges, p, |p|);
    var (m, x) := (|edges|, ShareTotal(edges, p, |p|));
    assert x * Scale(edges) == (4 * m * inner - squares) as real by {
      assert (4 * m * inner) as real == 4.0 * m as real * inner as real by { RealProducts(4 * m, inner); }
    }
    assert Scale(edges) == (4 * m * m) as real by { RealProducts(m, m); assert (4 * m * m) == 4 * (m * m); }
    assert m * m > 0;
    Divided(x, (4 * m * m) as real, (4 * m * inner - squares) as real);
  }

  lemma RealProducts(a: nat, b: nat)
    ensures (a * b) as real == a as real * b as real
  {}

  lemma Divided(x: real, y: real, z: real)
    requires y > 0.0 && x * y == z
    ensures z / y == x
  {}

  // ----- connectivity inside a community

  ghost function Filter(edges: seq<Edge>, keep: Edge -> bool): (r: seq<Edge>)
    ensures forall e :: e in r <==> e in edges && keep(e)
  {
    if edges == [] then []
    else
      var k := |edges| - 1;
      Filter(edges[..k], keep) + if keep(edges[k]) then [edges[k]] else []
  }

  /** The edges inside one community. */
  ghost function Intra(edges: seq<Edge>, labels: seq<int>): (r: seq<Edge>)
    requires EdgesBelow(edges, |labels|)
    ensures EdgesBelow(r, |labels|)
    ensures forall e :: e in r <==> e in edges && labels[e.0] == labels[e.1]
  {
    var r := Filter(edges, (e: Edge) => e.0 < |labels| && e.1 < |labels| && labels[e.0] == labels[e.1]);
    assert forall i :: 0 <= i < |r| ==> r[i] in r;
    r
  }

  ghost function Inside(edges: seq<Edge>, members: seq<int>, n: nat): (r: seq<Edge>)
    requires EdgesBelow(edges, n)
    ensures EdgesBelow(r, n)
    ensures forall e :: e in r <==> e in edges && e.0 in members && e.1 in members
  {
    var r := Filter(edges, (e: Edge) => e.0 in members && e.1 in members);
    assert forall i :: 0 <= i < |r| ==> r[i] in r;
    r
  }

  /** Any two members are joined by a walk along edges between members. */
  ghost predicate Connected(n: nat, edges: seq<Edge>, members: seq<int>)
    requires EdgesBelow(edges, n)
  {
    forall u: nat, v: nat :: u in members && v in members ==> Reaches(EdgeGraph(n, Inside(edges, members, n)), u, v)
  }

  lemma {:induction false} WalkStaysInside(n: nat, edges: seq<Edge>, labels: seq<int>, members: seq<int>, c: int, w: seq<nat>, u: nat, v: nat)
    requires EdgesBelow(edges, n) && |labels| == n && forall x :: 0 <= x < n ==> (x in members <==> labels[x] == c)
    requires u < n && u in members && WalkFromTo(EdgeGraph(n, Intra(edges, labels)), w, u, v)
    ensures Reaches(EdgeGraph(n, Inside(edges, members, n)), u, v)
    decreases |w|
  {
    var g := EdgeGraph(n, Intra(edges, labels));
    var g' := EdgeGraph(n, Inside(edges, members, n));
    if |w| == 1 {
      ReachesSelf(g', u);
    } else {
      var next := w[1];
      assert next in g[u];
      EdgeGraphNeighbours(n, Intra(edges, labels), u, next);
      EdgeGraphNeighbours(n, Inside(edges, members, n), u, next);
      assert WalkFromTo(g, w[1..], next, v);
      WalkStaysInside(n, edges, labels, members, c, w[1..], next, v);
      ReachesStep(g', u, next, v);
    }
  }

  /** Inside one community, connectivity along intra-community edges is connectivity of the induced subgraph. */
  lemma IntraIsInside(n: nat, edges: seq<Edge>, labels: seq<int>, members: seq<int>, c: int, u: nat, v: nat)
    requires EdgesBelow(edges, n) && |labels| == n && forall x :: 0 <= x < n ==> (x in members <==> labels[x] == c)
    requires u < n && u in members
    ensures Reaches(EdgeGraph(n, Intra(edges, labels)), u, v) <==> Reaches(EdgeGraph(n, Inside(edges, members, n)), u, v)
  {
    var (intra, inside) := (Intra(edges, labels), Inside(edges, members, n));
    if Reaches(EdgeGraph(n, intra), u, v) {
      var w :| WalkFromTo(EdgeGraph(n, intra), w, u, v);
      WalkStaysInside(n, edges, labels, members, c, w, u, v);
    }
    if Reaches(EdgeGraph(n, inside), u, v) {
      forall e | e in inside ensures e in intra {
        var i :| 0 <= i < |inside| && inside[i] == e;
      }
      MoreEdgesReach(n, inside, intra, u, v);
    }
  }

  /** A community is connected exactly when its members share one component label. */
  lemma ConnectedIffOneComponent(n: nat, edges: seq<Edge>, labels: seq<int>, members: seq<int>, c: int)
    requires EdgesBelow(edges, n) && |labels| == n
    requires forall x :: x in members <==> 0 <= x < n && labels[x] == c
    ensures Connected(n, edges, members)
       <==> forall u, v :: u in members && v in members ==>
              Components(n, Intra(edges, labels))[u] == Components(n, Intra(edges, labels))[v]
  {
    forall u: nat, v: nat | u in members && v in members
      ensures Reaches(EdgeGraph(n, Inside(edges, members, n)), u, v)
         <==> Components(n, Intra(edges, labels))[u] == Components(n, Intra(edges, labels))[v]
    {
      IntraIsInside(n, edges, labels, members, c, u, v);
      ComponentsAreConnectivity(n, Intra(edges, labels), u, v);
    }
  }

  // ----- the computation

  method Degrees(n: nat, edges: seq<Edge>) returns (degree: array<nat>)
    requires EdgesBelow(edges, n)
    ensures fresh(degree) && degree.Length == n
    ensures forall v :: 0 <= v < n ==> degree[v] == Degree(edges, v)
  {
    degree := new nat[n](_ => 0);
    for i := 0 to |edges|
      invariant forall v :: 0 <= v < n ==> degree[v] == Degree(edges[..i], v)
    {
      var (u, v) := edges[i];
      degree[u] := degree[u] + 1;
      degree[v] := degree[v] + 1;
      assert edges[..i + 1][..i] == edges[..i];
    }
    assert edges[..|edges|] == edges;
  }

  method CommunityDegrees(n: nat, edges: seq<Edge>, labels: array<int>, k: nat) returns (sums: array<nat>)
    requires EdgesBelow(edges, n) && labels.Length == n
    requires forall v :: 0 <= v < n ==> 0 <= labels[v] < k
    ensures fresh(sums) && sums.Length == k
    ensures forall c :: 0 <= c < k ==> sums[c] == CommunityDegree(edges, labels[..], c)
  {
    var degree := Degrees(n, edges);
    sums := new nat[k](_ => 0);
    ghost var ls := labels[..];
    for node := 0 to n
      invariant labels[..] == ls && forall v :: 0 <= v < n ==> degree[v] == Degree(edges, v)
      invariant forall c :: 0 <= c < k ==> sums[c] == NodeDegrees(edges, ls, c, node)
    {
      assert labels[node] == ls[node];
      sums[labels[node]] := sums[labels[node]] + degree[node];
    }
    forall c | 0 <= c < k { DegreesCountEnds(edges, ls, c); }
  }

  /** The edge loop: count the edges inside each community and unite their ends. */
  method UniteCommunities(n: nat, edges: seq<Edge>, labels: array<int>, k: nat)
    returns (internal: array<nat>, forests: Forests)
    requires EdgesBelow(edges, n) && labels.Length == n
    requires forall v :: 0 <= v < n ==> 0 <= labels[v] < k
    ensures fresh(internal) && internal.Length == k && fresh(forests) && fresh(forests.parent) && forests.parent.Length == n
    ensures forall c :: 0 <= c < k ==> internal[c] == Internal(edges, labels[..], c)
    ensures forests.StandsFor(Components(n, Intra(edges, labels[..])))
  {
    hide Represents, Components, Intra, Internal, EdgesBelow, Merge;
    ghost var ls := labels[..];
    internal := new nat[k](_ => 0);
    forests := new Forests(n);
    ComponentsStart(n, ls);
    assert edges[..0] == [];
    for i := 0 to |edges|
      invariant EdgesBelow(edges[..i], n) && forests.parent.Length == n && labels[..] == ls && internal != forests.parent
      invariant forall c :: 0 <= c < k ==> internal[c] == Internal(edges[..i], ls, c)
      invariant forests.StandsFor(Components(n, Intra(edges[..i], ls)))
    {
      var (u, v) := edges[i];
      FirstEdgesBelow(edges, n, i);
      IntraStep(edges, ls, i);
      InternalAt(edges, ls, i);
      assert labels[u] == ls[u] && labels[v] == ls[v];
      if labels[u] == labels[v] {
        internal[labels[u]] := internal[labels[u]] + 1;
        forests.Union(u, v, Components(n, Intra(edges[..i], ls)));
        ComponentsStep(n, Intra(edges[..i], ls), edges[i]);
      }
    }
    assert edges[..|edges|] == edges;
  }

  lemma FirstEdgesBelow(edges: seq<Edge>, n: nat, i: nat)
    requires EdgesBelow(edges, n) && i < |edges|
    ensures edges[i].0 < n && edges[i].1 < n && EdgesBelow(edges[..i], n) && EdgesBelow(edges[..i + 1], n)
  {}

  lemma IntraStep(edges: seq<Edge>, labels: seq<int>, i: nat)
    requires EdgesBelow(edges, |labels|) && i < |edges|
    ensures Intra(edges[..i + 1], labels)
         == if labels[edges[i].0] == labels[edges[i].1] then Intra(edges[..i], labels) + [edges[i]] else Intra(edges[..i], labels)
  {
    assert edges[..i + 1][..i] == edges[..i];
  }

  lemma InternalAt(edges: seq<Edge>, labels: seq<int>, i: nat)
    requires EdgesBelow(edges, |labels|) && i < |edges|
    ensures forall c :: Internal(edges[..i + 1], labels, c)
                     == Internal(edges[..i], labels, c) + Count(labels[edges[i].0] == c && labels[edges[i].1] == c)
  {
    assert edges[..i + 1][..i] == edges[..i];
  }

  lemma ComponentsStart(n: nat, labels: seq<int>)
    ensures EdgesBelow([], n) && Components(n, Intra([], labels)) == Identity(n)
    ensures forall c :: Internal([], labels, c) == 0
  {}

  lemma ComponentsStep(n: nat, edges: seq<Edge>, e: Edge)
    requires EdgesBelow(edges, n) && e.0 < n && e.1 < n
    ensures EdgesBelow(edges + [e], n) && Components(n, edges + [e]) == Merge(Components(n, edges), e.0, e.1)
  {
    assert (edges + [e])[..|edges|] == edges;
  }

  /** How many of the first `k` communities are not connected. */
  ghost function DisconnectedTotal(n: nat, edges: seq<Edge>, p: Partition, k: nat): nat
    requires EdgesBelow(edges, n) && k <= |p|
  {
    if k == 0 then 0 else DisconnectedTotal(n, edges, p, k - 1) + Count(!Connected(n, edges, p[k - 1]))
  }

  /** `len({find(v) for v in members}) > 1`. */
  method HasTwoRoots(forests: Forests, members: seq<int>, ghost comp: seq<nat>) returns (two: bool)
    requires forests.StandsFor(comp) && |comp| == forests.parent.Length
    requires forall j :: 0 <= j < |members| ==> 0 <= members[j] < |comp|
    modifies forests.parent
    ensures forests.StandsFor(comp)
    ensures !two <==> forall u, v :: u in members && v in members ==> comp[u] == comp[v]
  {
    hide Represents;
    var roots: set<nat> := {};
    for i := 0 to |members|
      invariant forests.StandsFor(comp)
      invariant roots == set j | 0 <= j < i :: comp[members[j]]
    {
      var r := forests.Find(members[i], comp);
      roots := roots + {r};
    }
    two := |roots| > 1;
    RootsAgree(roots, members, comp);
  }

  lemma RootsAgree(roots: set<nat>, members: seq<int>, comp: seq<nat>)
    requires forall j :: 0 <= j < |members| ==> 0 <= members[j] < |comp|
    requires roots == set j | 0 <= j < |members| :: comp[members[j]]
    ensures |roots| <= 1 <==> forall u, v :: u in members && v in members ==> comp[u] == comp[v]
  {
    forall v | v in members ensures comp[v] in roots {
      var j :| 0 <= j < |members| && members[j] == v;
      assert comp[members[j]] in roots;
    }
    if |roots| <= 1 {
      forall u, v | u in members && v in members ensures comp[u] == comp[v] {
        assert comp[u] in roots && comp[v] in roots;
        assert |roots - {comp[u]}| == 0;
        assert comp[v] !in roots - {comp[u]};
      }
    }
    if roots != {} && forall u, v :: u in members && v in members ==> comp[u] == comp[v] {
      var r :| r in roots;
      assert roots == {r};
    }
  }

  method CountDisconnected(n: nat, edges: seq<Edge>, p: Partition, forests: Forests, ghost labels: seq<int>) returns (count: nat)
    requires EdgesBelow(edges, n) && Canonical(p, n) && |labels| == n && IsMembership(p, n, labels) && forests.parent.Length == n
    requires forests.StandsFor(Components(n, Intra(edges, labels)))
    modifies forests.parent
    ensures count == DisconnectedTotal(n, edges, p, |p|)
  {
    hide Represents, Connected, Canonical, IsMembership;
    ghost var comp := Components(n, Intra(edges, labels));
    count := 0;
    for c := 0 to |p|
      invariant forests.StandsFor(comp)
      invariant count == DisconnectedTotal(n, edges, p, c)
    {
      MembersCarryLabel(p, n, labels, c);
      assert forall j :: 0 <= j < |p[c]| ==> p[c][j] in p[c];
      ConnectedIffOneComponent(n, edges, labels, p[c], c);
      var two := HasTwoRoots(forests, p[c], comp);
      if two { count := count + 1; }
    }
  }

  lemma MembersCarryLabel(p: Partition, n: nat, labels: seq<int>, c: nat)
    requires Canonical(p, n) && IsMembership(p, n, labels) && c < |p|
    ensures forall x :: x in p[c] <==> 0 <= x < n && labels[x] == c
  {
    forall x | x in p[c] ensures 0 <= x < n && labels[x] == c { assert Listed(x, p); }
  }

  method SumOf(values: array<nat>, ghost edges: seq<Edge>, ghost labels: seq<int>) returns (total: nat)
    requires EdgesBelow(edges, |labels|) && forall c :: 0 <= c < values.Length ==> values[c] == Internal(edges, labels, c)
    ensures total == InternalTotal(edges, labels, values.Length)
  {
    total := 0;
    for c := 0 to values.Length
      invariant total == InternalTotal(edges, labels, c)
    {
      total := total + values[c];
    }
  }

  method SumOfSquares(values: array<nat>, ghost edges: seq<Edge>, ghost labels: seq<int>) returns (total: nat)
    requires EdgesBelow(edges, |labels|) && forall c :: 0 <= c < values.Length ==> values[c] == CommunityDegree(edges, labels, c)
    ensures total == SquareTotal(edges, labels, values.Length)
  {
    total := 0;
    for c := 0 to values.Length
      invariant total == SquareTotal(edges, labels, c)
    {
      total := total + values[c] * values[c];
    }
  }

  // ----- community sizes

  function Sizes(p: Partition): (sizes: seq<nat>)
    ensures |sizes| == |p| && forall c :: 0 <= c < |p| ==> sizes[c] == |p[c]|
  {
    if p == [] then [] else [|p[0]|] + Sizes(p[1..])
  }

  /** How many communities are singletons, and the largest, median and 90th-percentile size, each the size at its
      nearest rank. */
  ghost predicate SizesAre(p: Partition, singletons: nat, largest: nat, median: nat, p90: nat) {
    var k := |p|;
    && singletons == |set c | 0 <= c < k && |p[c]| == 1|
    && Ranks.AtRank(Sizes(p), k, largest) && (forall c :: 0 <= c < k ==> |p[c]| <= largest)
    && Ranks.AtRank(Sizes(p), (k + 1) / 2, median)
    && Ranks.AtRank(Sizes(p), (9 * k + 9) / 10, p90)
  }

  method SizeStatistics(p: Partition) returns (singletons: nat, largest: nat, median: nat, p90: nat)
    requires p != []
    ensures SizesAre(p, singletons, largest, median, p90)
  {
    hide TotalPreorder, NonDescending, Ranks.AtRank, SortBy;
    Ranks.NatOrder();
    var k := |p|;
    var sizes := SortBy(Sizes(p), Ranks.NatLe);
    largest, median, p90 := sizes[k - 1], sizes[(k + 1) / 2 - 1], sizes[(9 * k + 9) / 10 - 1];
    Ranks.SortedAtRank(Sizes(p), k - 1);
    Ranks.SortedAtRank(Sizes(p), (k + 1) / 2 - 1);
    Ranks.SortedAtRank(Sizes(p), (9 * k + 9) / 10 - 1);
    Ranks.AroundIndex(sizes, k - 1);
    forall c | 0 <= c < k ensures |p[c]| <= largest { assert Sizes(p)[c] in sizes; }
    singletons := 0;
    for c := 0 to k
      invariant singletons == |set d | 0 <= d < c && |p[d]| == 1|
    {
      OneMoreSingleton(p, c);
      if |p[c]| == 1 { singletons := singletons + 1; }
    }
  }

  lemma OneMoreSingleton(p: Partition, c: nat)
    requires c < |p|
    ensures |set d | 0 <= d < c + 1 && |p[d]| == 1| == |set d | 0 <= d < c && |p[d]| == 1| + Count(|p[c]| == 1)
  {
    var before := set d | 0 <= d < c && |p[d]| == 1;
    assert (set d | 0 <= d < c + 1 && |p[d]| == 1) == before + if |p[c]| == 1 then {c} else {};
  }

  // ----- the whole

  datatype Metrics = Metrics(
    modularity: real,
    coverage: real,
    communityCount: nat,
    singletonCount: nat,
    sizeMax: nat,
    sizeMedian: nat,
    sizeP90: nat,
    disconnected: nat,
    disconnectedShare: real)

  /** Exact quality of one canonical partition of a graph with at least one edge: the modularity is the sum over the
      communities of the fraction of edges inside less the squared fraction of edge ends. */
  method Quality(n: nat, edges: seq<Edge>, p: Partition) returns (q: Metrics)
    requires EdgesBelow(edges, n) && edges != [] && Canonical(p, n)
    ensures q.modularity == ShareTotal(edges, p, |p|) && -0.5 <= q.modularity < 1.0
    ensures q.coverage * |edges| as real == InnerTotal(edges, p, |p|) as real && 0.0 <= q.coverage <= 1.0
    ensures q.communityCount == |p|
    ensures q.disconnected == |set c: nat | c < |p| && !Connected(n, edges, p[c])|
    ensures p != [] && q.disconnectedShare * |p| as real == q.disconnected as real
    ensures SizesAre(p, q.singletonCount, q.sizeMax, q.sizeMedian, q.sizeP90)
  {
    hide Canonical, Represents, Modularity, SizesAre, DisconnectedTotal, Internal, CommunityDegree, Connected, ShareTotal, InnerTotal,
         EndSquares, IsMembership, MembershipAt, Fraction, EdgesBelow, Intra, Components, InternalTotal, SquareTotal, DegreeTotal;
    assert edges[0].0 < n by { EdgesBelowAt(edges, n, 0); }
    assert p != [] by { SomeCommunity(p, n, edges[0].0); }
    MembersInRange(p, n);
    var membership := MembershipOf(p, n);
    CanonicalMembership(p, n, membership[..]);
    ghost var labels := membership[..];
    var sums := CommunityDegrees(n, edges, membership, |p|);
    var internal, forests := UniteCommunities(n, edges, membership, |p|);
    var sumInternal := SumOf(internal, edges, labels);
    var sumSquare := SumOfSquares(sums, edges, labels);
    var disconnected := CountDisconnected(n, edges, p, forests, labels);
    Totals(edges, labels, |p|);
    ModularityBounds(edges, labels, |p|);
    TotalsOfMembers(edges, n, labels, p, |p|);
    ModularityIsShares(edges, p, sumInternal, sumSquare);
    DisconnectedIsCount(n, edges, p, |p|);
    var singletons, largest, median, p90 := SizeStatistics(p);
    q := Metrics(Modularity(|edges|, sumInternal, sumSquare), Fraction(sumInternal, |edges|), |p|,
                 singletons, largest, median, p90, disconnected, Fraction(disconnected, |p|));
  }

  lemma {:induction false} DisconnectedIsCount(n: nat, edges: seq<Edge>, p: Partition, k: nat)
    requires EdgesBelow(edges, n) && k <= |p|
    ensures DisconnectedTotal(n, edges, p, k) == |set c: nat | c < k && !Connected(n, edges, p[c])|
  {
    hide Connected;
    if k > 0 {
      DisconnectedIsCount(n, edges, p, k - 1);
      var before := set c: nat | c < k - 1 && !Connected(n, edges, p[c]);
      assert (set c: nat | c < k && !Connected(n, edges, p[c])) == before + if Connected(n, edges, p[k - 1]) then {} else {k - 1};
    }
  }

  lemma EdgesBelowAt(edges: seq<Edge>, n: nat, i: nat)
    requires EdgesBelow(edges, n) && i < |edges|
    ensures edges[i].0 < n && edges[i].1 < n
  {}

  lemma SomeCommunity(p: Partition, n: nat, v: nat)
    requires Canonical(p, n) && v < n
    ensures p != []
  {
    assert Listed(v as int, p);
  }

  function Fraction(a: nat, b: nat): (f: real)
    requires b > 0
    ensures f * b as real == a as real && (a <= b ==> 0.0 <= f <= 1.0)
  {
    a as real / b as real
  }
}
