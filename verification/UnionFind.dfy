/**
  The in-place union-find of `quality`, with path halving and no ranks, tied to a merge of
  component labels, and what that merge says about connectivity.
 */
module UnionFind {
  import opened LabelSpec
  import opened Walks

  type Edge = (nat, nat)

  ghost predicate EdgesBelow(edges: seq<Edge>, n: nat) {
    forall i :: 0 <= i < |edges| ==> edges[i].0 < n && edges[i].1 < n
  }

  /** The undirected graph of an edge list. */
  ghost function EdgeGraph(n: nat, edges: seq<Edge>): (g: Graph)
    requires EdgesBelow(edges, n)
    ensures |g| == n && Symmetric(g)
  {
    var g := seq(n, i => set e | e in edges && (e.0 == i || e.1 == i) :: if e.0 == i then e.1 else e.0);
    forall i, j | 0 <= i < n && j in g[i]
      ensures j < n && i in g[j]
    {
      var e :| e in edges && (e.0 == i || e.1 == i) && j == if e.0 == i then e.1 else e.0;
      assert e.0 == j || e.1 == j;
      assert i == if e.0 == j then e.1 else e.0;
    }
    g
  }

  lemma EdgeGraphNeighbours(n: nat, edges: seq<Edge>, i: nat, j: nat)
    requires EdgesBelow(edges, n) && i < n
    ensures j in EdgeGraph(n, edges)[i] <==> (i, j) in edges || (j, i) in edges
  {
    if (i, j) in edges {
      var e := (i, j);
      assert e in edges;
    }
    if (j, i) in edges {
      var e := (j, i);
      assert e in edges;
    }
  }

  // ----- component labels: the specification of the forest

  /** Joining the component of `u` into that of `v`. */
  ghost function Merge(comp: seq<nat>, u: nat, v: nat): (r: seq<nat>)
    requires u < |comp| && v < |comp|
    ensures |r| == |comp|
  {
    seq(|comp|, x requires 0 <= x < |comp| => if comp[x] == comp[u] then comp[v] else comp[x])
  }

  ghost function Components(n: nat, edges: seq<Edge>): (comp: seq<nat>)
    requires EdgesBelow(edges, n)
    ensures |comp| == n
  {
    if edges == [] then Identity(n)
    else
      var k := |edges| - 1;
      Merge(Components(n, edges[..k]), edges[k].0, edges[k].1)
  }

  lemma {:induction false} EdgeEndsAgree(n: nat, edges: seq<Edge>, i: nat)
    requires EdgesBelow(edges, n) && i < |edges|
    ensures Components(n, edges)[edges[i].0] == Components(n, edges)[edges[i].1]
  {
    var k := |edges| - 1;
    if i < k {
      EdgeEndsAgree(n, edges[..k], i);
      assert edges[..k][i] == edges[i];
    }
  }

  lemma {:induction false} WalkInLarger(g: Graph, g': Graph, p: seq<nat>, i: nat, j: nat)
    requires |g| == |g'| && (forall a :: 0 <= a < |g| ==> g[a] <= g'[a]) && WalkFromTo(g, p, i, j)
    ensures Reaches(g', i, j)
  {
    assert WalkFromTo(g', p, i, j);
  }

  lemma MoreEdgesReach(n: nat, edges: seq<Edge>, more: seq<Edge>, i: nat, j: nat)
    requires EdgesBelow(edges, n) && EdgesBelow(more, n) && (forall e :: e in edges ==> e in more)
    requires Reaches(EdgeGraph(n, edges), i, j)
    ensures Reaches(EdgeGraph(n, more), i, j)
  {
    var (g, g') := (EdgeGraph(n, edges), EdgeGraph(n, more));
    forall a | 0 <= a < n
      ensures g[a] <= g'[a]
    {
      forall b | b in g[a] ensures b in g'[a] {
        EdgeGraphNeighbours(n, edges, a, b);
        EdgeGraphNeighbours(n, more, a, b);
      }
    }
    var p :| WalkFromTo(g, p, i, j);
    WalkInLarger(g, g', p, i, j);
  }

  lemma {:induction false} SameComponentReaches(n: nat, edges: seq<Edge>, x: nat, y: nat)
    requires EdgesBelow(edges, n) && x < n && y < n
    requires Components(n, edges)[x] == Components(n, edges)[y]
    ensures Reaches(EdgeGraph(n, edges), x, y)
    decreases |edges|, 0
  {
    var g := EdgeGraph(n, edges);
    if edges == [] {
      ReachesSelf(g, x);
    } else {
      hide EdgeGraph, Reaches, Symmetric;
      var k := |edges| - 1;
      var (init, u, v) := (edges[..k], edges[k].0, edges[k].1);
      var comp := Components(n, init);
      assert (u, v) in edges;
      EdgeGraphNeighbours(n, edges, u, v);
      ReachesSelf(g, v);
      ReachesStep(g, u, v, v);
      ReachesSymmetric(g, u, v);
      if comp[x] == comp[y] {
        ComponentReachesIn(n, init, edges, x, y);
      } else if comp[x] == comp[u] {
        ComponentReachesIn(n, init, edges, x, u);
        ComponentReachesIn(n, init, edges, v, y);
        ReachesTransitive(g, x, u, v);
        ReachesTransitive(g, x, v, y);
      } else {
        ComponentReachesIn(n, init, edges, x, v);
        ComponentReachesIn(n, init, edges, u, y);
        ReachesTransitive(g, x, v, u);
        ReachesTransitive(g, x, u, y);
      }
    }
  }

  lemma ComponentReachesIn(n: nat, init: seq<Edge>, edges: seq<Edge>, x: nat, y: nat)
    requires EdgesBelow(edges, n) && |init| < |edges| && init == edges[..|init|] && x < n && y < n
    requires Components(n, init)[x] == Components(n, init)[y]
    ensures Reaches(EdgeGraph(n, edges), x, y)
    decreases |init|, 1
  {
    hide EdgeGraph, Reaches;
    SameComponentReaches(n, init, x, y);
    forall e | e in init ensures e in edges {}
    MoreEdgesReach(n, init, edges, x, y);
  }

  /** Two nodes carry the same component label exactly when some walk joins them. */
  lemma ComponentsAreConnectivity(n: nat, edges: seq<Edge>, x: nat, y: nat)
    requires EdgesBelow(edges, n) && x < n && y < n
    ensures Components(n, edges)[x] == Components(n, edges)[y] <==> Reaches(EdgeGraph(n, edges), x, y)
  {
    var g := EdgeGraph(n, edges);
    var comp := Components(n, edges);
    if comp[x] == comp[y] { SameComponentReaches(n, edges, x, y); }
    if Reaches(g, x, y) {
      forall a, b | 0 <= a < n && 0 <= b < n && b in g[a]
        ensures comp[a] == comp[b]
      {
        EdgeGraphNeighbours(n, edges, a, b);
        var e := if (a, b) in edges then (a, b) else (b, a);
        var i :| 0 <= i < |edges| && edges[i] == e;
        EdgeEndsAgree(n, edges, i);
      }
      var p :| WalkFromTo(g, p, x, y);
      WalkKeepsValue(g, comp, p, x, y);
    }
  }

  // ----- the parent array

  /** Ranks rise along parent pointers: a ghost witness that the pointers form a forest. */
  ghost predicate Forest(parent: seq<nat>, rank: seq<nat>, top: nat) {
    && |rank| == |parent|
    && forall x :: 0 <= x < |parent| ==>
         parent[x] < |parent| && rank[x] <= top && (parent[x] != x ==> rank[x] < rank[parent[x]])
  }

  ghost function Root(parent: seq<nat>, rank: seq<nat>, top: nat, x: nat): (r: nat)
    requires Forest(parent, rank, top) && x < |parent|
    ensures r < |parent| && parent[r] == r && rank[x] <= rank[r]
    decreases top - rank[x]
  {
    if parent[x] == x then x else Root(parent, rank, top, parent[x])
  }

  /** Pointing `x` at another node of higher rank in its own tree moves no root. */
  lemma {:induction false} RedirectKeepsRoots(parent: seq<nat>, rank: seq<nat>, top: nat, x: nat, y: nat, z: nat)
    requires Forest(parent, rank, top) && x < |parent| && y < |parent| && z < |parent|
    requires rank[x] < rank[y]
    requires Root(parent, rank, top, x) == Root(parent, rank, top, y)
    ensures Forest(parent[x := y], rank, top)
    ensures Root(parent[x := y], rank, top, z) == Root(parent, rank, top, z)
    decreases top - rank[z]
  {
    var parent' := parent[x := y];
    if z == x {
      RedirectKeepsRoots(parent, rank, top, x, y, y);
    } else if parent[z] != z {
      RedirectKeepsRoots(parent, rank, top, x, y, parent[z]);
    }
  }

  /** Hanging root `a` under root `b`. */
  ghost function Lift(rank: seq<nat>, a: nat, b: nat): seq<nat>
    requires a < |rank| && b < |rank|
  {
    if rank[a] < rank[b] then rank else rank[b := rank[a] + 1]
  }

  lemma {:induction false} LinkMovesOneTree(parent: seq<nat>, rank: seq<nat>, top: nat, a: nat, b: nat, z: nat)
    requires Forest(parent, rank, top) && a < |parent| && b < |parent| && z < |parent|
    requires parent[a] == a && parent[b] == b && a != b
    ensures Forest(parent[a := b], Lift(rank, a, b), top + 1)
    ensures Root(parent[a := b], Lift(rank, a, b), top + 1, z)
         == if Root(parent, rank, top, z) == a then b else Root(parent, rank, top, z)
    decreases top - rank[z]
  {
    if z == a {
      assert Root(parent[a := b], Lift(rank, a, b), top + 1, b) == b;
    } else if parent[z] != z {
      LinkMovesOneTree(parent, rank, top, a, b, parent[z]);
    }
  }

  /** The trees stand for the components `comp`. */
  ghost predicate Represents(parent: seq<nat>, rank: seq<nat>, top: nat, comp: seq<nat>) {
    Forest(parent, rank, top) && |comp| == |parent|
    && forall x: nat :: x < |parent| ==> Root(parent, rank, top, x) == comp[x]
  }

  lemma RedirectRepresents(parent: seq<nat>, rank: seq<nat>, top: nat, comp: seq<nat>, x: nat)
    requires Represents(parent, rank, top, comp) && x < |parent| && parent[x] != x
    ensures parent[x] < |parent| && parent[parent[x]] < |parent| && comp[parent[x]] == comp[x]
    ensures Represents(parent[x := parent[parent[x]]], rank, top, comp)
    ensures rank[x] < rank[parent[parent[x]]] && comp[parent[parent[x]]] == comp[x]
  {
    var grand := parent[parent[x]];
    assert Root(parent, rank, top, x) == Root(parent, rank, top, parent[x]) == Root(parent, rank, top, grand);
    forall z: nat | z < |parent|
      ensures Forest(parent[x := grand], rank, top)
      ensures Root(parent[x := grand], rank, top, z) == comp[z]
    {
      RedirectKeepsRoots(parent, rank, top, x, grand, z);
    }
  }

  lemma LinkRepresents(parent: seq<nat>, rank: seq<nat>, top: nat, comp: seq<nat>, u: nat, v: nat)
    requires Represents(parent, rank, top, comp) && u < |parent| && v < |parent|
    requires comp[u] != comp[v]
    ensures comp[u] < |parent| && comp[v] < |parent|
    ensures Represents(parent[comp[u] := comp[v]], Lift(rank, comp[u], comp[v]), top + 1, Merge(comp, u, v))
  {
    var (a, b) := (comp[u], comp[v]);
    assert Root(parent, rank, top, u) == a && Root(parent, rank, top, v) == b;
    forall z: nat | z < |parent|
      ensures Forest(parent[a := b], Lift(rank, a, b), top + 1)
      ensures Root(parent[a := b], Lift(rank, a, b), top + 1, z) == Merge(comp, u, v)[z]
    {
      LinkMovesOneTree(parent, rank, top, a, b, z);
    }
  }

  lemma Sizes(parent: seq<nat>, rank: seq<nat>, top: nat, comp: seq<nat>)
    requires Represents(parent, rank, top, comp)
    ensures |comp| == |parent| == |rank|
  {}

  /** Joining a component to itself rewrites its root's own pointer. */
  lemma SelfLink(parent: seq<nat>, rank: seq<nat>, top: nat, comp: seq<nat>, u: nat, v: nat)
    requires Represents(parent, rank, top, comp) && u < |parent| && v < |parent| && comp[u] == comp[v]
    ensures comp[u] < |parent| && parent[comp[u] := comp[v]] == parent && Merge(comp, u, v) == comp
  {
    assert Root(parent, rank, top, u) == comp[u];
  }

  class Forests {
    const parent: array<nat>
    ghost var rank: seq<nat>
    ghost var top: nat

    ghost predicate StandsFor(comp: seq<nat>)
      reads this, parent
    {
      Represents(parent[..], rank, top, comp)
    }

    constructor (n: nat)
      ensures parent.Length == n && fresh(parent) && StandsFor(Identity(n))
    {
      parent := new nat[n](i => i);
      rank := seq(n, i => 0);
      top := 0;
    }

    /** Walk to the root, halving the path on the way. */
    method Find(x: nat, ghost comp: seq<nat>) returns (r: nat)
      requires StandsFor(comp) && x < parent.Length
      modifies parent
      ensures StandsFor(comp) && r == comp[x] && r < parent.Length && parent[r] == r
    {
      r := x;
      while parent[r] != r
        invariant StandsFor(comp) && r < parent.Length && comp[r] == comp[x]
        decreases top - rank[r]
      {
        ghost var before: seq<nat> := parent[..];
        RedirectRepresents(before, rank, top, comp, r);
        parent[r] := parent[parent[r]];
        assert parent[..] == before[r := before[before[r]]];
        r := parent[r];
      }
    }

    /** `parent[find(u)] = find(v)`: the right side is evaluated first. */
    method Union(u: nat, v: nat, ghost comp: seq<nat>)
      requires StandsFor(comp) && u < parent.Length && v < parent.Length
      modifies this, parent
      ensures StandsFor(Merge(comp, u, v))
    {
      hide Represents, Merge, Lift;
      Sizes(parent[..], rank, top, comp);
      var to := Find(v, comp);
      var from := Find(u, comp);
      ghost var before: seq<nat> := parent[..];
      if from != to {
        LinkRepresents(before, rank, top, comp, u, v);
        rank, top := Lift(rank, from, to), top + 1;
      } else {
        SelfLink(parent[..], rank, top, comp, u, v);
      }
      parent[from] := to;
      assert parent[..] == before[comp[u] := comp[v]];
    }
  }
}
