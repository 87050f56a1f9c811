/**
  What a caller of `label_propagation` relies on: communities stay inside connected components,
  the ids do not depend on how nodes are named, and symmetry is what makes the loop settle.
 */
module LabelProperties {
  import opened Ordering
  import opened Grouping
  import opened LabelSpec
  import opened LabelPropagation
  import opened Walks

  // ----- communities and connected components

  /** Every node's label is the index of a node it can reach. */
  ghost predicate LabelsReached(g: Graph, labels: Labels)
    requires |labels| == |g|
  {
    forall i: nat :: i < |g| ==> Reaches(g, i, labels[i])
  }

  lemma {:induction false} SweepLabelsReached(g: Graph, labels: Labels, k: nat)
    requires k <= |g| && Labelling(g, labels) && Closed(g) && LabelsReached(g, labels)
    ensures LabelsReached(g, Sweep(g, labels, k))
  {
    if k > 0 {
      SweepLabelsReached(g, labels, k - 1);
      var seen := Sweep(g, labels, k - 1);
      if g[k - 1] != {} {
        var l := Preferred(g, seen, k - 1);
        var j :| j in g[k - 1] && seen[j] == l;
        ReachesStep(g, k - 1, j, l);
      }
    }
  }

  lemma {:induction false} PropagateLabelsReached(g: Graph, labels: Labels, cap: nat)
    requires Labelling(g, labels) && Closed(g) && LabelsReached(g, labels)
    ensures LabelsReached(g, Propagate(g, labels, cap))
    decreases cap
  {
    if cap > 0 && Pass(g, labels) != labels {
      SweepLabelsReached(g, labels, |g|);
      PropagateLabelsReached(g, Pass(g, labels), cap - 1);
    }
  }

  /** On a symmetric graph no community crosses a connected component, at any pass limit. */
  lemma CommunityIsConnectedTo<N(!new)>(adjacency: map<N, set<N>>, less: (N, N) -> bool, maxIterations: int,
                                        ids: map<N, nat>, i: nat, j: nat)
    requires StrictTotal(less) && ClosedAdjacency(adjacency)
    requires IsCommunities(adjacency, less, maxIterations, ids)
    requires Symmetric(IndexGraph(Sorted(adjacency.Keys, less), adjacency))
    requires i < |adjacency| && j < |adjacency|
    requires ids[Sorted(adjacency.Keys, less)[i]] == ids[Sorted(adjacency.Keys, less)[j]]
    ensures Reaches(IndexGraph(Sorted(adjacency.Keys, less), adjacency), i, j)
  {
    var nodes := Sorted(adjacency.Keys, less);
    var g := IndexGraph(nodes, adjacency);
    hide StrictTotal, Ascending, Symmetric, Reaches, Propagate;
    var start := Identity(|nodes|);
    forall k: nat | k < |g| ensures Reaches(g, k, start[k]) { ReachesSelf(g, k); }
    PropagateLabelsReached(g, start, Cap(maxIterations));
    var final := Propagate(g, start, Cap(maxIterations));
    assert IdsOf(nodes, ids)[i] == IdsOf(nodes, ids)[j];
    assert final[i] == final[j];
    ReachesSymmetric(g, j, final[j]);
    ReachesTransitive(g, i, final[i], j);
  }

  // ----- naming of nodes

  /** `f` renames `adjacency` into `adjacency'` and keeps the order of the nodes. */
  ghost predicate Renames<N(!new), M(!new)>(f: N -> M, adjacency: map<N, set<N>>, less: (N, N) -> bool,
                                            adjacency': map<M, set<M>>, less': (M, M) -> bool) {
    && (forall v, w :: v in adjacency && w in adjacency && less(v, w) ==> less'(f(v), f(w)))
    && adjacency'.Keys == (set v | v in adjacency :: f(v))
    && (forall v :: v in adjacency ==> adjacency'[f(v)] == set w | w in adjacency[v] :: f(w))
  }

  lemma RenamedNodes<N(!new), M(!new)>(f: N -> M, adjacency: map<N, set<N>>, less: (N, N) -> bool,
                                       adjacency': map<M, set<M>>, less': (M, M) -> bool)
    requires StrictTotal(less) && StrictTotal(less')
    requires Renames(f, adjacency, less, adjacency', less')
    ensures var nodes := Sorted(adjacency.Keys, less);
            Sorted(adjacency'.Keys, less') == seq(|nodes|, i requires 0 <= i < |nodes| => f(nodes[i]))
  {
    var nodes := Sorted(adjacency.Keys, less);
    var renamed := seq(|nodes|, i requires 0 <= i < |nodes| => f(nodes[i]));
    hide StrictTotal, Ascending;
    RenamedAscends(f, adjacency, less, adjacency', less', nodes, renamed);
    RenamedKeys(f, adjacency, nodes, adjacency', renamed);
    AscendingUnique(Sorted(adjacency'.Keys, less'), renamed, less');
  }

  lemma RenamedAscends<N(!new), M(!new)>(f: N -> M, adjacency: map<N, set<N>>, less: (N, N) -> bool,
                                         adjacency': map<M, set<M>>, less': (M, M) -> bool, nodes: seq<N>, renamed: seq<M>)
    requires Renames(f, adjacency, less, adjacency', less') && Ascending(nodes, less)
    requires forall v :: v in nodes <==> v in adjacency
    requires |renamed| == |nodes| && forall i :: 0 <= i < |nodes| ==> renamed[i] == f(nodes[i])
    ensures Ascending(renamed, less')
  {
    forall i, j | 0 <= i < j < |renamed|
      ensures less'(renamed[i], renamed[j])
    {
      assert nodes[i] in nodes && nodes[j] in nodes;
    }
  }

  lemma RenamedKeys<N(!new), M(!new)>(f: N -> M, adjacency: map<N, set<N>>, nodes: seq<N>, adjacency': map<M, set<M>>, renamed: seq<M>)
    requires forall v :: v in nodes <==> v in adjacency
    requires |renamed| == |nodes| && forall i :: 0 <= i < |nodes| ==> renamed[i] == f(nodes[i])
    requires adjacency'.Keys == (set v | v in adjacency :: f(v))
    ensures forall x :: x in renamed <==> x in adjacency'.Keys
  {
    forall x | x in adjacency'.Keys
      ensures x in renamed
    {
      var v :| v in adjacency && f(v) == x;
      assert v in nodes;
      var i :| 0 <= i < |nodes| && nodes[i] == v;
      assert renamed[i] == x;
    }
    forall x | x in renamed
      ensures x in adjacency'.Keys
    {
      var i :| 0 <= i < |renamed| && renamed[i] == x;
      assert nodes[i] in nodes;
    }
  }

  lemma RenamedEdge<N(!new), M(!new)>(f: N -> M, adjacency: map<N, set<N>>, less: (N, N) -> bool,
                                      adjacency': map<M, set<M>>, less': (M, M) -> bool, v: N, w: N)
    requires StrictTotal(less) && StrictTotal(less') && ClosedAdjacency(adjacency)
    requires Renames(f, adjacency, less, adjacency', less') && v in adjacency && w in adjacency
    ensures f(v) in adjacency' && (f(w) in adjacency'[f(v)] <==> w in adjacency[v])
  {
    assert f(v) in adjacency'.Keys;
    if f(w) in adjacency'[f(v)] {
      var x :| x in adjacency[v] && f(x) == f(w);
      assert less(x, w) ==> less'(f(x), f(w));
      assert less(w, x) ==> less'(f(w), f(x));
      assert x == w;
    }
  }

  lemma SameEdgesSameGraph<N, M>(nodes: seq<N>, adjacency: map<N, set<N>>, nodes': seq<M>, adjacency': map<M, set<M>>)
    requires |nodes| == |nodes'|
    requires forall v :: v in nodes ==> v in adjacency
    requires forall v :: v in nodes' ==> v in adjacency'
    requires forall i, j | 0 <= i < |nodes| && 0 <= j < |nodes| ::
               nodes[j] in adjacency[nodes[i]] <==> nodes'[j] in adjacency'[nodes'[i]]
    ensures IndexGraph(nodes, adjacency) == IndexGraph(nodes', adjacency')
  {
    var g, g' := IndexGraph(nodes, adjacency), IndexGraph(nodes', adjacency');
    forall i | 0 <= i < |g|
      ensures g[i] == g'[i]
    {
      assert forall j :: j in g[i] <==> j in g'[i];
    }
  }

  lemma RenamedGraph<N(!new), M(!new)>(f: N -> M, adjacency: map<N, set<N>>, less: (N, N) -> bool,
                                       adjacency': map<M, set<M>>, less': (M, M) -> bool)
    requires StrictTotal(less) && StrictTotal(less') && ClosedAdjacency(adjacency)
    requires Renames(f, adjacency, less, adjacency', less')
    ensures IndexGraph(Sorted(adjacency.Keys, less), adjacency) == IndexGraph(Sorted(adjacency'.Keys, less'), adjacency')
  {
    hide StrictTotal, Renames, ClosedAdjacency, Ascending, IndexGraph;
    RenamedNodes(f, adjacency, less, adjacency', less');
    var nodes := Sorted(adjacency.Keys, less);
    var nodes' := Sorted(adjacency'.Keys, less');
    forall i, j | 0 <= i < |nodes| && 0 <= j < |nodes|
      ensures nodes[j] in adjacency[nodes[i]] <==> nodes'[j] in adjacency'[nodes'[i]]
    {
      assert nodes[i] in nodes && nodes[j] in nodes;
      RenamedEdge(f, adjacency, less, adjacency', less', nodes[i], nodes[j]);
    }
    SameEdgesSameGraph(nodes, adjacency, nodes', adjacency');
  }

  /** Community ids survive any order-preserving renaming: the run on integer indices repeats the
      run on `(path, line, name)` nodes. With the identity renaming, ids do not depend on the
      order in which a neighbour set is iterated. */
  lemma RenamingKeepsIds<N(!new), M(!new)>(f: N -> M, adjacency: map<N, set<N>>, less: (N, N) -> bool, ids: map<N, nat>,
                                           adjacency': map<M, set<M>>, less': (M, M) -> bool, ids': map<M, nat>,
                                           maxIterations: int)
    requires StrictTotal(less) && StrictTotal(less') && ClosedAdjacency(adjacency)
    requires Renames(f, adjacency, less, adjacency', less')
    requires IsCommunities(adjacency, less, maxIterations, ids)
    requires IsCommunities(adjacency', less', maxIterations, ids')
    ensures forall v :: v in adjacency ==> f(v) in ids' && ids'[f(v)] == ids[v]
  {
    hide StrictTotal, Renames, Numbering, Propagate, ClosedAdjacency, Ascending;
    RenamedGraph(f, adjacency, less, adjacency', less');
    RenamedNodes(f, adjacency, less, adjacency', less');
    var nodes := Sorted(adjacency.Keys, less);
    var nodes' := Sorted(adjacency'.Keys, less');
    var final := Propagate(IndexGraph(nodes, adjacency), Identity(|nodes|), Cap(maxIterations));
    NumberingUnique(final, final, IdsOf(nodes, ids), IdsOf(nodes', ids'));
    forall v | v in adjacency
      ensures f(v) in ids' && ids'[f(v)] == ids[v]
    {
      assert v in nodes;
      var i :| 0 <= i < |nodes| && nodes[i] == v;
      assert nodes'[i] in nodes';
      assert IdsOf(nodes, ids)[i] == IdsOf(nodes', ids')[i];
    }
  }

  // ----- why symmetry matters

  lemma CopiesOnlyNeighbour(g: Graph, labels: Labels, i: nat, j: nat)
    requires i < |g| && j < |g| && Labelling(g, labels) && Closed(g) && g[i] == {j}
    ensures Update(g, labels, i) == labels[i := labels[j]]
  {}

  /** The one-way triangle 0 -> 1 -> 2 -> 0. */
  const ONE_WAY: Graph := [{1}, {2}, {0}]

  lemma OneWayPass(a: nat, b: nat, c: nat)
    requires a < 3 && b < 3 && c < 3
    ensures Pass(ONE_WAY, [a, b, c]) == [b, c, b]
  {
    var g := ONE_WAY;
    CopiesOnlyNeighbour(g, [a, b, c], 0, 1);
    CopiesOnlyNeighbour(g, [b, b, c], 1, 2);
    CopiesOnlyNeighbour(g, [b, c, c], 2, 0);
    assert Sweep(g, [a, b, c], 0) == [a, b, c];
    assert Sweep(g, [a, b, c], 1) == [b, b, c];
    assert Sweep(g, [a, b, c], 2) == [b, c, c];
  }

  lemma {:induction false} OneWayKeepsTurning(a: nat, b: nat, cap: nat)
    requires a < 3 && b < 3 && a != b
    ensures !Stable(ONE_WAY, Propagate(ONE_WAY, [a, b, a], cap))
    decreases cap
  {
    OneWayPass(a, b, a);
    FixedPointIsStable(ONE_WAY, [a, b, a]);
    assert [b, a, b][0] != [a, b, a][0];
    if cap > 0 { OneWayKeepsTurning(b, a, cap - 1); }
  }

  /** Without symmetry the loop need not settle: on the one-way triangle no pass limit ends stable. */
  lemma OneWayNeverStable(cap: nat)
    ensures !Stable(ONE_WAY, Propagate(ONE_WAY, Identity(3), cap))
  {
    hide Stable, Pass, Labelling, Closed;
    assert Identity(3) == [0, 1, 2];
    OneWayPass(0, 1, 2);
    FixedPointIsStable(ONE_WAY, [0, 1, 2]);
    assert [1, 2, 1][0] != [0, 1, 2][0];
    if cap > 0 { OneWayKeepsTurning(1, 2, cap - 1); }
  }
}
