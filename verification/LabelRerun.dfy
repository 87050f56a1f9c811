/**
  `rerun_lpa`: label propagation on the integer indices of a projected graph, in canonical form.
 */
module LabelRerun {
  import opened Ordering
  import opened Grouping
  import opened LabelSpec
  import opened LabelPropagation
  import opened LabelProperties
  import opened Walks
  import opened UnionFind
  import opened Partitions

  const FROZEN_LPA_MAX_ITERATIONS := 100

  /** The adjacency dictionary of an edge list over 0..n-1. */
  ghost predicate IsAdjacency(n: nat, edges: seq<Edge>, adjacency: map<int, set<int>>) {
    && (forall v :: v in adjacency <==> 0 <= v < n)
    && (forall v, w :: v in adjacency ==> (w in adjacency[v] <==> 0 <= w < n && ((v, w) in edges || (w, v) in edges)))
  }

  method BuildAdjacency(n: nat, edges: seq<Edge>) returns (adjacency: map<int, set<int>>)
    requires EdgesBelow(edges, n)
    ensures IsAdjacency(n, edges, adjacency)
  {
    adjacency := map[];
    for i := 0 to n
      invariant forall v :: v in adjacency <==> 0 <= v < i
      invariant forall v :: v in adjacency ==> adjacency[v] == {}
    {
      adjacency := adjacency[i := {}];
    }
    for k := 0 to |edges|
      invariant IsAdjacency(n, edges[..k], adjacency)
    {
      var (u, v) := edges[k];
      adjacency := adjacency[u := adjacency[u] + {v as int}];
      adjacency := adjacency[v := adjacency[v] + {u as int}];
      assert edges[..k + 1] == edges[..k] + [edges[k]];
    }
    assert edges[..|edges|] == edges;
  }

  lemma SortedIndices(n: nat, adjacency: map<int, set<int>>)
    requires forall v :: v in adjacency <==> 0 <= v < n
    ensures StrictTotal(IntLess)
    ensures Sorted(adjacency.Keys, IntLess) == seq(n, i => i)
  {
    IntOrder();
    var nodes := seq(n, i => i);
    forall x ensures x in nodes <==> x in adjacency.Keys {
      if 0 <= x < n { assert nodes[x] == x; }
    }
    AscendingUnique(Sorted(adjacency.Keys, IntLess), nodes, IntLess);
  }

  /** On integer nodes the index graph is the graph of the edge list. */
  lemma AdjacencyGraph(n: nat, edges: seq<Edge>, adjacency: map<int, set<int>>)
    requires EdgesBelow(edges, n) && IsAdjacency(n, edges, adjacency)
    ensures StrictTotal(IntLess) && ClosedAdjacency(adjacency)
    ensures IndexGraph(Sorted(adjacency.Keys, IntLess), adjacency) == EdgeGraph(n, edges)
  {
    hide StrictTotal, EdgeGraph, Ascending;
    SortedIndices(n, adjacency);
    var nodes: seq<int> := seq(n, i => i);
    var g, g' := IndexGraph(nodes, adjacency), EdgeGraph(n, edges);
    forall i | 0 <= i < n
      ensures g[i] == g'[i]
    {
      forall j: nat
        ensures j in g[i] <==> j in g'[i]
      {
        EdgeGraphNeighbours(n, edges, i, j);
        if j in g'[i] { assert j < n; }
      }
    }
  }

  /** The labels that label propagation leaves on the graph. */
  ghost function FinalLabels(n: nat, edges: seq<Edge>): (labels: Labels)
    requires EdgesBelow(edges, n)
    ensures |labels| == n
  {
    Propagate(EdgeGraph(n, edges), Identity(n), FROZEN_LPA_MAX_ITERATIONS)
  }

  method RerunLpa(n: nat, edges: seq<Edge>) returns (communities: Partition)
    requires EdgesBelow(edges, n)
    ensures Canonical(communities, n) && GroupsBy(communities, FinalLabels(n, edges))
    ensures GroupsBy(communities, Iterate(EdgeGraph(n, edges), Identity(n), 100))
  {
    assert FinalLabels(n, edges) == Iterate(EdgeGraph(n, edges), Identity(n), 100) by {
      EarlyStopIsUnfelt(EdgeGraph(n, edges), Identity(n), 100);
    }
    hide Canonical, StrictTotal, IsAdjacency, IsCommunities, FinalLabels, SameGrouping, GroupsBy, ClosedAdjacency;
    var adjacency := BuildAdjacency(n, edges);
    AdjacencyGraph(n, edges, adjacency);
    var ids := LabelPropagation.LabelPropagation(adjacency, IntLess, FROZEN_LPA_MAX_ITERATIONS);
    IdsGroupLikeLabels(n, edges, adjacency, ids);
    var membership := seq(n, i requires 0 <= i < n => ids[i]);
    communities := Canonicalize(membership);
    RegroupedAlike(communities, membership, FinalLabels(n, edges));
  }

  lemma IdsGroupLikeLabels(n: nat, edges: seq<Edge>, adjacency: map<int, set<int>>, ids: map<int, nat>)
    requires EdgesBelow(edges, n) && IsAdjacency(n, edges, adjacency) && StrictTotal(IntLess)
    requires IsCommunities(adjacency, IntLess, FROZEN_LPA_MAX_ITERATIONS, ids)
    ensures forall v :: 0 <= v < n ==> v in ids
    ensures SameGrouping(FinalLabels(n, edges), seq(n, i requires 0 <= i < n => ids[i]))
  {
    hide StrictTotal, IndexGraph, EdgeGraph, Propagate, RestrictedGrowth, IsAdjacency, Ascending, SameGrouping;
    AdjacencyGraph(n, edges, adjacency);
    Keys(n, edges, adjacency);
    SortedIndices(n, adjacency);
    forall v | 0 <= v < n ensures v in ids { assert v in adjacency.Keys; }
    assert IdsOf(Sorted(adjacency.Keys, IntLess), ids) == seq(n, i requires 0 <= i < n => ids[i]);
  }

  lemma Keys(n: nat, edges: seq<Edge>, adjacency: map<int, set<int>>)
    requires IsAdjacency(n, edges, adjacency)
    ensures forall v :: v in adjacency <==> 0 <= v < n
  {}

  lemma RegroupedAlike(p: Partition, ids: seq<int>, labels: seq<int>)
    requires GroupsBy(p, ids) && SameGrouping(labels, ids)
    ensures GroupsBy(p, labels)
  {}

  /** No community of the rerun crosses a connected component. */
  lemma RerunStaysConnected(n: nat, edges: seq<Edge>, communities: Partition, u: nat, v: nat)
    requires EdgesBelow(edges, n) && GroupsBy(communities, FinalLabels(n, edges))
    requires u < n && v < n && Together(communities, u, v)
    ensures Reaches(EdgeGraph(n, edges), u, v)
  {
    var g := EdgeGraph(n, edges);
    forall k: nat | k < |g| ensures Reaches(g, k, Identity(n)[k]) { ReachesSelf(g, k); }
    PropagateLabelsReached(g, Identity(n), FROZEN_LPA_MAX_ITERATIONS);
    var final := FinalLabels(n, edges);
    assert final[u] == final[v];
    ReachesSymmetric(g, v, final[v]);
    ReachesTransitive(g, u, final[u], v);
  }
}
