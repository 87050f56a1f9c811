/** Walks and connectivity in a graph given by neighbour sets. */
module Walks {
  import opened LabelSpec

  ghost predicate Walk(g: Graph, p: seq<nat>) {
    && p != []
    && (forall k :: 0 <= k < |p| ==> p[k] < |g|)
    && (forall k :: 0 <= k < |p| - 1 ==> p[k + 1] in g[p[k]])
  }

  ghost predicate WalkFromTo(g: Graph, p: seq<nat>, i: nat, j: nat) {
    Walk(g, p) && p[0] == i && p[|p| - 1] == j
  }

  ghost predicate Reaches(g: Graph, i: nat, j: nat) {
    exists p :: WalkFromTo(g, p, i, j)
  }

  lemma ReachesSelf(g: Graph, i: nat)
    requires i < |g|
    ensures Reaches(g, i, i)
  {
    assert WalkFromTo(g, [i], i, i);
  }

  lemma ReachesStep(g: Graph, i: nat, j: nat, k: nat)
    requires i < |g| && j in g[i] && Reaches(g, j, k)
    ensures Reaches(g, i, k)
  {
    var p :| WalkFromTo(g, p, j, k);
    assert WalkFromTo(g, [i] + p, i, k);
  }

  lemma {:induction false} WalkReaches(g: Graph, p: seq<nat>, i: nat, j: nat, k: nat)
    requires WalkFromTo(g, p, i, j) && Reaches(g, j, k)
    ensures Reaches(g, i, k)
  {
    if |p| > 1 {
      assert WalkFromTo(g, p[1..], p[1], j);
      WalkReaches(g, p[1..], p[1], j, k);
      ReachesStep(g, i, p[1], k);
    }
  }

  lemma ReachesTransitive(g: Graph, i: nat, j: nat, k: nat)
    requires Reaches(g, i, j) && Reaches(g, j, k)
    ensures Reaches(g, i, k)
  {
    var p :| WalkFromTo(g, p, i, j);
    WalkReaches(g, p, i, j, k);
  }

  lemma {:induction false} WalkReverses(g: Graph, p: seq<nat>, i: nat, j: nat)
    requires Symmetric(g) && WalkFromTo(g, p, i, j)
    ensures Reaches(g, j, i)
  {
    if |p| > 1 {
      assert WalkFromTo(g, p[1..], p[1], j);
      WalkReverses(g, p[1..], p[1], j);
      ReachesSelf(g, i);
      assert i in g[p[1]];
      ReachesStep(g, p[1], i, i);
      ReachesTransitive(g, j, p[1], i);
    } else {
      ReachesSelf(g, i);
    }
  }

  lemma ReachesSymmetric(g: Graph, i: nat, j: nat)
    requires Symmetric(g) && Reaches(g, i, j)
    ensures Reaches(g, j, i)
  {
    var p :| WalkFromTo(g, p, i, j);
    WalkReverses(g, p, i, j);
  }

  /** Values that agree across every edge agree along every walk. */
  lemma {:induction false} WalkKeepsValue(g: Graph, values: seq<int>, p: seq<nat>, i: nat, j: nat)
    requires |values| == |g| && WalkFromTo(g, p, i, j)
    requires forall a, b :: 0 <= a < |g| && 0 <= b < |g| && b in g[a] ==> values[a] == values[b]
    ensures values[i] == values[j]
  {
    if |p| > 1 {
      assert WalkFromTo(g, p[1..], p[1], j);
      WalkKeepsValue(g, values, p[1..], p[1], j);
      assert p[1] in g[p[0]];
    }
  }
}
