/**
  Label propagation in index space: node i is the i-th node in ascending order, a graph lists
  each node's neighbours, and a labelling gives each node a number below the node count.
 */
module LabelSpec {

  type Graph = seq<set<nat>>
  type Labels = seq<nat>

  ghost predicate Closed(g: Graph) {
    forall i, j :: 0 <= i < |g| && j in g[i] ==> j < |g|
  }

  ghost predicate Symmetric(g: Graph) {
    Closed(g) && forall i, j :: 0 <= i < |g| && 0 <= j < |g| && j in g[i] ==> i in g[j]
  }

  predicate Labelling(g: Graph, labels: Labels) {
    |labels| == |g| && forall i :: 0 <= i < |labels| ==> labels[i] < |g|
  }

  /** How many of the nodes below `k` are neighbours of `i` and carry label `l`. */
  ghost function Votes(g: Graph, labels: Labels, i: nat, l: nat, k: nat): nat
    requires i < |g| && |labels| == |g| && k <= |g|
  {
    if k == 0 then 0
    else Votes(g, labels, i, l, k - 1) + if k - 1 in g[i] && labels[k - 1] == l then 1 else 0
  }

  ghost function Support(g: Graph, labels: Labels, i: nat, l: nat): nat
    requires i < |g| && |labels| == |g|
  {
    Votes(g, labels, i, l, |g|)
  }

  /** `l` is the smallest of the most frequent labels among the neighbours of `i`. */
  ghost predicate IsPreferred(g: Graph, labels: Labels, i: nat, l: nat)
    requires i < |g| && |labels| == |g|
  {
    && Support(g, labels, i, l) > 0
    && forall x: nat :: Support(g, labels, i, x) < Support(g, labels, i, l)
                   || (Support(g, labels, i, x) == Support(g, labels, i, l) && l <= x)
  }

  /** The best supported of the labels 0..k, the smallest on a tie. */
  ghost function Best(g: Graph, labels: Labels, i: nat, k: nat): (b: nat)
    requires i < |g| && |labels| == |g|
    ensures b <= k
    ensures forall x: nat | x <= k ::
              Support(g, labels, i, x) < Support(g, labels, i, b)
              || (Support(g, labels, i, x) == Support(g, labels, i, b) && b <= x)
  {
    if k == 0 then 0
    else
      var b := Best(g, labels, i, k - 1);
      if Support(g, labels, i, k) > Support(g, labels, i, b) then k else b
  }

  lemma {:induction false} VotesWitness(g: Graph, labels: Labels, i: nat, l: nat, k: nat)
    requires i < |g| && |labels| == |g| && k <= |g|
    ensures Votes(g, labels, i, l, k) > 0 <==> exists j: nat :: j < k && j in g[i] && labels[j] == l
  {
    if k > 0 { VotesWitness(g, labels, i, l, k - 1); }
  }

  ghost function Preferred(g: Graph, labels: Labels, i: nat): (l: nat)
    requires i < |g| && Labelling(g, labels) && Closed(g) && g[i] != {}
    ensures l < |g| && IsPreferred(g, labels, i, l)
    ensures exists j :: j in g[i] && labels[j] == l
  {
    var b := Best(g, labels, i, |g| - 1);
    assert IsPreferred(g, labels, i, b) && exists j :: j in g[i] && labels[j] == b by {
      var j :| j in g[i];
      VotesWitness(g, labels, i, labels[j], |g|);
      assert Support(g, labels, i, labels[j]) > 0;
      forall x: nat | x >= |g| ensures Support(g, labels, i, x) == 0 { VotesWitness(g, labels, i, x, |g|); }
      VotesWitness(g, labels, i, b, |g|);
    }
    b
  }

  lemma PreferredUnique(g: Graph, labels: Labels, i: nat, l: nat)
    requires i < |g| && Labelling(g, labels) && Closed(g) && g[i] != {}
    requires IsPreferred(g, labels, i, l)
    ensures l == Preferred(g, labels, i)
  {
    var p := Preferred(g, labels, i);
    assert Support(g, labels, i, p) <= Support(g, labels, i, l);
    assert Support(g, labels, i, l) <= Support(g, labels, i, p);
  }

  ghost function Update(g: Graph, labels: Labels, i: nat): (r: Labels)
    requires i < |g| && Labelling(g, labels) && Closed(g)
    ensures Labelling(g, r)
  {
    if g[i] == {} then labels else labels[i := Preferred(g, labels, i)]
  }

  /** The labels after nodes 0..k-1 were visited in order, each seeing the updates before it. */
  ghost function Sweep(g: Graph, labels: Labels, k: nat): (r: Labels)
    requires k <= |g| && Labelling(g, labels) && Closed(g)
    ensures Labelling(g, r)
    ensures forall i :: k <= i < |g| ==> r[i] == labels[i]
  {
    if k == 0 then labels else Update(g, Sweep(g, labels, k - 1), k - 1)
  }

  ghost function Pass(g: Graph, labels: Labels): (r: Labels)
    requires Labelling(g, labels) && Closed(g)
    ensures Labelling(g, r)
  {
    Sweep(g, labels, |g|)
  }

  /** At most `cap` passes, stopping after the first that changes nothing. */
  ghost function Propagate(g: Graph, labels: Labels, cap: nat): (r: Labels)
    requires Labelling(g, labels) && Closed(g)
    ensures Labelling(g, r)
    decreases cap
  {
    if cap == 0 then labels
    else
      var next := Pass(g, labels);
      if next == labels then labels else Propagate(g, next, cap - 1)
  }

  function Identity(n: nat): (r: Labels)
    ensures |r| == n && forall i :: 0 <= i < n ==> r[i] == i
  {
    seq(n, i => i)
  }

  /** Every node with a neighbour holds the smallest most frequent label around it. */
  ghost predicate Stable(g: Graph, labels: Labels)
    requires Labelling(g, labels) && Closed(g)
  {
    forall i :: 0 <= i < |g| && g[i] != {} ==> IsPreferred(g, labels, i, labels[i])
  }

  lemma {:induction false} SweepUnchanged(g: Graph, labels: Labels, k: nat)
    requires k <= |g| && Labelling(g, labels) && Closed(g)
    requires Sweep(g, labels, |g|) == labels
    ensures Sweep(g, labels, k) == labels
    decreases |g| - k
  {
    if k < |g| {
      SweepUnchanged(g, labels, k + 1);
      var s := Sweep(g, labels, k);
      assert Update(g, s, k) == labels;
      assert forall i :: 0 <= i < |g| && i != k ==> s[i] == labels[i];
      assert s[k] == labels[k];
      assert s == labels;
    }
  }

  /** A pass that changes nothing is exactly a stable labelling. */
  lemma {:induction false} FixedPointIsStable(g: Graph, labels: Labels)
    requires Labelling(g, labels) && Closed(g)
    ensures Pass(g, labels) == labels <==> Stable(g, labels)
  {
    if Pass(g, labels) == labels {
      forall i | 0 <= i < |g| && g[i] != {} ensures IsPreferred(g, labels, i, labels[i]) {
        SweepUnchanged(g, labels, i);
        SweepUnchanged(g, labels, i + 1);
        assert Update(g, labels, i) == labels;
        assert labels[i := Preferred(g, labels, i)][i] == labels[i];
      }
    }
    if Stable(g, labels) { StableSweep(g, labels, |g|); }
  }

  lemma {:induction false} StableSweep(g: Graph, labels: Labels, k: nat)
    requires k <= |g| && Labelling(g, labels) && Closed(g) && Stable(g, labels)
    ensures Sweep(g, labels, k) == labels
  {
    if k > 0 {
      StableSweep(g, labels, k - 1);
      if g[k - 1] != {} { PreferredUnique(g, labels, k - 1, labels[k - 1]); }
    }
  }

  // ----- passes without their recursion

  /** The labellings of one pass: node after node, each with a neighbour takes the smallest most frequent label it then sees. */
  ghost predicate PassStates(g: Graph, states: seq<Labels>) {
    && |states| == |g| + 1 && (forall k :: 0 <= k < |states| ==> Labelling(g, states[k]))
    && forall k :: 0 <= k < |g| ==> VisitStep(g, states[k], states[k + 1], k)
  }

  ghost predicate VisitStep(g: Graph, before: Labels, after: Labels, k: nat)
    requires k < |g| && |before| == |g|
  {
    && |after| == |g| && (forall i :: 0 <= i < |g| && i != k ==> after[i] == before[i])
    && if g[k] == {} then after[k] == before[k] else IsPreferred(g, before, k, after[k])
  }

  lemma UpdateIsVisit(g: Graph, before: Labels, after: Labels, k: nat)
    requires k < |g| && Labelling(g, before) && Closed(g)
    ensures VisitStep(g, before, after, k) <==> after == Update(g, before, k)
  {
    if VisitStep(g, before, after, k) {
      if g[k] != {} { PreferredUnique(g, before, k, after[k]); }
      assert after == Update(g, before, k);
    }
  }

  lemma {:induction false} StatesAreSweep(g: Graph, states: seq<Labels>, k: nat)
    requires PassStates(g, states) && Closed(g) && k <= |g|
    ensures states[k] == Sweep(g, states[0], k)
  {
    hide VisitStep;
    if k > 0 {
      StatesAreSweep(g, states, k - 1);
      assert VisitStep(g, states[k - 1], states[k], k - 1);
      UpdateIsVisit(g, states[k - 1], states[k], k - 1);
    }
  }

  /** A pass is the visits to all nodes in order. */
  lemma PassMeans(g: Graph, before: Labels, after: Labels)
    requires Labelling(g, before) && Closed(g)
    ensures Pass(g, before) == after <==> exists states :: PassStates(g, states) && states[0] == before && states[|g|] == after
  {
    hide VisitStep;
    if Pass(g, before) == after {
      var states: seq<Labels> := seq(|g| + 1, k requires 0 <= k < |g| + 1 => Sweep(g, before, k));
      forall k | 0 <= k < |g| ensures VisitStep(g, states[k], states[k + 1], k) { UpdateIsVisit(g, states[k], states[k + 1], k); }
      assert PassStates(g, states);
    }
    forall states | PassStates(g, states) && states[0] == before && states[|g|] == after
      ensures Pass(g, before) == after
    {
      StatesAreSweep(g, states, |g|);
    }
  }

  /** `rounds` passes, one after another. */
  ghost function Iterate(g: Graph, labels: Labels, rounds: nat): (r: Labels)
    requires Labelling(g, labels) && Closed(g)
    ensures Labelling(g, r)
    decreases rounds
  {
    if rounds == 0 then labels else Pass(g, Iterate(g, labels, rounds - 1))
  }

  lemma {:induction false} FixedForever(g: Graph, labels: Labels, rounds: nat)
    requires Labelling(g, labels) && Closed(g) && Pass(g, labels) == labels
    ensures Iterate(g, labels, rounds) == labels
  {
    if rounds > 0 { FixedForever(g, labels, rounds - 1); }
  }

  lemma {:induction false} FirstPassFirst(g: Graph, labels: Labels, rounds: nat)
    requires Labelling(g, labels) && Closed(g)
    ensures Iterate(g, labels, rounds + 1) == Iterate(g, Pass(g, labels), rounds)
  {
    hide Pass;
    if rounds > 0 { FirstPassFirst(g, labels, rounds - 1); }
  }

  /** Stopping after a pass without a change is not felt: the result is that of exactly `cap` passes. */
  lemma {:induction false} EarlyStopIsUnfelt(g: Graph, labels: Labels, cap: nat)
    requires Labelling(g, labels) && Closed(g)
    ensures Propagate(g, labels, cap) == Iterate(g, labels, cap)
    decreases cap
  {
    hide Pass;
    if cap > 0 {
      if Pass(g, labels) == labels {
        FixedForever(g, labels, cap);
      } else {
        EarlyStopIsUnfelt(g, Pass(g, labels), cap - 1);
        FirstPassFirst(g, labels, cap - 1);
      }
    }
  }
}
