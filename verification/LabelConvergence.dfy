/**
  Label propagation on a symmetric graph converges without a pass limit: twice
  n * (edges whose ends agree) - (sum of labels) rises by at least two at every label change.
 */
module LabelConvergence {
  import opened LabelSpec

  /** The voters for label `l` around node `i`, among the nodes below `k`. */
  ghost function Voters(g: Graph, labels: Labels, i: nat, l: nat, k: nat): set<nat>
    requires i < |g| && |labels| == |g| && k <= |g|
  {
    set j: nat | j < k && j in g[i] && labels[j] == l
  }

  lemma {:induction false} VotesCountVoters(g: Graph, labels: Labels, i: nat, l: nat, k: nat)
    requires i < |g| && |labels| == |g| && k <= |g|
    ensures Votes(g, labels, i, l, k) == |Voters(g, labels, i, l, k)|
  {
    if k == 0 {
      assert Voters(g, labels, i, l, k) == {};
    } else {
      VotesCountVoters(g, labels, i, l, k - 1);
      var before := Voters(g, labels, i, l, k - 1);
      if k - 1 in g[i] && labels[k - 1] == l {
        assert Voters(g, labels, i, l, k) == before + {k - 1};
      } else {
        assert Voters(g, labels, i, l, k) == before;
      }
    }
  }

  lemma SubsetCardinality(a: set<nat>, b: set<nat>)
    requires a <= b
    ensures |a| <= |b|
  {
    assert b == a + (b - a);
  }

  lemma SupportAtMostDegree(g: Graph, labels: Labels, i: nat, l: nat)
    requires i < |g| && |labels| == |g|
    ensures Support(g, labels, i, l) <= |g[i]|
  {
    VotesCountVoters(g, labels, i, l, |g|);
    SubsetCardinality(Voters(g, labels, i, l, |g|), g[i]);
  }

  /** Over the nodes below `k`, how many neighbours agree with their node. */
  ghost function Agreement(g: Graph, labels: Labels, k: nat): nat
    requires |labels| == |g| && k <= |g|
  {
    if k == 0 then 0 else Agreement(g, labels, k - 1) + Support(g, labels, k - 1, labels[k - 1])
  }

  ghost function LabelSum(labels: Labels, k: nat): nat
    requires k <= |labels|
  {
    if k == 0 then 0 else LabelSum(labels, k - 1) + labels[k - 1]
  }

  /** Twice the number of undirected edges, when the graph has no loops. */
  ghost function Ends(g: Graph, k: nat): nat
    requires k <= |g|
  {
    if k == 0 then 0 else Ends(g, k - 1) + |g[k - 1]|
  }

  ghost function Potential(g: Graph, labels: Labels): int
    requires |labels| == |g|
  {
    |g| * Agreement(g, labels, |g|) - 2 * LabelSum(labels, |g|)
  }

  ghost function Indicator(b: bool): int { if b then 1 else 0 }

  lemma {:induction false} VotesAfterChange(g: Graph, labels: Labels, i: nat, l: nat, adopted: nat, a: nat, k: nat)
    requires i < |g| && a < |g| && |labels| == |g| && k <= |g|
    ensures Votes(g, labels[i := adopted], a, l, k)
         == Votes(g, labels, a, l, k)
            + Indicator(i < k && i in g[a]) * (Indicator(l == adopted) - Indicator(l == labels[i]))
  {
    if k > 0 { VotesAfterChange(g, labels, i, l, adopted, a, k - 1); }
  }

  /** Relabelling node `i` shifts the agreement of its row and, by symmetry, of its column. */
  lemma {:induction false} AgreementAfterChange(g: Graph, labels: Labels, i: nat, adopted: nat, k: nat)
    requires Symmetric(g) && i < |g| && |labels| == |g| && k <= |g| && adopted != labels[i]
    ensures Agreement(g, labels[i := adopted], k) - Agreement(g, labels, k)
         == Votes(g, labels, i, adopted, k) - Votes(g, labels, i, labels[i], k)
            + Indicator(i < k) * (Support(g, labels, i, adopted) - Support(g, labels, i, labels[i])
                                  + 2 * Indicator(i in g[i]))
  {
    if k > 0 {
      AgreementAfterChange(g, labels, i, adopted, k - 1);
      var a := k - 1;
      VotesAfterChange(g, labels, i, labels[i := adopted][a], adopted, a, |g|);
      assert i in g[a] <==> a in g[i];
    }
  }

  lemma {:induction false} LabelSumAfterChange(labels: Labels, i: nat, adopted: nat, k: nat)
    requires i < |labels| && k <= |labels|
    ensures LabelSum(labels[i := adopted], k) == LabelSum(labels, k) + Indicator(i < k) * (adopted - labels[i])
  {
    if k > 0 { LabelSumAfterChange(labels, i, adopted, k - 1); }
  }

  /** Every label change raises the potential by at least two. */
  lemma ChangeRaisesPotential(g: Graph, labels: Labels, i: nat)
    requires Symmetric(g) && Labelling(g, labels) && i < |g|
    requires Update(g, labels, i) != labels
    ensures Potential(g, Update(g, labels, i)) >= Potential(g, labels) + 2
  {
    var adopted := Preferred(g, labels, i);
    AgreementAfterChange(g, labels, i, adopted, |g|);
    LabelSumAfterChange(labels, i, adopted, |g|);
    var (gained: int, lost: int) := (adopted, labels[i]);
    Gains(|g|, Agreement(g, labels, |g|), Agreement(g, labels[i := adopted], |g|),
          Support(g, labels, i, adopted) - Support(g, labels, i, labels[i]), gained - lost);
  }

  lemma Gains(n: nat, before: nat, after: nat, rise: nat, shift: int)
    requires after - before >= 2 * rise
    requires rise == 0 ==> shift < 0
    requires shift < n
    ensures n * after - 2 * shift >= n * before + 2
  {
    assert n * after >= n * (before + 2 * rise) == n * before + 2 * (n * rise);
    if rise > 0 { MulMonotone(n, 1, rise); }
  }

  lemma MulMonotone(n: nat, a: int, b: int)
    requires a <= b
    ensures n * a <= n * b
  {}

  /** How many of the first `k` visits of a pass change a label. */
  ghost function SweepChanges(g: Graph, labels: Labels, k: nat): nat
    requires k <= |g| && Labelling(g, labels) && Closed(g)
  {
    if k == 0 then 0
    else SweepChanges(g, labels, k - 1) + if Sweep(g, labels, k) != Sweep(g, labels, k - 1) then 1 else 0
  }

  /** How many label changes a run of at most `cap` passes makes. */
  ghost function RunChanges(g: Graph, labels: Labels, cap: nat): nat
    requires Labelling(g, labels) && Closed(g)
    decreases cap
  {
    if cap == 0 || Pass(g, labels) == labels then 0
    else SweepChanges(g, labels, |g|) + RunChanges(g, Pass(g, labels), cap - 1)
  }

  lemma {:induction false} SweepRaisesPotential(g: Graph, labels: Labels, k: nat)
    requires Symmetric(g) && Labelling(g, labels) && k <= |g|
    ensures Potential(g, Sweep(g, labels, k)) >= Potential(g, labels) + 2 * SweepChanges(g, labels, k)
    ensures Sweep(g, labels, k) != labels ==> SweepChanges(g, labels, k) > 0
  {
    if k > 0 {
      SweepRaisesPotential(g, labels, k - 1);
      var before := Sweep(g, labels, k - 1);
      if Sweep(g, labels, k) != before { ChangeRaisesPotential(g, before, k - 1); }
    }
  }

  lemma {:induction false} AgreementAtMostEnds(g: Graph, labels: Labels, k: nat)
    requires |labels| == |g| && k <= |g|
    ensures Agreement(g, labels, k) <= Ends(g, k)
  {
    if k > 0 {
      AgreementAtMostEnds(g, labels, k - 1);
      SupportAtMostDegree(g, labels, k - 1, labels[k - 1]);
    }
  }

  lemma PotentialAtMost(g: Graph, labels: Labels)
    requires |labels| == |g|
    ensures Potential(g, labels) <= |g| * Ends(g, |g|)
  {
    AgreementAtMostEnds(g, labels, |g|);
    MulMonotone(|g|, Agreement(g, labels, |g|), Ends(g, |g|));
  }

  /** The run's label changes are paid for by the potential still available at its start. */
  lemma {:induction false} ChangesArePaidFor(g: Graph, labels: Labels, cap: nat)
    requires Symmetric(g) && Labelling(g, labels)
    ensures 2 * RunChanges(g, labels, cap) <= |g| * Ends(g, |g|) - Potential(g, labels)
    decreases cap
  {
    if cap == 0 || Pass(g, labels) == labels {
      PotentialAtMost(g, labels);
    } else {
      SweepRaisesPotential(g, labels, |g|);
      ChangesArePaidFor(g, Pass(g, labels), cap - 1);
    }
  }

  lemma {:induction false} IdentitySum(n: nat, k: nat)
    requires k <= n
    ensures 2 * LabelSum(Identity(n), k) == k * (k - 1)
  {
    if k > 0 {
      IdentitySum(n, k - 1);
      assert k * (k - 1) == (k - 1) * (k - 2) + 2 * (k - 1);
    }
  }

  /** With n nodes and m = Ends / 2 edges, at most n*m + n(n-1)/2 label changes ever happen. */
  lemma ChangesAreBounded(g: Graph, cap: nat)
    requires Symmetric(g)
    ensures 2 * RunChanges(g, Identity(|g|), cap) <= |g| * Ends(g, |g|) + |g| * (|g| - 1)
  {
    ChangesArePaidFor(g, Identity(|g|), cap);
    IdentitySum(|g|, |g|);
    assert |g| * Agreement(g, Identity(|g|), |g|) >= 0;
  }

  /** The loop without its pass limit: it terminates because the potential is bounded. */
  ghost function Converge(g: Graph, labels: Labels): (r: Labels)
    requires Symmetric(g) && Labelling(g, labels)
    ensures Labelling(g, r)
    ensures Stable(g, r)
    decreases |g| * Ends(g, |g|) - Potential(g, labels)
  {
    var next := Pass(g, labels);
    FixedPointIsStable(g, labels);
    if next == labels then labels
    else
      SweepRaisesPotential(g, labels, |g|);
      PotentialAtMost(g, next);
      Converge(g, next)
  }

  /** A pass limit above half the remaining potential is never felt. */
  lemma {:induction false} LargeCapIsUnfelt(g: Graph, labels: Labels, cap: nat)
    requires Symmetric(g) && Labelling(g, labels)
    requires 2 * cap > |g| * Ends(g, |g|) - Potential(g, labels)
    ensures Propagate(g, labels, cap) == Converge(g, labels)
    decreases cap
  {
    PotentialAtMost(g, labels);
    var next := Pass(g, labels);
    if next != labels {
      SweepRaisesPotential(g, labels, |g|);
      LargeCapIsUnfelt(g, next, cap - 1);
    }
  }

  /** With a limit above n*m + n(n-1)/2 passes the run ends stable, as if there were no limit. */
  lemma PropagationConverges(g: Graph, cap: nat)
    requires Symmetric(g)
    requires 2 * cap > |g| * Ends(g, |g|) + |g| * (|g| - 1)
    ensures Propagate(g, Identity(|g|), cap) == Converge(g, Identity(|g|))
    ensures Stable(g, Propagate(g, Identity(|g|), cap))
  {
    IdentitySum(|g|, |g|);
    assert |g| * Agreement(g, Identity(|g|), |g|) >= 0;
    LargeCapIsUnfelt(g, Identity(|g|), cap);
  }

  /** Whatever the limit, a run that stops before it is stable. */
  lemma {:induction false} EarlyStopIsStable(g: Graph, labels: Labels, cap: nat)
    requires Labelling(g, labels) && Closed(g)
    requires Propagate(g, labels, cap) == Propagate(g, labels, cap + 1)
    ensures Stable(g, Propagate(g, labels, cap))
    decreases cap
  {
    var next := Pass(g, labels);
    FixedPointIsStable(g, labels);
    if next != labels && cap > 0 { EarlyStopIsStable(g, next, cap - 1); }
  }
}
