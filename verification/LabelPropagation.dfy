/**
  `label_propagation`: the dictionary-based loop over arbitrary ordered nodes, tied to the
  index-space specification, and what its result depends on.
 */
module LabelPropagation {
  import opened Ordering
  import opened Grouping
  import opened LabelSpec

  ghost predicate ClosedAdjacency<N>(adjacency: map<N, set<N>>) {
    forall v, w :: v in adjacency && w in adjacency[v] ==> w in adjacency
  }

  /** The graph over positions in `nodes`. */
  ghost function IndexGraph<N>(nodes: seq<N>, adjacency: map<N, set<N>>): (g: Graph)
    requires forall v :: v in nodes ==> v in adjacency
    ensures |g| == |nodes| && Closed(g)
  {
    seq(|nodes|, i requires 0 <= i < |nodes| => set j: nat | j < |nodes| && nodes[j] in adjacency[nodes[i]])
  }

  // ----- one node's vote

  function Carriers<N>(neighbors: set<N>, labels: map<N, nat>, l: nat): set<N>
    requires neighbors <= labels.Keys
  {
    set v | v in neighbors && labels[v] == l
  }

  lemma OneMoreCarrier<N>(done: set<N>, v: N, labels: map<N, nat>, l: nat)
    requires done <= labels.Keys && v in labels && v !in done
    ensures |Carriers(done + {v}, labels, l)| == |Carriers(done, labels, l)| + if l == labels[v] then 1 else 0
  {
    assert Carriers(done + {v}, labels, l) == Carriers(done, labels, l) + if l == labels[v] then {v} else {};
  }

  ghost predicate CountsOf<N>(counts: map<nat, nat>, done: set<N>, labels: map<N, nat>)
    requires done <= labels.Keys
  {
    && (forall l: nat :: |Carriers(done, labels, l)| == if l in counts then counts[l] else 0)
    && (forall l :: l in counts ==> counts[l] > 0)
  }

  function Tally(counts: map<nat, nat>, l: nat): map<nat, nat> {
    counts[l := (if l in counts then counts[l] else 0) + 1]
  }

  lemma CountsOneMore<N>(counts: map<nat, nat>, done: set<N>, v: N, labels: map<N, nat>)
    requires done <= labels.Keys && v in labels && v !in done && CountsOf(counts, done, labels)
    ensures CountsOf(Tally(counts, labels[v]), done + {v}, labels)
  {
    forall l: nat
      ensures |Carriers(done + {v}, labels, l)|
           == if l in Tally(counts, labels[v]) then Tally(counts, labels[v])[l] else 0
    {
      OneMoreCarrier(done, v, labels, l);
    }
  }

  lemma SomeLabelIsCounted<N>(neighbors: set<N>, labels: map<N, nat>, counts: map<nat, nat>)
    requires neighbors <= labels.Keys && neighbors != {} && CountsOf(counts, neighbors, labels)
    ensures counts.Keys != {}
  {
    var v :| v in neighbors;
    assert v in Carriers(neighbors, labels, labels[v]);
    assert labels[v] in counts.Keys;
  }

  /** The counting loop: for each label around the node, how many neighbours carry it. */
  method CountLabels<N(==)>(neighbors: set<N>, labels: map<N, nat>) returns (counts: map<nat, nat>)
    requires neighbors <= labels.Keys
    ensures CountsOf(counts, neighbors, labels)
  {
    counts := map[];
    var rest := neighbors;
    while rest != {}
      invariant rest <= neighbors
      invariant CountsOf(counts, neighbors - rest, labels)
      decreases |rest|
    {
      var v :| v in rest;
      CountsOneMore(counts, neighbors - rest, v, labels);
      assert neighbors - rest + {v} == neighbors - (rest - {v});
      counts, rest := Tally(counts, labels[v]), rest - {v};
    }
    assert neighbors - rest == neighbors;
  }

  /** The smallest label of maximal count. */
  method Adopt<N(==)>(neighbors: set<N>, labels: map<N, nat>) returns (best: nat)
    requires neighbors <= labels.Keys && neighbors != {}
    ensures |Carriers(neighbors, labels, best)| > 0
    ensures forall l: nat ::
              |Carriers(neighbors, labels, l)| < |Carriers(neighbors, labels, best)|
              || (|Carriers(neighbors, labels, l)| == |Carriers(neighbors, labels, best)| && best <= l)
  {
    var counts := CountLabels(neighbors, labels);
    SomeLabelIsCounted(neighbors, labels, counts);
    var maxCount := 0;
    var rest := counts.Keys;
    while rest != {}
      invariant rest <= counts.Keys
      invariant forall l :: l in counts && l !in rest ==> counts[l] <= maxCount
      invariant rest == counts.Keys ==> maxCount == 0
      invariant rest == counts.Keys || exists l :: l in counts && counts[l] == maxCount
      decreases |rest|
    {
      var l :| l in rest;
      if counts[l] > maxCount { maxCount := counts[l]; }
      rest := rest - {l};
    }
    var tied := set l | l in counts && counts[l] == maxCount;
    assert tied != {} by {
      var l :| l in counts && counts[l] == maxCount;
      assert l in tied;
    }
    best :| best in tied;
    rest := tied - {best};
    while rest != {}
      invariant rest <= tied && best in tied
      invariant forall l :: l in tied && l !in rest ==> best <= l
      decreases |rest|
    {
      var l :| l in rest;
      if l < best { best := l; }
      rest := rest - {l};
    }
  }

  // ----- the dictionary of labels against the labelling it stands for

  ghost predicate Holds<N>(dict: map<N, nat>, nodes: seq<N>, labels: Labels) {
    && dict.Keys == (set v | v in nodes)
    && |labels| == |nodes|
    && forall i :: 0 <= i < |nodes| ==> dict[nodes[i]] == labels[i]
  }

  ghost function CarriersUpTo<N>(nodes: seq<N>, neighbors: set<N>, dict: map<N, nat>, l: nat, k: nat): set<N>
    requires neighbors <= dict.Keys && k <= |nodes|
  {
    set v | v in Carriers(neighbors, dict, l) && v in nodes[..k]
  }

  /** A node's support for a label counts the neighbours that carry it. */
  lemma {:induction false} SupportIsCarriers<N(!new)>(nodes: seq<N>, adjacency: map<N, set<N>>, dict: map<N, nat>,
                                                labels: Labels, i: nat, l: nat, k: nat)
    requires (forall v :: v in nodes <==> v in adjacency) && ClosedAdjacency(adjacency)
    requires forall a, b :: 0 <= a < b < |nodes| ==> nodes[a] != nodes[b]
    requires Holds(dict, nodes, labels) && i < |nodes| && k <= |nodes|
    ensures Votes(IndexGraph(nodes, adjacency), labels, i, l, k)
         == |CarriersUpTo(nodes, adjacency[nodes[i]], dict, l, k)|
  {
    hide CarriersUpTo, ClosedAdjacency;
    assert nodes[i] in nodes;
    var neighbors := adjacency[nodes[i]];
    assert neighbors <= dict.Keys by { NeighborsAreKeys(nodes, adjacency, nodes[i]); }
    if k == 0 {
      NoCarriers(nodes, neighbors, dict, l);
    } else {
      SupportIsCarriers(nodes, adjacency, dict, labels, i, l, k - 1);
      CarriersOneMore(nodes, neighbors, dict, l, k - 1);
      assert k - 1 in IndexGraph(nodes, adjacency)[i] <==> nodes[k - 1] in neighbors;
    }
  }

  lemma NeighborsAreKeys<N(!new)>(nodes: seq<N>, adjacency: map<N, set<N>>, v: N)
    requires (forall w :: w in nodes <==> w in adjacency) && ClosedAdjacency(adjacency) && v in adjacency
    ensures adjacency[v] <= set w | w in nodes
  {}

  lemma NoCarriers<N>(nodes: seq<N>, neighbors: set<N>, dict: map<N, nat>, l: nat)
    requires neighbors <= dict.Keys
    ensures CarriersUpTo(nodes, neighbors, dict, l, 0) == {}
  {}

  lemma CarriersOneMore<N>(nodes: seq<N>, neighbors: set<N>, dict: map<N, nat>, l: nat, k: nat)
    requires neighbors <= dict.Keys && k < |nodes| && nodes[k] in dict
    requires forall a, b :: 0 <= a < b < |nodes| ==> nodes[a] != nodes[b]
    ensures |CarriersUpTo(nodes, neighbors, dict, l, k + 1)|
         == |CarriersUpTo(nodes, neighbors, dict, l, k)| + if nodes[k] in neighbors && dict[nodes[k]] == l then 1 else 0
  {
    var v := nodes[k];
    assert nodes[..k + 1] == nodes[..k] + [v];
    assert v !in nodes[..k];
    assert CarriersUpTo(nodes, neighbors, dict, l, k + 1)
        == CarriersUpTo(nodes, neighbors, dict, l, k) + if v in neighbors && dict[v] == l then {v} else {};
  }

  lemma AdoptedIsPreferred<N(!new)>(nodes: seq<N>, adjacency: map<N, set<N>>, dict: map<N, nat>,
                                    labels: Labels, i: nat, best: nat)
    requires (forall v :: v in nodes <==> v in adjacency) && ClosedAdjacency(adjacency)
    requires forall a, b :: 0 <= a < b < |nodes| ==> nodes[a] != nodes[b]
    requires Holds(dict, nodes, labels) && i < |nodes|
    requires Labelling(IndexGraph(nodes, adjacency), labels) && adjacency[nodes[i]] != {}
    requires |Carriers(adjacency[nodes[i]], dict, best)| > 0
    requires forall l: nat ::
              |Carriers(adjacency[nodes[i]], dict, l)| < |Carriers(adjacency[nodes[i]], dict, best)|
              || (|Carriers(adjacency[nodes[i]], dict, l)| == |Carriers(adjacency[nodes[i]], dict, best)| && best <= l)
    ensures var g := IndexGraph(nodes, adjacency);
            g[i] != {} && best == Preferred(g, labels, i)
  {
    var g := IndexGraph(nodes, adjacency);
    var neighbors := adjacency[nodes[i]];
    var w :| w in neighbors;
    assert w in adjacency && w in nodes;
    var j :| 0 <= j < |nodes| && nodes[j] == w;
    assert j in g[i];
    forall l: nat
      ensures Support(g, labels, i, l) == |Carriers(neighbors, dict, l)|
    {
      SupportIsCarriers(nodes, adjacency, dict, labels, i, l, |nodes|);
      assert nodes[..|nodes|] == nodes;
      assert CarriersUpTo(nodes, neighbors, dict, l, |nodes|) == Carriers(neighbors, dict, l);
    }
    PreferredUnique(g, labels, i, best);
  }

  // ----- the algorithm

  ghost function IdsOf<N>(nodes: seq<N>, ids: map<N, nat>): seq<int>
    requires forall v :: v in nodes ==> v in ids
  {
    seq(|nodes|, i requires 0 <= i < |nodes| => ids[nodes[i]])
  }

  ghost function Cap(maxIterations: int): nat { if maxIterations < 0 then 0 else maxIterations }

  /** `ids` numbers, by smallest member, the groups that propagation leaves behind. */
  ghost predicate IsCommunities<N(!new)>(adjacency: map<N, set<N>>, less: (N, N) -> bool, maxIterations: int, ids: map<N, nat>)
    requires StrictTotal(less)
  {
    var nodes := Sorted(adjacency.Keys, less);
    && ids.Keys == adjacency.Keys
    && Numbering(Propagate(IndexGraph(nodes, adjacency), Identity(|nodes|), Cap(maxIterations)), IdsOf(nodes, ids))
  }

  ghost predicate Nodes<N(!new)>(nodes: seq<N>, adjacency: map<N, set<N>>) {
    && (forall v :: v in nodes <==> v in adjacency)
    && (forall a, b :: 0 <= a < b < |nodes| ==> nodes[a] != nodes[b])
    && ClosedAdjacency(adjacency)
  }

  /** One node adopts its neighbours' preferred label. */
  method Visit<N(==, !new)>(nodes: seq<N>, adjacency: map<N, set<N>>, before: map<N, nat>, i: nat, ghost current: Labels)
    returns (labels: map<N, nat>, changed: bool)
    requires Nodes(nodes, adjacency) && i < |nodes|
    requires Holds(before, nodes, current) && Labelling(IndexGraph(nodes, adjacency), current)
    ensures var next := Update(IndexGraph(nodes, adjacency), current, i);
            Holds(labels, nodes, next) && (changed <==> next != current)
  {
    ghost var g := IndexGraph(nodes, adjacency);
    labels, changed := before, false;
    assert nodes[i] in nodes;
    var neighbors := adjacency[nodes[i]];
    if neighbors == {} {
      assert g[i] == {};
      return;
    }
    var newLabel := Adopt(neighbors, labels);
    AdoptedIsPreferred(nodes, adjacency, labels, current, i, newLabel);
    if newLabel != labels[nodes[i]] {
      labels := labels[nodes[i] := newLabel];
      changed := true;
      assert current[i := newLabel][i] != current[i];
    } else {
      assert current[i := newLabel] == current;
    }
  }

  lemma ChangePersists(g: Graph, labels: Labels, i: nat)
    requires i < |g| && Labelling(g, labels) && Closed(g)
    ensures Sweep(g, labels, i + 1) != labels
       <==> Sweep(g, labels, i) != labels || Sweep(g, labels, i + 1) != Sweep(g, labels, i)
  {
    var seen := Sweep(g, labels, i);
    if seen != labels {
      var j :| 0 <= j < |g| && seen[j] != labels[j];
      assert Sweep(g, labels, i + 1)[j] == seen[j];
    }
  }

  /** One pass over the nodes in order. */
  method OnePass<N(==, !new)>(nodes: seq<N>, adjacency: map<N, set<N>>, before: map<N, nat>, ghost current: Labels)
    returns (labels: map<N, nat>, changed: bool)
    requires Nodes(nodes, adjacency)
    requires Holds(before, nodes, current) && Labelling(IndexGraph(nodes, adjacency), current)
    ensures var next := Pass(IndexGraph(nodes, adjacency), current);
            Holds(labels, nodes, next) && (changed <==> next != current)
  {
    hide Holds, ClosedAdjacency;
    ghost var g := IndexGraph(nodes, adjacency);
    labels, changed := before, false;
    for i := 0 to |nodes|
      invariant Holds(labels, nodes, Sweep(g, current, i))
      invariant changed <==> Sweep(g, current, i) != current
    {
      var here;
      labels, here := Visit(nodes, adjacency, labels, i, Sweep(g, current, i));
      ChangePersists(g, current, i);
      changed := changed || here;
    }
  }

  /** The propagation loop: passes until one changes nothing or the limit is reached. */
  method Passes<N(==, !new)>(nodes: seq<N>, adjacency: map<N, set<N>>, start: map<N, nat>, maxIterations: int, ghost first: Labels)
    returns (labels: map<N, nat>)
    requires Nodes(nodes, adjacency)
    requires Holds(start, nodes, first) && Labelling(IndexGraph(nodes, adjacency), first)
    ensures Holds(labels, nodes, Propagate(IndexGraph(nodes, adjacency), first, Cap(maxIterations)))
  {
    ghost var g := IndexGraph(nodes, adjacency);
    labels := start;
    ghost var final := first;
    var pass := 0;
    while pass < maxIterations
      invariant 0 <= pass && (pass == 0 || pass <= maxIterations)
      invariant Labelling(g, final) && Holds(labels, nodes, final)
      invariant Propagate(g, final, Cap(maxIterations - pass)) == Propagate(g, first, Cap(maxIterations))
    {
      var changed;
      labels, changed := OnePass(nodes, adjacency, labels, final);
      final := Pass(g, final);
      if !changed { break; }
      pass := pass + 1;
    }
  }

  lemma SortedNodes<N(!new)>(adjacency: map<N, set<N>>, less: (N, N) -> bool)
    requires StrictTotal(less) && ClosedAdjacency(adjacency)
    ensures Nodes(Sorted(adjacency.Keys, less), adjacency)
  {}

  method LabelPropagation<N(==, !new)>(adjacency: map<N, set<N>>, less: (N, N) -> bool, maxIterations: int)
    returns (ids: map<N, nat>)
    requires StrictTotal(less) && ClosedAdjacency(adjacency)
    ensures IsCommunities(adjacency, less, maxIterations, ids)
  {
    hide StrictTotal, Ascending, Nodes, ClosedAdjacency, IndexGraph;
    var nodes := Sorted(adjacency.Keys, less);
    SortedNodes(adjacency, less);
    var labels := Enumerate(nodes, less);
    labels := Passes(nodes, adjacency, labels, maxIterations, Identity(|nodes|));
    ids := Renumber(nodes, labels, less, Propagate(IndexGraph(nodes, adjacency), Identity(|nodes|), Cap(maxIterations)));
  }

  method Enumerate<N(==, !new)>(nodes: seq<N>, ghost less: (N, N) -> bool) returns (labels: map<N, nat>)
    requires StrictTotal(less) && Ascending(nodes, less)
    ensures Holds(labels, nodes, Identity(|nodes|))
  {
    labels := map[];
    for i := 0 to |nodes|
      invariant labels.Keys == (set v | v in nodes[..i])
      invariant forall j :: 0 <= j < i ==> nodes[j] in labels && labels[nodes[j]] == j
    {
      labels := labels[nodes[i] := i];
      assert nodes[..i + 1] == nodes[..i] + [nodes[i]];
    }
    assert nodes[..|nodes|] == nodes;
  }

  /** Numbering the ordered groups by position numbers them by smallest member. */
  lemma PositionsNumber<N(!new)>(nodes: seq<N>, labels: seq<int>, less: (N, N) -> bool, ordered: seq<seq<N>>, ids: seq<int>)
    requires StrictTotal(less) && Ascending(nodes, less) && |labels| == |nodes| == |ids|
    requires InOrder(ordered, less) && SplitsByLabel(nodes, labels, ordered)
    requires forall i :: 0 <= i < |nodes| ==> 0 <= ids[i] < |ordered| && nodes[i] in ordered[ids[i]]
    ensures Numbering(labels, ids)
  {
    hide StrictTotal, Ascending, InOrder, SplitsByLabel;
    SplitAgrees(nodes, labels, ordered, ids);
    forall i | 0 <= i < |ids|
      ensures GrowsAt(ids, i)
    {
      if ids[i] > 0 {
        var j := EarlierHead(nodes, labels, less, ordered, ids[i] - 1, ids[i], i);
        MemberPosition(nodes, labels, ordered, ids, j, ids[i] - 1);
      }
    }
  }

  lemma SplitAgrees<N(!new)>(nodes: seq<N>, labels: seq<int>, ordered: seq<seq<N>>, ids: seq<int>)
    requires |labels| == |nodes| == |ids| && SplitsByLabel(nodes, labels, ordered)
    requires forall i :: 0 <= i < |nodes| ==> 0 <= ids[i] < |ordered| && nodes[i] in ordered[ids[i]]
    ensures SameGrouping(labels, ids)
  {}

  lemma MemberPosition<N(!new)>(nodes: seq<N>, labels: seq<int>, ordered: seq<seq<N>>, ids: seq<int>, j: nat, c: int)
    requires |labels| == |nodes| == |ids| && SplitsByLabel(nodes, labels, ordered)
    requires j < |nodes| && 0 <= ids[j] < |ordered| && nodes[j] in ordered[ids[j]]
    requires 0 <= c < |ordered| && nodes[j] in ordered[c]
    ensures ids[j] == c
  {}

  /** The head of an earlier group stands before every member of a later one. */
  lemma EarlierHead<N(!new)>(nodes: seq<N>, labels: seq<int>, less: (N, N) -> bool, ordered: seq<seq<N>>, c: int, d: int, i: nat)
    returns (j: nat)
    requires StrictTotal(less) && Ascending(nodes, less) && |labels| == |nodes|
    requires InOrder(ordered, less) && SplitsByLabel(nodes, labels, ordered)
    requires 0 <= c < d < |ordered| && i < |nodes| && nodes[i] in ordered[d]
    ensures j < i && nodes[j] in ordered[c]
  {
    var head := ordered[c][0];
    assert head in ordered[c] && head in nodes by { hide StrictTotal, Ascending; }
    j :| 0 <= j < |nodes| && nodes[j] == head;
    assert less(head, ordered[d][0]) && (nodes[i] == ordered[d][0] || less(ordered[d][0], nodes[i])) by {
      hide SplitsByLabel, StrictTotal;
      var x :| 0 <= x < |ordered[d]| && ordered[d][x] == nodes[i];
    }
    assert less(nodes[j], nodes[i]);
  }

  /** The closing dictionary: each node of the c-th group gets id c. */
  method AssignPositions<N(==)>(ordered: seq<seq<N>>) returns (ids: map<N, nat>)
    ensures forall v :: v in ids ==> ids[v] < |ordered| && v in ordered[ids[v]]
    ensures forall c, v :: 0 <= c < |ordered| && v in ordered[c] ==> v in ids
  {
    ids := map[];
    for c := 0 to |ordered|
      invariant forall v :: v in ids ==> ids[v] < c && v in ordered[ids[v]]
      invariant forall d, v :: 0 <= d < c && v in ordered[d] ==> v in ids
    {
      ids := ids + map v | v in ordered[c] :: c;
    }
  }

  lemma ListedKeys<N(!new)>(nodes: seq<N>, labels: seq<int>, ordered: seq<seq<N>>, ids: map<N, nat>)
    requires |labels| == |nodes| && SplitsByLabel(nodes, labels, ordered)
    requires forall v :: v in ids ==> ids[v] < |ordered| && v in ordered[ids[v]]
    requires forall c, v :: 0 <= c < |ordered| && v in ordered[c] ==> v in ids
    ensures ids.Keys == (set v | v in nodes)
    ensures forall i :: 0 <= i < |nodes| ==> 0 <= IdsOf(nodes, ids)[i] < |ordered| && nodes[i] in ordered[IdsOf(nodes, ids)[i]]
  {
    forall v | v in nodes
      ensures v in ids
    {
      var i :| 0 <= i < |nodes| && nodes[i] == v;
      assert Listed(nodes[i], ordered);
    }
    forall i | 0 <= i < |nodes|
      ensures 0 <= IdsOf(nodes, ids)[i] < |ordered| && nodes[i] in ordered[IdsOf(nodes, ids)[i]]
    {
      assert nodes[i] in nodes;
    }
  }

  /** Community ids: position of the node's group among the groups ordered by smallest member. */
  method Renumber<N(==, !new)>(nodes: seq<N>, labels: map<N, nat>, less: (N, N) -> bool, ghost current: Labels)
    returns (ids: map<N, nat>)
    requires StrictTotal(less) && Ascending(nodes, less) && Holds(labels, nodes, current)
    ensures ids.Keys == labels.Keys
    ensures Numbering(current, IdsOf(nodes, ids))
  {
    var byPosition := seq(|nodes|, i requires 0 <= i < |nodes| => labels[nodes[i]]);
    assert byPosition == current;
    var ordered := OrderedGroups(nodes, byPosition, less);
    ids := AssignPositions(ordered);
    ListedKeys(nodes, byPosition, ordered, ids);
    PositionsNumber(nodes, byPosition, less, ordered, IdsOf(nodes, ids));
  }
}
