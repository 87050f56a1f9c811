/**
  Grouping a list of nodes by label and numbering the groups 0, 1, 2, ... by smallest member:
  the last step of label propagation and the whole of `canonicalize`.
 */
module Grouping {
  import opened Ordering

  ghost predicate SameGrouping(a: seq<int>, b: seq<int>) {
    |a| == |b| && forall i, j :: 0 <= i < |a| && 0 <= j < |a| ==> (a[i] == a[j] <==> b[i] == b[j])
  }

  /** The id at `i` is 0 or one more than an id used earlier. */
  ghost predicate GrowsAt(ids: seq<int>, i: int)
    requires 0 <= i < |ids|
  {
    ids[i] >= 0 && (ids[i] > 0 ==> exists j :: 0 <= j < i && ids[j] == ids[i] - 1)
  }

  /** Ids are handed out 0, 1, 2, ... in order of first appearance. */
  ghost predicate RestrictedGrowth(ids: seq<int>) {
    forall i :: 0 <= i < |ids| ==> GrowsAt(ids, i)
  }

  /** `ids` renumbers the groups of `labels` by smallest member. */
  ghost predicate Numbering(labels: seq<int>, ids: seq<int>) {
    SameGrouping(labels, ids) && RestrictedGrowth(ids)
  }

  lemma {:induction false} GrowthIsGapless(ids: seq<int>, i: nat, v: nat)
    requires RestrictedGrowth(ids) && i < |ids| && v <= ids[i]
    ensures exists j :: 0 <= j <= i && ids[j] == v
  {
    assert GrowsAt(ids, i);
    if v < ids[i] {
      var j :| 0 <= j < i && ids[j] == ids[i] - 1;
      GrowthIsGapless(ids, j, v);
    }
  }

  lemma {:induction false} GrowthUnique(a: seq<int>, b: seq<int>, i: nat)
    requires SameGrouping(a, b) && RestrictedGrowth(a) && RestrictedGrowth(b) && i <= |a|
    ensures forall j :: 0 <= j < i ==> a[j] == b[j]
  {
    if i > 0 {
      var k := i - 1;
      GrowthUnique(a, b, k);
      assert GrowsAt(a, k) && GrowsAt(b, k);
      if a[k] < b[k] { GrowthIsGapless(b, k, a[k]); }
      if b[k] < a[k] { GrowthIsGapless(a, k, b[k]); }
    }
  }

  /** The numbering depends on the grouping alone, not on the label values. */
  lemma NumberingUnique(labels: seq<int>, labels': seq<int>, ids: seq<int>, ids': seq<int>)
    requires Numbering(labels, ids) && Numbering(labels', ids') && SameGrouping(labels, labels')
    ensures ids == ids'
  {
    GrowthUnique(ids, ids', |ids|);
  }

  ghost predicate InOrder<N>(ordered: seq<seq<N>>, less: (N, N) -> bool) {
    && (forall c :: 0 <= c < |ordered| ==> ordered[c] != [] && Ascending(ordered[c], less))
    && (forall c, d :: 0 <= c < d < |ordered| && ordered[c] != [] && ordered[d] != [] ==> less(ordered[c][0], ordered[d][0]))
  }

  ghost predicate Listed<N>(v: N, ordered: seq<seq<N>>) {
    exists c :: 0 <= c < |ordered| && v in ordered[c]
  }

  /** `ordered` splits `nodes` by label. */
  ghost predicate SplitsByLabel<N>(nodes: seq<N>, labels: seq<int>, ordered: seq<seq<N>>)
    requires |labels| == |nodes|
  {
    && (forall i :: 0 <= i < |nodes| ==> Listed(nodes[i], ordered))
    && (forall c, v :: 0 <= c < |ordered| && v in ordered[c] ==> v in nodes)
    && (forall c, d, i, j | 0 <= c < |ordered| && 0 <= d < |ordered| && 0 <= i < |nodes| && 0 <= j < |nodes|
          && nodes[i] in ordered[c] && nodes[j] in ordered[d] :: c == d <==> labels[i] == labels[j])
  }

  /** `group` lists, in order, the nodes among the first `k` that carry label `l`. */
  ghost predicate GroupUpTo<N>(nodes: seq<N>, labels: seq<int>, k: nat, l: int, group: seq<N>, less: (N, N) -> bool)
    requires k <= |nodes| == |labels|
  {
    && group != [] && Ascending(group, less)
    && (forall i :: 0 <= i < k && labels[i] == l ==> nodes[i] in group)
    && (forall v :: v in group ==> exists i :: 0 <= i < k && nodes[i] == v && labels[i] == l)
  }

  method GroupByLabel<N(==)>(nodes: seq<N>, labels: seq<int>, ghost less: (N, N) -> bool) returns (groups: map<int, seq<N>>)
    requires |labels| == |nodes| && Ascending(nodes, less)
    ensures forall i :: 0 <= i < |nodes| ==> labels[i] in groups
    ensures forall l :: l in groups ==> GroupUpTo(nodes, labels, |nodes|, l, groups[l], less)
  {
    groups := map[];
    for k := 0 to |nodes|
      invariant forall i :: 0 <= i < k ==> labels[i] in groups
      invariant forall l :: l in groups ==> GroupUpTo(nodes, labels, k, l, groups[l], less)
    {
      var l := labels[k];
      ghost var before := groups;
      groups := groups[l := (if l in groups then groups[l] else []) + [nodes[k]]];
      forall x | x in groups
        ensures GroupUpTo(nodes, labels, k + 1, x, groups[x], less)
      {
        if x in before { GroupGrows(nodes, labels, k, x, before[x], less); }
      }
    }
  }

  lemma GroupGrows<N>(nodes: seq<N>, labels: seq<int>, k: nat, l: int, group: seq<N>, less: (N, N) -> bool)
    requires k < |nodes| == |labels| && Ascending(nodes, less)
    requires GroupUpTo(nodes, labels, k, l, group, less)
    ensures GroupUpTo(nodes, labels, k + 1, l, if labels[k] == l then group + [nodes[k]] else group, less)
  {
    if labels[k] == l {
      var grown := group + [nodes[k]];
      forall v | v in grown
        ensures exists i :: 0 <= i < k + 1 && nodes[i] == v && labels[i] == l
      {
        if v in group {
          var i :| 0 <= i < k && nodes[i] == v && labels[i] == l;
        }
      }
      forall x | 0 <= x < |group| ensures less(grown[x], nodes[k]) {
        assert group[x] in group;
      }
    }
  }

  /** `groups` maps each label in use to the ascending list of the nodes that carry it. */
  ghost predicate ByLabel<N>(nodes: seq<N>, labels: seq<int>, groups: map<int, seq<N>>, less: (N, N) -> bool)
    requires |labels| == |nodes|
  {
    && (forall i :: 0 <= i < |nodes| ==> labels[i] in groups)
    && (forall l :: l in groups ==> groups[l] != [] && Ascending(groups[l], less))
    && (forall l, v :: l in groups && v in groups[l] ==> v in nodes)
    && (forall l, i :: l in groups && 0 <= i < |nodes| ==> (nodes[i] in groups[l] <==> labels[i] == l))
  }

  lemma GroupsAreByLabel<N(!new)>(nodes: seq<N>, labels: seq<int>, groups: map<int, seq<N>>, less: (N, N) -> bool)
    requires StrictTotal(less) && |labels| == |nodes| && Ascending(nodes, less)
    requires forall i :: 0 <= i < |nodes| ==> labels[i] in groups
    requires forall l :: l in groups ==> GroupUpTo(nodes, labels, |nodes|, l, groups[l], less)
    ensures ByLabel(nodes, labels, groups, less)
  {
    forall l, i | l in groups && 0 <= i < |nodes|
      ensures nodes[i] in groups[l] <==> labels[i] == l
    {
      if nodes[i] in groups[l] {
        var j :| 0 <= j < |nodes| && nodes[j] == nodes[i] && labels[j] == l;
        assert i == j;
      }
    }
  }

  lemma HeadLabel<N(!new)>(nodes: seq<N>, labels: seq<int>, groups: map<int, seq<N>>, less: (N, N) -> bool, l: int, l': int)
    requires |labels| == |nodes| && ByLabel(nodes, labels, groups, less)
    requires l in groups && l' in groups && groups[l][0] in groups[l']
    ensures l == l'
  {
    var head := groups[l][0];
    assert head in groups[l] && head in nodes;
    var i :| 0 <= i < |nodes| && nodes[i] == head;
  }

  /** Listing the groups by head orders them without losing or merging any. */
  lemma HeadsSplit<N(!new)>(nodes: seq<N>, labels: seq<int>, groups: map<int, seq<N>>, less: (N, N) -> bool,
                            heads: seq<N>, ordered: seq<seq<N>>)
    requires StrictTotal(less) && |labels| == |nodes| && ByLabel(nodes, labels, groups, less)
    requires Ascending(heads, less) && |ordered| == |heads|
    requires forall l :: l in groups ==> groups[l][0] in heads
    requires forall c :: 0 <= c < |heads| ==> exists l :: l in groups && groups[l][0] == heads[c] && ordered[c] == groups[l]
    ensures InOrder(ordered, less) && SplitsByLabel(nodes, labels, ordered)
  {
    forall i | 0 <= i < |nodes|
      ensures Listed(nodes[i], ordered)
    {
      var own := labels[i];
      assert own in groups && groups[own][0] in heads;
      var c :| 0 <= c < |heads| && heads[c] == groups[own][0];
      var l :| l in groups && groups[l][0] == heads[c] && ordered[c] == groups[l];
      assert groups[l][0] in groups[l];
      HeadLabel(nodes, labels, groups, less, own, l);
      assert nodes[i] in ordered[c];
    }
    forall c, v | 0 <= c < |ordered| && v in ordered[c]
      ensures v in nodes
    {
      var l :| l in groups && groups[l][0] == heads[c] && ordered[c] == groups[l];
    }
    forall c, d, i, j | 0 <= c < |ordered| && 0 <= d < |ordered| && 0 <= i < |nodes| && 0 <= j < |nodes|
      && nodes[i] in ordered[c] && nodes[j] in ordered[d]
      ensures c == d <==> labels[i] == labels[j]
    {
      var l :| l in groups && groups[l][0] == heads[c] && ordered[c] == groups[l];
      var l' :| l' in groups && groups[l'][0] == heads[d] && ordered[d] == groups[l'];
      assert labels[i] == l && labels[j] == l';
      assert c != d ==> heads[c] != heads[d];
    }
  }

  lemma DistinctHeads<N(!new)>(nodes: seq<N>, labels: seq<int>, groups: map<int, seq<N>>, less: (N, N) -> bool)
    requires |labels| == |nodes| && ByLabel(nodes, labels, groups, less)
    ensures forall l :: l in groups ==> groups[l] != []
    ensures forall l, l' :: l in groups && l' in groups && groups[l][0] == groups[l'][0] ==> l == l'
  {
    hide Ascending;
    forall l, l' | l in groups && l' in groups && groups[l][0] == groups[l'][0]
      ensures l == l'
    {
      assert groups[l'][0] in groups[l'];
      HeadLabel(nodes, labels, groups, less, l, l');
    }
  }

  /** `sorted(groups.values(), key=min)`: each group's smallest member is its first. */
  method OrderedGroups<N(==, !new)>(nodes: seq<N>, labels: seq<int>, less: (N, N) -> bool) returns (ordered: seq<seq<N>>)
    requires StrictTotal(less) && |labels| == |nodes| && Ascending(nodes, less)
    ensures InOrder(ordered, less) && SplitsByLabel(nodes, labels, ordered)
  {
    hide StrictTotal, Ascending, GroupUpTo, ByLabel, InOrder, SplitsByLabel;
    var groups := GroupByLabel(nodes, labels, less);
    GroupsAreByLabel(nodes, labels, groups, less);
    DistinctHeads(nodes, labels, groups, less);
    var byHead := map l | l in groups :: groups[l][0] := groups[l];
    var heads := Sorted(byHead.Keys, less);
    ordered := seq(|heads|, c requires 0 <= c < |heads| => byHead[heads[c]]);
    forall c | 0 <= c < |heads|
      ensures exists l :: l in groups && groups[l][0] == heads[c] && ordered[c] == groups[l]
    {
      assert heads[c] in heads;
      assert heads[c] in byHead;
    }
    forall l | l in groups
      ensures groups[l][0] in heads
    {
      assert groups[l][0] in byHead;
    }
    HeadsSplit(nodes, labels, groups, less, heads, ordered);
  }
}
