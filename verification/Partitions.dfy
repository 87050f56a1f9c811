/**
  Canonical partitions of the nodes 0..n-1: validation, membership lists and canonical form.
 */
module Partitions {
  import opened Wrappers
  import opened Ordering
  import opened Grouping

  type Partition = seq<seq<int>>

  datatype Reason = NodeUnknown | NodeDuplicated | NodeOmitted | Noncanonical

  ghost predicate Disjoint(p: Partition) {
    forall c, d, v :: 0 <= c < |p| && 0 <= d < |p| && v in p[c] && v in p[d] ==> c == d
  }

  /** Nonempty ascending communities, ordered by first member, that cover 0..n-1 once each. */
  ghost predicate Canonical(p: Partition, n: nat) {
    && InOrder(p, IntLess)
    && Disjoint(p)
    && Covers(p, n)
  }

  ghost predicate Covers(p: Partition, n: nat) {
    forall v :: Listed(v, p) <==> 0 <= v < n
  }

  // ----- validation

  function Flatten(p: Partition): seq<int> {
    if p == [] then [] else Flatten(p[..|p| - 1]) + p[|p| - 1]
  }

  predicate StrictlyRising(s: seq<int>) {
    forall i :: 0 <= i < |s| - 1 ==> s[i] < s[i + 1]
  }

  /** The first failing reason, or None for a canonical cover. */
  function ValidatePartition(p: Partition, n: nat): Option<Reason> {
    var flat := Flatten(p);
    if exists v :: v in flat && (v < 0 || v >= n) then Some(NodeUnknown)
    else if |set v | v in flat| != |flat| then Some(NodeDuplicated)
    else if |flat| != n then Some(NodeOmitted)
    else if exists s :: s in p && s == [] then Some(Noncanonical)
    else if exists s :: s in p && !StrictlyRising(s) then Some(Noncanonical)
    else if exists i :: 0 <= i < |p| - 1 && p[i] != [] && p[i + 1] != [] && p[i][0] >= p[i + 1][0] then Some(Noncanonical)
    else None
  }

  ghost predicate Distinct(s: seq<int>) {
    forall i, j :: 0 <= i < j < |s| ==> s[i] != s[j]
  }

  lemma {:induction false} DistinctCardinality(s: seq<int>)
    ensures |set v | v in s| <= |s|
    ensures |set v | v in s| == |s| <==> Distinct(s)
  {
    if s != [] {
      var n := |s| - 1;
      var (init, last) := (s[..n], s[n]);
      DistinctCardinality(init);
      assert s == init + [last];
      assert (set v | v in s) == (set v | v in init) + {last};
      if last in init {
        assert (set v | v in s) == (set v | v in init);
        var i :| 0 <= i < n && init[i] == last;
        assert s[i] == s[n];
      } else {
        assert Distinct(s) <==> Distinct(init) by {
          if Distinct(init) {
            forall i, j | 0 <= i < j < |s| ensures s[i] != s[j] {
              if j == n { assert s[i] in init; } else { assert init[i] != init[j]; }
            }
          }
          if Distinct(s) {
            forall i, j | 0 <= i < j < |init| ensures init[i] != init[j] { assert s[i] != s[j]; }
          }
        }
      }
    }
  }

  ghost function Range(n: nat): (r: set<int>)
    ensures |r| == n && forall v :: v in r <==> 0 <= v < n
  {
    if n == 0 then {} else Range(n - 1) + {n - 1}
  }

  lemma {:induction false} FlattenMembers(p: Partition, v: int)
    ensures v in Flatten(p) <==> Listed(v, p)
  {
    if p != [] {
      var n := |p| - 1;
      FlattenMembers(p[..n], v);
      if Listed(v, p[..n]) {
        var c :| 0 <= c < n && v in p[..n][c];
        assert v in p[c];
      }
      if Listed(v, p) {
        var c :| 0 <= c < |p| && v in p[c];
        if c < n { assert v in p[..n][c]; }
      }
    }
  }

  lemma DistinctAppend(a: seq<int>, b: seq<int>)
    ensures Distinct(a + b) <==> Distinct(a) && Distinct(b) && forall v :: v in a ==> v !in b
  {
    var s := a + b;
    if Distinct(s) {
      forall i, j | 0 <= i < j < |a| ensures a[i] != a[j] { assert s[i] != s[j]; }
      forall i, j | 0 <= i < j < |b| ensures b[i] != b[j] { assert s[|a| + i] != s[|a| + j]; }
      forall v | v in a ensures v !in b {
        var i :| 0 <= i < |a| && a[i] == v;
        forall j | 0 <= j < |b| ensures b[j] != v { assert s[i] != s[|a| + j]; }
      }
    }
    if Distinct(a) && Distinct(b) && forall v :: v in a ==> v !in b {
      forall i, j | 0 <= i < j < |s| ensures s[i] != s[j] {
        if i < |a| <= j { assert a[i] in a && b[j - |a|] in b; }
      }
    }
  }

  lemma {:induction false} FlattenDistinct(p: Partition)
    requires forall s :: s in p ==> Distinct(s)
    ensures Distinct(Flatten(p)) <==> Disjoint(p)
  {
    if p != [] {
      var n := |p| - 1;
      var (init, last) := (p[..n], p[n]);
      assert forall s :: s in init ==> s in p;
      assert last in p;
      FlattenDistinct(init);
      DistinctAppend(Flatten(init), last);
      forall v { FlattenMembers(init, v); }
      if Disjoint(p) {
        forall c, d, v | 0 <= c < n && 0 <= d < n && v in init[c] && v in init[d] ensures c == d {
          assert v in p[c] && v in p[d];
        }
        forall v | v in Flatten(init) ensures v !in last {
          var c :| 0 <= c < n && v in init[c];
          assert v in p[c];
        }
      }
      if Disjoint(init) && forall v :: v in Flatten(init) ==> v !in last {
        forall c, d, v | 0 <= c < |p| && 0 <= d < |p| && v in p[c] && v in p[d] ensures c == d {
          if c < n { assert v in init[c] && Listed(v, init); }
          if d < n { assert v in init[d] && Listed(v, init); }
        }
      }
    }
  }

  lemma {:induction false} RisingIsAscending(s: seq<int>)
    ensures StrictlyRising(s) <==> Ascending(s, IntLess)
  {
    if |s| > 1 {
      RisingIsAscending(s[1..]);
      if StrictlyRising(s) {
        forall i, j | 0 <= i < j < |s| ensures s[i] < s[j] {
          forall k | 0 <= k < |s| - 2 ensures s[1..][k] < s[1..][k + 1] { assert s[k + 1] < s[k + 2]; }
          assert s[1..][j - 1] == s[j];
          if i > 0 { assert IntLess(s[1..][i - 1], s[1..][j - 1]); }
          if i == 0 && j > 1 { assert IntLess(s[1..][0], s[1..][j - 1]); }
        }
      }
      if Ascending(s, IntLess) {
        forall i | 0 <= i < |s| - 1 ensures s[i] < s[i + 1] { assert IntLess(s[i], s[i + 1]); }
      }
    }
  }

  function Firsts(p: Partition): seq<int>
    requires forall s :: s in p ==> s != []
  {
    seq(|p|, i requires 0 <= i < |p| => assert p[i] in p; p[i][0])
  }

  /** The three counting checks together say that the communities cover 0..n-1 once each. */
  lemma CountsIffCover(p: Partition, n: nat)
    requires forall s :: s in p ==> Distinct(s)
    ensures var flat := Flatten(p);
            (forall v :: v in flat ==> 0 <= v < n) && |set v | v in flat| == |flat| == n <==> Disjoint(p) && Covers(p, n)
  {
    hide Disjoint, Distinct, Listed, Flatten;
    var flat := Flatten(p);
    forall v { FlattenMembers(p, v); }
    DistinctCardinality(flat);
    FlattenDistinct(p);
    var members := set v | v in flat;
    if (forall v :: v in flat ==> 0 <= v < n) && |members| == |flat| == n {
      SubsetSameSize(members, Range(n));
      assert forall v :: v in flat <==> v in members;
    }
    if Disjoint(p) && Covers(p, n) {
      assert members == Range(n);
    }
  }

  /** Validation accepts exactly the canonical covers. */
  lemma ValidIffCanonical(p: Partition, n: nat)
    ensures ValidatePartition(p, n) == None <==> Canonical(p, n)
  {
    OrderedIffRising(p);
    if forall s :: s in p ==> StrictlyRising(s) {
      forall s | s in p ensures Distinct(s) {
        RisingIsAscending(s);
        AscendingDistinct(s);
      }
      CountsIffCover(p, n);
    }
  }

  // ----- the reasons, by the communities themselves

  /** Some community lists `v`. */
  ghost predicate Mentions(p: Partition, v: int) {
    exists c, i :: 0 <= c < |p| && 0 <= i < |p[c]| && p[c][i] == v
  }

  /** Two different places hold the same node. */
  ghost predicate Repeats(p: Partition) {
    exists c, i, d, j :: TwoPlaces(p, c, i, d, j)
  }

  ghost predicate TwoPlaces(p: Partition, c: int, i: int, d: int, j: int) {
    0 <= c < |p| && 0 <= i < |p[c]| && 0 <= d < |p| && 0 <= j < |p[d]| && (c != d || i != j) && p[c][i] == p[d][j]
  }

  lemma MentionsIs(p: Partition, v: int)
    ensures Mentions(p, v) <==> v in Flatten(p)
  {
    FlattenMembers(p, v);
    if v in Flatten(p) {
      var c :| 0 <= c < |p| && v in p[c];
      var i :| 0 <= i < |p[c]| && p[c][i] == v;
    }
  }

  /** Where the entry of place (c, i) stands in the flat list. */
  ghost function Offset(p: Partition, c: nat): nat
    requires c <= |p|
  {
    |Flatten(p[..c])|
  }

  lemma {:induction false} PlaceInFlat(p: Partition, c: nat, i: nat)
    requires c < |p| && i < |p[c]|
    ensures Offset(p, c) + i < |Flatten(p)| && Flatten(p)[Offset(p, c) + i] == p[c][i]
    ensures Offset(p, c) + |p[c]| == Offset(p, c + 1)
  {
    var k := |p| - 1;
    assert p[..c + 1][..c] == p[..c];
    if c < k {
      PlaceInFlat(p[..k], c, i);
      assert p[..k][..c] == p[..c];
    } else {
      assert p[..c + 1] == p;
    }
  }

  lemma {:induction false} OffsetsGrow(p: Partition, c: nat, d: nat)
    requires c < d <= |p|
    ensures Offset(p, c) + |p[c]| <= Offset(p, d)
  {
    assert p[..d][..d - 1] == p[..d - 1];
    if c < d - 1 { OffsetsGrow(p, c, d - 1); }
  }

  lemma {:induction false} FlatPlace(p: Partition, x: nat) returns (c: nat, i: nat)
    requires x < |Flatten(p)|
    ensures c < |p| && i < |p[c]| && x == Offset(p, c) + i
  {
    var k := |p| - 1;
    var init := Flatten(p[..k]);
    if x < |init| {
      c, i := FlatPlace(p[..k], x);
      assert p[..k][..c] == p[..c];
    } else {
      c, i := k, x - |init|;
    }
  }

  lemma RepeatsIs(p: Partition)
    ensures Repeats(p) <==> !Distinct(Flatten(p))
  {
    hide Flatten;
    if c, i, d, j :| TwoPlaces(p, c, i, d, j) {
      PlaceInFlat(p, c, i);
      PlaceInFlat(p, d, j);
      if c < d { OffsetsGrow(p, c, d); }
      if d < c { OffsetsGrow(p, d, c); }
      assert Offset(p, c) + i != Offset(p, d) + j;
    }
    if !Distinct(Flatten(p)) {
      var x, y :| 0 <= x < y < |Flatten(p)| && Flatten(p)[x] == Flatten(p)[y];
      var c, i := FlatPlace(p, x);
      var d, j := FlatPlace(p, y);
      PlaceInFlat(p, c, i);
      PlaceInFlat(p, d, j);
      assert TwoPlaces(p, c, i, d, j);
    }
  }

  lemma CoversAllIs(p: Partition, n: nat)
    requires (forall v :: Mentions(p, v) ==> 0 <= v < n) && !Repeats(p)
    ensures |Flatten(p)| == n <==> forall v :: 0 <= v < n ==> Mentions(p, v)
  {
    hide Mentions, Repeats, Flatten, Distinct;
    RepeatsIs(p);
    forall v ensures Mentions(p, v) <==> v in Flatten(p) { MentionsIs(p, v); }
    DistinctCardinality(Flatten(p));
    var members := set v | v in Flatten(p);
    assert forall v :: v in members <==> v in Flatten(p);
    if |Flatten(p)| == n { SubsetSameSize(members, Range(n)); }
    if forall v :: 0 <= v < n ==> Mentions(p, v) { assert members == Range(n); }
  }

  /** Each reason of the validator, in its order of precedence: a node out of range, then one listed twice, then one missing, and
      for a cover listing every node once, an empty community or one out of order. */
  lemma ReasonsMean(p: Partition, n: nat)
    ensures var (unknown, missing) := (exists v :: Mentions(p, v) && !(0 <= v < n), exists v :: 0 <= v < n && !Mentions(p, v));
            && (ValidatePartition(p, n) == Some(NodeUnknown) <==> unknown)
            && (ValidatePartition(p, n) == Some(NodeDuplicated) <==> !unknown && Repeats(p))
            && (ValidatePartition(p, n) == Some(NodeOmitted) <==> !unknown && !Repeats(p) && missing)
            && (ValidatePartition(p, n) == Some(Noncanonical)
                <==> !unknown && !Repeats(p) && !missing && !Canonical(p, n))
  {
    hide Mentions, Repeats, Flatten, Distinct, Canonical, StrictlyRising;
    ValidIffCanonical(p, n);
    RepeatsIs(p);
    forall v ensures Mentions(p, v) <==> v in Flatten(p) { MentionsIs(p, v); }
    DistinctCardinality(Flatten(p));
    if (forall v :: Mentions(p, v) ==> 0 <= v < n) && !Repeats(p) { CoversAllIs(p, n); }
  }

  lemma AscendingDistinct(s: seq<int>)
    requires Ascending(s, IntLess)
    ensures Distinct(s)
  {
    forall i, j | 0 <= i < j < |s| ensures s[i] != s[j] { assert IntLess(s[i], s[j]); }
  }

  lemma SubsetSameSize(a: set<int>, b: set<int>)
    requires a <= b && |a| == |b|
    ensures a == b
  {
    assert b == a + (b - a);
  }

  /** The adjacent comparisons of the validator amount to the order of the whole list. */
  lemma OrderedIffRising(p: Partition)
    ensures InOrder(p, IntLess) <==>
            && (forall s :: s in p ==> s != [] && StrictlyRising(s))
            && (forall i :: 0 <= i < |p| - 1 && p[i] != [] && p[i + 1] != [] ==> p[i][0] < p[i + 1][0])
  {
    forall s { RisingIsAscending(s); }
    if forall s :: s in p ==> s != [] {
      var firsts := Firsts(p);
      RisingIsAscending(firsts);
      forall i | 0 <= i < |p| ensures p[i] != [] && firsts[i] == p[i][0] { assert p[i] in p; }
      if Ascending(firsts, IntLess) {
        forall c, d | 0 <= c < d < |p| ensures IntLess(p[c][0], p[d][0]) { assert IntLess(firsts[c], firsts[d]); }
      }
      if InOrder(p, IntLess) {
        forall c, d | 0 <= c < d < |p| ensures IntLess(firsts[c], firsts[d]) { assert IntLess(p[c][0], p[d][0]); }
      }
    }
  }

  // ----- membership lists

  /** The last community that lists `v`, or 0 if none does. */
  ghost predicate MembershipAt(p: Partition, v: int, at: int) {
    && (if Listed(v, p) then 0 <= at < |p| && v in p[at] else at == 0)
    && forall c :: at < c < |p| ==> v !in p[c]
  }

  method MembershipOf(p: Partition, n: nat) returns (labels: array<int>)
    requires forall c, v :: 0 <= c < |p| && v in p[c] ==> 0 <= v < n
    ensures fresh(labels) && labels.Length == n
    ensures forall v :: 0 <= v < n ==> MembershipAt(p, v, labels[v])
  {
    labels := new int[n](_ => 0);
    for c := 0 to |p|
      invariant forall v :: 0 <= v < n ==> MembershipAt(p[..c], v, labels[v])
    {
      ghost var before := labels[..];
      for i := 0 to |p[c]|
        invariant forall v :: 0 <= v < n ==> labels[v] == if v in p[c][..i] then c else before[v]
      {
        assert p[c][i] in p[c];
        labels[p[c][i]] := c;
      }
      assert p[c][..|p[c]|] == p[c];
      forall v | 0 <= v < n
        ensures MembershipAt(p[..c + 1], v, labels[v])
      {
        LaterCommunity(p, c, v, before[v]);
      }
    }
    assert p[..|p|] == p;
  }

  lemma LaterCommunity(p: Partition, c: nat, v: int, before: int)
    requires c < |p| && MembershipAt(p[..c], v, before)
    ensures MembershipAt(p[..c + 1], v, if v in p[c] then c else before)
  {
    var (front, longer) := (p[..c], p[..c + 1]);
    if Listed(v, longer) && v !in p[c] {
      var d :| 0 <= d < |longer| && v in longer[d];
      assert v in front[d];
    }
    if Listed(v, front) {
      var d :| 0 <= d < |front| && v in front[d];
      assert v in longer[d];
    }
    if v in p[c] { assert v in longer[c]; }
    forall d | 0 <= d < c ensures longer[d] == front[d] {}
  }

  /** `labels` lists, for each node, the community of `p` it belongs to. */
  ghost predicate IsMembership(p: Partition, n: nat, labels: seq<int>) {
    |labels| == n && forall v :: 0 <= v < n ==> 0 <= labels[v] < |p| && v in p[labels[v]]
  }

  ghost predicate Together(p: Partition, u: int, v: int) {
    exists c :: 0 <= c < |p| && u in p[c] && v in p[c]
  }

  /** `p` groups the nodes by label. */
  ghost predicate GroupsBy(p: Partition, labels: seq<int>) {
    forall u, v :: 0 <= u < |labels| && 0 <= v < |labels| ==> (Together(p, u, v) <==> labels[u] == labels[v])
  }

  lemma MembershipGroups(p: Partition, n: nat, labels: seq<int>)
    requires Canonical(p, n) && IsMembership(p, n, labels)
    ensures GroupsBy(p, labels)
  {
    forall u, v | 0 <= u < n && 0 <= v < n
      ensures Together(p, u, v) <==> labels[u] == labels[v]
    {
      assert u in p[labels[u]] && v in p[labels[v]];
      if Together(p, u, v) {
        var c :| 0 <= c < |p| && u in p[c] && v in p[c];
      }
    }
  }

  /** A canonical partition's membership numbers the communities in order of first appearance. */
  lemma MembershipGrows(p: Partition, n: nat, labels: seq<int>)
    requires Canonical(p, n) && IsMembership(p, n, labels)
    ensures RestrictedGrowth(labels)
  {
    forall i | 0 <= i < n
      ensures GrowsAt(labels, i)
    {
      var c := labels[i];
      if c > 0 {
        var head := p[c - 1][0];
        assert head in p[c - 1] && Listed(head, p);
        assert labels[head] == c - 1;
        assert IntLess(head, p[c][0]);
        var k :| 0 <= k < |p[c]| && p[c][k] == i;
        assert k == 0 || IntLess(p[c][0], p[c][k]);
      }
    }
  }

  /** Canonical partitions that group alike are equal. */
  lemma CanonicalUnique(p: Partition, q: Partition, n: nat, labels: seq<int>, labels': seq<int>)
    requires Canonical(p, n) && IsMembership(p, n, labels)
    requires Canonical(q, n) && IsMembership(q, n, labels')
    requires SameGrouping(labels, labels')
    ensures p == q && labels == labels'
  {
    MembershipGrows(p, n, labels);
    MembershipGrows(q, n, labels');
    assert SameGrouping(labels, labels) && SameGrouping(labels, labels');
    NumberingUnique(labels, labels', labels, labels');
    SameMembershipCount(p, q, n, labels);
    SameMembershipCount(q, p, n, labels);
    forall c | 0 <= c < |p|
      ensures p[c] == q[c]
    {
      SameMembers(p, q, n, labels, c);
      SameMembers(q, p, n, labels, c);
      IntOrder();
      assert forall x :: x in p[c] <==> x in q[c];
      AscendingUnique(p[c], q[c], IntLess);
    }
  }

  lemma SameMembershipCount(p: Partition, q: Partition, n: nat, labels: seq<int>)
    requires Canonical(p, n) && IsMembership(p, n, labels) && IsMembership(q, n, labels)
    ensures |p| <= |q|
  {
    if p != [] {
      var last := |p| - 1;
      var v := p[last][0];
      assert v in p[last] && Listed(v, p);
      assert labels[v] == last;
    }
  }

  lemma SameMembers(p: Partition, q: Partition, n: nat, labels: seq<int>, c: nat)
    requires Canonical(p, n) && IsMembership(p, n, labels) && IsMembership(q, n, labels) && c < |p| && c < |q|
    ensures forall v :: v in p[c] ==> v in q[c]
  {
    forall v | v in p[c] ensures v in q[c] {
      assert Listed(v, p);
      assert labels[v] == c;
    }
  }

  // ----- canonical form

  method Canonicalize(membership: seq<int>) returns (p: Partition)
    ensures Canonical(p, |membership|) && GroupsBy(p, membership)
  {
    IntOrder();
    var nodes := seq(|membership|, i => i);
    p := OrderedGroups(nodes, membership, IntLess);
    GroupsAreCanonical(p, nodes, membership);
  }

  lemma GroupsAreCanonical(p: Partition, nodes: seq<int>, membership: seq<int>)
    requires |nodes| == |membership| && forall i :: 0 <= i < |nodes| ==> nodes[i] == i
    requires InOrder(p, IntLess) && SplitsByLabel(nodes, membership, p)
    ensures Canonical(p, |membership|) && GroupsBy(p, membership)
  {
    forall v
      ensures Listed(v, p) <==> 0 <= v < |membership|
    {
      if Listed(v, p) {
        var c :| 0 <= c < |p| && v in p[c];
        assert v in nodes;
      }
      if 0 <= v < |membership| { assert Listed(nodes[v], p); }
    }
    forall c, d, v | 0 <= c < |p| && 0 <= d < |p| && v in p[c] && v in p[d]
      ensures c == d
    {
      assert Listed(v, p) && nodes[v] == v;
    }
    forall u, v | 0 <= u < |membership| && 0 <= v < |membership|
      ensures Together(p, u, v) <==> membership[u] == membership[v]
    {
      assert Listed(nodes[u], p) && Listed(nodes[v], p);
      var c :| 0 <= c < |p| && nodes[u] in p[c];
      var d :| 0 <= d < |p| && nodes[v] in p[d];
      assert Together(p, u, v) ==> c == d;
    }
  }

  lemma MembersInRange(p: Partition, n: nat)
    requires Canonical(p, n)
    ensures forall c, v :: 0 <= c < |p| && v in p[c] ==> 0 <= v < n
  {
    forall c, v | 0 <= c < |p| && v in p[c] ensures 0 <= v < n { assert Listed(v, p); }
  }

  /** The membership of a canonical partition is in range and well placed. */
  lemma CanonicalMembership(p: Partition, n: nat, labels: seq<int>)
    requires Canonical(p, n) && |labels| == n && forall v :: 0 <= v < n ==> MembershipAt(p, v, labels[v])
    ensures IsMembership(p, n, labels)
  {
    forall v | 0 <= v < n ensures Listed(v, p) {}
  }

  lemma MembershipExists(p: Partition, n: nat) returns (labels: seq<int>)
    requires Canonical(p, n)
    ensures IsMembership(p, n, labels)
  {
    labels := [];
    for v := 0 to n
      invariant |labels| == v && forall u :: 0 <= u < v ==> 0 <= labels[u] < |p| && u in p[labels[u]]
    {
      assert Listed(v, p);
      var c :| 0 <= c < |p| && v in p[c];
      labels := labels + [c];
    }
  }

  /** Canonical partitions that keep the same nodes together are equal. */
  lemma TogetherDetermines(p: Partition, q: Partition, n: nat)
    requires Canonical(p, n) && Canonical(q, n)
    requires forall u, v :: 0 <= u < n && 0 <= v < n ==> (Together(p, u, v) <==> Together(q, u, v))
    ensures p == q
  {
    var labels := MembershipExists(p, n);
    var labels' := MembershipExists(q, n);
    MembershipGroups(p, n, labels);
    MembershipGroups(q, n, labels');
    CanonicalUnique(p, q, n, labels, labels');
  }

  /** Two membership lists have the same canonical form exactly when they group alike. */
  lemma CanonicalFormsAgree(a: seq<int>, b: seq<int>, p: Partition, q: Partition)
    requires |a| == |b|
    requires Canonical(p, |a|) && GroupsBy(p, a)
    requires Canonical(q, |b|) && GroupsBy(q, b)
    ensures p == q <==> SameGrouping(a, b)
  {
    if p == q {
      forall i, j | 0 <= i < |a| && 0 <= j < |a| ensures a[i] == a[j] <==> b[i] == b[j] {
        assert Together(p, i, j) <==> a[i] == a[j];
        assert Together(q, i, j) <==> b[i] == b[j];
      }
    }
    if SameGrouping(a, b) {
      forall u, v | 0 <= u < |a| && 0 <= v < |a| ensures Together(p, u, v) <==> Together(q, u, v) {
        assert Together(p, u, v) <==> a[u] == a[v];
      }
      TogetherDetermines(p, q, |a|);
    }
  }

  /** Listing the memberships of a canonical partition and regrouping gives it back. */
  method RoundTrip(p: Partition, n: nat) returns (q: Partition)
    requires Canonical(p, n)
    ensures q == p
  {
    forall c, v | 0 <= c < |p| && v in p[c] ensures 0 <= v < n { assert Listed(v, p); }
    var labels := MembershipOf(p, n);
    q := Canonicalize(labels[..]);
    CanonicalMembership(p, n, labels[..]);
    MembershipGroups(p, n, labels[..]);
    CanonicalFormsAgree(labels[..], labels[..], p, q);
  }
}
