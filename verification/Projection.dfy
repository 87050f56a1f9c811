/**
  `project`: the canonical undirected simple graph of a node table and an edge list.
  `valid` stands for the checks on one node entry.
 */
module Projection {
  import opened Wrappers
  import opened Ordering

  datatype Rejection = GraphInvalid | GraphTooLarge

  datatype Graph<T> = Graph(nodes: seq<T>, edges: seq<(int, int)>)

  predicate EdgeLess(a: (int, int), b: (int, int)) {
    a.0 < b.0 || (a.0 == b.0 && a.1 < b.1)
  }

  lemma EdgeOrder()
    ensures StrictTotal(EdgeLess)
  {}

  predicate Duplicated<T(==)>(nodes: seq<T>) {
    exists i, j :: 0 <= i < j < |nodes| && nodes[i] == nodes[j]
  }

  predicate InRange(edges: seq<(int, int)>, n: nat) {
    forall e :: e in edges ==> 0 <= e.0 < n && 0 <= e.1 < n
  }

  function IndexOf<T(==)>(s: seq<T>, x: T): (i: nat)
    requires x in s
    ensures i < |s| && s[i] == x
  {
    if s[0] == x then 0 else 1 + IndexOf(s[1..], x)
  }

  /** Both ends renumbered, smaller first. */
  function Renumber<T(==)>(nodes: seq<T>, order: seq<T>, e: (int, int)): (int, int)
    requires 0 <= e.0 < |nodes| && 0 <= e.1 < |nodes| && forall v :: v in nodes ==> v in order
  {
    var (u, v) := (IndexOf(order, nodes[e.0]), IndexOf(order, nodes[e.1]));
    if u <= v then (u, v) else (v, u)
  }

  /** Self-loops dropped, multi-edges collapsed. */
  function PairsOf<T(==)>(nodes: seq<T>, order: seq<T>, edges: seq<(int, int)>): set<(int, int)>
    requires InRange(edges, |nodes|) && forall v :: v in nodes ==> v in order
  {
    set e | e in edges && e.0 != e.1 :: Renumber(nodes, order, e)
  }

  function Project<T(==, !new)>(g: Graph<T>, maxNodes: nat, maxEdges: nat, valid: T -> bool, less: (T, T) -> bool)
    : Result<Graph<T>, Rejection>
    requires StrictTotal(less)
  {
    if |g.nodes| > maxNodes then Err(GraphTooLarge)
    else if (exists v :: v in g.nodes && !valid(v)) || Duplicated(g.nodes) then Err(GraphInvalid)
    else if !InRange(g.edges, |g.nodes|) then Err(GraphInvalid)
    else
      var order := Sorted((set v | v in g.nodes), less);
      var pairs := PairsOf(g.nodes, order, g.edges);
      if pairs == {} then Err(GraphInvalid)
      else if |pairs| > maxEdges then Err(GraphTooLarge)
      else
        EdgeOrder();
        Ok(Graph(order, Sorted(pairs, EdgeLess)))
  }

  /** Some edge, in either direction, joins the distinct nodes `a` and `b`. */
  ghost predicate Joined<T(!new)>(g: Graph<T>, a: T, b: T)
    requires InRange(g.edges, |g.nodes|)
  {
    a != b && exists e :: e in g.edges && EndsAt(g, e, a, b)
  }

  ghost predicate EndsAt<T>(g: Graph<T>, e: (int, int), a: T, b: T)
    requires 0 <= e.0 < |g.nodes| && 0 <= e.1 < |g.nodes|
  {
    (g.nodes[e.0] == a && g.nodes[e.1] == b) || (g.nodes[e.0] == b && g.nodes[e.1] == a)
  }

  ghost predicate SameNode<T>(order: seq<T>) {
    forall i, j :: 0 <= i < |order| && 0 <= j < |order| && order[i] == order[j] ==> i == j
  }

  lemma AscendingIsInjective<T(!new)>(order: seq<T>, less: (T, T) -> bool)
    requires StrictTotal(less) && Ascending(order, less)
    ensures SameNode(order)
  {}

  /** Renumbering one edge names its two nodes, smaller position first. */
  lemma RenumberedEnds<T(!new)>(g: Graph<T>, order: seq<T>, e: (int, int))
    requires e in g.edges && InRange(g.edges, |g.nodes|) && !Duplicated(g.nodes) && e.0 != e.1
    requires forall v :: v in g.nodes ==> v in order
    ensures var p := Renumber(g.nodes, order, e);
            0 <= p.0 < p.1 < |order| && order[p.0] != order[p.1] && EndsAt(g, e, order[p.0], order[p.1])
  {
    var (u, v) := (IndexOf(order, g.nodes[e.0]), IndexOf(order, g.nodes[e.1]));
    assert g.nodes[e.0] != g.nodes[e.1];
    assert order[u] == g.nodes[e.0] && order[v] == g.nodes[e.1];
  }

  lemma EndsRenumber<T(!new)>(g: Graph<T>, order: seq<T>, e: (int, int), p: (int, int))
    requires e in g.edges && InRange(g.edges, |g.nodes|) && SameNode(order)
    requires forall v :: v in g.nodes ==> v in order
    requires 0 <= p.0 < p.1 < |order| && EndsAt(g, e, order[p.0], order[p.1])
    ensures p == Renumber(g.nodes, order, e)
  {
    var (u, v) := (IndexOf(order, g.nodes[e.0]), IndexOf(order, g.nodes[e.1]));
    if g.nodes[e.0] == order[p.0] {
      assert u == p.0 && v == p.1;
    } else {
      assert u == p.1 && v == p.0;
    }
  }

  /** The renumbered pairs are the joined pairs of positions in the sorted node list. */
  lemma PairsAreJoined<T(!new)>(g: Graph<T>, order: seq<T>, p: (int, int))
    requires InRange(g.edges, |g.nodes|) && !Duplicated(g.nodes) && SameNode(order)
    requires forall v :: v in g.nodes <==> v in order
    ensures p in PairsOf(g.nodes, order, g.edges)
       <==> 0 <= p.0 < p.1 < |order| && Joined(g, order[p.0], order[p.1])
  {
    hide Renumber, Duplicated, EndsAt, SameNode;
    if p in PairsOf(g.nodes, order, g.edges) {
      var e :| e in g.edges && e.0 != e.1 && p == Renumber(g.nodes, order, e);
      RenumberedEnds(g, order, e);
    }
    if 0 <= p.0 < p.1 < |order| && Joined(g, order[p.0], order[p.1]) {
      var e :| e in g.edges && EndsAt(g, e, order[p.0], order[p.1]);
      EndsRenumber(g, order, e, p);
      assert e.0 != e.1 by { RenumberLoop(g, order, e); }
    }
  }

  lemma RenumberLoop<T(!new)>(g: Graph<T>, order: seq<T>, e: (int, int))
    requires e in g.edges && InRange(g.edges, |g.nodes|) && forall v :: v in g.nodes ==> v in order
    ensures e.0 == e.1 ==> Renumber(g.nodes, order, e).0 == Renumber(g.nodes, order, e).1
  {}

  /** Two tables describe the same graph: the same valid nodes, and the same nodes joined. */
  ghost predicate SameGraph<T(!new)>(g: Graph<T>, h: Graph<T>) {
    && !Duplicated(g.nodes) && !Duplicated(h.nodes)
    && InRange(g.edges, |g.nodes|) && InRange(h.edges, |h.nodes|)
    && (forall v :: v in g.nodes <==> v in h.nodes)
    && (forall a, b :: Joined(g, a, b) <==> Joined(h, a, b))
  }

  lemma DistinctSize<T(!new)>(s: seq<T>)
    requires !Duplicated(s)
    ensures |set v | v in s| == |s|
  {
    if s != [] {
      var k := |s| - 1;
      assert s == s[..k] + [s[k]];
      assert forall i, j :: 0 <= i < j < k ==> s[..k][i] == s[i] && s[..k][j] == s[j];
      DistinctSize(s[..k]);
      assert s[k] !in s[..k];
      assert (set v | v in s) == (set v | v in s[..k]) + {s[k]};
    }
  }

  lemma SamePairs<T(!new)>(g: Graph<T>, h: Graph<T>, order: seq<T>)
    requires SameGraph(g, h) && SameNode(order) && forall v :: v in g.nodes <==> v in order
    ensures PairsOf(g.nodes, order, g.edges) == PairsOf(h.nodes, order, h.edges)
  {
    hide PairsOf, Joined, Duplicated;
    forall p
      ensures p in PairsOf(g.nodes, order, g.edges) <==> p in PairsOf(h.nodes, order, h.edges)
    {
      PairsAreJoined(g, order, p);
      PairsAreJoined(h, order, p);
    }
  }

  /** The projection is a function of the described graph: however the node table is permuted, the edges
      reordered, repeated, turned round or padded with self-loops, the answer is the same. */
  lemma ProjectionIsCanonical<T(!new)>(g: Graph<T>, h: Graph<T>, maxNodes: nat, maxEdges: nat, valid: T -> bool, less: (T, T) -> bool)
    requires StrictTotal(less) && SameGraph(g, h)
    ensures Project(g, maxNodes, maxEdges, valid, less) == Project(h, maxNodes, maxEdges, valid, less)
  {
    hide StrictTotal, Ascending, PairsOf, Joined, SameNode, InRange, EdgeLess, Duplicated;
    var (left, right) := (set v | v in g.nodes, set v | v in h.nodes);
    assert left == right;
    DistinctSize(g.nodes);
    DistinctSize(h.nodes);
    var order := Sorted(left, less);
    AscendingIsInjective(order, less);
    SamePairs(g, h, order);
  }

  /** Renumbering along an injective node list keeps exactly the joined pairs. */
  lemma RenumberedGraph<T(!new)>(g: Graph<T>, p: Graph<T>)
    requires InRange(g.edges, |g.nodes|) && !Duplicated(g.nodes) && SameNode(p.nodes)
    requires forall v :: v in g.nodes <==> v in p.nodes
    requires forall e :: e in p.edges <==> e in PairsOf(g.nodes, p.nodes, g.edges)
    ensures forall e :: e in p.edges ==> 0 <= e.0 < e.1 < |p.nodes|
    ensures SameGraph(g, p)
  {
    hide PairsOf, Joined;
    forall e
      ensures e in p.edges <==> 0 <= e.0 < e.1 < |p.nodes| && Joined(g, p.nodes[e.0], p.nodes[e.1])
    {
      PairsAreJoined(g, p.nodes, e);
    }
    forall a, b
      ensures Joined(g, a, b) <==> Joined(p, a, b)
    {
      JoinedEither(g, p, a, b);
    }
  }

  lemma JoinedEither<T(!new)>(g: Graph<T>, p: Graph<T>, a: T, b: T)
    requires InRange(g.edges, |g.nodes|) && InRange(p.edges, |p.nodes|) && SameNode(p.nodes)
    requires forall v :: v in g.nodes ==> v in p.nodes
    requires forall e :: e in p.edges <==> 0 <= e.0 < e.1 < |p.nodes| && Joined(g, p.nodes[e.0], p.nodes[e.1])
    ensures Joined(g, a, b) <==> Joined(p, a, b)
  {
    JoinedTurns(g, a, b);
    if Joined(p, a, b) {
      var e :| e in p.edges && EndsAt(p, e, a, b);
    }
    if Joined(g, a, b) { JoinedRenumbers(g, p, a, b); }
  }

  lemma JoinedRenumbers<T(!new)>(g: Graph<T>, p: Graph<T>, a: T, b: T)
    requires InRange(g.edges, |g.nodes|) && InRange(p.edges, |p.nodes|) && Joined(g, a, b) && Joined(g, b, a)
    requires forall v :: v in g.nodes ==> v in p.nodes
    requires forall e :: e in p.edges <==> 0 <= e.0 < e.1 < |p.nodes| && Joined(g, p.nodes[e.0], p.nodes[e.1])
    ensures Joined(p, a, b)
  {
    var e :| e in g.edges && EndsAt(g, e, a, b);
    assert a in g.nodes && b in g.nodes;
    var (i, j) := (IndexOf(p.nodes, a), IndexOf(p.nodes, b));
    var d := if i < j then (i, j) else (j, i);
    assert d in p.edges && EndsAt(p, d, a, b);
  }

  /** The projection describes the graph it was given, with each list in order. */
  lemma ProjectionKeepsGraph<T(!new)>(g: Graph<T>, maxNodes: nat, maxEdges: nat, valid: T -> bool, less: (T, T) -> bool)
    requires StrictTotal(less) && Project(g, maxNodes, maxEdges, valid, less).Ok?
    ensures var p := Project(g, maxNodes, maxEdges, valid, less).value;
            && SameGraph(g, p) && Ascending(p.nodes, less) && Ascending(p.edges, EdgeLess)
            && forall e :: e in p.edges ==> 0 <= e.0 < e.1 < |p.nodes|
  {
    hide StrictTotal, Ascending, PairsOf, Joined, SameNode, EdgeLess, SameGraph, Duplicated;
    var p := Project(g, maxNodes, maxEdges, valid, less).value;
    EdgeOrder();
    AscendingIsInjective(p.nodes, less);
    RenumberedGraph(g, p);
  }

  lemma JoinedTurns<T(!new)>(g: Graph<T>, a: T, b: T)
    requires InRange(g.edges, |g.nodes|)
    ensures Joined(g, a, b) <==> Joined(g, b, a)
  {
    if Joined(g, a, b) {
      var e :| e in g.edges && EndsAt(g, e, a, b);
      assert EndsAt(g, e, b, a);
    }
    if Joined(g, b, a) {
      var e :| e in g.edges && EndsAt(g, e, b, a);
      assert EndsAt(g, e, a, b);
    }
  }

  /** Projecting a projection changes nothing. */
  lemma ProjectionIsIdempotent<T(!new)>(g: Graph<T>, maxNodes: nat, maxEdges: nat, valid: T -> bool, less: (T, T) -> bool)
    requires StrictTotal(less) && Project(g, maxNodes, maxEdges, valid, less).Ok?
    ensures Project(Project(g, maxNodes, maxEdges, valid, less).value, maxNodes, maxEdges, valid, less)
         == Project(g, maxNodes, maxEdges, valid, less)
  {
    ProjectionKeepsGraph(g, maxNodes, maxEdges, valid, less);
    ProjectionIsCanonical(g, Project(g, maxNodes, maxEdges, valid, less).value, maxNodes, maxEdges, valid, less);
  }

  // ----- when a graph is accepted

  /** Valid, distinct nodes, and edges that name them. */
  ghost predicate GoodTable<T(!new)>(g: Graph<T>, valid: T -> bool) {
    && (forall i :: 0 <= i < |g.nodes| ==> valid(g.nodes[i]))
    && (forall i, j :: 0 <= i < j < |g.nodes| ==> g.nodes[i] != g.nodes[j])
    && forall k :: 0 <= k < |g.edges| ==> 0 <= g.edges[k].0 < |g.nodes| && 0 <= g.edges[k].1 < |g.nodes|
  }

  /** Smaller end first. */
  function Turned(e: (int, int)): (int, int) {
    if e.0 <= e.1 then e else (e.1, e.0)
  }

  /** The pairs of table positions that some edge joins. */
  ghost function EdgePairs(edges: seq<(int, int)>): set<(int, int)> {
    set e | e in edges && e.0 != e.1 :: Turned(e)
  }

  ghost predicate BelowPairs(pairs: set<(int, int)>, n: nat) {
    forall p :: p in pairs ==> 0 <= p.0 < p.1 < n
  }

  ghost function Image<T>(nodes: seq<T>, order: seq<T>, pairs: set<(int, int)>): set<(int, int)>
    requires BelowPairs(pairs, |nodes|) && forall v :: v in nodes ==> v in order
  {
    set p | p in pairs :: Renumber(nodes, order, p)
  }

  lemma RenumberTurned<T>(nodes: seq<T>, order: seq<T>, e: (int, int))
    requires 0 <= e.0 < |nodes| && 0 <= e.1 < |nodes| && forall v :: v in nodes ==> v in order
    ensures Renumber(nodes, order, Turned(e)) == Renumber(nodes, order, e)
  {}

  lemma RenumberInjective<T>(nodes: seq<T>, order: seq<T>, p: (int, int), q: (int, int))
    requires !Duplicated(nodes) && forall v :: v in nodes ==> v in order
    requires 0 <= p.0 < p.1 < |nodes| && 0 <= q.0 < q.1 < |nodes| && Renumber(nodes, order, p) == Renumber(nodes, order, q)
    ensures p == q
  {
    var (a, b) := (IndexOf(order, nodes[p.0]), IndexOf(order, nodes[p.1]));
    var (c, d) := (IndexOf(order, nodes[q.0]), IndexOf(order, nodes[q.1]));
    assert (a == c && b == d) || (a == d && b == c);
    assert order[a] == nodes[p.0] && order[b] == nodes[p.1] && order[c] == nodes[q.0] && order[d] == nodes[q.1];
  }

  lemma {:induction false} ImageSize<T>(nodes: seq<T>, order: seq<T>, pairs: set<(int, int)>)
    requires !Duplicated(nodes) && (forall v :: v in nodes ==> v in order) && BelowPairs(pairs, |nodes|)
    ensures |Image(nodes, order, pairs)| == |pairs|
  {
    hide Duplicated, Renumber;
    if pairs != {} {
      var p :| p in pairs;
      var rest := pairs - {p};
      ImageSize(nodes, order, rest);
      forall q | q in rest ensures Renumber(nodes, order, q) != Renumber(nodes, order, p) {
        if Renumber(nodes, order, q) == Renumber(nodes, order, p) { RenumberInjective(nodes, order, q, p); }
      }
      assert Image(nodes, order, pairs) == Image(nodes, order, rest) + {Renumber(nodes, order, p)};
    } else {
      assert Image(nodes, order, pairs) == {};
    }
  }

  lemma PairsAreImage<T>(nodes: seq<T>, order: seq<T>, edges: seq<(int, int)>)
    requires InRange(edges, |nodes|) && forall v :: v in nodes ==> v in order
    ensures BelowPairs(EdgePairs(edges), |nodes|)
    ensures PairsOf(nodes, order, edges) == Image(nodes, order, EdgePairs(edges))
  {
    hide Renumber;
    forall x
      ensures x in PairsOf(nodes, order, edges) <==> x in Image(nodes, order, EdgePairs(edges))
    {
      if x in PairsOf(nodes, order, edges) {
        var e :| e in edges && e.0 != e.1 && Renumber(nodes, order, e) == x;
        RenumberTurned(nodes, order, e);
        assert Turned(e) in EdgePairs(edges);
      }
      if x in Image(nodes, order, EdgePairs(edges)) {
        var p :| p in EdgePairs(edges) && Renumber(nodes, order, p) == x;
        var e :| e in edges && e.0 != e.1 && Turned(e) == p;
        RenumberTurned(nodes, order, e);
      }
    }
  }

  lemma GoodTableIs<T(!new)>(g: Graph<T>, valid: T -> bool)
    ensures GoodTable(g, valid)
       <==> !((exists v :: v in g.nodes && !valid(v)) || Duplicated(g.nodes)) && InRange(g.edges, |g.nodes|)
  {
    if !exists v :: v in g.nodes && !valid(v) {
      forall i | 0 <= i < |g.nodes| ensures valid(g.nodes[i]) { assert g.nodes[i] in g.nodes; }
    }
    if InRange(g.edges, |g.nodes|) {
      forall k | 0 <= k < |g.edges| ensures 0 <= g.edges[k].0 < |g.nodes| && 0 <= g.edges[k].1 < |g.nodes| {
        assert g.edges[k] in g.edges;
      }
    }
  }

  /** Which graphs are accepted, and why the others are not: too many nodes first, then a bad table or no joined pair, then too
      many pairs. */
  lemma ProjectMeans<T(!new)>(g: Graph<T>, maxNodes: nat, maxEdges: nat, valid: T -> bool, less: (T, T) -> bool)
    requires StrictTotal(less)
    ensures var (r, pairs) := (Project(g, maxNodes, maxEdges, valid, less), EdgePairs(g.edges));
            && (r.Ok? <==> |g.nodes| <= maxNodes && GoodTable(g, valid) && 0 < |pairs| <= maxEdges)
            && (r == Err(GraphTooLarge) <==> |g.nodes| > maxNodes || (GoodTable(g, valid) && |pairs| > maxEdges))
            && (r == Err(GraphInvalid) <==> |g.nodes| <= maxNodes && (!GoodTable(g, valid) || pairs == {}))
  {
    hide StrictTotal, Ascending, PairsOf, Duplicated, InRange, GoodTable, EdgePairs, EdgeLess, Image;
    GoodTableIs(g, valid);
    if GoodTable(g, valid) {
      var order := Sorted((set v | v in g.nodes), less);
      PairsAreImage(g.nodes, order, g.edges);
      ImageSize(g.nodes, order, EdgePairs(g.edges));
      var (image, pairs) := (Image(g.nodes, order, EdgePairs(g.edges)), EdgePairs(g.edges));
      assert image == {} <==> |image| == 0;
      assert pairs == {} <==> |pairs| == 0;
    }
  }
}
