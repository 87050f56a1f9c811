/**
  Python's `sorted` over a set of distinct, totally ordered values.
 */
module Ordering {

  ghost predicate StrictTotal<T(!new)>(less: (T, T) -> bool) {
    && (forall a :: !less(a, a))
    && (forall a, b, c :: less(a, b) && less(b, c) ==> less(a, c))
    && (forall a, b :: a != b ==> less(a, b) || less(b, a))
  }

  predicate Ascending<T>(s: seq<T>, less: (T, T) -> bool) {
    forall i, j :: 0 <= i < j < |s| ==> less(s[i], s[j])
  }

  ghost predicate IsLeast<T(!new)>(s: set<T>, m: T, less: (T, T) -> bool) {
    m in s && forall x :: x in s && x != m ==> less(m, x)
  }

  lemma LeastWith<T(!new)>(s: set<T>, a: T, m: T, less: (T, T) -> bool)
    requires StrictTotal(less) && a in s && IsLeast(s - {a}, m, less)
    ensures IsLeast(s, if less(a, m) then a else m, less)
  {
    assert less(a, m) || less(m, a);
    forall x | x in s && x != a && x != m
      ensures less(m, x) && (less(a, m) ==> less(a, x))
    {
      assert x in s - {a};
    }
  }

  lemma {:induction false} LeastExists<T(!new)>(s: set<T>, less: (T, T) -> bool)
    requires StrictTotal(less) && s != {}
    ensures exists m :: IsLeast(s, m, less)
    decreases |s|
  {
    hide StrictTotal;
    var a :| a in s;
    if s == {a} {
      assert IsLeast(s, a, less);
    } else {
      assert s - {a} != {};
      LeastExists(s - {a}, less);
      var m :| IsLeast(s - {a}, m, less);
      LeastWith(s, a, m, less);
    }
  }

  /** The members of `s` in ascending order, each once. */
  function Sorted<T(!new)>(s: set<T>, less: (T, T) -> bool): (r: seq<T>)
    requires StrictTotal(less)
    ensures Ascending(r, less)
    ensures forall x :: x in r <==> x in s
    ensures |r| == |s|
    decreases |s|
  {
    if s == {} then []
    else
      LeastExists(s, less);
      var m :| m in s && forall x :: x in s && x != m ==> less(m, x);
      [m] + Sorted(s - {m}, less)
  }

  /** An ascending list is determined by its members. */
  lemma {:induction false} AscendingUnique<T(!new)>(a: seq<T>, b: seq<T>, less: (T, T) -> bool)
    requires StrictTotal(less) && Ascending(a, less) && Ascending(b, less)
    requires forall x :: x in a <==> x in b
    ensures a == b
  {
    if a + b != [] {
      var e := (a + b)[0];
      assert e in a || e in b;
      assert e in a && e in b;
      assert a[0] in b && b[0] in a;
      assert a[0] == b[0];
      forall x
        ensures x in a[1..] <==> x in b[1..]
      {
        assert x in a <==> x == a[0] || x in a[1..];
        assert x in b <==> x == b[0] || x in b[1..];
        if x in a[1..] { assert x != a[0]; }
        if x in b[1..] { assert x != b[0]; }
      }
      AscendingUnique(a[1..], b[1..], less);
    }
  }

  predicate IntLess(a: int, b: int) { a < b }

  lemma IntOrder()
    ensures StrictTotal(IntLess)
  {}

  /** Python's `<` on `str`: by code point, a proper prefix first. */
  predicate StringLess(a: string, b: string) {
    if a == [] then b != []
    else b != [] && (a[0] < b[0] || (a[0] == b[0] && StringLess(a[1..], b[1..])))
  }

  lemma {:induction false} StringLessTransitive(a: string, b: string, c: string)
    requires StringLess(a, b) && StringLess(b, c)
    ensures StringLess(a, c)
  {
    if a != [] && a[0] == b[0] == c[0] { StringLessTransitive(a[1..], b[1..], c[1..]); }
  }

  lemma {:induction false} StringLessTotal(a: string, b: string)
    ensures !StringLess(a, a)
    ensures a != b ==> StringLess(a, b) || StringLess(b, a)
  {
    if a != [] {
      StringLessTotal(a[1..], if b == [] then [] else b[1..]);
      if b != [] && a[0] == b[0] && a[1..] == b[1..] { assert a == [a[0]] + a[1..] == b; }
    }
  }

  lemma StringOrder()
    ensures StrictTotal(StringLess)
  {
    forall a { StringLessTotal(a, a); }
    forall a, b, c | StringLess(a, b) && StringLess(b, c) ensures StringLess(a, c) { StringLessTransitive(a, b, c); }
    forall a, b | a != b ensures StringLess(a, b) || StringLess(b, a) { StringLessTotal(a, b); }
  }

  // ----- Python's stable `sorted` over a list, where equal entries may repeat

  ghost predicate TotalPreorder<T(!new)>(le: (T, T) -> bool) {
    && (forall a, b :: le(a, b) || le(b, a))
    && (forall a, b, c :: le(a, b) && le(b, c) ==> le(a, c))
  }

  predicate NonDescending<T(==)>(s: seq<T>, le: (T, T) -> bool) {
    s != [] ==> (forall x :: x in s[1..] ==> le(s[0], x)) && NonDescending(s[1..], le)
  }

  lemma {:induction false} NonDescendingAt<T>(s: seq<T>, le: (T, T) -> bool, i: nat, j: nat)
    requires NonDescending(s, le) && i < j < |s|
    ensures le(s[i], s[j])
  {
    if i == 0 {
      assert s[1..][j - 1] in s[1..];
    } else {
      NonDescendingAt(s[1..], le, i - 1, j - 1);
    }
  }

  function Insert<T(==, !new)>(x: T, s: seq<T>, le: (T, T) -> bool): (r: seq<T>)
    requires TotalPreorder(le) && NonDescending(s, le)
    ensures NonDescending(r, le) && multiset(r) == multiset{x} + multiset(s) && |r| == |s| + 1
    ensures forall y :: y in r <==> y == x || y in s
  {
    if s == [] then [x]
    else
      assert s == [s[0]] + s[1..];
      if le(x, s[0]) then
        assert ([x] + s)[1..] == s;
        [x] + s
      else
        var rest := Insert(x, s[1..], le);
        assert ([s[0]] + rest)[1..] == rest;
        [s[0]] + rest
  }

  function SortBy<T(==, !new)>(s: seq<T>, le: (T, T) -> bool): (r: seq<T>)
    requires TotalPreorder(le)
    ensures NonDescending(r, le) && multiset(r) == multiset(s) && |r| == |s|
    ensures forall x :: x in r <==> x in s
  {
    if s == [] then []
    else
      assert s == [s[0]] + s[1..];
      Insert(s[0], SortBy(s[1..], le), le)
  }
}
