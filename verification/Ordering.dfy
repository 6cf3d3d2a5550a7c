// Stable sorting and what of its result does not depend on the order of its input.
module Ordering {
  import opened Collections

  type Compare<!T> = (T, T) -> int

  // A total preorder, as a three-way comparison.
  ghost predicate Orders<T(!new)>(cmp: Compare<T>) {
    && (forall a, b :: cmp(a, b) < 0 <==> cmp(b, a) > 0)
    && (forall a, b :: cmp(a, b) == 0 <==> cmp(b, a) == 0)
    && (forall a, b, c :: cmp(a, b) <= 0 && cmp(b, c) <= 0 ==> cmp(a, c) <= 0)
  }

  function Insert<T>(cmp: Compare<T>, x: T, s: seq<T>): seq<T> {
    if s == [] || cmp(x, s[0]) <= 0 then [x] + s else [s[0]] + Insert(cmp, x, s[1..])
  }

  // The one stable arrangement of s in the order of cmp.
  function SortStable<T>(cmp: Compare<T>, s: seq<T>): seq<T> {
    if s == [] then [] else Insert(cmp, s[0], SortStable(cmp, s[1..]))
  }

  ghost predicate Sorted<T>(cmp: Compare<T>, s: seq<T>) {
    s == [] || ((forall x :: x in s[1..] ==> cmp(s[0], x) <= 0) && Sorted(cmp, s[1..]))
  }

  lemma {:induction false} InsertKeeps<T>(cmp: Compare<T>, x: T, s: seq<T>)
    ensures multiset(Insert(cmp, x, s)) == multiset{x} + multiset(s)
  {
    if s != [] && cmp(x, s[0]) > 0 {
      InsertKeeps(cmp, x, s[1..]);
      assert s == [s[0]] + s[1..];
    }
  }

  lemma {:induction false} SortKeeps<T>(cmp: Compare<T>, s: seq<T>)
    ensures multiset(SortStable(cmp, s)) == multiset(s)
  {
    if s != [] {
      SortKeeps(cmp, s[1..]);
      InsertKeeps(cmp, s[0], SortStable(cmp, s[1..]));
      assert s == [s[0]] + s[1..];
    }
  }

  lemma InMultiset<T>(s: seq<T>, t: seq<T>)
    requires multiset(s) == multiset(t)
    ensures forall x :: x in s <==> x in t
  {
    forall x ensures x in s <==> x in t {
      assert x in s <==> x in multiset(s);
      assert x in t <==> x in multiset(t);
    }
  }

  lemma {:induction false} InsertSorted<T(!new)>(cmp: Compare<T>, x: T, s: seq<T>)
    requires Orders(cmp) && Sorted(cmp, s)
    ensures Sorted(cmp, Insert(cmp, x, s))
  {
    var t := Insert(cmp, x, s);
    if s == [] || cmp(x, s[0]) <= 0 {
      assert t[1..] == s;
      forall y | y in s ensures cmp(x, y) <= 0 {
        assert s == [s[0]] + s[1..];
        assert y == s[0] || y in s[1..];
      }
    } else {
      var rest := Insert(cmp, x, s[1..]);
      InsertSorted(cmp, x, s[1..]);
      InsertKeeps(cmp, x, s[1..]);
      assert t[1..] == rest;
      forall y | y in rest ensures cmp(s[0], y) <= 0 {
        assert y in multiset(rest);
        assert y == x || y in s[1..];
      }
    }
  }

  lemma {:induction false} SortSorts<T(!new)>(cmp: Compare<T>, s: seq<T>)
    requires Orders(cmp)
    ensures Sorted(cmp, SortStable(cmp, s))
  {
    if s != [] {
      SortSorts(cmp, s[1..]);
      InsertSorted(cmp, s[0], SortStable(cmp, s[1..]));
    }
  }

  lemma {:induction false} FilterSorted<T(!new)>(cmp: Compare<T>, p: T -> bool, s: seq<T>)
    requires Sorted(cmp, s)
    ensures Sorted(cmp, Filter(p, s))
  {
    if s != [] {
      FilterSorted(cmp, p, s[1..]);
      var rest := Filter(p, s[1..]);
      if p(s[0]) {
        assert ([s[0]] + rest)[1..] == rest;
        forall x | x in rest ensures cmp(s[0], x) <= 0 {
          FilterMember(p, s[1..], x);
        }
      }
    }
  }

  lemma {:induction false} FilterKeeps<T>(p: T -> bool, s: seq<T>, x: T)
    ensures multiset(Filter(p, s))[x] == if p(x) then multiset(s)[x] else 0
  {
    if s != [] {
      FilterKeeps(p, s[1..], x);
      assert s == [s[0]] + s[1..];
    }
  }

  // Rows of s the comparison does not tell apart are the same row.
  ghost predicate TiesAreEqual<T>(cmp: Compare<T>, s: seq<T>) {
    forall x, y :: x in s && y in s && cmp(x, y) == 0 ==> x == y
  }

  lemma {:induction false} SortedIsUnique<T(!new)>(cmp: Compare<T>, s: seq<T>, t: seq<T>)
    requires Orders(cmp) && Sorted(cmp, s) && Sorted(cmp, t) && multiset(s) == multiset(t) && TiesAreEqual(cmp, s)
    ensures s == t
  {
    InMultiset(s, t);
    assert t != [] ==> t[0] in t;
    if s != [] {
      SameHead(cmp, s, t);
      TailMultiset(s);
      TailMultiset(t);
      assert forall x :: x in s[1..] ==> x in s;
      SortedIsUnique(cmp, s[1..], t[1..]);
      assert s == [s[0]] + s[1..] && t == [t[0]] + t[1..];
    }
  }

  lemma TailMultiset<T>(s: seq<T>)
    requires s != []
    ensures multiset(s[1..]) == multiset(s) - multiset{s[0]}
  {
    assert s == [s[0]] + s[1..];
  }

  lemma SameHead<T(!new)>(cmp: Compare<T>, s: seq<T>, t: seq<T>)
    requires Orders(cmp) && Sorted(cmp, s) && Sorted(cmp, t) && multiset(s) == multiset(t) && TiesAreEqual(cmp, s)
    requires s != []
    ensures t != [] && s[0] == t[0]
  {
    InMultiset(s, t);
    assert s[0] in s;
    assert t != [];
    assert t[0] in t;
    HeadIsLeast(cmp, s, t[0]);
    HeadIsLeast(cmp, t, s[0]);
  }

  lemma HeadIsLeast<T(!new)>(cmp: Compare<T>, s: seq<T>, x: T)
    requires Orders(cmp) && Sorted(cmp, s) && x in s
    ensures cmp(s[0], x) <= 0
  {
    assert s == [s[0]] + s[1..];
    if x == s[0] {
      assert cmp(x, x) == 0 || cmp(x, x) < 0 || cmp(x, x) > 0;
    }
  }

  // What a filter keeps of a sorted list does not depend on the order the rows
  // came in, when the rows it keeps that tie are the same row.
  lemma OrderForgotten<T(!new)>(cmp: Compare<T>, p: T -> bool, s: seq<T>, t: seq<T>)
    requires Orders(cmp) && multiset(s) == multiset(t) && TiesAreEqual(cmp, Filter(p, s))
    ensures Filter(p, SortStable(cmp, s)) == Filter(p, SortStable(cmp, t))
  {
    var s', t' := SortStable(cmp, s), SortStable(cmp, t);
    SortKeeps(cmp, s);
    SortKeeps(cmp, t);
    SortSorts(cmp, s);
    SortSorts(cmp, t);
    FilterSorted(cmp, p, s');
    FilterSorted(cmp, p, t');
    forall x ensures multiset(Filter(p, s'))[x] == multiset(Filter(p, t'))[x] == multiset(Filter(p, s))[x] {
      FilterKeeps(p, s', x);
      FilterKeeps(p, t', x);
      FilterKeeps(p, s, x);
    }
    assert multiset(Filter(p, s')) == multiset(Filter(p, t'));
    assert multiset(Filter(p, s')) == multiset(Filter(p, s));
    InMultiset(Filter(p, s'), Filter(p, s));
    SortedIsUnique(cmp, Filter(p, s'), Filter(p, t'));
  }

  // The last row under a key decides; with one row per key no order does.
  function LastWith<T>(p: T -> bool, s: seq<T>): Option<T> {
    if s == [] then None else if p(s[|s| - 1]) then Some(s[|s| - 1]) else LastWith(p, s[..|s| - 1])
  }

  lemma {:induction false} LastWithMeaning<T>(p: T -> bool, s: seq<T>)
    ensures match LastWith(p, s) case Some(x) => x in s && p(x) case None => forall x :: x in s ==> !p(x)
  {
    if s != [] {
      assert s == s[..|s| - 1] + [s[|s| - 1]];
      LastWithMeaning(p, s[..|s| - 1]);
    }
  }

  lemma LastForgotten<T>(p: T -> bool, s: seq<T>, t: seq<T>)
    requires multiset(s) == multiset(t) && forall x, y :: x in s && y in s && p(x) && p(y) ==> x == y
    ensures LastWith(p, s) == LastWith(p, t)
  {
    InMultiset(s, t);
    LastWithMeaning(p, s);
    LastWithMeaning(p, t);
  }

  // ---- Building comparisons ----

  // The first comparison that decides, as cmp.Or picks it.
  function Or(x: int, y: int): int {
    if x != 0 then x else y
  }

  function Then<T>(first: Compare<T>, second: Compare<T>): Compare<T> {
    (a: T, b: T) => Or(first(a, b), second(a, b))
  }

  lemma ThenOrders<T(!new)>(first: Compare<T>, second: Compare<T>)
    requires Orders(first) && Orders(second)
    ensures Orders(Then(first, second))
  {
    var cmp := Then(first, second);
    forall a, b, c | cmp(a, b) <= 0 && cmp(b, c) <= 0 ensures cmp(a, c) <= 0 {
      assert first(a, b) <= 0 && first(b, c) <= 0;
      if first(a, c) == 0 {
        assert first(c, a) <= 0;
        assert first(b, a) <= 0 && first(c, b) <= 0;
        assert first(a, b) == 0 && first(b, c) == 0;
      }
    }
    forall a, b ensures (cmp(a, b) < 0 <==> cmp(b, a) > 0) && (cmp(a, b) == 0 <==> cmp(b, a) == 0) {
      assert first(a, b) == 0 <==> first(b, a) == 0;
    }
  }

  function CompareInts(a: int, b: int): int {
    if a < b then -1 else if a > b then 1 else 0
  }

  function OnInt<T>(key: T -> int): Compare<T> {
    (a: T, b: T) => CompareInts(key(a), key(b))
  }

  lemma OnIntOrders<T(!new)>(key: T -> int)
    ensures Orders(OnInt(key))
  {
  }

  lemma OnIntTies<T>(key: T -> int, a: T, b: T)
    ensures OnInt(key)(a, b) == 0 <==> key(a) == key(b)
  {
  }

  lemma ThenTies<T>(first: Compare<T>, second: Compare<T>, a: T, b: T)
    ensures Then(first, second)(a, b) == 0 <==> first(a, b) == 0 && second(a, b) == 0
    ensures Then(first, second)(a, b) <= 0 ==> first(a, b) <= 0
  {
  }

  // ---- Grouping ----

  function KeyIs<R, K(==)>(key: R -> K, k: K): R -> bool {
    x => key(x) == k
  }

  function Each<A, B>(f: A -> B, s: seq<A>): seq<B> {
    if s == [] then [] else [f(s[0])] + Each(f, s[1..])
  }

  lemma {:induction false} EachSame<A, B>(f: A -> B, g: A -> B, s: seq<A>)
    requires forall x :: x in s ==> f(x) == g(x)
    ensures Each(f, s) == Each(g, s)
  {
    if s != [] {
      assert s[0] in s && forall x :: x in s[1..] ==> x in s;
      EachSame(f, g, s[1..]);
    }
  }

  lemma {:induction false} EachConcat<A, B>(f: A -> B, s: seq<A>, t: seq<A>)
    ensures Each(f, s + t) == Each(f, s) + Each(f, t)
  {
    if s == [] {
      assert s + t == t;
    } else {
      var whole := s + t;
      assert whole[0] == s[0] && whole[1..] == s[1..] + t;
      EachConcat(f, s[1..], t);
      assert Each(f, whole) == [f(s[0])] + Each(f, whole[1..]);
      assert Each(f, s) == [f(s[0])] + Each(f, s[1..]);
    }
  }

  function Grouped<K, R>(m: map<K, seq<R>>, k: K): seq<R> {
    if k in m then m[k] else []
  }

  // Appends each row under its key.
  method GroupRows<K(==, !new), R>(rows: seq<R>, key: R -> K) returns (m: map<K, seq<R>>)
    ensures forall k :: Grouped(m, k) == Filter(KeyIs(key, k), rows)
  {
    m := map[];
    for i := 0 to |rows|
      invariant forall k :: Grouped(m, k) == Filter(KeyIs(key, k), rows[..i])
    {
      ghost var was := m;
      var k := key(rows[i]);
      m := m[k := Grouped(m, k) + [rows[i]]];
      assert rows[..i + 1] == rows[..i] + [rows[i]];
      forall j ensures Grouped(m, j) == Filter(KeyIs(key, j), rows[..i + 1]) {
        FilterConcat(KeyIs(key, j), rows[..i], [rows[i]]);
        assert Grouped(was, j) == Filter(KeyIs(key, j), rows[..i]);
      }
    }
    assert rows[..|rows|] == rows;
  }
}
