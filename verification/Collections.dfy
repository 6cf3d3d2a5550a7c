// Small sequence vocabulary shared by the other modules.
module Collections {
  datatype Option<+T> = None | Some(value: T)

  // The elements of s satisfying p, in order.
  function Filter<T>(p: T -> bool, s: seq<T>): seq<T> {
    if s == [] then [] else if p(s[0]) then [s[0]] + Filter(p, s[1..]) else Filter(p, s[1..])
  }

  lemma {:induction false} FilterConcat<T>(p: T -> bool, s: seq<T>, t: seq<T>)
    ensures Filter(p, s + t) == Filter(p, s) + Filter(p, t)
  {
    if s == [] {
      assert s + t == t;
    } else {
      FilterConcat(p, s[1..], t);
      assert (s + t)[1..] == s[1..] + t;
    }
  }

  lemma {:induction false} FilterMember<T>(p: T -> bool, s: seq<T>, x: T)
    ensures x in Filter(p, s) <==> x in s && p(x)
  {
    if s != [] {
      FilterMember(p, s[1..], x);
      assert s == [s[0]] + s[1..];
    }
  }

  lemma {:induction false} FilterSame<T>(p: T -> bool, q: T -> bool, s: seq<T>)
    requires forall x :: x in s ==> p(x) == q(x)
    ensures Filter(p, s) == Filter(q, s)
  {
    if s != [] {
      assert s[0] in s && forall x :: x in s[1..] ==> x in s;
      FilterSame(p, q, s[1..]);
    }
  }

  lemma {:induction false} FilterAll<T>(p: T -> bool, s: seq<T>)
    requires forall x :: x in s ==> p(x)
    ensures Filter(p, s) == s
  {
    if s != [] {
      assert s[0] in s && forall x :: x in s[1..] ==> x in s;
      FilterAll(p, s[1..]);
    }
  }

  // What p keeps and what it does not make up the whole.
  lemma {:induction false} FilterSplits<T>(p: T -> bool, q: T -> bool, s: seq<T>)
    requires forall x :: x in s ==> (q(x) <==> !p(x))
    ensures multiset(Filter(p, s)) + multiset(Filter(q, s)) == multiset(s)
  {
    if s != [] {
      assert s == [s[0]] + s[1..];
      FilterSplits(p, q, s[1..]);
    }
  }

  // What step makes of each element of s, in order; an element it maps to None is dropped.
  function Compacted<T>(step: T -> Option<T>, s: seq<T>): seq<T> {
    if s == [] then []
    else match step(s[0])
         case Some(x) => [x] + Compacted(step, s[1..])
         case None => Compacted(step, s[1..])
  }

  lemma {:induction false} CompactedConcat<T>(step: T -> Option<T>, s: seq<T>, t: seq<T>)
    ensures Compacted(step, s + t) == Compacted(step, s) + Compacted(step, t)
  {
    if s == [] {
      assert s + t == t;
    } else {
      var whole := s + t;
      assert whole[0] == s[0] && whole[1..] == s[1..] + t;
      CompactedConcat(step, s[1..], t);
    }
  }

  // Writes what step keeps over the front of the array it is reading from.
  method CompactInPlace<T>(a: array<T>, step: T -> Option<T>) returns (kept: nat)
    modifies a
    ensures kept <= a.Length && a[..kept] == Compacted(step, old(a[..]))
  {
    kept := 0;
    ghost var was := a[..];
    for i := 0 to a.Length
      invariant kept <= i && forall j :: i <= j < a.Length ==> a[j] == was[j]
      invariant a[..kept] == Compacted(step, was[..i])
    {
      assert was[..i + 1] == was[..i] + [was[i]];
      CompactedConcat(step, was[..i], [was[i]]);
      assert a[i] == was[i];
      match step(a[i])
      case Some(x) =>
        a[kept] := x;
        kept := kept + 1;
      case None =>
    }
    assert was[..a.Length] == was;
  }
}
