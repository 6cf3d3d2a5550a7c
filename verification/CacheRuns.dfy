// What holds of the cache over whole runs: bounds, the order of expiries, which
// key an overflow may delete, what a hit returns, and how two bounds compare.
module CacheRuns {
  import opened Collections
  import opened CacheModel

  // The state after a run of operations from an empty cache.
  ghost function Run(o: Options, ops: seq<Op>): Recency {
    if ops == [] then [] else Apply(o, Run(o, ops[..|ops| - 1]), ops[|ops| - 1]).st
  }

  lemma {:induction false} RunShape(o: Options, ops: seq<Op>)
    ensures Distinct(Run(o, ops))
    ensures o.maxEntries > 0 ==> |Run(o, ops)| <= o.maxEntries
  {
    if ops != [] {
      RunShape(o, ops[..|ops| - 1]);
      SectionKeepsShape(o, Run(o, ops[..|ops| - 1]), ops[|ops| - 1]);
    }
  }

  // ---- Two bounds, one trace ----

  // large holds what small holds, in the same order, and at most one entry more.
  ghost predicate OneMore(small: Recency, large: Recency) {
    small == large || exists front, e, back :: Extends(small, large, front, e, back)
  }

  ghost predicate Extends(small: Recency, large: Recency, front: Recency, e: Entry, back: Recency) {
    small == front + back && large == front + ([e] + back)
  }

  lemma DropExtends(small: Recency, large: Recency, gone: set<Key>)
    requires OneMore(small, large)
    ensures OneMore(DropKeys(small, gone), DropKeys(large, gone))
  {
    if small != large {
      var front: Recency, e: Entry, back: Recency :| Extends(small, large, front, e, back);
      FilterConcat(Outside(gone), front, back);
      FilterConcat(Outside(gone), front, [e] + back);
      assert ([e] + back)[1..] == back;
      if e.key !in gone {
        assert Extends(DropKeys(small, gone), DropKeys(large, gone), DropKeys(front, gone), e, DropKeys(back, gone));
      }
    }
  }

  lemma FrontExtends(x: Entry, small: Recency, large: Recency)
    requires OneMore(small, large)
    ensures OneMore([x] + small, [x] + large)
  {
    if small != large {
      var front: Recency, e: Entry, back: Recency :| Extends(small, large, front, e, back);
      assert [x] + small == ([x] + front) + back;
      assert [x] + large == ([x] + front) + ([e] + back);
      assert Extends([x] + small, [x] + large, [x] + front, e, back);
    }
  }

  lemma LastIsMore(st: Recency)
    requires st != []
    ensures OneMore(st[..|st| - 1], st)
  {
    var front, e := st[..|st| - 1], st[|st| - 1];
    assert front == front + [];
    assert st == front + ([e] + []);
    assert Extends(front, st, front, e, []);
  }

  lemma WithoutLast(small: Recency, large: Recency)
    requires OneMore(small, large) && small != [] && |large| == |small| + 1
    ensures OneMore(small[..|small| - 1], large[..|large| - 1])
  {
    var front: Recency, e: Entry, back: Recency :| Extends(small, large, front, e, back);
    if back == [] {
      assert large[..|large| - 1] == small;
      LastIsMore(small);
    } else {
      var back' := back[..|back| - 1];
      assert small[..|small| - 1] == front + back';
      assert large[..|large| - 1] == front + ([e] + back');
      assert Extends(small[..|small| - 1], large[..|large| - 1], front, e, back');
    }
  }

  lemma {:induction false} FindConcat(s: Recency, t: Recency, k: Key)
    ensures Find(s + t, k) == if Find(s, k).Some? then Find(s, k) else Find(t, k)
  {
    if s == [] {
      assert s + t == t;
    } else {
      FindConcat(s[1..], t, k);
      assert (s + t)[1..] == s[1..] + t;
    }
  }

  // What the smaller cache holds, the larger holds with the same value and expiry.
  lemma FindExtends(small: Recency, large: Recency, k: Key)
    requires OneMore(small, large) && Distinct(large)
    ensures Find(small, k).Some? ==> Find(large, k) == Find(small, k)
    ensures Find(small, k).None? && Find(large, k).Some? ==> DropKeys(large, {k}) == small
  {
    if small != large {
      var front: Recency, e: Entry, back: Recency :| Extends(small, large, front, e, back);
      FindConcat(front, back, k);
      FindConcat(front, [e] + back, k);
      assert ([e] + back)[1..] == back;
      if e.key == k {
        assert large[|front|] == e;
        forall i | 0 <= i < |front| ensures front[i].key != k { assert large[i] == front[i]; }
        forall i | 0 <= i < |back| ensures back[i].key != k { assert large[|front| + 1 + i] == back[i]; }
        DropBetween(large, front, e, back);
        FindMeaning(front, k);
        FindMeaning(back, k);
      }
    }
  }

  lemma UseExtends(o: Options, p: Options, small: Recency, large: Recency, k: Key, v: Value, stamp: int)
    requires o.ttl == p.ttl && OneMore(small, large)
    ensures OneMore(Use(o, small, k, v, stamp), Use(p, large, k, v, stamp))
  {
    DropExtends(small, large, {k});
    FrontExtends(Entry(k, v, Deadline(o, stamp)), DropKeys(small, {k}), DropKeys(large, {k}));
  }

  lemma FrontIsMore(x: Entry, st: Recency)
    ensures OneMore(st, [x] + st)
  {
    assert st == [] + st && [x] + st == [] + ([x] + st);
    assert Extends(st, [x] + st, [], x, st);
  }

  lemma LookupExtends(o: Options, p: Options, small: Recency, large: Recency, k: Key, now: int, stamp: int)
    requires p == o.(maxEntries := p.maxEntries)
    requires OneMore(small, large) && Distinct(small) && Distinct(large)
    ensures OneMore(Lookup(o, small, k, now, stamp).st, Lookup(p, large, k, now, stamp).st)
    ensures Lookup(o, small, k, now, stamp).hit.Some? ==>
              Lookup(p, large, k, now, stamp).hit == Lookup(o, small, k, now, stamp).hit
  {
    FindExtends(small, large, k);
    if Find(small, k).Some? {
      DropExtends(small, large, {k});
      UseExtends(o, p, small, large, k, Find(small, k).value.value, stamp);
    } else if Find(large, k).Some? {
      FrontIsMore(Entry(k, Find(large, k).value.value, Deadline(p, stamp)), small);
    }
  }

  lemma StoreExtends(o: Options, p: Options, small: Recency, large: Recency, k: Key, v: Value, stamp: int)
    requires o.maxEntries > 0 && p == o.(maxEntries := o.maxEntries + 1)
    requires OneMore(small, large) && Distinct(small) && Distinct(large)
    requires |small| <= o.maxEntries && |large| <= p.maxEntries
    ensures OneMore(Store(o, small, k, v, stamp).st, Store(p, large, k, v, stamp).st)
  {
    FindExtends(small, large, k);
    if Find(small, k).Some? {
      UseExtends(o, p, small, large, k, v, stamp);
    } else if Find(large, k).Some? {
      StoreOverExtra(o, p, small, large, k, v, stamp);
    } else {
      InsertExtends(o, p, small, large, k, v, stamp);
    }
  }

  // A key neither cache held.
  lemma InsertExtends(o: Options, p: Options, small: Recency, large: Recency, k: Key, v: Value, stamp: int)
    requires o.maxEntries > 0 && p == o.(maxEntries := o.maxEntries + 1)
    requires OneMore(small, large) && Find(small, k).None? && Find(large, k).None?
    requires |small| <= o.maxEntries && |large| <= p.maxEntries
    ensures OneMore(Store(o, small, k, v, stamp).st, Store(p, large, k, v, stamp).st)
  {
    var x := Entry(k, v, Deadline(o, stamp));
    if Full(o, small) && Full(p, large) {
      WithoutLast(small, large);
      FrontExtends(x, small[..|small| - 1], large[..|large| - 1]);
    } else if Full(o, small) {
      assert small == large;
      LastIsMore(small);
      FrontExtends(x, small[..|small| - 1], large);
    } else {
      FrontExtends(x, small, large);
    }
  }

  // The key only the larger cache held comes to the front of both.
  lemma StoreOverExtra(o: Options, p: Options, small: Recency, large: Recency, k: Key, v: Value, stamp: int)
    requires o.ttl == p.ttl && Find(small, k).None? && Find(large, k).Some? && DropKeys(large, {k}) == small
    ensures OneMore(Store(o, small, k, v, stamp).st, Store(p, large, k, v, stamp).st)
  {
    var x := Entry(k, v, Deadline(o, stamp));
    if Full(o, small) && small != [] {
      LastIsMore(small);
      FrontExtends(x, small[..|small| - 1], small);
    }
  }

  lemma ExtendsMembers(small: Recency, large: Recency)
    requires OneMore(small, large)
    ensures forall x :: x in small ==> x in large
  {
    if small != large {
      var front: Recency, e: Entry, back: Recency :| Extends(small, large, front, e, back);
      forall x | x in small ensures x in large {
        if x in front {
          var i :| 0 <= i < |front| && front[i] == x;
          assert large[i] == x;
        } else {
          var i :| 0 <= i < |back| && back[i] == x;
          assert large[|front| + 1 + i] == x;
        }
      }
    }
  }

  lemma RemoveExtends(small: Recency, large: Recency, gone: set<Key>, gone': set<Key>)
    requires OneMore(small, large)
    requires forall e :: e in small ==> (e.key in gone <==> e.key in gone')
    ensures OneMore(DropKeys(small, gone), DropKeys(large, gone'))
  {
    FilterSame(Outside(gone), Outside(gone'), small);
    DropExtends(small, large, gone');
  }

  lemma ApplyExtends(o: Options, p: Options, small: Recency, large: Recency, op: Op)
    requires o.maxEntries > 0 && p == o.(maxEntries := o.maxEntries + 1)
    requires OneMore(small, large) && Distinct(small) && Distinct(large)
    requires |small| <= o.maxEntries && |large| <= p.maxEntries
    ensures OneMore(Apply(o, small, op).st, Apply(p, large, op).st)
    ensures Apply(o, small, op).hit.Some? ==> Apply(p, large, op).hit == Apply(o, small, op).hit
  {
    if op.Get? {
      LookupExtends(o, p, small, large, op.key, op.now, op.stamp);
    } else if op.Set? {
      SetIsStore(o, small, op);
      SetIsStore(p, large, op);
      StoreExtends(o, p, small, large, op.key, op.value, op.stamp);
    } else {
      RemovalExtends(o, p, small, large, op);
    }
  }

  lemma SetIsStore(o: Options, st: Recency, op: Op)
    requires op.Set?
    ensures Apply(o, st, op) == Store(o, st, op.key, op.value, op.stamp) && Apply(o, st, op).hit.None?
  {
  }

  lemma RemovalExtends(o: Options, p: Options, small: Recency, large: Recency, op: Op)
    requires OneMore(small, large) && Distinct(large) && (op.Delete? || op.DeleteFunc? || op.Gc?)
    ensures OneMore(Apply(o, small, op).st, Apply(p, large, op).st) && Apply(o, small, op).hit.None?
  {
    match op
    case Delete(k) => DropExtends(small, large, {k});
    case DeleteFunc(fn) => MatchingExtends(small, large, fn);
    case Gc(reading) => LapsedExtends(small, large, reading);
  }

  lemma MatchingExtends(small: Recency, large: Recency, fn: Key -> bool)
    requires OneMore(small, large)
    ensures OneMore(DropKeys(small, Matching(small, fn)), DropKeys(large, Matching(large, fn)))
  {
    ExtendsMembers(small, large);
    RemoveExtends(small, large, Matching(small, fn), Matching(large, fn));
  }

  lemma LapsedExtends(small: Recency, large: Recency, reading: Key -> int)
    requires OneMore(small, large) && Distinct(large)
    ensures OneMore(DropKeys(small, Lapsed(small, reading)), DropKeys(large, Lapsed(large, reading)))
  {
    ExtendsMembers(small, large);
    SameKeyEntry(small, large);
    RemoveExtends(small, large, Lapsed(small, reading), Lapsed(large, reading));
  }

  lemma SameKeyEntry(small: Recency, large: Recency)
    requires Distinct(large) && forall x :: x in small ==> x in large
    ensures forall x, y :: x in small && y in large && x.key == y.key ==> x == y
  {
    forall x, y | x in small && y in large && x.key == y.key ensures x == y {
      var i :| 0 <= i < |large| && large[i] == x;
      var j :| 0 <= j < |large| && large[j] == y;
    }
  }

  // One more slot never costs an entry: on the same trace with the same clock
  // readings the larger cache holds everything the smaller one holds, in the
  // same order, plus at most one entry, so every hit of the smaller one is the
  // same hit in the larger.
  lemma {:induction false} CapacityInclusion(o: Options, ops: seq<Op>)
    requires o.maxEntries > 0
    ensures var p := o.(maxEntries := o.maxEntries + 1); OneMore(Run(o, ops), Run(p, ops))
  {
    if ops != [] {
      var before := ops[..|ops| - 1];
      var p := o.(maxEntries := o.maxEntries + 1);
      CapacityInclusion(o, before);
      RunShape(o, before);
      RunShape(p, before);
      ApplyExtends(o, p, Run(o, before), Run(p, before), ops[|ops| - 1]);
    }
  }

  function Sized(o: Options, n: int): Options {
    o.(maxEntries := n)
  }

  // What a lookup at the end of a run would hit, by the size of the cache.
  ghost function HitBySize(o: Options, ops: seq<Op>, k: Key, now: int): int -> Option<Value> {
    (n: int) => Lookup(Sized(o, n), Run(Sized(o, n), ops), k, now, now).hit
  }

  // What n gives is also given by n + 1.
  ghost predicate Carries(hit: int -> Option<Value>, n: int) {
    hit(n).Some? ==> hit(n + 1) == hit(n)
  }

  lemma OneSlotKeepsHits(o: Options, n: int, ops: seq<Op>, k: Key, now: int)
    requires n > 0
    ensures Carries(HitBySize(o, ops, k, now), n)
  {
    var small, large := Sized(o, n), Sized(o, n + 1);
    CapacityInclusion(small, ops);
    RunShape(small, ops);
    RunShape(large, ops);
    LookupExtends(small, large, Run(small, ops), Run(large, ops), k, now, now);
  }

  lemma {:induction false} CarriedOnwards(hit: int -> Option<Value>, n: int, more: nat)
    requires forall i :: n <= i ==> Carries(hit, i)
    ensures hit(n).Some? ==> hit(n + more) == hit(n)
  {
    if more > 0 {
      CarriedOnwards(hit, n, more - 1);
      assert Carries(hit, n + more - 1);
    }
  }

  // Hits are monotone in the bound, however far apart the two bounds are.
  lemma HitsGrowWithCapacity(o: Options, n: int, more: nat, ops: seq<Op>, k: Key, now: int)
    requires n > 0
    ensures var hit := HitBySize(o, ops, k, now); hit(n).Some? ==> hit(n + more) == hit(n)
  {
    forall i | n <= i ensures Carries(HitBySize(o, ops, k, now), i) {
      OneSlotKeepsHits(o, i, ops, k, now);
    }
    CarriedOnwards(HitBySize(o, ops, k, now), n, more);
  }

  // ---- Recency: which key an overflow deletes ----

  // The key an operation uses: a stored key, or one a lookup hit.
  ghost function Used(o: Options, st: Recency, op: Op): set<Key> {
    match op
    case Get(k, now, stamp) => if Lookup(o, st, k, now, stamp).hit.Some? then {k} else {}
    case Set(k, _, _) => {k}
    case Delete(_) => {}
    case DeleteFunc(_) => {}
    case Gc(_) => {}
  }

  // The keys used since the last use of k.
  ghost function UsedSince(o: Options, ops: seq<Op>, k: Key): set<Key> {
    if ops == [] then {}
    else
      var before := ops[..|ops| - 1];
      var now := Used(o, Run(o, before), ops[|ops| - 1]);
      if k in now then {} else UsedSince(o, before, k) + now
  }

  // x sits somewhere in front of y.
  ghost predicate Ahead(st: Recency, x: Key, y: Key) {
    st != [] && ((st[0].key == x && y in Keys(st[1..])) || Ahead(st[1..], x, y))
  }

  // Everything in front of a key in the recency list was used since that key was.
  ghost predicate FrontUsedSince(o: Options, ops: seq<Op>, st: Recency) {
    forall x, y :: Ahead(st, x, y) ==> x in UsedSince(o, ops, y)
  }

  lemma FrontKeys(x: Entry, st: Recency)
    ensures Keys([x] + st) == {x.key} + Keys(st)
  {
    assert forall e :: e in [x] + st <==> e == x || e in st;
  }

  lemma {:induction false} DropKeepsOrder(st: Recency, gone: set<Key>)
    ensures forall x, y :: Ahead(DropKeys(st, gone), x, y) ==> Ahead(st, x, y)
    ensures Keys(DropKeys(st, gone)) <= Keys(st)
  {
    if st != [] {
      var rest, kept := st[1..], DropKeys(st[1..], gone);
      DropKeepsOrder(rest, gone);
      FrontKeys(st[0], rest);
      FrontKeys(st[0], kept);
      assert st == [st[0]] + rest;
      assert ([st[0]] + kept)[1..] == kept;
    }
  }

  lemma {:induction false} PrefixKeepsOrder(front: Recency, last: Entry)
    ensures forall x, y :: Ahead(front, x, y) ==> Ahead(front + [last], x, y)
    ensures forall x :: x in Keys(front) ==> Ahead(front + [last], x, last.key)
    ensures Keys(front + [last]) == Keys(front) + {last.key}
  {
    if front != [] {
      var rest, whole := front[1..], front + [last];
      PrefixKeepsOrder(rest, last);
      assert whole[1..] == rest + [last];
      FrontKeys(front[0], rest);
      FrontKeys(front[0], rest + [last]);
      assert front == [front[0]] + rest && whole == [front[0]] + (rest + [last]);
    }
  }

  // The operation ops ends with used no key.
  lemma UnusedStep(o: Options, ops: seq<Op>, st: Recency)
    requires ops != [] && Used(o, Run(o, ops[..|ops| - 1]), ops[|ops| - 1]) == {}
    requires FrontUsedSince(o, ops[..|ops| - 1], st)
    ensures FrontUsedSince(o, ops, st)
  {
  }

  // The operation ops ends with used k, which comes to the front of the rest.
  lemma UsedStep(o: Options, ops: seq<Op>, k: Key, x: Entry, rest: Recency)
    requires ops != [] && Used(o, Run(o, ops[..|ops| - 1]), ops[|ops| - 1]) == {k} && x.key == k
    requires FrontUsedSince(o, ops[..|ops| - 1], rest)
    requires k !in Keys(rest)
    ensures FrontUsedSince(o, ops, [x] + rest)
  {
    var before, st := ops[..|ops| - 1], [x] + rest;
    assert st[1..] == rest;
    forall a, b | Ahead(st, a, b) ensures a in UsedSince(o, ops, b) {
      if Ahead(rest, a, b) { AheadKeys(rest, a, b); }
      assert UsedSince(o, ops, b) == UsedSince(o, before, b) + {k};
    }
  }

  lemma {:induction false} AheadKeys(st: Recency, x: Key, y: Key)
    requires Ahead(st, x, y)
    ensures y in Keys(st)
  {
    FrontKeys(st[0], st[1..]);
    assert st == [st[0]] + st[1..];
    if !(st[0].key == x && y in Keys(st[1..])) {
      AheadKeys(st[1..], x, y);
    }
  }

  lemma {:induction false} RecencyIsUse(o: Options, ops: seq<Op>)
    ensures FrontUsedSince(o, ops, Run(o, ops))
  {
    if ops != [] {
      var before, op := ops[..|ops| - 1], ops[|ops| - 1];
      var st := Run(o, before);
      RecencyIsUse(o, before);
      RunShape(o, before);
      match op
      case Get(k, now, stamp) =>
        DropFound(st, k);
        DropKeepsOrder(st, {k});
        if Lookup(o, st, k, now, stamp).hit.Some? {
          UsedStep(o, ops, k, Lookup(o, st, k, now, stamp).st[0], DropKeys(st, {k}));
        } else {
          UnusedStep(o, ops, Run(o, ops));
        }
      case Set(k, v, stamp) => StoredIsUse(o, ops, k, v, stamp);
      case Delete(k) => RemovedIsUse(o, ops, {k});
      case DeleteFunc(fn) => RemovedIsUse(o, ops, Matching(st, fn));
      case Gc(reading) => RemovedIsUse(o, ops, Lapsed(st, reading));
    }
  }

  lemma RemovedIsUse(o: Options, ops: seq<Op>, gone: set<Key>)
    requires ops != [] && Used(o, Run(o, ops[..|ops| - 1]), ops[|ops| - 1]) == {}
    requires FrontUsedSince(o, ops[..|ops| - 1], Run(o, ops[..|ops| - 1]))
    requires Run(o, ops) == DropKeys(Run(o, ops[..|ops| - 1]), gone)
    ensures FrontUsedSince(o, ops, Run(o, ops))
  {
    var before := ops[..|ops| - 1];
    DropKeepsOrder(Run(o, before), gone);
    UnusedStep(o, ops, Run(o, ops));
  }

  // What stays behind a stored entry.
  function Behind(o: Options, st: Recency, k: Key): Recency {
    if Find(st, k).Some? then DropKeys(st, {k}) else if Full(o, st) && st != [] then st[..|st| - 1] else st
  }

  lemma StoreFronts(o: Options, st: Recency, k: Key, v: Value, stamp: int)
    ensures Store(o, st, k, v, stamp).st == [Entry(k, v, Deadline(o, stamp))] + Behind(o, st, k)
  {
  }

  lemma BehindKeepsOrder(o: Options, st: Recency, k: Key)
    requires Distinct(st)
    ensures forall x, y :: Ahead(Behind(o, st, k), x, y) ==> Ahead(st, x, y)
    ensures k !in Keys(Behind(o, st, k))
  {
    FindMeaning(st, k);
    if Find(st, k).Some? {
      DropFound(st, k);
      DropKeepsOrder(st, {k});
    } else if st != [] {
      var front, last := st[..|st| - 1], st[|st| - 1];
      PrefixKeepsOrder(front, last);
      assert st == front + [last];
    }
  }

  lemma StoredIsUse(o: Options, ops: seq<Op>, k: Key, v: Value, stamp: int)
    requires ops != [] && ops[|ops| - 1] == Op.Set(k, v, stamp)
    requires FrontUsedSince(o, ops[..|ops| - 1], Run(o, ops[..|ops| - 1]))
    ensures FrontUsedSince(o, ops, Run(o, ops))
  {
    var before := ops[..|ops| - 1];
    var st := Run(o, before);
    RunShape(o, before);
    StoreFronts(o, st, k, v, stamp);
    BehindKeepsOrder(o, st, k);
    UsedStep(o, ops, k, Entry(k, v, Deadline(o, stamp)), Behind(o, st, k));
  }

  lemma {:induction false} DistinctCount(st: Recency)
    requires Distinct(st)
    ensures |Keys(st)| == |st|
  {
    if st == [] {
      assert Keys(st) == {};
    } else {
      DistinctCount(st[1..]);
      assert st == [st[0]] + st[1..];
      assert Keys(st) == {st[0].key} + Keys(st[1..]);
      assert st[0].key !in Keys(st[1..]);
    }
  }

  lemma {:induction false} SubsetCount(a: set<Key>, b: set<Key>)
    requires a <= b
    ensures |a| <= |b|
  {
    if a != {} {
      var x :| x in a;
      SubsetCount(a - {x}, b - {x});
    }
  }

  // Storing an absent key in a full cache deletes the entry at the back, and by
  // then at least MaxEntries distinct other keys have been used since that one.
  lemma OverflowVictim(o: Options, ops: seq<Op>, k: Key, v: Value, stamp: int)
    requires Full(o, Run(o, ops)) && Find(Run(o, ops), k).None?
    ensures var st := Run(o, ops);
            var victim, after := st[|st| - 1].key, ops + [Op.Set(k, v, stamp)];
            && Keys(Run(o, after)) == (Keys(st) - {victim}) + {k}
            && victim !in UsedSince(o, after, victim)
            && |UsedSince(o, after, victim)| >= o.maxEntries
  {
    OverflowKeys(o, ops, k, v, stamp);
    OverflowUses(o, ops, k, v, stamp);
  }

  lemma OverflowKeys(o: Options, ops: seq<Op>, k: Key, v: Value, stamp: int)
    requires Full(o, Run(o, ops)) && Find(Run(o, ops), k).None?
    ensures var st := Run(o, ops);
            Keys(Run(o, ops + [Op.Set(k, v, stamp)])) == (Keys(st) - {st[|st| - 1].key}) + {k}
  {
    RunShape(o, ops);
    FindMeaning(Run(o, ops), k);
    AfterOverflow(o, ops, k, v, stamp);
    KeysApart(Run(o, ops), k);
  }

  lemma KeysApart(st: Recency, k: Key)
    requires Distinct(st) && st != [] && k !in Keys(st)
    ensures {k} + Keys(st[..|st| - 1]) == (Keys(st) - {st[|st| - 1].key}) + {k}
  {
    assert st == st[..|st| - 1] + [st[|st| - 1]];
    BackApart(st[..|st| - 1], st[|st| - 1], k);
  }

  lemma OverflowUses(o: Options, ops: seq<Op>, k: Key, v: Value, stamp: int)
    requires Full(o, Run(o, ops)) && Find(Run(o, ops), k).None?
    ensures var st := Run(o, ops);
            var victim, after := st[|st| - 1].key, ops + [Op.Set(k, v, stamp)];
            victim !in UsedSince(o, after, victim) && |UsedSince(o, after, victim)| >= o.maxEntries
  {
    RunShape(o, ops);
    FindMeaning(Run(o, ops), k);
    UsesCounted(o, ops, k, v, stamp, Run(o, ops));
  }

  lemma UsesCounted(o: Options, ops: seq<Op>, k: Key, v: Value, stamp: int, st: Recency)
    requires Run(o, ops) == st && |st| >= o.maxEntries > 0 && Distinct(st) && k !in Keys(st)
    ensures var victim, after := st[|st| - 1].key, ops + [Op.Set(k, v, stamp)];
            victim !in UsedSince(o, after, victim) && |UsedSince(o, after, victim)| >= o.maxEntries
  {
    var victim, after := st[|st| - 1].key, ops + [Op.Set(k, v, stamp)];
    NeverSinceItself(o, after, victim);
    AllUsed(o, ops, k, v, stamp, st);
    CountedInFront(st, k, UsedSince(o, after, victim));
  }

  lemma AllUsed(o: Options, ops: seq<Op>, k: Key, v: Value, stamp: int, st: Recency)
    requires Run(o, ops) == st && st != [] && k !in Keys(st)
    ensures Keys(st[..|st| - 1]) + {k} <= UsedSince(o, ops + [Op.Set(k, v, stamp)], st[|st| - 1].key)
  {
    assert st[|st| - 1] in st;
    assert st == st[..|st| - 1] + [st[|st| - 1]];
    FrontUsed(o, ops, k, v, stamp, st[..|st| - 1], st[|st| - 1]);
  }

  lemma CountedInFront(st: Recency, k: Key, used: set<Key>)
    requires st != [] && Distinct(st) && k !in Keys(st) && Keys(st[..|st| - 1]) + {k} <= used
    ensures |used| >= |st|
  {
    assert st == st[..|st| - 1] + [st[|st| - 1]];
    BackApart(st[..|st| - 1], st[|st| - 1], k);
    SubsetCount(Keys(st[..|st| - 1]) + {k}, used);
  }

  // The keys of a list apart from its last, and one it does not hold.
  lemma BackApart(front: Recency, last: Entry, k: Key)
    requires Distinct(front + [last]) && k !in Keys(front + [last])
    ensures k != last.key && {k} + Keys(front) == (Keys(front + [last]) - {last.key}) + {k}
    ensures |Keys(front) + {k}| == |front| + 1
  {
    LastNotAhead(front, last);
    PrefixKeepsOrder(front, last);
    assert forall i :: 0 <= i < |front| ==> front[i] == (front + [last])[i];
    DistinctCount(front);
    assert k !in Keys(front);
  }

  // The state an overflow leaves: the new entry in front of all but the last.
  lemma AfterOverflow(o: Options, ops: seq<Op>, k: Key, v: Value, stamp: int)
    requires Full(o, Run(o, ops)) && Find(Run(o, ops), k).None?
    ensures var st := Run(o, ops);
            Keys(Run(o, ops + [Op.Set(k, v, stamp)])) == {k} + Keys(st[..|st| - 1])
  {
    var st, after := Run(o, ops), ops + [Op.Set(k, v, stamp)];
    assert after[..|after| - 1] == ops;
    FrontKeys(Entry(k, v, Deadline(o, stamp)), st[..|st| - 1]);
  }

  // By then everything in front of the last entry, and the new key, was used since it was.
  lemma FrontUsed(o: Options, ops: seq<Op>, k: Key, v: Value, stamp: int, front: Recency, last: Entry)
    requires Run(o, ops) == front + [last] && k != last.key
    ensures Keys(front) + {k} <= UsedSince(o, ops + [Op.Set(k, v, stamp)], last.key)
  {
    var after := ops + [Op.Set(k, v, stamp)];
    RecencyIsUse(o, ops);
    PrefixKeepsOrder(front, last);
    assert after[..|after| - 1] == ops;
    assert UsedSince(o, after, last.key) == UsedSince(o, ops, last.key) + {k};
  }

  lemma LastNotAhead(front: Recency, last: Entry)
    requires Distinct(front + [last])
    ensures last.key !in Keys(front)
  {
    var st := front + [last];
    forall e | e in front ensures e.key != last.key {
      var i :| 0 <= i < |front| && front[i] == e;
      assert st[i] == e && st[|front|] == last;
    }
  }

  lemma {:induction false} NeverSinceItself(o: Options, ops: seq<Op>, k: Key)
    ensures k !in UsedSince(o, ops, k)
  {
    if ops != [] {
      NeverSinceItself(o, ops[..|ops| - 1], k);
    }
  }

  // ---- Expiry ----

  function StampOf(op: Op): Option<int> {
    match op
    case Get(_, _, stamp) => Some(stamp)
    case Set(_, _, stamp) => Some(stamp)
    case Delete(_) => None
    case DeleteFunc(_) => None
    case Gc(_) => None
  }

  // The clock never went backwards between the stamps of a run, which ended by t.
  ghost predicate Clocked(ops: seq<Op>, t: int) {
    ops == [] ||
    match StampOf(ops[|ops| - 1])
    case Some(stamp) => stamp <= t && Clocked(ops[..|ops| - 1], stamp)
    case None => Clocked(ops[..|ops| - 1], t)
  }

  // Every entry expires, none later than top, and none later than those in front of it.
  ghost predicate Descending(st: Recency, top: int) {
    st == [] || (st[0].expiry.Some? && st[0].expiry.value <= top && Descending(st[1..], st[0].expiry.value))
  }

  lemma {:induction false} DescendingDrop(st: Recency, gone: set<Key>, top: int, top': int)
    requires Descending(st, top) && top <= top'
    ensures Descending(DropKeys(st, gone), top')
  {
    if st != [] {
      if st[0].key in gone {
        DescendingDrop(st[1..], gone, st[0].expiry.value, top');
      } else {
        DescendingDrop(st[1..], gone, st[0].expiry.value, st[0].expiry.value);
        assert ([st[0]] + DropKeys(st[1..], gone))[1..] == DropKeys(st[1..], gone);
      }
    }
  }

  lemma {:induction false} DescendingPrefix(front: Recency, last: Entry, top: int)
    requires Descending(front + [last], top)
    ensures Descending(front, top) && last.expiry.Some?
    ensures forall e :: e in front ==> e.expiry.Some? && e.expiry.value >= last.expiry.value
    ensures last.expiry.value <= top
  {
    if front != [] {
      assert (front + [last])[1..] == front[1..] + [last];
      DescendingPrefix(front[1..], last, front[0].expiry.value);
      assert front == [front[0]] + front[1..];
      assert forall e :: e in front ==> e == front[0] || e in front[1..];
    }
  }

  lemma {:induction false} ExpiryDescends(o: Options, ops: seq<Op>, t: int)
    requires o.ttl > 0 && Clocked(ops, t)
    ensures Descending(Run(o, ops), t + o.ttl)
  {
    if ops != [] {
      var before, op := ops[..|ops| - 1], ops[|ops| - 1];
      var st := Run(o, before);
      var latest := if StampOf(op).Some? then StampOf(op).value else t;
      ExpiryDescends(o, before, latest);
      match op
      case Get(k, now, stamp) => LookupDescends(o, st, k, now, stamp, t);
      case Set(k, v, stamp) => StoredDescends(o, st, k, v, stamp, t);
      case Delete(k) => DescendingDrop(st, {k}, latest + o.ttl, t + o.ttl);
      case DeleteFunc(fn) => DescendingDrop(st, Matching(st, fn), latest + o.ttl, t + o.ttl);
      case Gc(reading) => DescendingDrop(st, Lapsed(st, reading), latest + o.ttl, t + o.ttl);
    }
  }

  lemma RaisedFront(o: Options, k: Key, stamp: int, t: int, rest: Recency)
    requires o.ttl > 0 && stamp <= t && Descending(rest, stamp + o.ttl)
    ensures forall v :: Descending([Entry(k, v, Deadline(o, stamp))] + rest, t + o.ttl)
  {
    forall v ensures Descending([Entry(k, v, Deadline(o, stamp))] + rest, t + o.ttl) {
      var st := [Entry(k, v, Deadline(o, stamp))] + rest;
      assert st[1..] == rest;
    }
  }

  lemma LookupDescends(o: Options, st: Recency, k: Key, now: int, stamp: int, t: int)
    requires o.ttl > 0 && stamp <= t && Descending(st, stamp + o.ttl)
    ensures Descending(Lookup(o, st, k, now, stamp).st, t + o.ttl)
  {
    DescendingDrop(st, {}, stamp + o.ttl, t + o.ttl);
    DropNothing(st, {});
    DescendingDrop(st, {k}, stamp + o.ttl, stamp + o.ttl);
    DescendingDrop(st, {k}, stamp + o.ttl, t + o.ttl);
    RaisedFront(o, k, stamp, t, DropKeys(st, {k}));
  }

  lemma StoredDescends(o: Options, st: Recency, k: Key, v: Value, stamp: int, t: int)
    requires o.ttl > 0 && stamp <= t && Descending(st, stamp + o.ttl)
    ensures Descending(Store(o, st, k, v, stamp).st, t + o.ttl)
  {
    DescendingDrop(st, {k}, stamp + o.ttl, stamp + o.ttl);
    RaisedFront(o, k, stamp, t, DropKeys(st, {k}));
    RaisedFront(o, k, stamp, t, st);
    if st != [] {
      assert st == st[..|st| - 1] + [st[|st| - 1]];
      DescendingPrefix(st[..|st| - 1], st[|st| - 1], stamp + o.ttl);
      RaisedFront(o, k, stamp, t, st[..|st| - 1]);
    }
  }

  // Under a clock that never goes backwards the back of the list expires first,
  // so an overflow deletes a live entry only when every entry is live.
  lemma VictimExpiresFirst(o: Options, ops: seq<Op>, t: int, now: int, e: Entry)
    requires o.ttl > 0 && Clocked(ops, t)
    requires e in Run(o, ops) && Expired(e, now)
    ensures var st := Run(o, ops); Expired(st[|st| - 1], now)
  {
    var st := Run(o, ops);
    ExpiryDescends(o, ops, t);
    assert st == st[..|st| - 1] + [st[|st| - 1]];
    DescendingPrefix(st[..|st| - 1], st[|st| - 1], t + o.ttl);
    assert e in st[..|st| - 1] || e == st[|st| - 1];
  }

  // ---- What a hit returns ----

  // The value the last Set of k stored, unless a Delete or DeleteFunc took it since.
  ghost function LastSet(ops: seq<Op>, k: Key): Option<Value> {
    if ops == [] then None
    else
      var rest := LastSet(ops[..|ops| - 1], k);
      match ops[|ops| - 1]
      case Get(_, _, _) => rest
      case Set(key, v, _) => if key == k then Some(v) else rest
      case Delete(key) => if key == k then None else rest
      case DeleteFunc(fn) => if fn(k) then None else rest
      case Gc(_) => rest
  }

  // The clock at the last use of k.
  ghost function LastUse(o: Options, ops: seq<Op>, k: Key): Option<int> {
    if ops == [] then None
    else
      var before, op := ops[..|ops| - 1], ops[|ops| - 1];
      if k in Used(o, Run(o, before), op) then StampOf(op) else LastUse(o, before, k)
  }

  lemma StoredEntry(o: Options, st: Recency, k: Key, v: Value, stamp: int, e: Entry)
    requires Distinct(st) && e in Store(o, st, k, v, stamp).st
    ensures e.key == k ==> e == Entry(k, v, Deadline(o, stamp))
    ensures e.key != k ==> e in st
  {
    var x := Entry(k, v, Deadline(o, stamp));
    DropMembers(st, {k});
    FindMeaning(st, k);
    if e != x {
      if Find(st, k).Some? {
        assert e in DropKeys(st, {k});
      } else if Full(o, st) && st != [] {
        assert e in st[..|st| - 1];
        assert e in st && e.key in Keys(st);
      } else {
        assert e in st && e.key in Keys(st);
      }
    }
  }

  lemma LookedUpEntry(o: Options, st: Recency, k: Key, now: int, stamp: int, e: Entry)
    requires Distinct(st) && e in Lookup(o, st, k, now, stamp).st
    ensures if Lookup(o, st, k, now, stamp).hit.Some? && e.key == k
            then e == Entry(k, Find(st, k).value.value, Deadline(o, stamp))
            else e in st
  {
    DropMembers(st, {k});
    FindMeaning(st, k);
  }

  // An entry after an operation was there before it, or is the one the operation used.
  lemma EntriesAfter(o: Options, st: Recency, op: Op, e: Entry)
    requires Distinct(st) && e in Apply(o, st, op).st
    ensures e.key !in Used(o, st, op) ==>
              e in st && (op.DeleteFunc? ==> !op.fn(e.key)) && (op.Delete? ==> e.key != op.key)
    ensures e.key in Used(o, st, op) ==>
              && StampOf(op).Some? && e.expiry == Deadline(o, StampOf(op).value)
              && (op.Set? ==> e.value == op.value)
              && (op.Get? ==> Find(st, e.key).Some? && e.value == Find(st, e.key).value.value)
  {
    match op
    case Get(k, now, stamp) => LookedUpEntry(o, st, k, now, stamp, e);
    case Set(k, v, stamp) => StoredEntry(o, st, k, v, stamp, e);
    case Delete(k) => DropMembers(st, {k});
    case DeleteFunc(fn) => DropMembers(st, Matching(st, fn));
    case Gc(reading) => DropMembers(st, Lapsed(st, reading));
  }

  // A resident value is the one last set, and its lifetime runs from its last use.
  lemma {:induction false} ResidentIsLastSet(o: Options, ops: seq<Op>, e: Entry)
    requires e in Run(o, ops)
    ensures LastSet(ops, e.key) == Some(e.value)
    ensures LastUse(o, ops, e.key).Some? && e.expiry == Deadline(o, LastUse(o, ops, e.key).value)
  {
    var before, op := ops[..|ops| - 1], ops[|ops| - 1];
    var st := Run(o, before);
    RunShape(o, before);
    EntriesAfter(o, st, op, e);
    if e in st {
      ResidentIsLastSet(o, before, e);
    }
    if e.key in Used(o, st, op) && op.Get? {
      FindMeaning(st, e.key);
      ResidentIsLastSet(o, before, Find(st, e.key).value);
    }
  }

  // A hit never returns a stale value: it is what was last set for the key,
  // not deleted since, within the lifetime counted from the last use.
  lemma HitIsFresh(o: Options, ops: seq<Op>, k: Key, now: int, stamp: int)
    requires Lookup(o, Run(o, ops), k, now, stamp).hit.Some?
    ensures LastSet(ops, k) == Lookup(o, Run(o, ops), k, now, stamp).hit
    ensures o.ttl > 0 ==> LastUse(o, ops, k).Some? && now <= LastUse(o, ops, k).value + o.ttl
  {
    FindMeaning(Run(o, ops), k);
    ResidentIsLastSet(o, ops, Find(Run(o, ops), k).value);
  }

  // Without a bound or a lifetime the cache is exactly a map.
  lemma {:induction false} UnboundedIsMap(o: Options, ops: seq<Op>, k: Key)
    requires o.maxEntries <= 0 && o.ttl <= 0
    ensures k in Keys(Run(o, ops)) <==> LastSet(ops, k).Some?
  {
    if k in Keys(Run(o, ops)) {
      var e :| e in Run(o, ops) && e.key == k;
      ResidentIsLastSet(o, ops, e);
    } else if ops != [] && LastSet(ops, k).Some? {
      var before, op := ops[..|ops| - 1], ops[|ops| - 1];
      UnboundedIsMap(o, before, k);
      UnboundedKeeps(o, before, op, k);
    }
  }

  // Only Delete and DeleteFunc take a key out when nothing expires or overflows.
  lemma UnboundedKeeps(o: Options, before: seq<Op>, op: Op, k: Key)
    requires o.maxEntries <= 0 && o.ttl <= 0
    requires (op.Set? && op.key == k) ||
             (k in Keys(Run(o, before)) && !(op.Delete? && op.key == k) && !(op.DeleteFunc? && op.fn(k)))
    ensures k in Keys(Apply(o, Run(o, before), op).st)
  {
    var st := Run(o, before);
    RunShape(o, before);
    FindMeaning(st, k);
    forall e | e in st ensures e.expiry == None {
      ResidentIsLastSet(o, before, e);
    }
    match op
    case Get(key, _, stamp) =>
      DropMembers(st, {key});
      FindMeaning(st, key);
      if Find(st, key).Some? {
        FrontKeys(Entry(key, Find(st, key).value.value, Deadline(o, stamp)), DropKeys(st, {key}));
      }
    case Set(key, v, stamp) =>
      DropMembers(st, {key});
      DropFound(st, key);
      FrontKeys(Entry(key, v, Deadline(o, stamp)), DropKeys(st, {key}));
    case Delete(key) => DropMembers(st, {key});
    case DeleteFunc(fn) => DropMembers(st, Matching(st, fn));
    case Gc(reading) => DropMembers(st, Lapsed(st, reading));
  }
}
