// What each critical section of the cache does to its abstract state: the
// entries it holds, most recently used first. The class in Cache.dfy keeps the
// same information in a map, an expiry index and a recency list.
module CacheModel {
  import opened Collections

  type Key = string
  type Value(==, !new, 0)
  type Pair = (Key, Value)

  datatype Entry = Entry(key: Key, value: Value, expiry: Option<int>)
  type Recency = seq<Entry>

  // A non-positive bound or lifetime means there is none.
  datatype Options = Options(maxEntries: int, ttl: int, listener: bool)

  ghost predicate Distinct(st: Recency) {
    forall i, j :: 0 <= i < j < |st| ==> st[i].key != st[j].key
  }

  ghost function Keys(st: Recency): set<Key> {
    set e | e in st :: e.key
  }

  function Find(st: Recency, k: Key): Option<Entry> {
    if st == [] then None else if st[0].key == k then Some(st[0]) else Find(st[1..], k)
  }

  function Outside(gone: set<Key>): Entry -> bool {
    (e: Entry) => e.key !in gone
  }

  function DropKeys(st: Recency, gone: set<Key>): Recency {
    Filter(Outside(gone), st)
  }

  // Every (key, value) pair held.
  function Pairs(st: Recency): multiset<Pair> {
    if st == [] then multiset{} else multiset{(st[0].key, st[0].value)} + Pairs(st[1..])
  }

  function PairsAt(st: Recency, at: set<Key>): multiset<Pair> {
    if st == [] then multiset{}
    else if st[0].key in at then multiset{(st[0].key, st[0].value)} + PairsAt(st[1..], at)
    else PairsAt(st[1..], at)
  }

  predicate Expired(e: Entry, now: int) {
    e.expiry.Some? && now > e.expiry.value
  }

  function Deadline(o: Options, stamp: int): Option<int> {
    if o.ttl > 0 then Some(stamp + o.ttl) else None
  }

  predicate Full(o: Options, st: Recency) {
    o.maxEntries > 0 && |st| >= o.maxEntries
  }

  // One critical section: the state after it, the value a lookup hit, and the
  // pairs that entered and left.
  datatype Section = Section(st: Recency, hit: Option<Value>, entered: multiset<Pair>, left: multiset<Pair>)

  function Use(o: Options, st: Recency, k: Key, v: Value, stamp: int): Recency {
    [Entry(k, v, Deadline(o, stamp))] + DropKeys(st, {k})
  }

  // The clock is read once to test expiry and once more to restart the lifetime.
  function Lookup(o: Options, st: Recency, k: Key, now: int, stamp: int): Section {
    match Find(st, k)
    case None => Section(st, None, multiset{}, multiset{})
    case Some(e) =>
      if Expired(e, now) then Section(DropKeys(st, {k}), None, multiset{}, multiset{(k, e.value)})
      else Section(Use(o, st, k, e.value, stamp), Some(e.value), multiset{}, multiset{})
  }

  // Storing the value a key already holds counts as neither entering nor leaving.
  function Store(o: Options, st: Recency, k: Key, v: Value, stamp: int): Section {
    match Find(st, k)
    case Some(e) =>
      if e.value == v then Section(Use(o, st, k, v, stamp), None, multiset{}, multiset{})
      else Section(Use(o, st, k, v, stamp), None, multiset{(k, v)}, multiset{(k, e.value)})
    case None =>
      if Full(o, st) && st != [] then
        var victim := st[|st| - 1];
        Section([Entry(k, v, Deadline(o, stamp))] + st[..|st| - 1], None,
                multiset{(k, v)}, multiset{(victim.key, victim.value)})
      else
        Section([Entry(k, v, Deadline(o, stamp))] + st, None, multiset{(k, v)}, multiset{})
  }

  function Remove(st: Recency, gone: set<Key>): Section {
    Section(DropKeys(st, gone), None, multiset{}, PairsAt(st, gone))
  }

  ghost function Matching(st: Recency, fn: Key -> bool): set<Key> {
    set e | e in st && fn(e.key) :: e.key
  }

  // A sweep reads the clock again at every key it visits; reading gives what it read.
  ghost function Lapsed(st: Recency, reading: Key -> int): set<Key> {
    set e | e in st && Expired(e, reading(e.key)) :: e.key
  }

  // GetOrCreate by one caller alone: a miss stores what create made, unless it failed.
  function LookupOrStore(
      o: Options, st: Recency, k: Key, now: int, stamp: int, created: Option<Value>, setStamp: int): Section
  {
    var l := Lookup(o, st, k, now, stamp);
    if l.hit.Some? || created.None? then l
    else
      var s := Store(o, l.st, k, created.value, setStamp);
      Section(s.st, None, s.entered, l.left + s.left)
  }

  datatype Op =
    | Get(key: Key, now: int, stamp: int)
    | Set(key: Key, value: Value, stamp: int)
    | Delete(key: Key)
    | DeleteFunc(fn: Key -> bool)
    | Gc(reading: Key -> int)

  ghost function Apply(o: Options, st: Recency, op: Op): Section {
    match op
    case Get(k, now, stamp) => Lookup(o, st, k, now, stamp)
    case Set(k, v, stamp) => Store(o, st, k, v, stamp)
    case Delete(k) => Remove(st, {k})
    case DeleteFunc(fn) => Remove(st, Matching(st, fn))
    case Gc(reading) => Remove(st, Lapsed(st, reading))
  }

  lemma {:induction false} FindMeaning(st: Recency, k: Key)
    ensures Find(st, k).Some? <==> k in Keys(st)
    ensures Find(st, k).Some? ==> Find(st, k).value in st && Find(st, k).value.key == k
  {
    if st != [] {
      FindMeaning(st[1..], k);
      assert st == [st[0]] + st[1..];
    }
  }

  lemma DropMembers(st: Recency, gone: set<Key>)
    ensures forall e :: e in DropKeys(st, gone) <==> e in st && e.key !in gone
  {
    forall e ensures e in DropKeys(st, gone) <==> e in st && e.key !in gone {
      FilterMember(Outside(gone), st, e);
    }
  }

  lemma {:induction false} DropShape(st: Recency, gone: set<Key>)
    ensures |DropKeys(st, gone)| <= |st|
    ensures Distinct(st) ==> Distinct(DropKeys(st, gone))
  {
    if st != [] {
      var rest := st[1..];
      DropShape(rest, gone);
      DropMembers(rest, gone);
      var kept := DropKeys(rest, gone);
      if Distinct(st) {
        assert forall j :: 0 <= j < |kept| ==> kept[j] in rest;
        assert forall e :: e in rest ==> e.key != st[0].key;
      }
    }
  }

  lemma {:induction false} DropNothing(st: Recency, gone: set<Key>)
    requires forall i :: 0 <= i < |st| ==> st[i].key !in gone
    ensures DropKeys(st, gone) == st
  {
    if st != [] {
      DropNothing(st[1..], gone);
      assert st == [st[0]] + st[1..];
    }
  }

  lemma DropBetween(st: Recency, front: Recency, e: Entry, back: Recency)
    requires st == front + ([e] + back)
    requires e.key !in Keys(front) && e.key !in Keys(back)
    ensures DropKeys(st, {e.key}) == front + back
  {
    FilterConcat(Outside({e.key}), front, [e] + back);
    forall i | 0 <= i < |front| ensures front[i].key != e.key { assert front[i] in front; }
    forall i | 0 <= i < |back| ensures back[i].key != e.key { assert back[i] in back; }
    DropNothing(front, {e.key});
    DropNothing(back, {e.key});
    assert ([e] + back)[1..] == back;
  }

  // Where a key sits decides what dropping it leaves: what is in front and what is behind.
  lemma DropAt(st: Recency, i: nat)
    requires Distinct(st) && i < |st|
    ensures DropKeys(st, {st[i].key}) == st[..i] + st[i + 1..]
  {
    var front, back := st[..i], st[i + 1..];
    var e := st[i];
    assert [e] + back == st[i..];
    assert st == front + ([e] + back);
    DropBetween(st, front, e, back);
  }

  lemma {:induction false} DropTwice(st: Recency, a: set<Key>, b: set<Key>)
    ensures DropKeys(DropKeys(st, a), b) == DropKeys(st, a + b)
  {
    if st != [] {
      DropTwice(st[1..], a, b);
    }
  }

  lemma {:induction false} PairsAtTwice(st: Recency, a: set<Key>, b: set<Key>)
    ensures PairsAt(st, a) + PairsAt(DropKeys(st, a), b) == PairsAt(st, a + b)
  {
    if st != [] {
      PairsAtTwice(st[1..], a, b);
    }
  }

  lemma {:induction false} PairsSplit(st: Recency, gone: set<Key>)
    ensures Pairs(st) == Pairs(DropKeys(st, gone)) + PairsAt(st, gone)
  {
    if st != [] {
      PairsSplit(st[1..], gone);
    }
  }

  lemma {:induction false} PairsAtNone(st: Recency)
    ensures PairsAt(st, {}) == multiset{}
  {
    if st != [] {
      PairsAtNone(st[1..]);
    }
  }

  lemma {:induction false} PairsAtOne(st: Recency, k: Key)
    requires Distinct(st)
    ensures PairsAt(st, {k}) ==
            match Find(st, k) case None => multiset{} case Some(e) => multiset{(k, e.value)}
  {
    if st != [] {
      var rest := st[1..];
      PairsAtOne(rest, k);
      FindMeaning(rest, k);
      assert forall e :: e in rest ==> e.key != st[0].key;
    }
  }

  lemma {:induction false} PairsConcat(s: Recency, t: Recency)
    ensures Pairs(s + t) == Pairs(s) + Pairs(t)
  {
    if s == [] {
      assert s + t == t;
    } else {
      var both, first := s + t, multiset{(s[0].key, s[0].value)};
      assert both[1..] == s[1..] + t;
      PairsConcat(s[1..], t);
      assert Pairs(both) == first + Pairs(both[1..]);
      assert Pairs(s) == first + Pairs(s[1..]);
    }
  }

  lemma PairsOfFront(e: Entry, st: Recency)
    ensures Pairs([e] + st) == multiset{(e.key, e.value)} + Pairs(st)
  {
    assert ([e] + st)[1..] == st;
  }

  lemma DropFound(st: Recency, k: Key)
    requires Distinct(st)
    ensures Distinct(DropKeys(st, {k}))
    ensures forall i :: 0 <= i < |DropKeys(st, {k})| ==> DropKeys(st, {k})[i].key != k
    ensures Find(st, k).Some? ==> |DropKeys(st, {k})| == |st| - 1
    ensures Find(st, k).None? ==> DropKeys(st, {k}) == st
  {
    DropShape(st, {k});
    DropMembers(st, {k});
    FindMeaning(st, k);
    var kept := DropKeys(st, {k});
    assert forall i :: 0 <= i < |kept| ==> kept[i] in kept;
    if Find(st, k).Some? {
      var i :| 0 <= i < |st| && st[i] == Find(st, k).value;
      DropAt(st, i);
    } else {
      forall i | 0 <= i < |st| ensures st[i].key != k {
        assert st[i] in st && st[i].key in Keys(st);
      }
      DropNothing(st, {k});
    }
  }

  // Using a key puts it in front and keeps one entry per key.
  lemma UseShape(o: Options, st: Recency, k: Key, v: Value, stamp: int)
    requires Distinct(st)
    ensures Distinct(Use(o, st, k, v, stamp))
    ensures |Use(o, st, k, v, stamp)| == if Find(st, k).Some? then |st| else |st| + 1
  {
    DropFound(st, k);
  }

  lemma StoreShape(o: Options, st: Recency, k: Key, v: Value, stamp: int)
    requires Distinct(st) && (o.maxEntries > 0 ==> |st| <= o.maxEntries)
    ensures Distinct(Store(o, st, k, v, stamp).st)
    ensures o.maxEntries > 0 ==> |Store(o, st, k, v, stamp).st| <= o.maxEntries
  {
    UseShape(o, st, k, v, stamp);
    if Find(st, k).None? {
      DropFound(st, k);
      assert forall i :: 0 <= i < |st| ==> st[i].key != k;
    }
  }

  // Every critical section keeps one entry per key and stays within MaxEntries.
  lemma SectionKeepsShape(o: Options, st: Recency, op: Op)
    requires Distinct(st) && (o.maxEntries > 0 ==> |st| <= o.maxEntries)
    ensures Distinct(Apply(o, st, op).st)
    ensures o.maxEntries > 0 ==> |Apply(o, st, op).st| <= o.maxEntries
  {
    match op
    case Get(k, _, stamp) =>
      DropFound(st, k);
      if Find(st, k).Some? { UseShape(o, st, k, Find(st, k).value.value, stamp); }
    case Set(k, v, stamp) => StoreShape(o, st, k, v, stamp);
    case Delete(k) => DropShape(st, {k});
    case DeleteFunc(fn) => DropShape(st, Matching(st, fn));
    case Gc(reading) => DropShape(st, Lapsed(st, reading));
  }

  lemma LookupConserves(o: Options, st: Recency, k: Key, now: int, stamp: int)
    requires Distinct(st)
    ensures var r := Lookup(o, st, k, now, stamp); Pairs(st) + r.entered == Pairs(r.st) + r.left
  {
    PairsSplit(st, {k});
    PairsAtOne(st, k);
    if Find(st, k).Some? {
      PairsOfFront(Entry(k, Find(st, k).value.value, Deadline(o, stamp)), DropKeys(st, {k}));
    }
  }

  lemma PairsOfBack(st: Recency, e: Entry)
    ensures Pairs(st + [e]) == Pairs(st) + multiset{(e.key, e.value)}
  {
    PairsConcat(st, [e]);
    PairsOfFront(e, []);
    assert [e] + [] == [e];
  }

  // Replacing y by x in a bag, from either side.
  lemma Exchange(before: multiset<Pair>, kept: multiset<Pair>, x: Pair, y: Pair)
    requires before == kept + multiset{y}
    ensures before + multiset{x} == (multiset{x} + kept) + multiset{y}
  {
  }

  lemma StoreConserves(o: Options, st: Recency, k: Key, v: Value, stamp: int)
    requires Distinct(st)
    ensures var r := Store(o, st, k, v, stamp); Pairs(st) + r.entered == Pairs(r.st) + r.left
  {
    var newest := Entry(k, v, Deadline(o, stamp));
    match Find(st, k)
    case Some(e) =>
      PairsSplit(st, {k});
      PairsAtOne(st, k);
      PairsOfFront(newest, DropKeys(st, {k}));
      Exchange(Pairs(st), Pairs(DropKeys(st, {k})), (k, v), (k, e.value));
    case None =>
      if Full(o, st) && st != [] {
        var front, last := st[..|st| - 1], st[|st| - 1];
        PairsOfFront(newest, front);
        assert st == front + [last];
        PairsOfBack(front, last);
        Exchange(Pairs(st), Pairs(front), (k, v), (last.key, last.value));
      } else {
        PairsOfFront(newest, st);
      }
  }

  lemma RemoveConserves(st: Recency, gone: set<Key>)
    ensures var r := Remove(st, gone); Pairs(st) + r.entered == Pairs(r.st) + r.left
  {
    PairsSplit(st, gone);
  }

  // Nothing appears or vanishes inside a critical section without being counted.
  lemma SectionConserves(o: Options, st: Recency, op: Op)
    requires Distinct(st)
    ensures var r := Apply(o, st, op); Pairs(st) + r.entered == Pairs(r.st) + r.left
  {
    match op
    case Get(k, now, stamp) => LookupConserves(o, st, k, now, stamp);
    case Set(k, v, stamp) => StoreConserves(o, st, k, v, stamp);
    case Delete(k) => RemoveConserves(st, {k});
    case DeleteFunc(fn) => RemoveConserves(st, Matching(st, fn));
    case Gc(reading) => RemoveConserves(st, Lapsed(st, reading));
  }

  // ---- What each section does, entry by entry ----

  // The entries of the other keys, in order.
  function OthersThan(st: Recency, k: Key): Recency {
    Filter((e: Entry) => e.key != k, st)
  }

  lemma DropOne(st: Recency, k: Key)
    ensures DropKeys(st, {k}) == OthersThan(st, k)
  {
    FilterSame(Outside({k}), (e: Entry) => e.key != k, st);
  }

  lemma FoundEntry(st: Recency, e: Entry)
    requires Distinct(st) && e in st
    ensures Find(st, e.key) == Some(e)
  {
    FindMeaning(st, e.key);
    assert e.key in Keys(st);
    var i :| 0 <= i < |st| && st[i] == e;
    var j :| 0 <= j < |st| && st[j] == Find(st, e.key).value;
  }

  // A lookup deletes an entry past its expiry, puts any other in front with a
  // new lifetime, and changes nothing for an absent key.
  lemma LookupExactly(o: Options, st: Recency, k: Key, now: int, stamp: int)
    requires Distinct(st)
    ensures var r := Lookup(o, st, k, now, stamp);
            && r.entered == multiset{}
            && (k !in Keys(st) ==> r.hit == None && r.st == st && r.left == multiset{})
            && (forall e :: e in st && e.key == k ==>
                  if e.expiry.Some? && now > e.expiry.value
                  then r.hit == None && r.st == OthersThan(st, k) && r.left == multiset{(k, e.value)}
                  else
                    && r.hit == Some(e.value) && r.left == multiset{}
                    && r.st == [Entry(k, e.value, if o.ttl > 0 then Some(stamp + o.ttl) else None)] + OthersThan(st, k))
  {
    FindMeaning(st, k);
    DropOne(st, k);
    forall e | e in st && e.key == k ensures Find(st, k) == Some(e) {
      FoundEntry(st, e);
    }
  }

  // A store puts the key in front with a new lifetime; it displaces the key's own
  // value, or the last entry of a full list, or nothing.
  lemma StoreExactly(o: Options, st: Recency, k: Key, v: Value, stamp: int)
    requires Distinct(st)
    ensures var r := Store(o, st, k, v, stamp);
            var newest := Entry(k, v, if o.ttl > 0 then Some(stamp + o.ttl) else None);
            && (forall e :: e in st && e.key == k ==>
                  && r.st == [newest] + OthersThan(st, k)
                  && r.entered == (if e.value == v then multiset{} else multiset{(k, v)})
                  && r.left == (if e.value == v then multiset{} else multiset{(k, e.value)}))
            && (k !in Keys(st) ==>
                  && r.entered == multiset{(k, v)}
                  && if st != [] && 0 < o.maxEntries <= |st|
                     then
                       && r.st == [newest] + st[..|st| - 1]
                       && r.left == multiset{(st[|st| - 1].key, st[|st| - 1].value)}
                     else r.st == [newest] + st && r.left == multiset{})
  {
    FindMeaning(st, k);
    DropOne(st, k);
    forall e | e in st && e.key == k ensures Find(st, k) == Some(e) {
      FoundEntry(st, e);
    }
  }

  // Deleting by a test, and sweeping, keep exactly the other entries.
  lemma RemovalExactly(o: Options, st: Recency, k: Key, fn: Key -> bool, reading: Key -> int)
    ensures Apply(o, st, Op.Delete(k)).st == OthersThan(st, k)
    ensures Apply(o, st, Op.DeleteFunc(fn)).st == Filter((e: Entry) => !fn(e.key), st)
    ensures forall e :: e in Apply(o, st, Op.Gc(reading)).st ==> e in st
    ensures Distinct(st) ==>
              forall e :: e in st ==>
                (e in Apply(o, st, Op.Gc(reading)).st <==> !(e.expiry.Some? && reading(e.key) > e.expiry.value))
  {
    DropOne(st, k);
    FilterSame(Outside(Matching(st, fn)), (e: Entry) => !fn(e.key), st);
    DropMembers(st, Lapsed(st, reading));
    if Distinct(st) {
      forall e, x | e in st && x in st && e.key == x.key ensures e == x {
        FoundEntry(st, e);
        FoundEntry(st, x);
      }
    }
  }

  // A value created for a key that is absent, or past its expiry, is stored in
  // front; what leaves is the expired entry, or the last of a full list.
  lemma CreatedIsKept(o: Options, st: Recency, k: Key, now: int, stamp: int, v: Value, setStamp: int)
    requires Distinct(st) && (o.maxEntries > 0 ==> |st| <= o.maxEntries)
    requires forall e :: e in st && e.key == k ==> e.expiry.Some? && now > e.expiry.value
    ensures var r := LookupOrStore(o, st, k, now, stamp, Some(v), setStamp);
            var newest := Entry(k, v, if o.ttl > 0 then Some(setStamp + o.ttl) else None);
            && r.hit == None
            && (forall e :: e in st && e.key == k ==>
                  r.st == [newest] + OthersThan(st, k) && r.left == multiset{(k, e.value)})
            && (k !in Keys(st) ==>
                  if st != [] && 0 < o.maxEntries <= |st|
                  then
                    && r.st == [newest] + st[..|st| - 1]
                    && r.left == multiset{(st[|st| - 1].key, st[|st| - 1].value)}
                  else r.st == [newest] + st && r.left == multiset{})
  {
    LookupExactly(o, st, k, now, stamp);
    var l := Lookup(o, st, k, now, stamp);
    if e :| e in st && e.key == k {
      FoundEntry(st, e);
      DropOne(st, k);
      DropFound(st, k);
      AbsentKey(l.st, k);
      StoreExactly(o, l.st, k, v, setStamp);
    } else {
      StoreExactly(o, st, k, v, setStamp);
    }
  }

  lemma AbsentKey(st: Recency, k: Key)
    requires forall i :: 0 <= i < |st| ==> st[i].key != k
    ensures k !in Keys(st)
  {
  }

  // A key held within its lifetime is returned, and create changes nothing.
  lemma HeldIsReturned(o: Options, st: Recency, e: Entry, now: int, stamp: int, made: Option<Value>, setStamp: int)
    requires Distinct(st) && e in st && !(e.expiry.Some? && now > e.expiry.value)
    ensures var r := LookupOrStore(o, st, e.key, now, stamp, made, setStamp);
            var used := Entry(e.key, e.value, if o.ttl > 0 then Some(stamp + o.ttl) else None);
            r.hit == Some(e.value) && r.st == [used] + OthersThan(st, e.key) && r.left == multiset{}
  {
    LookupExactly(o, st, e.key, now, stamp);
  }

  // A create that failed leaves the key absent, and nothing else touched.
  lemma FailedIsAbsent(o: Options, st: Recency, k: Key, now: int, stamp: int, setStamp: int)
    requires Distinct(st)
    requires forall e :: e in st && e.key == k ==> e.expiry.Some? && now > e.expiry.value
    ensures var r := LookupOrStore(o, st, k, now, stamp, None, setStamp);
            r.hit == None && r.st == OthersThan(st, k) && k !in Keys(r.st)
  {
    LookupExactly(o, st, k, now, stamp);
    DropOne(st, k);
    DropFound(st, k);
    FindMeaning(st, k);
    AbsentKey(DropKeys(st, {k}), k);
    if k !in Keys(st) { assert OthersThan(st, k) == st; }
  }
}
