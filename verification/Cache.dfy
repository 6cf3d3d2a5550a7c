// The cache object: a value map, an expiry index and a recency list that its
// methods keep in agreement, each method proved against CacheModel.
module Cache {
  import opened Collections
  import opened CacheModel

  function Without(l: seq<Key>, k: Key): seq<Key> {
    Filter((x: Key) => x != k, l)
  }

  function EntryOf(k: Key, items: map<Key, Value>, expiration: map<Key, int>): Entry
    requires k in items
  {
    Entry(k, items[k], if k in expiration then Some(expiration[k]) else None)
  }

  // The entries a recency list stands for.
  function View(l: seq<Key>, items: map<Key, Value>, expiration: map<Key, int>): Recency
    requires forall k :: k in l ==> k in items
  {
    if l == [] then [] else [EntryOf(l[0], items, expiration)] + View(l[1..], items, expiration)
  }

  lemma WithoutMembers(l: seq<Key>, k: Key)
    ensures forall x :: x in Without(l, k) <==> x in l && x != k
  {
    forall x ensures x in Without(l, k) <==> x in l && x != k {
      FilterMember((y: Key) => y != k, l, x);
    }
  }

  ghost predicate Unique(l: seq<Key>) {
    forall i, j :: 0 <= i < j < |l| ==> l[i] != l[j]
  }

  lemma {:induction false} WithoutUnique(l: seq<Key>, k: Key)
    requires Unique(l)
    ensures Unique(Without(l, k))
    ensures |Without(l, k)| == if k in l then |l| - 1 else |l|
  {
    if l != [] {
      var rest := l[1..];
      WithoutUnique(rest, k);
      WithoutMembers(rest, k);
      assert l[0] !in rest;
      assert k in l <==> k == l[0] || k in rest;
    }
  }

  lemma {:induction false} ViewLength(l: seq<Key>, items: map<Key, Value>, expiration: map<Key, int>)
    requires forall k :: k in l ==> k in items
    ensures |View(l, items, expiration)| == |l|
    ensures forall i :: 0 <= i < |l| ==> View(l, items, expiration)[i] == EntryOf(l[i], items, expiration)
  {
    if l != [] {
      ViewLength(l[1..], items, expiration);
    }
  }

  // Dropping one key from the list drops its entry, whatever happened to that key's record.
  lemma {:induction false} ViewWithout(
      l: seq<Key>, k: Key, items: map<Key, Value>, expiration: map<Key, int>,
      items': map<Key, Value>, expiration': map<Key, int>)
    requires forall x :: x in l ==> x in items
    requires forall x :: x in l && x != k ==>
        x in items' && EntryOf(x, items', expiration') == EntryOf(x, items, expiration)
    ensures forall x :: x in Without(l, k) ==> x in items'
    ensures View(Without(l, k), items', expiration') == DropKeys(View(l, items, expiration), {k})
  {
    WithoutMembers(l, k);
    if l != [] {
      var rest, view := l[1..], View(l[1..], items, expiration);
      ViewWithout(rest, k, items, expiration, items', expiration');
      var e := EntryOf(l[0], items, expiration);
      assert ([e] + view)[1..] == view;
      if l[0] != k {
        var kept := Without(rest, k);
        assert ([l[0]] + kept)[1..] == kept;
      }
    }
  }

  lemma {:induction false} ViewFind(l: seq<Key>, k: Key, items: map<Key, Value>, expiration: map<Key, int>)
    requires forall x :: x in l ==> x in items
    ensures Find(View(l, items, expiration), k) == if k in l then Some(EntryOf(k, items, expiration)) else None
  {
    if l != [] {
      var view := View(l[1..], items, expiration);
      ViewFind(l[1..], k, items, expiration);
      assert ([EntryOf(l[0], items, expiration)] + view)[1..] == view;
      assert k in l <==> k == l[0] || k in l[1..];
    }
  }

  lemma {:induction false} ViewSame(
      l: seq<Key>, items: map<Key, Value>, expiration: map<Key, int>,
      items': map<Key, Value>, expiration': map<Key, int>)
    requires forall x :: x in l ==>
      x in items && x in items' && EntryOf(x, items', expiration') == EntryOf(x, items, expiration)
    ensures View(l, items', expiration') == View(l, items, expiration)
  {
    if l != [] {
      ViewSame(l[1..], items, expiration, items', expiration');
    }
  }

  // The three structures hold the same keys, one entry each, within the bound.
  ghost predicate Agree(o: Options, l: seq<Key>, items: map<Key, Value>, expiration: map<Key, int>) {
    && Unique(l)
    && (forall k :: k in l <==> k in items)
    && (forall k :: k in expiration <==> o.ttl > 0 && k in items)
    && (o.maxEntries > 0 ==> |l| <= o.maxEntries)
  }

  // Restarting the lifetime of k, when entries have one.
  method Restart(o: Options, expiration: map<Key, int>, k: Key, stamp: int) returns (deadlines: map<Key, int>)
    ensures forall x :: x in deadlines <==> x in expiration || (o.ttl > 0 && x == k)
    ensures forall x :: x in expiration && x != k ==> deadlines[x] == expiration[x]
    ensures forall items: map<Key, Value> | k in items && (k in expiration ==> o.ttl > 0) ::
              EntryOf(k, items, deadlines) == Entry(k, items[k], Deadline(o, stamp))
  {
    deadlines := if o.ttl > 0 then expiration[k := stamp + o.ttl] else expiration;
  }

  // Pushing an absent key to the front of a list that agrees with the rest of the records.
  method PushFront(o: Options, k: Key, l: seq<Key>, ghost items: map<Key, Value>, ghost expiration: map<Key, int>)
    returns (pushed: seq<Key>)
    requires Unique(l) && k !in l && (o.maxEntries > 0 ==> |l| < o.maxEntries)
    requires forall x :: x in items <==> x == k || x in l
    requires forall x :: x in expiration <==> o.ttl > 0 && x in items
    ensures Agree(o, pushed, items, expiration)
    ensures View(pushed, items, expiration) == [EntryOf(k, items, expiration)] + View(l, items, expiration)
  {
    pushed := [k] + l;
    assert pushed[1..] == l;
    forall x ensures x in pushed <==> x == k || x in l {
      if x in l {
        var i :| 0 <= i < |l| && l[i] == x;
        assert pushed[i + 1] == x;
      }
      if x == k { assert pushed[0] == x; }
    }
  }

  lemma BagAssociates(a: multiset<Pair>, b: multiset<Pair>, c: multiset<Pair>)
    ensures (a + b) + c == a + (b + c)
  {
  }

  function Picked(among: set<Key>, fn: Key -> bool): set<Key> {
    set k | k in among && fn(k)
  }

  lemma PickedMore(seen: set<Key>, k: Key, fn: Key -> bool)
    ensures Picked(seen + {k}, fn) == if fn(k) then Picked(seen, fn) + {k} else Picked(seen, fn)
  {
  }

  lemma TakenAway(m: map<Key, Value>, gone: set<Key>, k: Key)
    ensures (m - gone) - {k} == m - (gone + {k})
  {
  }

  // What create did, as GetOrCreate hands it back.
  datatype Outcome = Created(value: Value) | Failed(error: string)

  class Call {
    var done: bool
    var outcome: Outcome

    constructor ()
      ensures !done && outcome == Failed("cache: create panicked")
    {
      done, outcome := false, Failed("cache: create panicked");
    }
  }

  // What GetOrCreate has for its caller: an outcome, or a call to wait for.
  datatype Answer = Now(outcome: Outcome) | Later(call: Call)

  class Cache {
    const opts: Options
    var items: map<Key, Value>
    var expiration: map<Key, int>  // absent means no expiry
    var lru: seq<Key>              // front is the most recently used
    var creating: map<Key, Call>   // keys with a GetOrCreate in progress
    var notified: multiset<Pair>   // what OnDelete has been called with

    ghost predicate Valid()
      reads this
    {
      Agree(opts, lru, items, expiration)
    }

    // Most recently used first.
    ghost function Contents(): Recency
      requires Valid()
      reads this
    {
      View(lru, items, expiration)
    }

    lemma ContentsKeys()
      requires Valid()
      ensures |Contents()| == |lru| && Distinct(Contents())
      ensures forall i :: 0 <= i < |lru| ==> Contents()[i] == EntryOf(lru[i], items, expiration)
    {
      ViewLength(lru, items, expiration);
    }

    lemma Known(k: Key)
      requires Valid()
      ensures Find(Contents(), k) == if k in items then Some(EntryOf(k, items, expiration)) else None
    {
      ViewFind(lru, k, items, expiration);
    }

    constructor (o: Options)
      ensures Valid() && Contents() == [] && opts == o && creating == map[] && notified == multiset{}
    {
      opts, items, expiration, lru, creating, notified := o, map[], map[], [], map[], multiset{};
    }

    predicate ExpiredLocked(k: Key, now: int)
      reads this
    {
      k in expiration && now > expiration[k]
    }

    predicate FullLocked()
      reads this
    {
      opts.maxEntries > 0 && |lru| >= opts.maxEntries
    }

    method MarkUsedLocked(k: Key, stamp: int)
      requires Valid() && k in items
      modifies this`lru, this`expiration
      ensures Valid() && Contents() == Use(opts, old(Contents()), k, items[k], stamp)
    {
      var others := Without(lru, k);
      var deadlines := Restart(opts, expiration, k, stamp);
      WithoutMembers(lru, k);
      WithoutUnique(lru, k);
      ViewWithout(lru, k, items, expiration, items, deadlines);
      var moved := PushFront(opts, k, others, items, deadlines);
      lru, expiration := moved, deadlines;
    }

    method InsertLocked(k: Key, v: Value, stamp: int)
      requires Valid() && k !in items && (opts.maxEntries > 0 ==> |lru| < opts.maxEntries)
      modifies this`items, this`lru, this`expiration
      ensures Valid() && Contents() == [Entry(k, v, Deadline(opts, stamp))] + old(Contents())
      ensures items == old(items)[k := v]
    {
      var stored := items[k := v];
      var deadlines := Restart(opts, expiration, k, stamp);
      ViewSame(lru, items, expiration, stored, deadlines);
      var pushed := PushFront(opts, k, lru, stored, deadlines);
      items, expiration, lru := stored, deadlines, pushed;
    }

    method ReplaceLocked(k: Key, v: Value, stamp: int) returns (replaced: Value)
      requires Valid() && k in items
      modifies this`items, this`lru, this`expiration
      ensures Valid() && replaced == old(items[k]) && items == old(items)[k := v]
      ensures Contents() == Use(opts, old(Contents()), k, v, stamp)
    {
      replaced := items[k];
      ghost var st := Contents();
      ViewWithout(lru, k, items, expiration, items[k := v], expiration);
      items := items[k := v];
      ViewWithout(lru, k, items, expiration, items, expiration);
      MarkUsedLocked(k, stamp);
    }

    method DeleteLocked(k: Key) returns (value: Value)
      requires Valid() && k in items
      modifies this`items, this`lru, this`expiration
      ensures Valid() && value == old(items[k]) && items == old(items) - {k}
      ensures Contents() == DropKeys(old(Contents()), {k})
    {
      value := items[k];
      WithoutMembers(lru, k);
      WithoutUnique(lru, k);
      ViewWithout(lru, k, items, expiration, items - {k}, expiration - {k});
      lru, items, expiration := Without(lru, k), items - {k}, expiration - {k};
    }

    // What OnDelete has seen once the pairs in left are handed to it.
    ghost function Told(left: multiset<Pair>): multiset<Pair>
      reads this
    {
      if opts.listener then notified + left else notified
    }

    // With a listener each pair is handed over as often as it left, and without
    // one nothing is.
    lemma ToldCounts(left: multiset<Pair>, p: Pair)
      ensures Told(left)[p] == notified[p] + if opts.listener then left[p] else 0
    {
    }

    method NotifyDelete(k: Key, v: Value)
      modifies this`notified
      ensures notified == old(Told(multiset{(k, v)}))
      ensures forall p :: notified[p] == old(notified)[p] + if opts.listener && p == (k, v) then 1 else 0
    {
      if opts.listener {
        notified := notified + multiset{(k, v)};
      }
    }

    // The key is the most recently used one, with this value and a lifetime
    // that starts at stamp.
    ghost predicate InFront(k: Key, v: Value, stamp: int)
      reads this
    {
      && k in items && items[k] == v && lru != [] && lru[0] == k
      && if opts.ttl > 0 then k in expiration && expiration[k] == stamp + opts.ttl else k !in expiration
    }

    // The first critical section of Get and of GetOrCreate.
    method LookupLocked(k: Key, now: int, stamp: int) returns (hit: Option<Value>, expired: Option<Value>)
      requires Valid()
      modifies this`items, this`lru, this`expiration
      ensures Valid()
      ensures var r := Lookup(opts, old(Contents()), k, now, stamp);
              && Contents() == r.st && hit == r.hit
              && r.left == if expired.Some? then multiset{(k, expired.value)} else multiset{}
      ensures hit == if k in old(items) && !(k in old(expiration) && now > old(expiration)[k])
                     then Some(old(items)[k]) else None
      ensures items == if hit.Some? then old(items) else old(items) - {k}
      ensures hit.Some? ==> InFront(k, hit.value, stamp)
    {
      hit, expired := None, None;
      Known(k);
      if k in items {
        if ExpiredLocked(k, now) {
          var value := DeleteLocked(k);
          expired := Some(value);
        } else {
          MarkUsedLocked(k, stamp);
          hit := Some(items[k]);
          ContentsKeys();
        }
      }
    }

    method Get(k: Key, now: int, stamp: int) returns (hit: Option<Value>)
      requires Valid()
      modifies this`items, this`lru, this`expiration, this`notified
      ensures Valid()
      ensures var r := Lookup(opts, old(Contents()), k, now, stamp);
              Contents() == r.st && hit == r.hit && notified == old(Told(r.left))
      ensures hit == if k in old(items) && !(k in old(expiration) && now > old(expiration)[k])
                     then Some(old(items)[k]) else None
      ensures items == if hit.Some? then old(items) else old(items) - {k}
      ensures hit.Some? ==> InFront(k, hit.value, stamp)
    {
      var expired;
      hit, expired := LookupLocked(k, now, stamp);
      if expired.Some? {
        NotifyDelete(k, expired.value);
      }
    }

    // Makes room for one insert by deleting the least recently used entry.
    method MakeRoomLocked() returns (victim: Option<Pair>)
      requires Valid()
      modifies this`items, this`lru, this`expiration
      ensures Valid() && (opts.maxEntries > 0 ==> |lru| < opts.maxEntries)
      ensures forall x :: x in items ==> x in old(items) && items[x] == old(items)[x]
      ensures var st := old(Contents());
              if Full(opts, st) && st != [] then
                var last := st[|st| - 1];
                Contents() == st[..|st| - 1] && victim == Some((last.key, last.value))
              else Contents() == st && victim == None
    {
      victim := None;
      ContentsKeys();
      if FullLocked() && lru != [] {
        ghost var st := Contents();
        DropAt(st, |st| - 1);
        var last := lru[|lru| - 1];
        var value := DeleteLocked(last);
        ContentsKeys();
        victim := Some((last, value));
      }
    }

    method Set(k: Key, v: Value, stamp: int)
      requires Valid()
      modifies this`items, this`lru, this`expiration, this`notified
      ensures Valid()
      ensures var r := Store(opts, old(Contents()), k, v, stamp);
              Contents() == r.st && notified == old(Told(r.left))
      ensures InFront(k, v, stamp)
      ensures forall x :: x in items && x != k ==> x in old(items) && items[x] == old(items)[x]
    {
      Known(k);
      if k in items {
        var replaced := ReplaceLocked(k, v, stamp);
        if opts.listener && replaced != v {
          NotifyDelete(k, replaced);
        }
      } else {
        var victim := MakeRoomLocked();
        InsertLocked(k, v, stamp);
        if victim.Some? {
          NotifyDelete(victim.value.0, victim.value.1);
        }
      }
      ContentsKeys();
    }

    method Delete(k: Key)
      requires Valid()
      modifies this`items, this`lru, this`expiration, this`notified
      ensures Valid()
      ensures var r := Remove(old(Contents()), {k});
              Contents() == r.st && notified == old(Told(r.left))
      ensures items == old(items) - {k}
    {
      Known(k);
      ContentsKeys();
      PairsAtOne(Contents(), k);
      if k !in items {
        DropFound(Contents(), k);
        return;
      }
      var value := DeleteLocked(k);
      NotifyDelete(k, value);
    }

    // The keys in gone have left, with the pairs in deleted.
    ghost predicate Swept(st: Recency, held: map<Key, Value>, gone: set<Key>, deleted: seq<Pair>)
      requires Valid()
      reads this
    {
      && Contents() == DropKeys(st, gone) && items == held - gone
      && multiset(deleted) == PairsAt(st, gone)
    }

    // Visits the keys of among in whatever order the map hands them out and
    // deletes those fn picks, returning the pairs they held.
    method DeleteWhereLocked(among: set<Key>, fn: Key -> bool) returns (deleted: seq<Pair>)
      requires Valid()
      modifies this`items, this`lru, this`expiration
      ensures Valid()
      ensures var r := Remove(old(Contents()), Picked(among, fn));
              Contents() == r.st && multiset(deleted) == r.left
      ensures items == old(items) - Picked(among, fn)
    {
      deleted := [];
      var todo := among;
      ghost var st, seen: set<Key> := Contents(), {};
      DropNothing(st, {});
      PairsAtNone(st);
      assert Picked({}, fn) == {};
      while todo != {}
        invariant Valid() && seen + todo == among && seen !! todo
        invariant Swept(st, old(items), Picked(seen, fn), deleted)
        decreases todo
      {
        var k :| k in todo;
        PickedMore(seen, k, fn);
        TakenAway(old(items), Picked(seen, fn), k);
        if fn(k) {
          var held := DeletePresentLocked(k, st, Picked(seen, fn));
          if held.Some? {
            deleted := deleted + [(k, held.value)];
          }
        }
        todo, seen := todo - {k}, seen + {k};
      }
      assert seen == among;
    }

    // Deletes k if it is still there; st is the state before the keys in done went.
    method DeletePresentLocked(k: Key, ghost st: Recency, ghost done: set<Key>) returns (held: Option<Value>)
      requires Valid() && Contents() == DropKeys(st, done)
      modifies this`items, this`lru, this`expiration
      ensures Valid() && Contents() == DropKeys(st, done + {k}) && items == old(items) - {k}
      ensures PairsAt(st, done + {k}) ==
          PairsAt(st, done) + (if held.Some? then multiset{(k, held.value)} else multiset{})
    {
      DropTwice(st, done, {k});
      PairsAtTwice(st, done, {k});
      Known(k);
      ContentsKeys();
      PairsAtOne(Contents(), k);
      DropFound(Contents(), k);
      held := None;
      if k in items {
        var value := DeleteLocked(k);
        held := Some(value);
      }
    }

    method NotifyAll(deleted: seq<Pair>)
      modifies this`notified
      ensures notified == old(Told(multiset(deleted)))
    {
      for i := 0 to |deleted|
        invariant notified == old(Told(multiset(deleted[..i])))
      {
        NotifyDelete(deleted[i].0, deleted[i].1);
        assert deleted[..i + 1] == deleted[..i] + [deleted[i]];
        BagAssociates(old(notified), multiset(deleted[..i]), multiset{deleted[i]});
      }
      assert deleted[..|deleted|] == deleted;
    }

    method DeleteFunc(fn: Key -> bool)
      requires Valid()
      modifies this`items, this`lru, this`expiration, this`notified
      ensures Valid()
      ensures var r := Remove(old(Contents()), Matching(old(Contents()), fn));
              Contents() == r.st && notified == old(Told(r.left))
      ensures forall x :: x in items <==> x in old(items) && !fn(x)
      ensures forall x :: x in items ==> items[x] == old(items)[x]
    {
      KeysPresent();
      assert Picked(items.Keys, fn) == Matching(Contents(), fn);
      var deleted := DeleteWhereLocked(items.Keys, fn);
      NotifyAll(deleted);
    }

    // One tick of the background sweep; reading is the clock as it visits each key.
    method Gc(reading: Key -> int)
      requires Valid()
      modifies this`items, this`lru, this`expiration, this`notified
      ensures Valid()
      ensures var r := Remove(old(Contents()), Lapsed(old(Contents()), reading));
              Contents() == r.st && notified == old(Told(r.left))
      ensures forall x :: x in items <==>
                            x in old(items) && !(x in old(expiration) && reading(x) > old(expiration)[x])
      ensures forall x :: x in items ==> items[x] == old(items)[x]
    {
      KeysPresent();
      var deadlines := expiration;
      var lapsed := (k: Key) => k in deadlines && reading(k) > deadlines[k];
      assert Picked(deadlines.Keys, lapsed) == Lapsed(Contents(), reading);
      var deleted := DeleteWhereLocked(deadlines.Keys, lapsed);
      NotifyAll(deleted);
    }

    lemma KeysPresent()
      requires Valid()
      ensures forall e :: e in Contents() ==> e.key in items && e == EntryOf(e.key, items, expiration)
      ensures forall k :: k in items ==> EntryOf(k, items, expiration) in Contents()
    {
      ContentsKeys();
      forall k | k in items ensures EntryOf(k, items, expiration) in Contents() {
        var i :| 0 <= i < |lru| && lru[i] == k;
        assert Contents()[i] == EntryOf(k, items, expiration);
      }
    }

    // k is held within its lifetime.
    ghost predicate Held(k: Key, now: int)
      reads this
    {
      k in items && !(k in expiration && now > expiration[k])
    }

    // What leaves for a key that is not held: its expired value, or the least
    // recently used entry of a full cache it is stored in.
    ghost function Displaced(k: Key, stored: bool): multiset<Pair>
      requires Valid()
      reads this
    {
      if k in items then multiset{(k, items[k])}
      else if stored && lru != [] && 0 < opts.maxEntries <= |lru|
      then multiset{(lru[|lru| - 1], items[lru[|lru| - 1]])}
      else multiset{}
    }

    lemma DisplacedLeaves(k: Key, now: int, stamp: int, created: Outcome, setStamp: int)
      requires Valid()
      ensures Held(k, now) <==> Lookup(opts, Contents(), k, now, stamp).hit.Some?
      ensures var made := if created.Created? then Some(created.value) else None;
              !Held(k, now) ==>
                && Lookup(opts, Contents(), k, now, stamp).left == Displaced(k, false)
                && LookupOrStore(opts, Contents(), k, now, stamp, made, setStamp).left == Displaced(k, made.Some?)
      ensures Held(k, now) ==> Lookup(opts, Contents(), k, now, stamp).left == multiset{}
      ensures var made := if created.Created? then Some(created.value) else None;
              !Held(k, now) ==>
                Told(LookupOrStore(opts, Contents(), k, now, stamp, made, setStamp).left) ==
                Told(Displaced(k, made.Some?))
    {
      Known(k);
      ContentsKeys();
      FindMeaning(Contents(), k);
      if !Held(k, now) && created.Created? {
        forall e | e in Contents() && e.key == k ensures e == EntryOf(k, items, expiration) {
          FoundEntry(Contents(), e);
        }
        CreatedIsKept(opts, Contents(), k, now, stamp, created.value, setStamp);
      }
    }

    // A caller that finds k being created is left with the call to wait for;
    // any other runs create, whose result is an input, and settles its own call.
    method GetOrCreate(k: Key, now: int, stamp: int, created: Outcome, setStamp: int) returns (r: Answer)
      requires Valid()
      modifies this`items, this`lru, this`expiration, this`notified, this`creating
      ensures Valid() && creating == old(creating)
      ensures var l := Lookup(opts, old(Contents()), k, now, stamp);
              var made := if created.Created? then Some(created.value) else None;
              var s := LookupOrStore(opts, old(Contents()), k, now, stamp, made, setStamp);
              if l.hit.None? && k in creating
              then r == Later(creating[k]) && Contents() == l.st && notified == old(Told(l.left))
              else
                && Contents() == s.st && notified == old(Told(s.left))
                && r == Now(if s.hit.Some? then Created(s.hit.value) else created)
      ensures if old(Held(k, now))
              then r == Now(Created(old(items)[k])) && InFront(k, old(items)[k], stamp) && notified == old(notified)
              else if k in creating
              then r == Later(creating[k]) && k !in items && notified == old(Told(Displaced(k, false)))
              else
                && r == Now(created) && notified == old(Told(Displaced(k, created.Created?)))
                && if created.Created? then InFront(k, created.value, setStamp) else k !in items
    {
      DisplacedLeaves(k, now, stamp, created, setStamp);
      var hit, expired := LookupLocked(k, now, stamp);
      if hit.Some? {
        return Now(Created(hit.value));
      }
      r := Miss(k, expired, created, setStamp);
    }

    // What is left to do for a key that is not held, its expired value deleted.
    method Miss(k: Key, expired: Option<Value>, created: Outcome, stamp: int) returns (r: Answer)
      requires Valid() && k !in items
      modifies this`items, this`lru, this`expiration, this`notified, this`creating
      ensures Valid() && creating == old(creating)
      ensures var left := if expired.Some? then multiset{(k, expired.value)} else multiset{};
              var s := if created.Created? then Store(opts, old(Contents()), k, created.value, stamp)
                       else Section(old(Contents()), None, multiset{}, multiset{});
              if k in creating
              then r == Later(creating[k]) && Contents() == old(Contents()) && notified == old(Told(left))
              else r == Now(created) && Contents() == s.st && notified == old(Told(left + s.left))
      ensures if created.Created? && k !in creating then InFront(k, created.value, stamp) else items == old(items)
    {
      if expired.Some? {
        NotifyDelete(k, expired.value);
      }
      if k in creating {
        return Later(creating[k]);
      }
      var outcome := RunCreate(k, created, stamp);
      r := Now(outcome);
    }

    // What the caller that found the key neither held nor being created does.
    method RunCreate(k: Key, created: Outcome, stamp: int) returns (r: Outcome)
      requires Valid() && k !in creating
      modifies this`items, this`lru, this`expiration, this`notified, this`creating
      ensures Valid() && creating == old(creating) && r == created
      ensures if created.Failed? then Contents() == old(Contents()) && notified == old(notified)
              else var s := Store(opts, old(Contents()), k, created.value, stamp);
                   Contents() == s.st && notified == old(Told(s.left))
      ensures if created.Created? then InFront(k, created.value, stamp) else items == old(items)
    {
      var pending := new Call();
      creating := creating[k := pending];
      Finish(k, pending, created, stamp);
      assert creating == old(creating);
      r := created;
    }

    // Stores what create returned, records it for the waiters and releases the key.
    method Finish(k: Key, pending: Call, created: Outcome, stamp: int)
      requires Valid() && k in creating && creating[k] == pending
      modifies this`items, this`lru, this`expiration, this`notified, this`creating, pending
      ensures Valid() && creating == old(creating) - {k} && pending.done && pending.outcome == created
      ensures if created.Failed? then Contents() == old(Contents()) && notified == old(notified)
              else var s := Store(opts, old(Contents()), k, created.value, stamp);
                   Contents() == s.st && notified == old(Told(s.left))
      ensures if created.Created? then InFront(k, created.value, stamp) else items == old(items)
    {
      if created.Created? {
        Set(k, created.value, stamp);
      }
      pending.outcome := created;
      creating := creating - {k};
      pending.done := true;
    }
  }
}
