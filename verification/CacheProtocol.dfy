// Threads sharing one cache, interleaving at every critical section. A thread
// leaves the lock to call OnDelete, to run create, to record its outcome and to
// wake its waiters, so each of those is a step of its own.
module CacheProtocol {
  import opened Collections
  import opened CacheModel

  // What a create did, as the callers sharing it see it.
  datatype Made = Stored(value: Value) | Failed(error: string) | Panicked

  // One GetOrCreate in progress. outcome is what waiters read once closed;
  // returned is what create really did, for comparison.
  datatype Call = Call(key: Key, owner: nat, outcome: Made, returned: Option<Made>, closed: bool)

  // Where a thread stands between two critical sections.
  datatype Pc =
    | Idle
    | Waiting(call: nat)
    | Creating(call: nat)
    | Storing(call: nat, value: Value)
    | Recording(call: nat, made: Made)
    | Releasing(call: nat)
    | Closing(call: nat)
    | Returned(shared: Option<nat>, outcome: Made)

  // pending holds the pairs this thread removed and has yet to hand to OnDelete,
  // asked the key of its last GetOrCreate.
  datatype Thread = Thread(pc: Pc, pending: multiset<Pair>, asked: Key)

  datatype State = State(
    cache: Recency,
    creating: map<Key, nat>,
    calls: seq<Call>,
    threads: seq<Thread>,
    entered: multiset<Pair>,
    notified: multiset<Pair>)

  datatype Action =
    | Perform(op: Op)
    | Enter(key: Key, now: int, stamp: int)
    | Notify(pair: Pair)
    | CreateReturns(made: Made)
    | StoreCreated(stamp: int)
    | Record
    | Release
    | Close
    | Wake
    | Return

  function Initial(n: nat): State {
    State([], map[], [], seq(n, _ => Thread(Idle, multiset{}, "")), multiset{}, multiset{})
  }

  // The pairs a thread owes OnDelete after a critical section.
  function Owed(o: Options, left: multiset<Pair>): multiset<Pair> {
    if o.listener then left else multiset{}
  }

  predicate Enabled(s: State, t: nat, a: Action) {
    && t < |s.threads|
    && var th := s.threads[t];
       if a.Notify? then a.pair in th.pending
       else
         && th.pending == multiset{}
         && match a
            case Perform(_) => th.pc.Idle?
            case Enter(_, _, _) => th.pc.Idle?
            case Notify(_) => true
            case CreateReturns(_) => th.pc.Creating? && th.pc.call < |s.calls|
            case StoreCreated(_) => th.pc.Storing? && th.pc.call < |s.calls|
            case Record => th.pc.Recording? && th.pc.call < |s.calls|
            case Release => th.pc.Releasing? && th.pc.call < |s.calls|
            case Close => th.pc.Closing? && th.pc.call < |s.calls|
            case Wake => th.pc.Waiting? && th.pc.call < |s.calls| && s.calls[th.pc.call].closed
            case Return => th.pc.Returned?
  }

  function Move(s: State, t: nat, pc: Pc): State
    requires t < |s.threads|
  {
    s.(threads := s.threads[t := s.threads[t].(pc := pc)])
  }

  function Effect(o: Options, s: State, t: nat, r: Section, pc: Pc, asked: Key): State
    requires t < |s.threads|
  {
    s.(cache := r.st, entered := s.entered + r.entered, threads := s.threads[t := Thread(pc, Owed(o, r.left), asked)])
  }

  // A caller that finds the key neither held nor being created registers a call
  // for it; one that finds it being created waits.
  function EnterStep(o: Options, s: State, t: nat, k: Key, now: int, stamp: int): State
    requires t < |s.threads|
  {
    var r := Lookup(o, s.cache, k, now, stamp);
    if r.hit.Some? then Effect(o, s, t, r, Returned(None, Stored(r.hit.value)), k)
    else if k in s.creating then Effect(o, s, t, r, Waiting(s.creating[k]), k)
    else
      var c := |s.calls|;
      Effect(o, s, t, r, Creating(c), k).(
        creating := s.creating[k := c],
        calls := s.calls + [Call(k, t, Panicked, None, false)])
  }

  ghost function Step(o: Options, s: State, t: nat, a: Action): State
  {
    if !Enabled(s, t, a) then s
    else
      var th := s.threads[t];
      match a
      case Perform(op) => Effect(o, s, t, Apply(o, s.cache, op), Idle, th.asked)
      case Enter(k, now, stamp) => EnterStep(o, s, t, k, now, stamp)
      case Notify(pair) =>
        s.(threads := s.threads[t := th.(pending := th.pending - multiset{pair})],
           notified := s.notified + multiset{pair})
      case Wake => Move(s, t, Returned(Some(th.pc.call), s.calls[th.pc.call].outcome))
      case Return => Move(s, t, Idle)
      case CreateReturns(made) =>
        var c := th.pc.call;
        var pc := match made
          case Stored(v) => Storing(c, v)
          case Failed(_) => Recording(c, made)
          case Panicked => Releasing(c);
        Move(s, t, pc).(calls := s.calls[c := s.calls[c].(returned := Some(made))])
      case StoreCreated(stamp) =>
        var c, v := th.pc.call, th.pc.value;
        Effect(o, s, t, Store(o, s.cache, s.calls[c].key, v, stamp), Recording(c, Stored(v)), th.asked)
      case Record =>
        var c := th.pc.call;
        Move(s, t, Releasing(c)).(calls := s.calls[c := s.calls[c].(outcome := th.pc.made)])
      case Release =>
        var c := th.pc.call;
        Move(s, t, Closing(c)).(creating := s.creating - {s.calls[c].key})
      case Close =>
        var c := th.pc.call;
        Move(s, t, Returned(Some(c), s.calls[c].outcome)).(calls := s.calls[c := s.calls[c].(closed := true)])
  }

  ghost function RunFrom(o: Options, s: State, schedule: seq<(nat, Action)>): State {
    if schedule == [] then s
    else
      var (t, a) := schedule[|schedule| - 1];
      Step(o, RunFrom(o, s, schedule[..|schedule| - 1]), t, a)
  }

  // Any interleaving of n threads.
  ghost function Run(o: Options, n: nat, schedule: seq<(nat, Action)>): State {
    RunFrom(o, Initial(n), schedule)
  }

  // ---- Who owns which call ----

  // Between registering a call and closing it.
  predicate Owns(pc: Pc, c: nat) {
    Holds(pc, c) || pc == Closing(c)
  }

  // Between registering a call and releasing its key.
  predicate Holds(pc: Pc, c: nat) {
    match pc
    case Creating(call) => call == c
    case Storing(call, _) => call == c
    case Recording(call, _) => call == c
    case Releasing(call) => call == c
    case _ => false
  }

  // What a call's record says at each stage of its owner.
  predicate Staged(pc: Pc, call: Call) {
    match pc
    case Creating(_) => call.returned == None && call.outcome == Panicked
    case Storing(_, v) => call.returned == Some(Stored(v)) && call.outcome == Panicked
    case Recording(_, made) => call.returned == Some(made) && call.outcome == Panicked
    case _ => call.returned == Some(call.outcome)
  }

  ghost predicate ThreadOk(s: State, t: nat)
    requires t < |s.threads|
  {
    var pc := s.threads[t].pc;
    match pc
    case Idle => true
    case Waiting(c) => c < |s.calls| && s.calls[c].key == s.threads[t].asked
    case Returned(shared, outcome) =>
      shared.Some? ==>
        && shared.value < |s.calls| && s.calls[shared.value].closed && s.calls[shared.value].outcome == outcome
        && s.calls[shared.value].key == s.threads[t].asked
    case Creating(c) => OwnerOk(s, t, c) && Registered(s, c)
    case Storing(c, _) => OwnerOk(s, t, c) && Registered(s, c)
    case Recording(c, _) => OwnerOk(s, t, c) && Registered(s, c)
    case Releasing(c) => OwnerOk(s, t, c) && Registered(s, c)
    case Closing(c) => OwnerOk(s, t, c)
  }

  ghost predicate OwnerOk(s: State, t: nat, c: nat)
    requires t < |s.threads|
  {
    && c < |s.calls| && s.calls[c].owner == t && !s.calls[c].closed && s.calls[c].key == s.threads[t].asked
    && Staged(s.threads[t].pc, s.calls[c])
  }

  ghost predicate Registered(s: State, c: nat)
    requires c < |s.calls|
  {
    s.calls[c].key in s.creating && s.creating[s.calls[c].key] == c
  }

  ghost predicate CallOk(s: State, c: nat)
    requires c < |s.calls|
  {
    if s.calls[c].closed then s.calls[c].returned == Some(s.calls[c].outcome)
    else s.calls[c].owner < |s.threads| && Owns(s.threads[s.calls[c].owner].pc, c)
  }

  ghost predicate CreatingOk(s: State, k: Key)
    requires k in s.creating
  {
    var c := s.creating[k];
    && c < |s.calls| && s.calls[c].key == k && s.calls[c].owner < |s.threads|
    && Holds(s.threads[s.calls[c].owner].pc, c)
  }

  ghost predicate Inv(s: State) {
    && (forall t :: 0 <= t < |s.threads| ==> ThreadOk(s, t))
    && (forall c :: 0 <= c < |s.calls| ==> CallOk(s, c))
    && (forall k :: k in s.creating ==> CreatingOk(s, k))
  }

  // The threads stand at the same point, for the same key.
  predicate SameStand(a: Thread, b: Thread) {
    a.pc == b.pc && a.asked == b.asked
  }

  // A step that only moves a thread which owns no call, before or after.
  lemma QuietMove(s: State, s': State, t: nat)
    requires Inv(s) && t < |s.threads| == |s'.threads|
    requires s'.calls == s.calls && s'.creating == s.creating
    requires forall u :: 0 <= u < |s.threads| && u != t ==> SameStand(s'.threads[u], s.threads[u])
    requires SameStand(s'.threads[t], s.threads[t]) ||
             (ThreadOk(s', t) && forall c :: !Owns(s.threads[t].pc, c) && !Owns(s'.threads[t].pc, c))
    ensures Inv(s')
  {
    forall u | 0 <= u < |s'.threads| ensures ThreadOk(s', u) {
      assert ThreadOk(s, u);
    }
    forall c | 0 <= c < |s'.calls| ensures CallOk(s', c) {
      assert CallOk(s, c);
    }
    forall k | k in s'.creating ensures CreatingOk(s', k) {
      assert CreatingOk(s, k);
      assert Owns(s.threads[s.calls[s.creating[k]].owner].pc, s.creating[k]);
    }
  }

  lemma RegisterKeepsInv(s: State, s': State, t: nat, k: Key)
    requires Inv(s) && t < |s.threads| == |s'.threads| && s.threads[t].pc.Idle? && k !in s.creating
    requires s'.calls == s.calls + [Call(k, t, Panicked, None, false)]
    requires s'.creating == s.creating[k := |s.calls|]
    requires s'.threads[t].pc == Creating(|s.calls|) && s'.threads[t].asked == k
    requires forall u :: 0 <= u < |s.threads| && u != t ==> SameStand(s'.threads[u], s.threads[u])
    ensures Inv(s')
  {
    forall u | 0 <= u < |s'.threads| ensures ThreadOk(s', u) {
      assert ThreadOk(s, u);
    }
    forall c | 0 <= c < |s'.calls| ensures CallOk(s', c) {
      if c < |s.calls| { assert CallOk(s, c); }
    }
    forall j | j in s'.creating ensures CreatingOk(s', j) {
      if j != k { assert CreatingOk(s, j); }
    }
  }

  // The owner of an open call moves one stage on and rewrites its record.
  lemma OwnerKeepsInv(s: State, s': State, t: nat, c: nat)
    requires Inv(s) && t < |s.threads| == |s'.threads| && c < |s.calls| && Holds(s.threads[t].pc, c)
    requires forall u :: 0 <= u < |s.threads| && u != t ==> SameStand(s'.threads[u], s.threads[u])
    requires |s'.calls| == |s.calls| && forall d :: 0 <= d < |s.calls| && d != c ==> s'.calls[d] == s.calls[d]
    requires s'.calls[c].key == s.calls[c].key && s'.calls[c].owner == t && !s'.calls[c].closed
    requires Owns(s'.threads[t].pc, c) && Staged(s'.threads[t].pc, s'.calls[c])
        && s'.threads[t].asked == s.threads[t].asked
    requires s'.creating == if Holds(s'.threads[t].pc, c) then s.creating else s.creating - {s.calls[c].key}
    ensures Inv(s')
  {
    assert ThreadOk(s, t);
    forall u | 0 <= u < |s'.threads| ensures ThreadOk(s', u) {
      assert ThreadOk(s, u);
      if u != t && CallOf(s.threads[u].pc).Some? && CallOf(s.threads[u].pc).value == c {
        assert CallOk(s, c);
      }
    }
    forall d | 0 <= d < |s'.calls| ensures CallOk(s', d) {
      assert CallOk(s, d);
    }
    forall k | k in s'.creating ensures CreatingOk(s', k) {
      assert CreatingOk(s, k);
    }
  }

  function CallOf(pc: Pc): Option<nat> {
    match pc
    case Waiting(c) => Some(c)
    case Returned(shared, _) => shared
    case _ => None
  }

  lemma CloseKeepsInv(s: State, s': State, t: nat, c: nat)
    requires Inv(s) && t < |s.threads| == |s'.threads| && s.threads[t].pc == Closing(c) && c < |s.calls|
    requires forall u :: 0 <= u < |s.threads| && u != t ==> SameStand(s'.threads[u], s.threads[u])
    requires s'.calls == s.calls[c := s.calls[c].(closed := true)] && s'.creating == s.creating
    requires s'.threads[t].pc == Returned(Some(c), s.calls[c].outcome) && s'.threads[t].asked == s.threads[t].asked
    ensures Inv(s')
  {
    assert ThreadOk(s, t);
    forall u | 0 <= u < |s'.threads| ensures ThreadOk(s', u) {
      assert ThreadOk(s, u);
    }
    forall d | 0 <= d < |s'.calls| ensures CallOk(s', d) {
      assert CallOk(s, d);
    }
    forall k | k in s'.creating ensures CreatingOk(s', k) {
      assert CreatingOk(s, k);
    }
  }

  lemma OwnerStepKeepsInv(o: Options, s: State, t: nat, a: Action)
    requires Inv(s) && Enabled(s, t, a)
    requires a.CreateReturns? || a.StoreCreated? || a.Record? || a.Release?
    ensures Inv(Step(o, s, t, a))
  {
    var s', c := Step(o, s, t, a), s.threads[t].pc.call;
    assert ThreadOk(s, t);
    assert Holds(s.threads[t].pc, c);
    assert Owns(s'.threads[t].pc, c) && Staged(s'.threads[t].pc, s'.calls[c]);
    OwnerKeepsInv(s, s', t, c);
  }

  lemma EnterKeepsInv(o: Options, s: State, t: nat, k: Key, now: int, stamp: int)
    requires Inv(s) && Enabled(s, t, Enter(k, now, stamp))
    ensures Inv(EnterStep(o, s, t, k, now, stamp))
  {
    var s' := EnterStep(o, s, t, k, now, stamp);
    if Lookup(o, s.cache, k, now, stamp).hit.Some? {
      QuietMove(s, s', t);
    } else if k in s.creating {
      assert CreatingOk(s, k);
      QuietMove(s, s', t);
    } else {
      RegisterKeepsInv(s, s', t, k);
    }
  }

  lemma StepKeepsInv(o: Options, s: State, t: nat, a: Action)
    requires Inv(s)
    ensures Inv(Step(o, s, t, a))
  {
    if Enabled(s, t, a) {
      assert ThreadOk(s, t);
      match a
      case Perform(_) => QuietMove(s, Step(o, s, t, a), t);
      case Enter(k, now, stamp) => EnterKeepsInv(o, s, t, k, now, stamp);
      case Notify(_) => QuietMove(s, Step(o, s, t, a), t);
      case Wake => WakeKeepsInv(o, s, t);
      case Return => QuietMove(s, Step(o, s, t, a), t);
      case Close => CloseKeepsInv(s, Step(o, s, t, a), t, s.threads[t].pc.call);
      case _ => OwnerStepKeepsInv(o, s, t, a);
    }
  }

  lemma WakeKeepsInv(o: Options, s: State, t: nat)
    requires Inv(s) && Enabled(s, t, Wake)
    ensures Inv(Step(o, s, t, Wake))
  {
    assert ThreadOk(s, t);
    QuietMove(s, Step(o, s, t, Wake), t);
  }

  lemma {:induction false} RunKeepsInv(o: Options, s: State, schedule: seq<(nat, Action)>)
    requires Inv(s)
    ensures Inv(RunFrom(o, s, schedule)) && |RunFrom(o, s, schedule).threads| == |s.threads|
  {
    if schedule != [] {
      var before := schedule[..|schedule| - 1];
      var (t, a) := schedule[|schedule| - 1];
      var mid := RunFrom(o, s, before);
      RunKeepsInv(o, s, before);
      StepKeepsInv(o, mid, t, a);
      StepKeepsThreads(o, mid, t, a);
    }
  }

  lemma StepKeepsThreads(o: Options, s: State, t: nat, a: Action)
    ensures |Step(o, s, t, a).threads| == |s.threads|
  {
  }

  lemma ReachableInv(o: Options, n: nat, schedule: seq<(nat, Action)>)
    ensures Inv(Run(o, n, schedule)) && |Run(o, n, schedule).threads| == n
  {
    RunKeepsInv(o, Initial(n), schedule);
  }

  // In every interleaving at most one thread is creating a key.
  lemma OneCreatePerKey(o: Options, n: nat, schedule: seq<(nat, Action)>, t: nat, u: nat, c: nat, d: nat)
    requires var s := Run(o, n, schedule);
             && t < |s.threads| && u < |s.threads| && c < |s.calls| && d < |s.calls|
             && Holds(s.threads[t].pc, c) && Holds(s.threads[u].pc, d) && s.calls[c].key == s.calls[d].key
    ensures t == u && c == d
  {
    var s := Run(o, n, schedule);
    ReachableInv(o, n, schedule);
    assert ThreadOk(s, t) && ThreadOk(s, u);
  }

  // A key is registered exactly while one thread is between registering and releasing it.
  lemma RegisteredWhileHeld(o: Options, n: nat, schedule: seq<(nat, Action)>, k: Key)
    ensures var s := Run(o, n, schedule);
            k in s.creating <==>
              exists t, c :: 0 <= t < |s.threads| && 0 <= c < |s.calls| && Holds(s.threads[t].pc, c)
                  && s.calls[c].key == k
  {
    var s := Run(o, n, schedule);
    ReachableInv(o, n, schedule);
    if k in s.creating {
      assert CreatingOk(s, k);
      var c := s.creating[k];
      assert Holds(s.threads[s.calls[c].owner].pc, c);
    }
    if t, c :| 0 <= t < |s.threads| && 0 <= c < |s.calls| && Holds(s.threads[t].pc, c) && s.calls[c].key == k {
      assert ThreadOk(s, t);
    }
  }

  // Whoever shared a call, creator or waiter, asked for its key and returns
  // exactly what its create did: the value, the error, or that it panicked.
  lemma SharedOutcome(o: Options, n: nat, schedule: seq<(nat, Action)>, t: nat)
    requires var s := Run(o, n, schedule); t < |s.threads| && s.threads[t].pc.Returned? && s.threads[t].pc.shared.Some?
    ensures var s := Run(o, n, schedule);
            var c := s.threads[t].pc.shared.value;
            && c < |s.calls| && s.calls[c].key == s.threads[t].asked
            && s.calls[c].returned == Some(s.threads[t].pc.outcome)
  {
    var s := Run(o, n, schedule);
    ReachableInv(o, n, schedule);
    assert ThreadOk(s, t);
    assert CallOk(s, s.threads[t].pc.shared.value);
  }

  // The create of a call returns once: what it did is never rewritten.
  lemma {:induction false} CreateReturnsOnce(o: Options, s: State, schedule: seq<(nat, Action)>, c: nat)
    requires Inv(s) && c < |s.calls| && s.calls[c].returned.Some?
    ensures var s' := RunFrom(o, s, schedule);
            c < |s'.calls| && s'.calls[c].returned == s.calls[c].returned && s'.calls[c].key == s.calls[c].key
  {
    if schedule != [] {
      var before := schedule[..|schedule| - 1];
      var (t, a) := schedule[|schedule| - 1];
      CreateReturnsOnce(o, s, before, c);
      RunKeepsInv(o, s, before);
      StepKeepsReturned(o, RunFrom(o, s, before), t, a, c);
    }
  }

  lemma StepKeepsReturned(o: Options, s: State, t: nat, a: Action, c: nat)
    requires Inv(s) && c < |s.calls| && s.calls[c].returned.Some?
    ensures var s' := Step(o, s, t, a);
            c < |s'.calls| && s'.calls[c].returned == s.calls[c].returned && s'.calls[c].key == s.calls[c].key
  {
    if Enabled(s, t, a) {
      assert ThreadOk(s, t);
    }
  }

  // A waiter is never blocked on a call nobody will close.
  lemma WaiterHasOwner(o: Options, n: nat, schedule: seq<(nat, Action)>, t: nat)
    requires var s := Run(o, n, schedule); t < |s.threads| && s.threads[t].pc.Waiting?
    ensures var s := Run(o, n, schedule);
            var c := s.threads[t].pc.call;
            && c < |s.calls|
            && (s.calls[c].closed || (s.calls[c].owner < |s.threads| && Owns(s.threads[s.calls[c].owner].pc, c)))
  {
    var s := Run(o, n, schedule);
    ReachableInv(o, n, schedule);
    assert ThreadOk(s, t);
    assert CallOk(s, s.threads[t].pc.call);
  }

  // ---- Every waiter can be released ----

  lemma RunLast(o: Options, s: State, steps: seq<(nat, Action)>, last: (nat, Action))
    ensures RunFrom(o, s, steps + [last]) == Step(o, RunFrom(o, s, steps), last.0, last.1)
  {
    assert (steps + [last])[..|steps|] == steps;
  }

  lemma LastApart(first: seq<(nat, Action)>, next: seq<(nat, Action)>)
    requires next != []
    ensures var before, last := next[..|next| - 1], next[|next| - 1];
            next == before + [last] && first + next == (first + before) + [last]
  {
  }

  lemma {:induction false} RunConcat(o: Options, s: State, first: seq<(nat, Action)>, next: seq<(nat, Action)>)
    ensures RunFrom(o, s, first + next) == RunFrom(o, RunFrom(o, s, first), next)
  {
    if next == [] {
      assert first + next == first;
    } else {
      var before, last := next[..|next| - 1], next[|next| - 1];
      RunConcat(o, s, first, before);
      RunLast(o, s, first + before, last);
      RunLast(o, RunFrom(o, s, first), before, last);
      LastApart(first, next);
    }
  }

  lemma RunOne(o: Options, s: State, t: nat, a: Action, rest: seq<(nat, Action)>)
    ensures RunFrom(o, s, [(t, a)] + rest) == RunFrom(o, Step(o, s, t, a), rest)
  {
    RunConcat(o, s, [(t, a)], rest);
    assert [(t, a)][..0] == [];
    assert RunFrom(o, s, [(t, a)]) == Step(o, RunFrom(o, s, []), t, a);
  }

  // Every step is by one of these threads.
  ghost predicate TakenBy(steps: seq<(nat, Action)>, threads: set<nat>) {
    forall i :: 0 <= i < |steps| ==> steps[i].0 in threads
  }

  // A thread can always hand over the pairs it owes; nothing else changes.
  lemma {:induction false} Drain(o: Options, s: State, t: nat) returns (steps: seq<(nat, Action)>)
    requires t < |s.threads|
    ensures RunFrom(o, s, steps) ==
            s.(threads := s.threads[t := s.threads[t].(pending := multiset{})],
               notified := s.notified + s.threads[t].pending)
    ensures TakenBy(steps, {t})
    decreases |s.threads[t].pending|
  {
    if s.threads[t].pending == multiset{} {
      steps := [];
      assert s.threads[t := s.threads[t].(pending := multiset{})] == s.threads;
    } else {
      var pair :| pair in s.threads[t].pending;
      var next := Step(o, s, t, Notify(pair));
      var rest := Drain(o, next, t);
      steps := [(t, Notify(pair))] + rest;
      RunOne(o, s, t, Notify(pair), rest);
      assert next.threads[t := s.threads[t].(pending := multiset{})] ==
          s.threads[t := s.threads[t].(pending := multiset{})];
    }
  }

  function Remaining(pc: Pc): nat {
    match pc
    case Creating(_) => 5
    case Storing(_, _) => 4
    case Recording(_, _) => 3
    case Releasing(_) => 2
    case _ => 1
  }

  // The step its owner takes next; for a running create, that it returns.
  function NextOf(pc: Pc): Action {
    match pc
    case Creating(_) => CreateReturns(Panicked)
    case Storing(_, _) => StoreCreated(0)
    case Recording(_, _) => Record
    case Releasing(_) => Release
    case _ => Close
  }

  lemma OwnerAdvances(o: Options, s: State, t: nat, c: nat)
    requires Inv(s) && t < |s.threads| && Owns(s.threads[t].pc, c) && s.threads[t].pending == multiset{}
    ensures var s' := Step(o, s, t, NextOf(s.threads[t].pc));
            && |s'.threads| == |s.threads| && c < |s'.calls|
            && (forall u :: 0 <= u < |s.threads| && u != t ==> s'.threads[u] == s.threads[u])
            && (s'.calls[c].closed ||
                (Owns(s'.threads[t].pc, c) && Remaining(s'.threads[t].pc) < Remaining(s.threads[t].pc)))
  {
    assert ThreadOk(s, t);
  }

  // The owner of an open call can close it alone, from any state.
  lemma {:induction false} OwnerCanClose(o: Options, s: State, t: nat, c: nat) returns (steps: seq<(nat, Action)>)
    requires Inv(s) && t < |s.threads| && Owns(s.threads[t].pc, c)
    ensures var s' := RunFrom(o, s, steps);
            && |s'.threads| == |s.threads| && c < |s'.calls| && s'.calls[c].closed
            && forall u :: 0 <= u < |s.threads| && u != t ==> s'.threads[u] == s.threads[u]
    ensures TakenBy(steps, {t})
    decreases Remaining(s.threads[t].pc)
  {
    steps := Drain(o, s, t);
    var drained := RunFrom(o, s, steps);
    RunKeepsInv(o, s, steps);
    var a := NextOf(drained.threads[t].pc);
    var next := Step(o, drained, t, a);
    OwnerAdvances(o, drained, t, c);
    StepKeepsInv(o, drained, t, a);
    var rest := [];
    if !next.calls[c].closed {
      rest := OwnerCanClose(o, next, t, c);
    }
    RunOne(o, drained, t, a, rest);
    RunConcat(o, s, steps, [(t, a)] + rest);
    steps := steps + ([(t, a)] + rest);
  }

  // A waiter on an open or closed call can be let go by the call's owner and itself.
  lemma WaiterCanReturn(o: Options, s: State, u: nat) returns (steps: seq<(nat, Action)>)
    requires Inv(s) && u < |s.threads| && s.threads[u].pc.Waiting?
    ensures Released(s, RunFrom(o, s, steps), u)
    ensures var c := s.threads[u].pc.call; c < |s.calls| && TakenBy(steps, {u, s.calls[c].owner})
  {
    assert ThreadOk(s, u);
    var c := s.threads[u].pc.call;
    assert CallOk(s, c);
    steps := [];
    if !s.calls[c].closed {
      steps := OwnerCanClose(o, s, s.calls[c].owner, c);
    }
    var wake := WakeClosed(o, RunFrom(o, s, steps), u);
    RunConcat(o, s, steps, wake);
    steps := steps + wake;
  }

  lemma WakeClosed(o: Options, s: State, u: nat) returns (steps: seq<(nat, Action)>)
    requires u < |s.threads| && s.threads[u].pc.Waiting?
    requires s.threads[u].pc.call < |s.calls| && s.calls[s.threads[u].pc.call].closed
    ensures Released(s, RunFrom(o, s, steps), u) && TakenBy(steps, {u})
  {
    var drain := Drain(o, s, u);
    var drained := RunFrom(o, s, drain);
    RunOne(o, drained, u, Wake, []);
    RunConcat(o, s, drain, [(u, Wake)] + []);
    steps := drain + ([(u, Wake)] + []);
  }

  // From every reachable state every waiter can still be let go, with the
  // outcome of the call it waited on, by steps of its own and of that call's owner.
  lemma NoWaiterIsWedged(o: Options, n: nat, schedule: seq<(nat, Action)>, u: nat)
    requires u < |Run(o, n, schedule).threads| && Run(o, n, schedule).threads[u].pc.Waiting?
    ensures var s := Run(o, n, schedule);
            var c := s.threads[u].pc.call;
            && c < |s.calls|
            && exists more :: TakenBy(more, {u, s.calls[c].owner}) && Released(s, Run(o, n, schedule + more), u)
  {
    ReachableInv(o, n, schedule);
    var more := WaiterCanReturn(o, Run(o, n, schedule), u);
    RunConcat(o, Initial(n), schedule, more);
  }

  // u was waiting in s and has returned the outcome of that call in s'.
  ghost predicate Released(s: State, s': State, u: nat) {
    && u < |s.threads| && u < |s'.threads| && s.threads[u].pc.Waiting?
    && var c := s.threads[u].pc.call;
       c < |s'.calls| && s'.threads[u].pc == Returned(Some(c), s'.calls[c].outcome)
  }

  // ---- Every value that leaves is notified once ----

  function Owing(threads: seq<Thread>): multiset<Pair> {
    if threads == [] then multiset{} else threads[0].pending + Owing(threads[1..])
  }

  lemma {:induction false} OwingUpdate(threads: seq<Thread>, t: nat, th: Thread)
    requires t < |threads|
    ensures Owing(threads[t := th]) + threads[t].pending == Owing(threads) + th.pending
  {
    var after := threads[t := th];
    if t == 0 {
      assert after[1..] == threads[1..];
      Swap(th.pending, threads[t].pending, Owing(threads[1..]));
    } else {
      OwingUpdate(threads[1..], t - 1, th);
      assert after[1..] == threads[1..][t - 1 := th];
      Carry(threads[0].pending, Owing(after[1..]), Owing(threads[1..]), threads[t].pending, th.pending);
    }
  }

  lemma Swap(a: multiset<Pair>, b: multiset<Pair>, c: multiset<Pair>)
    ensures (a + c) + b == (b + c) + a
  {
  }

  lemma Carry(x: multiset<Pair>, a: multiset<Pair>, b: multiset<Pair>, p: multiset<Pair>, q: multiset<Pair>)
    requires a + p == b + q
    ensures (x + a) + p == (x + b) + q
  {
    assert (x + a) + p == x + (a + p);
    assert (x + b) + q == x + (b + q);
  }

  lemma {:induction false} OwingNothing(n: nat)
    ensures Owing(seq(n, _ => Thread(Idle, multiset{}, ""))) == multiset{}
  {
    if n > 0 {
      OwingNothing(n - 1);
      assert seq(n, _ => Thread(Idle, multiset{}, ""))[1..] == seq(n - 1, _ => Thread(Idle, multiset{}, ""));
    }
  }

  // Every pair that entered is resident, owed to OnDelete by some thread, or handed over.
  ghost predicate Balanced(s: State) {
    s.entered == Pairs(s.cache) + Owing(s.threads) + s.notified
  }

  ghost predicate CacheOk(o: Options, s: State) {
    Distinct(s.cache) && (o.maxEntries > 0 ==> |s.cache| <= o.maxEntries)
  }

  lemma Settle(e: multiset<Pair>, p: multiset<Pair>, w: multiset<Pair>, n: multiset<Pair>,
               inn: multiset<Pair>, p': multiset<Pair>, out: multiset<Pair>, w': multiset<Pair>)
    requires e == p + w + n && p + inn == p' + out && w' == w + out
    ensures e + inn == p' + w' + n
  {
    forall x: Pair ensures (e + inn)[x] == (p' + w' + n)[x] {
      assert (p + inn)[x] == (p' + out)[x];
    }
  }

  lemma EffectBalanced(o: Options, s: State, t: nat, r: Section, pc: Pc, asked: Key)
    requires o.listener && t < |s.threads| && s.threads[t].pending == multiset{}
    requires Balanced(s) && Pairs(s.cache) + r.entered == Pairs(r.st) + r.left
    ensures Balanced(Effect(o, s, t, r, pc, asked))
  {
    var th := Thread(pc, r.left, asked);
    OwingUpdate(s.threads, t, th);
    assert Owing(s.threads[t := th]) == Owing(s.threads) + r.left;
    Settle(s.entered, Pairs(s.cache), Owing(s.threads), s.notified,
           r.entered, Pairs(r.st), r.left, Owing(s.threads[t := th]));
  }

  lemma NotifyBalanced(o: Options, s: State, t: nat, pair: Pair)
    requires Balanced(s) && Enabled(s, t, Notify(pair))
    ensures Balanced(Step(o, s, t, Notify(pair)))
  {
    var th := s.threads[t];
    var th' := th.(pending := th.pending - multiset{pair});
    OwingUpdate(s.threads, t, th');
    HandOver(s.entered, Pairs(s.cache), Owing(s.threads), s.notified, th.pending, pair, Owing(s.threads[t := th']));
  }

  lemma HandOver(e: multiset<Pair>, p: multiset<Pair>, w: multiset<Pair>, n: multiset<Pair>,
                 mine: multiset<Pair>, pair: Pair, w': multiset<Pair>)
    requires e == p + w + n && pair in mine && w' + mine == w + (mine - multiset{pair})
    ensures e == p + w' + (n + multiset{pair})
  {
    forall x: Pair ensures e[x] == (p + w' + (n + multiset{pair}))[x] {
      assert (w' + mine)[x] == (w + (mine - multiset{pair}))[x];
    }
  }

  lemma Cancel(a: multiset<Pair>, b: multiset<Pair>, c: multiset<Pair>)
    requires a + c == b + c
    ensures a == b
  {
    forall x: Pair ensures a[x] == b[x] {
      assert (a + c)[x] == (b + c)[x];
    }
  }

  lemma MoveBalanced(s: State, s': State, t: nat)
    requires Balanced(s) && t < |s.threads| == |s'.threads| && s'.cache == s.cache
    requires s'.entered == s.entered && s'.notified == s.notified
    requires s'.threads == s.threads[t := s'.threads[t].(pending := s.threads[t].pending)]
    ensures Balanced(s')
  {
    OwingUpdate(s.threads, t, s'.threads[t]);
    Cancel(Owing(s'.threads), Owing(s.threads), s.threads[t].pending);
  }

  lemma StepBalanced(o: Options, s: State, t: nat, a: Action)
    requires o.listener && Balanced(s) && CacheOk(o, s)
    ensures Balanced(Step(o, s, t, a)) && CacheOk(o, Step(o, s, t, a))
  {
    if Enabled(s, t, a) {
      var th := s.threads[t];
      match a
      case Perform(op) => SectionBalanced(o, s, t, op, Idle, th.asked);
      case Enter(k, now, stamp) => EnterBalanced(o, s, t, k, now, stamp);
      case StoreCreated(stamp) =>
        var op := Op.Set(s.calls[th.pc.call].key, th.pc.value, stamp);
        SectionBalanced(o, s, t, op, Recording(th.pc.call, Stored(th.pc.value)), th.asked);
      case Notify(pair) => NotifyBalanced(o, s, t, pair);
      case _ => OutsideBalanced(o, s, t, a);
    }
  }

  lemma SectionBalanced(o: Options, s: State, t: nat, op: Op, pc: Pc, asked: Key)
    requires o.listener && Balanced(s) && CacheOk(o, s) && t < |s.threads| && s.threads[t].pending == multiset{}
    ensures var s' := Effect(o, s, t, Apply(o, s.cache, op), pc, asked); Balanced(s') && CacheOk(o, s')
  {
    SectionConserves(o, s.cache, op);
    SectionKeepsShape(o, s.cache, op);
    EffectBalanced(o, s, t, Apply(o, s.cache, op), pc, asked);
  }

  // The steps that touch neither the entries nor what is owed.
  lemma OutsideBalanced(o: Options, s: State, t: nat, a: Action)
    requires o.listener && Balanced(s) && CacheOk(o, s) && Enabled(s, t, a)
    requires a.CreateReturns? || a.Record? || a.Release? || a.Close? || a.Wake? || a.Return?
    ensures Balanced(Step(o, s, t, a)) && CacheOk(o, Step(o, s, t, a))
  {
    MoveBalanced(s, Step(o, s, t, a), t);
  }

  lemma EnterBalanced(o: Options, s: State, t: nat, k: Key, now: int, stamp: int)
    requires o.listener && Balanced(s) && CacheOk(o, s) && Enabled(s, t, Enter(k, now, stamp))
    ensures Balanced(EnterStep(o, s, t, k, now, stamp)) && CacheOk(o, EnterStep(o, s, t, k, now, stamp))
  {
    var op := Op.Get(k, now, stamp);
    var s' := EnterStep(o, s, t, k, now, stamp);
    SectionConserves(o, s.cache, op);
    SectionKeepsShape(o, s.cache, op);
    EffectBalanced(o, s, t, Apply(o, s.cache, op), s'.threads[t].pc, k);
  }

  // In every interleaving, with a listener set, no value that left the cache is
  // lost and none is handed to OnDelete twice.
  lemma {:induction false} OnDeleteConserves(o: Options, n: nat, schedule: seq<(nat, Action)>)
    requires o.listener
    ensures Balanced(Run(o, n, schedule)) && CacheOk(o, Run(o, n, schedule))
  {
    if schedule == [] {
      OwingNothing(n);
    } else {
      var before := schedule[..|schedule| - 1];
      var (t, a) := schedule[|schedule| - 1];
      OnDeleteConserves(o, n, before);
      StepBalanced(o, Run(o, n, before), t, a);
    }
  }

  // Nothing is owed, and nothing was handed over.
  ghost predicate Silent(s: State) {
    s.notified == multiset{} && forall t :: 0 <= t < |s.threads| ==> s.threads[t].pending == multiset{}
  }

  lemma StepIsSilent(o: Options, s: State, t: nat, a: Action)
    requires !o.listener && Silent(s)
    ensures Silent(Step(o, s, t, a))
  {
  }

  // Without a listener no interleaving hands over anything.
  lemma {:induction false} NothingToldWithoutListener(o: Options, n: nat, schedule: seq<(nat, Action)>)
    requires !o.listener
    ensures Silent(Run(o, n, schedule))
  {
    if schedule != [] {
      var before := schedule[..|schedule| - 1];
      var (t, a) := schedule[|schedule| - 1];
      NothingToldWithoutListener(o, n, before);
      StepIsSilent(o, Run(o, n, before), t, a);
    }
  }

  // ---- What one caller sees ----

  // Entering hands back the value of an entry within its lifetime; otherwise it
  // waits on the key's open call, or registers one when there is none.
  lemma EnterExactly(o: Options, s: State, t: nat, k: Key, now: int, stamp: int)
    requires Distinct(s.cache) && Enabled(s, t, Enter(k, now, stamp))
    ensures var s' := Step(o, s, t, Enter(k, now, stamp));
            var pc := s'.threads[t].pc;
            && s'.threads[t].asked == k
            && (forall e :: e in s.cache && e.key == k && !(e.expiry.Some? && now > e.expiry.value) ==>
                  pc == Returned(None, Stored(e.value)) && s'.calls == s.calls && s'.creating == s.creating)
            && ((forall e :: e in s.cache && e.key == k ==> e.expiry.Some? && now > e.expiry.value) ==>
                  && s'.cache == OthersThan(s.cache, k)
                  && if k in s.creating
                     then pc == Waiting(s.creating[k]) && s'.calls == s.calls && s'.creating == s.creating
                     else
                       && pc == Creating(|s.calls|) && s'.creating == s.creating[k := |s.calls|]
                       && |s'.calls| == |s.calls| + 1 && s'.calls[..|s.calls|] == s.calls
                       && s'.calls[|s.calls|].key == k && s'.calls[|s.calls|].owner == t)
  {
    LookupExactly(o, s.cache, k, now, stamp);
    DropOne(s.cache, k);
    DropFound(s.cache, k);
    FindMeaning(s.cache, k);
    if k !in Keys(s.cache) {
      assert OthersThan(s.cache, k) == s.cache;
    }
  }

  // What its create made is what the thread puts in front, under the key it asked for.
  lemma CreatedGoesInFront(o: Options, s: State, t: nat, stamp: int)
    requires Inv(s) && Distinct(s.cache) && Enabled(s, t, StoreCreated(stamp))
    ensures var s' := Step(o, s, t, StoreCreated(stamp));
            var c := s.threads[t].pc.call;
            && s.calls[c].returned.Some? && s.calls[c].returned.value.Stored? && s'.cache != []
            && s'.cache[0] == Entry(s.threads[t].asked, s.calls[c].returned.value.value,
                                    if o.ttl > 0 then Some(stamp + o.ttl) else None)
  {
    assert ThreadOk(s, t);
    var k, v := s.calls[s.threads[t].pc.call].key, s.threads[t].pc.value;
    StoreExactly(o, s.cache, k, v, stamp);
  }

  // The value create made, if it made one.
  function Kept(made: Made): Option<Value> {
    if made.Stored? then Some(made.value) else None
  }

  // The state once a thread has handed over all it owes.
  ghost function Drained(s: State, t: nat): State
    requires t < |s.threads|
  {
    s.(threads := s.threads[t := s.threads[t].(pending := multiset{})],
       notified := s.notified + s.threads[t].pending)
  }

  // Some steps of this thread alone lead there.
  ghost predicate Alone(o: Options, s: State, t: nat, s': State) {
    exists steps :: TakenBy(steps, {t}) && RunFrom(o, s, steps) == s'
  }

  // One step, once the pairs owed have been handed over.
  lemma AloneStep(o: Options, s: State, t: nat, a: Action)
    requires t < |s.threads|
    ensures Alone(o, s, t, Step(o, Drained(s, t), t, a))
  {
    var steps := Drain(o, s, t);
    RunLast(o, s, steps, (t, a));
    assert TakenBy(steps + [(t, a)], {t});
  }

  lemma AloneThen(o: Options, s: State, t: nat, s': State, s'': State)
    requires Alone(o, s, t, s') && Alone(o, s', t, s'')
    ensures Alone(o, s, t, s'')
  {
    var first :| TakenBy(first, {t}) && RunFrom(o, s, first) == s';
    var next :| TakenBy(next, {t}) && RunFrom(o, s', next) == s'';
    RunConcat(o, s, first, next);
    assert TakenBy(first + next, {t});
  }

  lemma AloneCloses(o: Options, s: State, t: nat, c: nat) returns (s': State)
    requires t < |s.threads| && c < |s.calls| && s.threads[t].pc == Closing(c)
    ensures Alone(o, s, t, s')
    ensures s'.cache == s.cache && s'.creating == s.creating && t < |s'.threads|
    ensures s'.threads[t].pc == Returned(Some(c), s.calls[c].outcome)
    ensures s'.notified == s.notified + s.threads[t].pending
  {
    AloneStep(o, s, t, Close);
    s' := Step(o, Drained(s, t), t, Close);
  }

  lemma AloneReleases(o: Options, s: State, t: nat, c: nat, k: Key) returns (s': State)
    requires t < |s.threads| && c < |s.calls| && s.calls[c].key == k && s.threads[t].pc == Releasing(c)
    ensures Alone(o, s, t, s')
    ensures s'.cache == s.cache && s'.creating == s.creating - {k} && t < |s'.threads|
    ensures s'.threads[t].pc == Returned(Some(c), s.calls[c].outcome)
    ensures s'.notified == s.notified + s.threads[t].pending
  {
    AloneStep(o, s, t, Release);
    var released := Step(o, Drained(s, t), t, Release);
    s' := AloneCloses(o, released, t, c);
    AloneThen(o, s, t, released, s');
  }

  lemma AloneRecords(o: Options, s: State, t: nat, c: nat, k: Key, made: Made) returns (s': State)
    requires t < |s.threads| && c < |s.calls| && s.calls[c].key == k && s.threads[t].pc == Recording(c, made)
    ensures Alone(o, s, t, s')
    ensures s'.cache == s.cache && s'.creating == s.creating - {k} && t < |s'.threads|
    ensures s'.threads[t].pc == Returned(Some(c), made)
    ensures s'.notified == s.notified + s.threads[t].pending
  {
    AloneStep(o, s, t, Record);
    var recorded := Step(o, Drained(s, t), t, Record);
    s' := AloneReleases(o, recorded, t, c, k);
    AloneThen(o, s, t, recorded, s');
  }

  lemma AloneStores(o: Options, s: State, t: nat, c: nat, k: Key, v: Value, stamp: int) returns (s': State)
    requires t < |s.threads| && c < |s.calls| && s.calls[c].key == k && s.threads[t].pc == Storing(c, v)
    ensures Alone(o, s, t, s')
    ensures s'.cache == Store(o, s.cache, k, v, stamp).st && s'.creating == s.creating - {k} && t < |s'.threads|
    ensures s'.threads[t].pc == Returned(Some(c), Stored(v))
    ensures s'.notified == (s.notified + s.threads[t].pending) + Owed(o, Store(o, s.cache, k, v, stamp).left)
  {
    AloneStep(o, s, t, StoreCreated(stamp));
    var stored := Step(o, Drained(s, t), t, StoreCreated(stamp));
    s' := AloneRecords(o, stored, t, c, k, Stored(v));
    AloneThen(o, s, t, stored, s');
  }

  // From the start of create to the return of its caller.
  lemma AloneCreates(o: Options, s: State, t: nat, c: nat, k: Key, made: Made, stamp: int) returns (s': State)
    requires t < |s.threads| && c < |s.calls| && s.calls[c].key == k && s.calls[c].outcome == Panicked
    requires s.threads[t].pc == Creating(c)
    ensures Alone(o, s, t, s')
    ensures s'.creating == s.creating - {k} && t < |s'.threads|
    ensures s'.threads[t].pc == Returned(Some(c), made)
    ensures made.Stored? ==> s'.cache == Store(o, s.cache, k, made.value, stamp).st
    ensures made.Stored? ==>
              s'.notified == (s.notified + s.threads[t].pending) + Owed(o, Store(o, s.cache, k, made.value, stamp).left)
    ensures !made.Stored? ==> s'.cache == s.cache && s'.notified == s.notified + s.threads[t].pending
  {
    AloneStep(o, s, t, CreateReturns(made));
    var after := Step(o, Drained(s, t), t, CreateReturns(made));
    match made {
      case Stored(v) => s' := AloneStores(o, after, t, c, k, v, stamp);
      case Failed(_) => s' := AloneRecords(o, after, t, c, k, made);
      case Panicked => s' := AloneReleases(o, after, t, c, k);
    }
    AloneThen(o, s, t, after, s');
  }

  lemma AloneEnters(o: Options, s: State, t: nat, k: Key, now: int, stamp: int) returns (s': State)
    requires k !in s.creating && Enabled(s, t, Enter(k, now, stamp))
    ensures Alone(o, s, t, s') && t < |s'.threads|
    ensures var l := Lookup(o, s.cache, k, now, stamp);
            && s'.cache == l.st && s'.threads[t].pending == Owed(o, l.left) && s'.notified == s.notified
            && if l.hit.Some?
               then s'.creating == s.creating && s'.threads[t].pc == Returned(None, Stored(l.hit.value))
               else
                 && s'.creating == s.creating[k := |s.calls|] && s'.threads[t].pc == Creating(|s.calls|)
                 && s'.calls == s.calls + [Call(k, t, Panicked, None, false)]
  {
    assert s.threads[t := s.threads[t].(pending := multiset{})] == s.threads;
    assert Drained(s, t).notified == s.notified;
    assert Drained(s, t) == s;
    AloneStep(o, s, t, Enter(k, now, stamp));
    s' := EnterStep(o, s, t, k, now, stamp);
  }

  lemma OwedTwice(o: Options, n: multiset<Pair>, a: multiset<Pair>, b: multiset<Pair>)
    ensures (n + Owed(o, a)) + Owed(o, b) == n + Owed(o, a + b)
  {
  }

  lemma RegisteredAndReleased(creating: map<Key, nat>, k: Key, c: nat)
    requires k !in creating
    ensures creating[k := c] - {k} == creating
  {
  }

  // A miss whose create made a value: it is kept.
  lemma AloneKeeps(o: Options, s: State, t: nat, k: Key, now: int, stamp: int, v: Value, setStamp: int)
      returns (s': State)
    requires k !in s.creating && Enabled(s, t, Enter(k, now, stamp))
    requires Lookup(o, s.cache, k, now, stamp).hit.None?
    ensures Alone(o, s, t, s') && t < |s'.threads| && s'.creating == s.creating
    ensures s'.threads[t].pc == Returned(Some(|s.calls|), Stored(v))
    ensures var l := Lookup(o, s.cache, k, now, stamp);
            var stored := Store(o, l.st, k, v, setStamp);
            s'.cache == stored.st && s'.notified == s.notified + Owed(o, l.left + stored.left)
  {
    var entered := AloneEnters(o, s, t, k, now, stamp);
    s' := AloneCreates(o, entered, t, |s.calls|, k, Stored(v), setStamp);
    AloneThen(o, s, t, entered, s');
    RegisteredAndReleased(s.creating, k, |s.calls|);
    OwedTwice(o, s.notified, Lookup(o, s.cache, k, now, stamp).left, Store(o, entered.cache, k, v, setStamp).left);
  }

  // A miss whose create failed or panicked: only the lookup changed the cache.
  lemma AloneFails(o: Options, s: State, t: nat, k: Key, now: int, stamp: int, made: Made) returns (s': State)
    requires k !in s.creating && Enabled(s, t, Enter(k, now, stamp)) && !made.Stored?
    requires Lookup(o, s.cache, k, now, stamp).hit.None?
    ensures Alone(o, s, t, s') && t < |s'.threads| && s'.creating == s.creating
    ensures s'.threads[t].pc == Returned(Some(|s.calls|), made)
    ensures var l := Lookup(o, s.cache, k, now, stamp);
            s'.cache == l.st && s'.notified == s.notified + Owed(o, l.left)
  {
    var entered := AloneEnters(o, s, t, k, now, stamp);
    s' := AloneCreates(o, entered, t, |s.calls|, k, made, 0);
    AloneThen(o, s, t, entered, s');
    RegisteredAndReleased(s.creating, k, |s.calls|);
  }

  // A caller that nobody interleaves with does to the cache what one GetOrCreate
  // does, tells the listener of the same pairs and comes back with the same value.
  lemma AloneIsGetOrCreate(o: Options, s: State, t: nat, k: Key, now: int, stamp: int, made: Made, setStamp: int)
      returns (s': State)
    requires k !in s.creating && Enabled(s, t, Enter(k, now, stamp))
    ensures Alone(o, s, t, s') && t < |s'.threads| && s'.creating == s.creating
    ensures var r := LookupOrStore(o, s.cache, k, now, stamp, Kept(made), setStamp);
            && s'.cache == r.st && s'.threads[t].pc.Returned?
            && s'.threads[t].pc.outcome == (if r.hit.Some? then Stored(r.hit.value) else made)
            && s'.notified == s.notified + (if o.listener then r.left else multiset{})
  {
    if Lookup(o, s.cache, k, now, stamp).hit.None? {
      match made {
        case Stored(v) => s' := AloneKeeps(o, s, t, k, now, stamp, v, setStamp);
        case _ => s' := AloneFails(o, s, t, k, now, stamp, made);
      }
    } else {
      s' := AloneEnters(o, s, t, k, now, stamp);
    }
  }
}
