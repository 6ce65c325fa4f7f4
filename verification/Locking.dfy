/**
 The two-phase-locking mode as a state machine. Each `put_all` and each `get_all` is one phase:
 it takes its locks one key at a time in key order, works on each key as soon as it is locked,
 and releases everything at the end. Any number of phases run at the same time.
 */
module Locking {
  import opened Data
  import opened Store

  datatype Txn =
    | PutAll(ts: Timestamp, values: map<Key, Values>)
    | GetAll(wanted: set<Key>)

  /** A phase, and the order in which a `std::map` enumerates its keys. */
  datatype Work = Work(txn: Txn, order: seq<Key>)

  datatype Config = Config(servers: nat, hash: Key -> nat, work: seq<Work>)

  predicate Ascending(order: seq<Key>) {
    forall i, j :: 0 <= i < j < |order| ==> KeyLess(order[i], order[j])
  }

  function KeysOf(t: Txn): set<Key> {
    match t
    case PutAll(_, values) => values.Keys
    case GetAll(wanted) => wanted
  }

  /** Timestamps are positive and no two writing phases share one. */
  ghost predicate ValidConfig(c: Config) {
    && c.servers > 0
    && (forall p :: 0 <= p < |c.work| ==>
          && Ascending(c.work[p].order)
          && (forall k :: k in c.work[p].order <==> k in KeysOf(c.work[p].txn))
          && (c.work[p].txn.PutAll? ==> ZERO.Less(c.work[p].txn.ts)))
    && (forall p, q :: 0 <= p < |c.work| && 0 <= q < |c.work| && p != q && c.work[p].txn.PutAll? && c.work[q].txn.PutAll? ==>
          c.work[p].txn.ts != c.work[q].txn.ts)
  }

  function Home(c: Config, key: Key): nat
    requires c.servers > 0
  {
    ServerOf(c.hash(key), c.servers)
  }

  // ---- locks -----------------------------------------------------------------------------

  datatype RwLock = Free | ReadBy(readers: set<nat>) | WrittenBy(writer: nat)

  function LockOf(locks: map<Key, RwLock>, key: Key): RwLock {
    if key in locks then locks[key] else Free
  }

  predicate HeldBy(l: RwLock, p: nat) {
    match l
    case Free => false
    case ReadBy(readers) => p in readers
    case WrittenBy(writer) => p == writer
  }

  predicate CanRead(l: RwLock) {
    !l.WrittenBy?
  }

  predicate CanWrite(l: RwLock) {
    l.Free?
  }

  function AfterRead(l: RwLock, p: nat): RwLock {
    if l.ReadBy? then ReadBy(l.readers + {p}) else ReadBy({p})
  }

  function AfterUnlock(l: RwLock, p: nat): RwLock {
    match l
    case ReadBy(readers) => if readers - {p} == {} then Free else ReadBy(readers - {p})
    case _ => Free
  }

  // ---- state -----------------------------------------------------------------------------

  datatype Stage = Idle | Growing | Shrinking | Done

  datatype Phase = Phase(
    stage: Stage,
    next: nat,                      // keys worked on so far
    locked: bool,                   // the lock of the next key is already held
    ret: map<Key, Item>,
    access: map<nat, set<Key>>,     // `access_keys` of this client's executor on each server
    released: set<Key>)

  /** `log` is history: phases in the order in which they had all their locks. */
  datatype State = State(stores: seq<Store>, locks: map<Key, RwLock>, phases: seq<Phase>, log: seq<nat>)

  ghost predicate Init(c: Config, s: State) {
    && |s.stores| == c.servers && (forall i :: 0 <= i < |s.stores| ==> s.stores[i] == EMPTY_STORE)
    && s.locks == map[] && s.log == []
    && |s.phases| == |c.work| && (forall p :: 0 <= p < |s.phases| ==> s.phases[p] == Phase(Idle, 0, false, map[], map[], {}))
  }

  function Access(ph: Phase, server: nat): set<Key> {
    if server in ph.access then ph.access[server] else {}
  }

  /** `Item(key, values, ts)`: this mode ships no sibling keys. */
  function ItemOf(t: Txn, key: Key): Item
    requires t.PutAll? && key in t.values
  {
    Item(key, t.values[key], t.ts, {})
  }

  // ---- steps -----------------------------------------------------------------------------

  datatype Step =
    | Begin
    | Lock                          // the executor gets the lock of the next key, ...
    | Operate                       // ... works on it, notes the key and replies
    | StartRelease                  // the client has all replies and sends RELEASE_LOCKS
    | Unlock(key: Key)
    | Clear(server: nat)            // the executor has unlocked its keys and forgets them
    | Finish

  ghost predicate Enabled(c: Config, s: State, p: nat, step: Step)
    requires ValidConfig(c) && |s.stores| == c.servers && |s.phases| == |c.work| && p < |c.work|
  {
    var ph, w := s.phases[p], c.work[p];
    match step
    case Begin => ph.stage == Idle
    case Lock =>
      && ph.stage == Growing && !ph.locked && ph.next < |w.order|
      && var l := LockOf(s.locks, w.order[ph.next]); if w.txn.PutAll? then CanWrite(l) else CanRead(l)
    case Operate => ph.stage == Growing && ph.locked && ph.next < |w.order|
    case StartRelease => ph.stage == Growing && !ph.locked && ph.next == |w.order|
    case Unlock(key) => ph.stage == Shrinking && key in Access(ph, Home(c, key)) && key !in ph.released
    case Clear(server) => ph.stage == Shrinking && Access(ph, server) != {} && Access(ph, server) <= ph.released
    case Finish => ph.stage == Shrinking && forall i :: i in ph.access ==> ph.access[i] == {}
  }

  function PhaseAfter(c: Config, st: Store, w: Work, ph: Phase, step: Step): Phase
    requires c.servers > 0 && (step.Operate? ==> ph.next < |w.order|)
  {
    match step
    case Begin => ph.(stage := Growing)
    case Lock => ph.(locked := true)
    case Operate =>
      var key := w.order[ph.next];
      var i := Home(c, key);
      ph.(locked := false, next := ph.next + 1,
          access := ph.access[i := Access(ph, i) + {key}],
          ret := if w.txn.GetAll? then ph.ret[key := GetLatest(st, key)] else ph.ret)
    case StartRelease => ph.(stage := Shrinking)
    case Unlock(key) => ph.(released := ph.released + {key})
    case Clear(server) => ph.(access := ph.access[server := {}])
    case Finish => ph.(stage := Done)
  }

  function StoreAfter(st: Store, t: Txn, key: Key): Store
    requires t.PutAll? ==> key in t.values
  {
    if t.PutAll? then Put(st, ItemOf(t, key)) else Touch(st, key)
  }

  ghost function Apply(c: Config, s: State, p: nat, step: Step): State
    requires ValidConfig(c) && |s.stores| == c.servers && |s.phases| == |c.work| && p < |c.work| && Enabled(c, s, p, step)
  {
    var ph, w := s.phases[p], c.work[p];
    var i := if step.Operate? then Home(c, w.order[ph.next]) else 0;
    var s' := s.(phases := s.phases[p := PhaseAfter(c, s.stores[i], w, ph, step)]);
    match step
    case Lock =>
      var key := w.order[ph.next];
      s'.(locks := s.locks[key := if w.txn.PutAll? then WrittenBy(p) else AfterRead(LockOf(s.locks, key), p)])
    case Operate =>
      var key := w.order[ph.next];
      assert key in w.order;
      s'.(stores := s.stores[i := StoreAfter(s.stores[i], w.txn, key)])
    case StartRelease => s'.(log := s.log + [p])
    case Unlock(key) => s'.(locks := s.locks[key := AfterUnlock(LockOf(s.locks, key), p)])
    case _ => s'
  }

  ghost predicate Next(c: Config, s: State, s': State)
    requires ValidConfig(c)
  {
    && |s.stores| == c.servers && |s.phases| == |c.work|
    && exists p, step :: 0 <= p < |c.work| && Enabled(c, s, p, step) && s' == Apply(c, s, p, step)
  }

  ghost predicate IsRun(c: Config, run: seq<State>)
    requires ValidConfig(c)
  {
    && |run| > 0 && Init(c, run[0])
    && forall i :: 0 <= i < |run| - 1 ==> Next(c, run[i], run[i + 1])
  }

  // ---- the serial world ------------------------------------------------------------------

  /** What a write leaves behind: newer versions win, whatever the order of the writes. */
  function Overlay(prev: Item, t: Txn, key: Key): Item {
    if t.PutAll? && key in t.values && prev.ts.Less(t.ts) then ItemOf(t, key) else prev
  }

  /** What a key holds after running the phases of `log` one after the other. */
  function Serial(c: Config, log: seq<nat>, key: Key): Item {
    if log == [] then EMPTY_ITEM
    else
      var p := log[|log| - 1];
      var prev := Serial(c, log[..|log| - 1], key);
      if p < |c.work| then Overlay(prev, c.work[p].txn, key) else prev
  }
}
