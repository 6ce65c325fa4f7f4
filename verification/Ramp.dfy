/**
 RAMP-Fast and its RDMA variant as one state machine: any number of writers, readers, servers
 and keys, interleaved at the granularity of single operations on the shared containers.
 A writer is identified by its timestamp, which assumes that timestamps are unique.
 */
module Ramp {
  import opened Data
  import opened Slot
  import opened Store

  /**
   `hash` spreads keys over servers. With `exclusive`, a server does not start to commit a key
   while it is in the middle of committing another version of that key; the program itself
   leaves this open, so both settings are studied. `mixes(old, new, item)` says that a snapshot
   taken while a slot that holds `old` is overwritten by `new` may decode to `item`: whatever the
   serialisation allows (see `Tearing` and `RampBytes`).
   */
  datatype Config = Config(servers: nat, hash: Key -> nat, exclusive: bool, mixes: (Item, Item, Item) -> bool)

  predicate ValidConfig(c: Config) {
    c.servers > 0
  }

  function Home(c: Config, key: Key): (server: nat)
    requires ValidConfig(c)
    ensures server < c.servers
  {
    ServerOf(c.hash(key), c.servers)
  }

  // ---- state -----------------------------------------------------------------------------

  /** How far the PREPARE of one key got; a key without a stage has not been sent. */
  datatype Stage = Stored | Marked | Acked

  /**
   A server working through the items of a COMMIT: item `i` is next to check, to set, to have its
   slot rewritten, or is being copied into its slot right now.
   */
  datatype Pc = Check | Set | Rewrite | Writing
  datatype Job = Job(i: nat, pc: Pc)

  datatype WriterPhase = Preparing | Committing | Returned

  datatype Writer = Writer(
    writes: map<Key, Values>,
    phase: WriterPhase,
    prepared: map<Key, Stage>,
    jobs: map<nat, Job>,
    acks: set<nat>)

  datatype ReaderPhase = FirstRound | SecondRound | Finished

  datatype Reader = Reader(
    keys: set<Key>,
    phase: ReaderPhase,
    asked: map<Key, Timestamp>,        // first round, between reading the timestamp and the version
    first: map<Key, Item>,             // first-round results
    vLatest: map<Key, Timestamp>,
    repaired: set<Key>,
    result: map<Key, Item>,
    returnedBefore: set<Timestamp>)    // writers that had returned when the read began

  /**
   `changing`: the slots whose mutex an update holds, with the item being copied. `handed`: the
   keys whose slot address some reply has carried.
   */
  datatype State = State(
    stores: seq<Store>,
    changing: map<Key, Item>,
    handed: set<Key>,
    writers: map<Timestamp, Writer>,
    readers: map<nat, Reader>)

  ghost predicate Init(c: Config, s: State) {
    && |s.stores| == c.servers
    && (forall i :: 0 <= i < |s.stores| ==> s.stores[i] == EMPTY_STORE)
    && s.changing == map[] && s.handed == {} && s.writers == map[] && s.readers == map[]
  }

  /** `Item(key, values, ts, access_keys)`. */
  function ItemOf(w: Writer, ts: Timestamp, key: Key): Item
    requires key in w.writes
  {
    Item(key, w.writes[key], ts, w.writes.Keys)
  }

  // ---- the sibling check -----------------------------------------------------------------

  function Lookup(v: map<Key, Timestamp>, key: Key): Timestamp {
    if key in v then v[key] else ZERO
  }

  /** Per key, the newest timestamp among the items that name it as a sibling; zero to begin with. */
  ghost predicate IsVLatest(items: map<Key, Item>, v: map<Key, Timestamp>) {
    && (forall y :: !Lookup(v, y).Less(ZERO))
    && (forall x, y :: x in items && y in items[x].trxKeys ==> !Lookup(v, y).Less(items[x].ts))
    && (forall y :: Lookup(v, y) != ZERO ==> exists x :: x in items && y in items[x].trxKeys && items[x].ts == Lookup(v, y))
  }

  // ---- a writer's steps -------------------------------------------------------------------

  datatype WriterStep =
    | StoreVersion(key: Key)         // the server handles PREPARE: store, ...
    | MarkSlot(key: Key)             // ... then invalidate the slot
    | AckPrepare(key: Key)
    | BeginCommit
    | StartJob(server: nat)          // the server receives COMMIT
    | StepJob(server: nat)
    | AckCommit(server: nat)
    | ReturnPut

  /** The server a step takes place on; steps of the client alone name server 0. */
  function WriterServer(c: Config, step: WriterStep): nat
    requires ValidConfig(c)
  {
    match step
    case StoreVersion(key) => Home(c, key)
    case MarkSlot(key) => Home(c, key)
    case StartJob(server) => server
    case StepJob(server) => server
    case AckCommit(server) => server
    case _ => 0
  }

  predicate Touches(c: Config, w: Writer, server: nat)
    requires ValidConfig(c)
  {
    exists k :: k in w.writes && Home(c, k) == server
  }

  predicate JobRuns(st: Store, ts: Timestamp, w: Writer, server: nat) {
    server in w.jobs && w.jobs[server].i < |Versions(st, ts)|
  }

  function JobItem(st: Store, ts: Timestamp, w: Writer, server: nat): Item
    requires JobRuns(st, ts, w, server)
  {
    Versions(st, ts)[w.jobs[server].i]
  }

  /** The commit of `ts` on this server has checked `key` and is not done with its slot. */
  predicate Amid(st: Store, ts: Timestamp, w: Writer, server: nat, key: Key) {
    JobRuns(st, ts, w, server) && w.jobs[server].pc != Check && JobItem(st, ts, w, server).key == key
  }

  ghost predicate WriterEnabled(c: Config, st: Store, ts: Timestamp, w: Writer, step: WriterStep)
    requires ValidConfig(c)
  {
    match step
    case StoreVersion(key) => w.phase == Preparing && key in w.writes && key !in w.prepared
    case MarkSlot(key) => key in w.prepared && w.prepared[key] == Stored
    case AckPrepare(key) => key in w.prepared && w.prepared[key] == Marked
    case BeginCommit => w.phase == Preparing && forall k :: k in w.writes ==> k in w.prepared && w.prepared[k] == Acked
    case StartJob(server) => w.phase == Committing && server !in w.jobs && Touches(c, w, server)
    case StepJob(server) => JobRuns(st, ts, w, server)
    case AckCommit(server) => server in w.jobs && w.jobs[server].i >= |Versions(st, ts)|
    case ReturnPut => w.phase == Committing && forall i :: 0 <= i < c.servers && Touches(c, w, i) ==> i in w.acks
  }

  ghost function WriterAfter(c: Config, st: Store, ts: Timestamp, w: Writer, step: WriterStep): Writer
    requires ValidConfig(c) && WriterEnabled(c, st, ts, w, step)
  {
    match step
    case StoreVersion(key) => w.(prepared := w.prepared[key := Stored])
    case MarkSlot(key) => w.(prepared := w.prepared[key := Marked])
    case AckPrepare(key) => w.(prepared := w.prepared[key := Acked])
    case BeginCommit => w.(phase := Committing)
    case StartJob(server) => w.(jobs := w.jobs[server := Job(0, Check)])
    case StepJob(server) => w.(jobs := w.jobs[server := JobAfter(st, ts, w, server)])
    case AckCommit(server) => w.(acks := w.acks + {server})
    case ReturnPut => w.(phase := Returned)
  }

  /**
   One micro-step of a commit: `if (latest < ts)`, then `latest = ts`, then begin and end of the
   slot update, which is only logged for a key without a slot.
   */
  function JobAfter(st: Store, ts: Timestamp, w: Writer, server: nat): Job
    requires JobRuns(st, ts, w, server)
  {
    var job := w.jobs[server];
    match job.pc
    case Check => if Latest(st, JobItem(st, ts, w, server).key).Less(ts) then job.(pc := Set) else job.(i := job.i + 1)
    case Set => job.(pc := Rewrite)
    case Rewrite => if JobItem(st, ts, w, server).key in st.slots then job.(pc := Writing) else Job(job.i + 1, Check)
    case Writing => Job(job.i + 1, Check)
  }

  ghost function StoreAfter(c: Config, st: Store, ts: Timestamp, w: Writer, step: WriterStep): Store
    requires ValidConfig(c) && WriterEnabled(c, st, ts, w, step)
  {
    match step
    case StoreVersion(key) => Push(st, ItemOf(w, ts, key))
    case MarkSlot(key) => Invalidate(st, key)
    case StepJob(server) =>
      var item := JobItem(st, ts, w, server);
      (match w.jobs[server].pc
       case Check => Touch(st, item.key)
       case Set => SetLatest(st, item.key, ts)
       case Rewrite => st
       case Writing => Publish(st, item))
    case _ => st
  }

  /** What the step leaves being copied: it takes or returns the mutex of the slot of its item. */
  ghost function ChangingAfter(c: Config, st: Store, changing: map<Key, Item>, ts: Timestamp, w: Writer, step: WriterStep): map<Key, Item>
    requires ValidConfig(c) && WriterEnabled(c, st, ts, w, step)
  {
    if !step.StepJob? then changing
    else
      var item := JobItem(st, ts, w, step.server);
      match w.jobs[step.server].pc
      case Rewrite => if item.key in st.slots then changing[item.key := item] else changing
      case Writing => changing - {item.key}
      case _ => changing
  }

  /** Marking a slot and beginning to overwrite it wait for the slot's mutex. */
  predicate MutexFree(st: Store, changing: map<Key, Item>, ts: Timestamp, w: Writer, step: WriterStep)
    requires step.StepJob? ==> JobRuns(st, ts, w, step.server)
  {
    match step
    case MarkSlot(key) => key !in changing
    case StepJob(server) => w.jobs[server].pc == Rewrite ==> JobItem(st, ts, w, server).key !in changing
    case _ => true
  }

  // ---- a reader's steps -------------------------------------------------------------------

  datatype ReaderStep =
    | ReadTimestamp(key: Key)        // GET, first half
    | ReadVersion(key: Key)          // GET, second half
    | ReadSlot(key: Key, item: Item) // one-sided read that decodes to `item`
    | BeginRepair(v: map<Key, Timestamp>)
    | Repair(key: Key)
    | FinishGet

  function ReaderServer(c: Config, step: ReaderStep): nat
    requires ValidConfig(c)
  {
    match step
    case ReadTimestamp(key) => Home(c, key)
    case ReadVersion(key) => Home(c, key)
    case ReadSlot(key, _) => Home(c, key)
    case Repair(key) => Home(c, key)
    case _ => 0
  }

  predicate NeedsRepair(r: Reader, key: Key) {
    key in r.first && Lookup(r.vLatest, key).Greater(r.first[key].ts)
  }

  /**
   What a one-sided read of the slot may decode to: its item; while a quiet slot is being written,
   the new item; while a valid one is being overwritten, the old item, the new one, or a mixture.
   */
  predicate SlotShows(c: Config, st: Store, changing: map<Key, Item>, key: Key, item: Item) {
    key in st.slots &&
    if key !in changing then st.slots[key] == Got(item)
    else if st.slots[key].Got? then
      var before, after := st.slots[key].item, changing[key];
      item == before || item == after || (before != after && c.mixes(before, after, item))
    else item == changing[key]
  }

  /** GET: an empty timestamp asks for the latest version. */
  function Reply(st: Store, key: Key, ts: Timestamp): Item {
    if ts.IsEmpty() then GetLatest(st, key) else GetByVersion(st, key, ts)
  }

  ghost predicate ReaderEnabled(c: Config, st: Store, changing: map<Key, Item>, r: Reader, step: ReaderStep) {
    match step
    case ReadTimestamp(key) => r.phase == FirstRound && key in r.keys && key !in r.first
    case ReadVersion(key) => r.phase == FirstRound && key in r.asked && key !in r.first
    case ReadSlot(key, item) =>
      r.phase == FirstRound && key in r.keys && key !in r.first && SlotShows(c, st, changing, key, item)
    case BeginRepair(v) => r.phase == FirstRound && r.first.Keys == r.keys && IsVLatest(r.first, v)
    case Repair(key) => r.phase == SecondRound && NeedsRepair(r, key) && key !in r.repaired
    case FinishGet => r.phase == SecondRound && forall k :: NeedsRepair(r, k) ==> k in r.repaired
  }

  ghost function ReaderAfter(c: Config, st: Store, changing: map<Key, Item>, r: Reader, step: ReaderStep): Reader
    requires ReaderEnabled(c, st, changing, r, step)
  {
    match step
    case ReadTimestamp(key) => r.(asked := r.asked[key := Latest(st, key)])
    case ReadVersion(key) => r.(first := r.first[key := GetByVersion(st, key, r.asked[key])])
    case ReadSlot(key, item) => r.(first := r.first[key := item])
    case BeginRepair(v) => r.(phase := SecondRound, vLatest := v, result := r.first)
    case Repair(key) =>
      r.(repaired := r.repaired + {key}, result := r.result[key := Reply(st, key, Lookup(r.vLatest, key))])
    case FinishGet => r.(phase := Finished)
  }

  /** Asking for the latest version inserts the zero timestamp for a key never committed. */
  function StoreAfterRead(st: Store, r: Reader, step: ReaderStep): Store {
    if step.ReadTimestamp? || (step.Repair? && Lookup(r.vLatest, step.key).IsEmpty()) then Touch(st, step.key) else st
  }

  // ---- the whole system -------------------------------------------------------------------

  datatype Action =
    | BeginPut(ts: Timestamp, writes: map<Key, Values>)
    | Put(ts: Timestamp, wstep: WriterStep)
    | BeginGet(reader: nat, keys: set<Key>)
    | Get(reader: nat, rstep: ReaderStep)
    | HandOutSlot(handed: Key)       // the address half of GET_WITH_ADDR

  /** With `exclusive`, nobody is committing the key that this step is about to check. */
  predicate MayCommit(c: Config, s: State, ts: Timestamp, server: nat)
    requires server < |s.stores| && ts in s.writers && JobRuns(s.stores[server], ts, s.writers[ts], server)
  {
    var st, w := s.stores[server], s.writers[ts];
    c.exclusive && w.jobs[server].pc == Check ==>
      forall u :: u in s.writers ==> !Amid(st, u, s.writers[u], server, JobItem(st, ts, w, server).key)
  }

  ghost predicate Enabled(c: Config, s: State, a: Action)
    requires ValidConfig(c) && |s.stores| == c.servers
  {
    match a
    case BeginPut(ts, writes) => ZERO.Less(ts) && ts !in s.writers
    case Put(ts, step) =>
      && ts in s.writers && WriterServer(c, step) < c.servers
      && WriterEnabled(c, s.stores[WriterServer(c, step)], ts, s.writers[ts], step)
      && MutexFree(s.stores[WriterServer(c, step)], s.changing, ts, s.writers[ts], step)
      && (step.StepJob? ==> MayCommit(c, s, ts, step.server))
    case BeginGet(id, keys) => id !in s.readers
    case Get(id, step) =>
      && id in s.readers && (step.ReadSlot? ==> step.key in s.handed)
      && ReaderEnabled(c, s.stores[ReaderServer(c, step)], s.changing, s.readers[id], step)
    case HandOutSlot(key) => true
  }

  ghost function Apply(c: Config, s: State, a: Action): State
    requires ValidConfig(c) && |s.stores| == c.servers && Enabled(c, s, a)
  {
    match a
    case BeginPut(ts, writes) =>
      s.(writers := s.writers[ts := Writer(writes, Preparing, map[], map[], {})])
    case Put(ts, step) =>
      var i, w := WriterServer(c, step), s.writers[ts];
      s.(stores := s.stores[i := StoreAfter(c, s.stores[i], ts, w, step)],
         changing := ChangingAfter(c, s.stores[i], s.changing, ts, w, step),
         writers := s.writers[ts := WriterAfter(c, s.stores[i], ts, w, step)])
    case BeginGet(id, keys) =>
      s.(readers := s.readers[id := Reader(keys, FirstRound, map[], map[], map[], {}, map[],
        set t | t in s.writers && s.writers[t].phase == Returned)])
    case Get(id, step) =>
      var i := ReaderServer(c, step);
      s.(stores := s.stores[i := StoreAfterRead(s.stores[i], s.readers[id], step)],
         readers := s.readers[id := ReaderAfter(c, s.stores[i], s.changing, s.readers[id], step)])
    case HandOutSlot(key) =>
      var i := Home(c, key);
      s.(stores := s.stores[i := HandOut(s.stores[i], key)], handed := s.handed + {key})
  }

  ghost predicate Next(c: Config, s: State, s': State)
    requires ValidConfig(c)
  {
    |s.stores| == c.servers && exists a :: Enabled(c, s, a) && s' == Apply(c, s, a)
  }

  ghost predicate IsRun(c: Config, run: seq<State>)
    requires ValidConfig(c)
  {
    && |run| > 0 && Init(c, run[0])
    && forall i :: 0 <= i < |run| - 1 ==> Next(c, run[i], run[i + 1])
  }
}
