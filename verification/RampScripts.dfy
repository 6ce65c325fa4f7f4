/** Pieces of runs: a transaction that prepares, a commit that moves step by step, a read. */
module RampScripts {
  import opened Data
  import opened Slot
  import opened Store
  import opened Ramp

  ghost predicate Reachable(c: Config, s: State)
    requires ValidConfig(c)
  {
    exists run :: IsRun(c, run) && run[|run| - 1] == s
  }

  lemma Go(c: Config, s: State, a: Action) returns (s': State)
    requires ValidConfig(c) && |s.stores| == c.servers && Reachable(c, s) && Enabled(c, s, a)
    ensures Reachable(c, s') && s' == Apply(c, s, a)
  {
    s' := Apply(c, s, a);
    var run :| IsRun(c, run) && run[|run| - 1] == s;
    var longer := run + [s'];
    forall i | 0 <= i < |longer| - 1
      ensures Next(c, longer[i], longer[i + 1])
    {
      if i < |run| - 1 {
        assert Next(c, run[i], run[i + 1]);
      }
    }
    assert IsRun(c, longer);
  }

  function Start(c: Config): (s: State)
    ensures |s.stores| == c.servers
  {
    State(seq(c.servers, i => EMPTY_STORE), map[], {}, map[], map[])
  }

  lemma StartIsReachable(c: Config)
    requires ValidConfig(c)
    ensures Reachable(c, Start(c))
  {
    assert IsRun(c, [Start(c)]) && [Start(c)][|[Start(c)]| - 1] == Start(c);
  }

  // ---- preparing -----------------------------------------------------------------------------

  /** A transaction that has prepared the keys of `prepared`, and nothing else yet. */
  function Early(writes: map<Key, Values>, prepared: map<Key, Stage>): Writer {
    Writer(writes, Preparing, prepared, map[], {})
  }

  /** What preparing more keys of `t` leaves alone, `k` being prepared already. */
  ghost predicate Prepares(c: Config, s: State, s': State, t: Timestamp, k: Key)
    requires ValidConfig(c)
  {
    && |s'.stores| == |s.stores| == c.servers && s'.changing == s.changing && s'.readers == s.readers
    && s'.writers.Keys == s.writers.Keys && (forall u :: u in s.writers && u != t ==> s'.writers[u] == s.writers[u])
    && (forall m, u :: 0 <= m < c.servers && u != t ==> Versions(s'.stores[m], u) == Versions(s.stores[m], u))
    && (forall m, x :: 0 <= m < c.servers ==> Latest(s'.stores[m], x) == Latest(s.stores[m], x))
    && (forall m, x :: 0 <= m < c.servers && x in s.stores[m].slots ==> x in s'.stores[m].slots)
    && var st, st' := s.stores[Home(c, k)], s'.stores[Home(c, k)];
       && Versions(st, t) <= Versions(st', t)
       && (k in st.slots ==> k in st'.slots && st'.slots[k] == st.slots[k])
  }

  lemma PreparesChains(c: Config, s: State, s': State, s'': State, t: Timestamp, k: Key)
    requires ValidConfig(c) && Prepares(c, s, s', t, k) && Prepares(c, s', s'', t, k)
    ensures Prepares(c, s, s'', t, k)
  {
  }

  /** One step of a writer, as it changes the parts of the state. */
  lemma WriterGoes(c: Config, s: State, t: Timestamp, w: Writer, step: WriterStep, st: Store) returns (s': State)
    requires ValidConfig(c) && |s.stores| == c.servers && Reachable(c, s)
    requires t in s.writers && s.writers[t] == w && WriterServer(c, step) < c.servers && s.stores[WriterServer(c, step)] == st
    requires !step.StepJob? && WriterEnabled(c, st, t, w, step) && MutexFree(st, s.changing, t, w, step)
    ensures Reachable(c, s')
    ensures s' == s.(stores := s.stores[WriterServer(c, step) := StoreAfter(c, st, t, w, step)],
                     writers := s.writers[t := WriterAfter(c, st, t, w, step)])
  {
    s' := Go(c, s, Put(t, step));
  }

  /** A state in which `t` has this store at home and this prepare stage for `x`. */
  function Staged(c: Config, s: State, t: Timestamp, w: Writer, x: Key, st: Store, stage: Stage): State
    requires ValidConfig(c) && |s.stores| == c.servers
  {
    s.(stores := s.stores[Home(c, x) := st], writers := s.writers[t := w.(prepared := w.prepared[x := stage])])
  }

  lemma Stores(c: Config, s: State, t: Timestamp, w: Writer, x: Key)
    requires ValidConfig(c) && |s.stores| == c.servers && Reachable(c, s)
    requires t in s.writers && s.writers[t] == w && w.phase == Preparing && x in w.writes && x !in w.prepared
    ensures Reachable(c, Staged(c, s, t, w, x, Push(s.stores[Home(c, x)], ItemOf(w, t, x)), Stored))
  {
    var s' := WriterGoes(c, s, t, w, StoreVersion(x), s.stores[Home(c, x)]);
  }

  lemma Marks(c: Config, s: State, t: Timestamp, w: Writer, x: Key, st: Store)
    requires ValidConfig(c) && |s.stores| == c.servers && x !in s.changing
    requires Reachable(c, Staged(c, s, t, w, x, st, Stored))
    ensures Reachable(c, Staged(c, s, t, w, x, Invalidate(st, x), Marked))
  {
    var s1, w1 := Staged(c, s, t, w, x, st, Stored), w.(prepared := w.prepared[x := Stored]);
    var s' := WriterGoes(c, s1, t, w1, MarkSlot(x), st);
    assert w1.prepared[x := Marked] == w.prepared[x := Marked];
    assert s' == Staged(c, s, t, w, x, Invalidate(st, x), Marked);
  }

  lemma Acks(c: Config, s: State, t: Timestamp, w: Writer, x: Key, st: Store)
    requires ValidConfig(c) && |s.stores| == c.servers
    requires Reachable(c, Staged(c, s, t, w, x, st, Marked))
    ensures Reachable(c, Staged(c, s, t, w, x, st, Acked))
  {
    var s1, w1 := Staged(c, s, t, w, x, st, Marked), w.(prepared := w.prepared[x := Marked]);
    var s' := WriterGoes(c, s1, t, w1, AckPrepare(x), s1.stores[0]);
    assert s1.stores[0 := s1.stores[0]] == s1.stores;
    assert w1.prepared[x := Acked] == w.prepared[x := Acked];
    assert s' == Staged(c, s, t, w, x, st, Acked);
  }

  /** PREPARE of one key: store, mark, acknowledge. */
  lemma PrepareOne(c: Config, s: State, t: Timestamp, w: Writer, x: Key) returns (s': State)
    requires ValidConfig(c) && |s.stores| == c.servers && Reachable(c, s)
    requires t in s.writers && s.writers[t] == w && w.phase == Preparing && x in w.writes && x !in w.prepared && x !in s.changing
    ensures Reachable(c, s') && s' == Staged(c, s, t, w, x, Prepare(s.stores[Home(c, x)], ItemOf(w, t, x)), Acked)
  {
    var st, item := s.stores[Home(c, x)], ItemOf(w, t, x);
    Stores(c, s, t, w, x);
    Marks(c, s, t, w, x, Push(st, item));
    assert Invalidate(Push(st, item), x) == Prepare(st, item);
    Acks(c, s, t, w, x, Prepare(st, item));
    s' := Staged(c, s, t, w, x, Prepare(st, item), Acked);
  }

  lemma PrepareOther(c: Config, s: State, t: Timestamp, w: Writer, x: Key, k: Key) returns (s': State)
    requires ValidConfig(c) && |s.stores| == c.servers && Reachable(c, s)
    requires t in s.writers && s.writers[t] == w && w.phase == Preparing && x in w.writes && x !in w.prepared && x !in s.changing
    requires x != k
    ensures Reachable(c, s') && Prepares(c, s, s', t, k) && s'.writers[t] == w.(prepared := w.prepared[x := Acked])
  {
    s' := PrepareOne(c, s, t, w, x);
  }

  lemma OneMoreAcked(keys: set<Key>, todo: set<Key>, x: Key)
    requires x in todo && todo <= keys
    ensures (map y | y in keys - todo :: Acked)[x := Acked] == map y | y in keys - (todo - {x}) :: Acked
  {
  }

  /** All the keys in `todo`, one after the other. */
  lemma {:induction false} PrepareAll(c: Config, s: State, t: Timestamp, k: Key, todo: set<Key>) returns (s': State)
    requires ValidConfig(c) && |s.stores| == c.servers && Reachable(c, s) && s.changing == map[]
    requires t in s.writers && s.writers[t].phase == Preparing && s.writers[t].jobs == map[]
    requires todo <= s.writers[t].writes.Keys && k !in todo
    requires s.writers[t].prepared == map x | x in s.writers[t].writes.Keys - todo :: Acked
    ensures Reachable(c, s') && Prepares(c, s, s', t, k)
    ensures s'.writers[t] == s.writers[t].(prepared := map x | x in s.writers[t].writes.Keys :: Acked)
    decreases |todo|
  {
    var w := s.writers[t];
    if todo == {} {
      s' := s;
      assert w.writes.Keys - todo == w.writes.Keys;
      assert w == w.(prepared := w.prepared);
    } else {
      var x :| x in todo;
      var s1 := PrepareOther(c, s, t, w, x, k);
      OneMoreAcked(w.writes.Keys, todo, x);
      s' := PrepareAll(c, s1, t, k, todo - {x});
      PreparesChains(c, s, s1, s', t, k);
    }
  }

  // ---- committing one key ----------------------------------------------------------------------

  /** The commit of `t` on the home server of `k` stands at `job`, and `k` is its first item. */
  ghost predicate Stands(c: Config, s: State, t: Timestamp, k: Key, item: Item, job: Job)
    requires ValidConfig(c)
  {
    && |s.stores| == c.servers && t in s.writers && s.writers[t].phase == Committing
    && var h := Home(c, k);
       && h in s.writers[t].jobs && s.writers[t].jobs[h] == job
       && |Versions(s.stores[h], t)| > 0 && Versions(s.stores[h], t)[0] == item
       && item.key == k && item.ts == t && k in s.stores[h].slots
  }

  /** Everything about writers other than `t`, all versions, other keys and the readers stay as they are. */
  ghost predicate OnlyCommits(s: State, s': State, t: Timestamp, k: Key) {
    && |s'.stores| == |s.stores| && s'.readers == s.readers
    && s'.writers.Keys == s.writers.Keys && (forall u :: u in s.writers && u != t ==> s'.writers[u] == s.writers[u])
    && (forall m :: 0 <= m < |s.stores| ==> s'.stores[m].items == s.stores[m].items)
    && (forall m, j :: 0 <= m < |s.stores| && j in s.stores[m].slots ==> j in s'.stores[m].slots)
    && (forall m, j :: 0 <= m < |s.stores| ==>
          Latest(s'.stores[m], j) == Latest(s.stores[m], j) || (j == k && Latest(s'.stores[m], j) == t))
  }

  /** Of the committer itself only the positions of its jobs change. */
  ghost predicate Advances(s: State, s': State, t: Timestamp, k: Key) {
    && OnlyCommits(s, s', t, k) && t in s.writers
    && s'.writers[t] == s.writers[t].(jobs := s'.writers[t].jobs) && s'.writers[t].jobs.Keys == s.writers[t].jobs.Keys
  }

  lemma AdvancesChains(s: State, s': State, s'': State, t: Timestamp, k: Key)
    requires Advances(s, s', t, k) && Advances(s', s'', t, k)
    ensures Advances(s, s'', t, k)
  {
  }

  /** Another commit stands where it stood. */
  lemma OtherStands(c: Config, s: State, s': State, t: Timestamp, u: Timestamp, k: Key, item: Item, job: Job)
    requires ValidConfig(c) && Stands(c, s, u, k, item, job) && OnlyCommits(s, s', t, k) && u != t
    ensures Stands(c, s', u, k, item, job)
  {
    assert s'.stores[Home(c, k)].items == s.stores[Home(c, k)].items;
  }

  /** What one step does to the latest version, the view of the slot, and its mutex. */
  ghost predicate Changes(c: Config, s: State, s': State, k: Key, latest: Timestamp, view: View<Item>, changing: map<Key, Item>)
    requires ValidConfig(c) && |s.stores| == |s'.stores| == c.servers
  {
    var st' := s'.stores[Home(c, k)];
    Latest(st', k) == latest && k in st'.slots && st'.slots[k] == view && s'.changing == changing
  }

  /** A new transaction that has got as far as its commit of `k`; nothing is committed by that. */
  ghost predicate OnlyBegins(c: Config, s: State, s': State, t: Timestamp)
    requires ValidConfig(c)
  {
    && |s'.stores| == |s.stores| == c.servers && s'.changing == s.changing && s'.readers == s.readers
    && s'.writers.Keys == s.writers.Keys + {t} && (forall u :: u in s.writers && u != t ==> s'.writers[u] == s.writers[u])
    && (forall m, u :: 0 <= m < c.servers && u != t ==> Versions(s'.stores[m], u) == Versions(s.stores[m], u))
    && (forall m, x :: 0 <= m < c.servers ==> Latest(s'.stores[m], x) == Latest(s.stores[m], x))
    && (forall m, x :: 0 <= m < c.servers && x in s.stores[m].slots ==> x in s'.stores[m].slots)
  }

  /** `Item(key, values, ts, access_keys)` of a transaction. */
  function WrittenItem(t: Timestamp, writes: map<Key, Values>, k: Key): Item
    requires k in writes
  {
    Item(k, writes[k], t, writes.Keys)
  }

  /** Begins a transaction and prepares one of its keys. */
  lemma BeginsWith(c: Config, s: State, t: Timestamp, writes: map<Key, Values>, k: Key) returns (s': State)
    requires ValidConfig(c) && |s.stores| == c.servers && Reachable(c, s) && s.changing == map[]
    requires t !in s.writers && ZERO.Less(t) && k in writes
    ensures Reachable(c, s') && |s'.stores| == c.servers
    ensures s' == s.(stores := s.stores[Home(c, k) := Prepare(s.stores[Home(c, k)], WrittenItem(t, writes, k))],
                     writers := s.writers[t := Early(writes, map[k := Acked])])
  {
    var s1 := Go(c, s, BeginPut(t, writes));
    assert s1.writers[t] == Early(writes, map[]);
    s' := PrepareOne(c, s1, t, Early(writes, map[]), k);
    assert map[][k := Acked] == map[k := Acked];
    assert ItemOf(Early(writes, map[]), t, k) == WrittenItem(t, writes, k);
    assert s'.writers == s.writers[t := Early(writes, map[k := Acked])];
  }

  lemma BeginsFrame(c: Config, s: State, s': State, t: Timestamp, w: Writer, k: Key, item: Item)
    requires ValidConfig(c) && |s.stores| == c.servers && t !in s.writers && item.key == k && item.ts == t
    requires s' == s.(stores := s.stores[Home(c, k) := Prepare(s.stores[Home(c, k)], item)], writers := s.writers[t := w])
    ensures OnlyBegins(c, s, s', t)
    ensures k in s'.stores[Home(c, k)].slots && !s'.stores[Home(c, k)].slots[k].Got?
    ensures Versions(s'.stores[Home(c, k)], t) == Versions(s.stores[Home(c, k)], t) + [item]
  {
  }

  lemma BeginsThenPrepares(c: Config, s: State, s1: State, s2: State, t: Timestamp, k: Key)
    requires ValidConfig(c) && OnlyBegins(c, s, s1, t) && Prepares(c, s1, s2, t, k)
    ensures OnlyBegins(c, s, s2, t)
  {
  }

  /** The versions of `t` at home, `k`'s first, and `k`'s slot quiet. */
  ghost predicate HomeReady(c: Config, s: State, t: Timestamp, k: Key, item: Item, alone: bool)
    requires ValidConfig(c) && |s.stores| == c.servers
  {
    var st := s.stores[Home(c, k)];
    && |Versions(st, t)| > 0 && Versions(st, t)[0] == item && item.key == k && item.ts == t
    && k in st.slots && !st.slots[k].Got? && (alone ==> Versions(st, t) == [item])
  }

  lemma PreparedHome(c: Config, s1: State, s2: State, t: Timestamp, k: Key, item: Item, alone: bool)
    requires ValidConfig(c) && Prepares(c, s1, s2, t, k) && HomeReady(c, s1, t, k, item, true) && (alone ==> s2 == s1)
    ensures HomeReady(c, s2, t, k, item, alone)
  {
    assert Versions(s2.stores[Home(c, k)], t)[0] == Versions(s1.stores[Home(c, k)], t)[0];
  }

  /** A transaction begins and prepares all its keys. */
  lemma PreparesEverything(c: Config, s: State, t: Timestamp, writes: map<Key, Values>, k: Key) returns (s': State)
    requires ValidConfig(c) && |s.stores| == c.servers && Reachable(c, s) && s.changing == map[]
    requires t !in s.writers && ZERO.Less(t) && k in writes && Versions(s.stores[Home(c, k)], t) == []
    ensures Reachable(c, s') && OnlyBegins(c, s, s', t)
    ensures s'.writers[t] == Early(writes, map x | x in writes.Keys :: Acked)
    ensures HomeReady(c, s', t, k, WrittenItem(t, writes, k), writes.Keys == {k})
  {
    var item := WrittenItem(t, writes, k);
    var s1 := BeginsWith(c, s, t, writes, k);
    BeginsFrame(c, s, s1, t, Early(writes, map[k := Acked]), k, item);
    s' := PrepareRest(c, s1, t, writes, k);
    BeginsThenPrepares(c, s, s1, s', t, k);
    PreparedHome(c, s1, s', t, k, item, writes.Keys == {k});
  }

  /** A transaction runs up to the start of its commit on the home server of `k`. */
  lemma Begins(c: Config, s: State, t: Timestamp, writes: map<Key, Values>, k: Key) returns (s': State)
    requires ValidConfig(c) && |s.stores| == c.servers && Reachable(c, s) && s.changing == map[]
    requires t !in s.writers && ZERO.Less(t) && k in writes && Versions(s.stores[Home(c, k)], t) == []
    ensures Reachable(c, s') && OnlyBegins(c, s, s', t)
    ensures Stands(c, s', t, k, WrittenItem(t, writes, k), Job(0, Check))
    ensures s'.writers[t] == Begun(c, writes, k)
    ensures HomeReady(c, s', t, k, WrittenItem(t, writes, k), writes.Keys == {k})
  {
    var s1 := PreparesEverything(c, s, t, writes, k);
    s' := Commences(c, s1, t, Early(writes, map x | x in writes.Keys :: Acked), k);
    CommencedFrame(c, s, s1, s', t);
  }

  lemma CommencedFrame(c: Config, s: State, s1: State, s': State, t: Timestamp)
    requires ValidConfig(c) && OnlyBegins(c, s, s1, t) && t in s'.writers && s' == s1.(writers := s1.writers[t := s'.writers[t]])
    ensures OnlyBegins(c, s, s', t)
  {
  }

  lemma PrepareRest(c: Config, s: State, t: Timestamp, writes: map<Key, Values>, k: Key) returns (s': State)
    requires ValidConfig(c) && |s.stores| == c.servers && Reachable(c, s) && s.changing == map[]
    requires t in s.writers && s.writers[t] == Early(writes, map[k := Acked]) && k in writes
    ensures Reachable(c, s') && Prepares(c, s, s', t, k) && s'.writers[t] == Early(writes, map x | x in writes.Keys :: Acked)
    ensures writes.Keys == {k} ==> s' == s
  {
    if writes.Keys == {k} {
      s' := s;
      assert map[k := Acked] == map x | x in writes.Keys :: Acked;
    } else {
      assert map[k := Acked] == map x | x in writes.Keys - (writes.Keys - {k}) :: Acked;
      s' := PrepareAll(c, s, t, k, writes.Keys - {k});
    }
  }

  /** Another commit stands where it stood. */
  lemma BegunStands(c: Config, s: State, s': State, t: Timestamp, u: Timestamp, k: Key, item: Item, job: Job)
    requires ValidConfig(c) && Stands(c, s, u, k, item, job) && OnlyBegins(c, s, s', t) && u != t
    ensures Stands(c, s', u, k, item, job)
  {
    assert Versions(s'.stores[Home(c, k)], u) == Versions(s.stores[Home(c, k)], u);
  }

  /** All acknowledgements are in: the client commits and the home server of `k` starts its job. */
  lemma Commences(c: Config, s: State, t: Timestamp, w: Writer, k: Key) returns (s': State)
    requires ValidConfig(c) && |s.stores| == c.servers && Reachable(c, s)
    requires t in s.writers && s.writers[t] == w && w.phase == Preparing && w.jobs == map[] && k in w.writes
    requires forall x :: x in w.writes ==> x in w.prepared && w.prepared[x] == Acked
    ensures Reachable(c, s')
    ensures s' == s.(writers := s.writers[t := w.(phase := Committing, jobs := map[Home(c, k) := Job(0, Check)])])
  {
    var h := Home(c, k);
    var s1 := WriterGoes(c, s, t, w, BeginCommit, s.stores[0]);
    assert s.stores[0 := s.stores[0]] == s.stores && s.stores[h := s.stores[h]] == s.stores;
    assert Touches(c, w, h);
    s' := WriterGoes(c, s1, t, w.(phase := Committing), StartJob(h), s.stores[h]);
    assert map[][h := Job(0, Check)] == map[h := Job(0, Check)];
    assert s'.writers == s.writers[t := w.(phase := Committing, jobs := map[h := Job(0, Check)])];
  }

  lemma Moves(c: Config, s: State, t: Timestamp, k: Key, item: Item, pc: Pc) returns (s': State)
    requires ValidConfig(c) && Reachable(c, s) && Stands(c, s, t, k, item, Job(0, pc)) && Enabled(c, s, Put(t, StepJob(Home(c, k))))
    ensures Reachable(c, s') && Advances(s, s', t, k)
    ensures var st := s.stores[Home(c, k)];
            Stands(c, s', t, k, item, match pc
                                      case Check => if Latest(st, k).Less(t) then Job(0, Set) else Job(1, Check)
                                      case Set => Job(0, Rewrite)
                                      case Rewrite => Job(0, Writing)
                                      case Writing => Job(1, Check))
            && Changes(c, s, s', k, if pc == Set then t else Latest(st, k), if pc == Writing then Got(item) else st.slots[k],
                       match pc case Rewrite => s.changing[k := item] case Writing => s.changing - {k} case _ => s.changing)
  {
    s' := Go(c, s, Put(t, StepJob(Home(c, k))));
    MovesOnlyThis(c, s, t, k, item, pc);
  }

  lemma MovesOnlyThis(c: Config, s: State, t: Timestamp, k: Key, item: Item, pc: Pc)
    requires ValidConfig(c) && Stands(c, s, t, k, item, Job(0, pc)) && Enabled(c, s, Put(t, StepJob(Home(c, k))))
    ensures Advances(s, Apply(c, s, Put(t, StepJob(Home(c, k)))), t, k)
  {
  }

  /** None of its commits is in the middle of an item. */
  predicate Calm(w: Writer) {
    forall h :: h in w.jobs ==> w.jobs[h].pc == Check
  }

  // ---- two transactions that write one key -----------------------------------------------------

  /** Where the commits of `t` and `u` stand, and what table and slot of `k` show meanwhile. */
  ghost predicate Pair(c: Config, s: State, k: Key, a: Item, job: Job, b: Item, other: Job,
                       latest: Timestamp, view: View<Item>, changing: map<Key, Item>)
    requires ValidConfig(c)
  {
    && a.ts != b.ts && (forall u :: u in s.writers && u != a.ts && u != b.ts ==> Calm(s.writers[u])) && Stands(c, s, a.ts, k, a, job) && Stands(c, s, b.ts, k, b, other)
    && Latest(s.stores[Home(c, k)], k) == latest && s.stores[Home(c, k)].slots[k] == view && s.changing == changing
  }

  lemma Swap(c: Config, s: State, k: Key, a: Item, job: Job, b: Item, other: Job,
             latest: Timestamp, view: View<Item>, changing: map<Key, Item>)
    requires ValidConfig(c) && Pair(c, s, k, a, job, b, other, latest, view, changing)
    ensures Pair(c, s, k, b, other, a, job, latest, view, changing)
  {
  }

  function JobNext(latest: Timestamp, t: Timestamp, pc: Pc): Job {
    match pc
    case Check => if latest.Less(t) then Job(0, Set) else Job(1, Check)
    case Set => Job(0, Rewrite)
    case Rewrite => Job(0, Writing)
    case Writing => Job(1, Check)
  }

  /** The commit of `a` takes its next step. */
  lemma PairMoves(c: Config, s: State, k: Key, a: Item, pc: Pc, b: Item, other: Job,
                  latest: Timestamp, view: View<Item>, changing: map<Key, Item>) returns (s': State)
    requires ValidConfig(c) && Reachable(c, s) && Pair(c, s, k, a, Job(0, pc), b, other, latest, view, changing)
    requires pc == Rewrite ==> changing == map[]
    requires pc == Check && c.exclusive ==> other.pc == Check
    ensures Reachable(c, s') && Advances(s, s', a.ts, k)
    ensures Pair(c, s', k, a, JobNext(latest, a.ts, pc), b, other, if pc == Set then a.ts else latest,
                 if pc == Writing then Got(a) else view,
                 match pc case Rewrite => map[k := a] case Writing => changing - {k} case _ => changing)
  {
    s' := Moves(c, s, a.ts, k, a, pc);
    OtherStands(c, s, s', a.ts, b.ts, k, b, other);
    assert pc == Rewrite ==> map[][k := a] == map[k := a];
  }

  /** Both begin, while nobody else is committing anything. */
  lemma PairBegins(c: Config, s0: State, k: Key, a: Item, b: Item, writesA: map<Key, Values>, writesB: map<Key, Values>)
    returns (s: State, view: View<Item>)
    requires ValidConfig(c) && a.ts != b.ts && ZERO.Less(a.ts) && ZERO.Less(b.ts)
    requires k in writesA && k in writesB && a == WrittenItem(a.ts, writesA, k) && b == WrittenItem(b.ts, writesB, k)
    requires Reachable(c, s0) && ReadyFor(c, s0, a.ts) && ReadyFor(c, s0, b.ts)
    ensures Reachable(c, s) && !view.Got?
    ensures Pair(c, s, k, a, Job(0, Check), b, Job(0, Check), Latest(s0.stores[Home(c, k)], k), view, map[])
    ensures s.writers == s0.writers[a.ts := Begun(c, writesA, k)][b.ts := Begun(c, writesB, k)]
    ensures s.readers == s0.readers && SameLatest(s0, s)
    ensures writesA.Keys == {k} ==> Versions(s.stores[Home(c, k)], a.ts) == [a]
    ensures writesB.Keys == {k} ==> Versions(s.stores[Home(c, k)], b.ts) == [b]
  {
    var s1 := Begins(c, s0, a.ts, writesA, k);
    StillNew(c, s0, s1, a.ts, b.ts);
    s := Begins(c, s1, b.ts, writesB, k);
    view := s.stores[Home(c, k)].slots[k];
    BothBegun(c, s0, s1, s, a.ts, b.ts, Begun(c, writesA, k), Begun(c, writesB, k));
    BothStand(c, s0, s1, s, k, a, b, view);
    assert Versions(s.stores[Home(c, k)], a.ts) == Versions(s1.stores[Home(c, k)], a.ts);
  }

  lemma StillNew(c: Config, s0: State, s1: State, t: Timestamp, u: Timestamp)
    requires ValidConfig(c) && ReadyFor(c, s0, u) && OnlyBegins(c, s0, s1, t) && u != t
    ensures u !in s1.writers && forall m :: 0 <= m < c.servers ==> Versions(s1.stores[m], u) == []
  {
  }

  lemma BothStand(c: Config, s0: State, s1: State, s: State, k: Key, a: Item, b: Item, view: View<Item>)
    requires ValidConfig(c) && a.ts != b.ts && OnlyBegins(c, s0, s1, a.ts) && OnlyBegins(c, s1, s, b.ts) && s0.changing == map[]
    requires forall u :: u in s0.writers ==> Calm(s0.writers[u])
    requires Stands(c, s1, a.ts, k, a, Job(0, Check)) && Stands(c, s, b.ts, k, b, Job(0, Check)) && s.stores[Home(c, k)].slots[k] == view
    ensures Pair(c, s, k, a, Job(0, Check), b, Job(0, Check), Latest(s0.stores[Home(c, k)], k), view, map[])
  {
    BegunStands(c, s1, s, b.ts, a.ts, k, a, Job(0, Check));
    forall u | u in s.writers && u != a.ts && u != b.ts
      ensures Calm(s.writers[u])
    {
      assert u in s1.writers && u in s0.writers && s.writers[u] == s1.writers[u] == s0.writers[u];
    }
  }

  lemma BothBegun(c: Config, s0: State, s1: State, s: State, t: Timestamp, u: Timestamp, w: Writer, v: Writer)
    requires ValidConfig(c) && t != u && OnlyBegins(c, s0, s1, t) && OnlyBegins(c, s1, s, u)
    requires t in s1.writers && s1.writers[t] == w && u in s.writers && s.writers[u] == v && t !in s0.writers && u !in s1.writers
    ensures s.writers == s0.writers[t := w][u := v] && SameLatest(s0, s)
  {
    assert s.writers.Keys == s0.writers[t := w][u := v].Keys;
  }

  /** A transaction that starts its commit on the home server of `k`. */
  function Begun(c: Config, writes: map<Key, Values>, k: Key): Writer
    requires ValidConfig(c)
  {
    Writer(writes, Committing, map x | x in writes.Keys :: Acked, map[Home(c, k) := Job(0, Check)], {})
  }

  /** `t` is new, and nobody is in the middle of committing an item. */
  ghost predicate ReadyFor(c: Config, s: State, t: Timestamp)
    requires ValidConfig(c)
  {
    && |s.stores| == c.servers && s.changing == map[] && t !in s.writers && (forall u :: u in s.writers ==> Calm(s.writers[u]))
    && forall m :: 0 <= m < c.servers ==> Versions(s.stores[m], t) == []
  }

  ghost predicate SameLatest(s: State, s': State) {
    && |s'.stores| == |s.stores|
    && forall m, j :: 0 <= m < |s.stores| ==> Latest(s'.stores[m], j) == Latest(s.stores[m], j)
  }

  /** The commit of `a` has set the latest version, and now publishes it. */
  lemma PairPublishes(c: Config, s: State, k: Key, a: Item, b: Item, other: Job, latest: Timestamp, view: View<Item>) returns (s': State)
    requires ValidConfig(c) && Reachable(c, s) && Pair(c, s, k, a, Job(0, Rewrite), b, other, latest, view, map[])
    ensures Reachable(c, s') && Pair(c, s', k, a, Job(1, Check), b, other, latest, Got(a), map[]) && Advances(s, s', a.ts, k)
  {
    var s1 := PairMoves(c, s, k, a, Rewrite, b, other, latest, view, map[]);
    s' := PairMoves(c, s1, k, a, Writing, b, other, latest, view, map[k := a]);
    assert map[k := a] - {k} == map[];
    AdvancesChains(s, s1, s', a.ts, k);
  }

  lemma PairSets(c: Config, s: State, k: Key, a: Item, b: Item, other: Job, latest: Timestamp, view: View<Item>) returns (s': State)
    requires ValidConfig(c) && Reachable(c, s) && Pair(c, s, k, a, Job(0, Check), b, other, latest, view, map[])
    requires latest.Less(a.ts) && (c.exclusive ==> other.pc == Check)
    ensures Reachable(c, s') && Pair(c, s', k, a, Job(0, Rewrite), b, other, a.ts, view, map[]) && Advances(s, s', a.ts, k)
  {
    var s1 := PairMoves(c, s, k, a, Check, b, other, latest, view, map[]);
    s' := PairMoves(c, s1, k, a, Set, b, other, latest, view, map[]);
    AdvancesChains(s, s1, s', a.ts, k);
  }

  /** The commit of `a` goes from its check to the end, undisturbed. */
  lemma PairCommits(c: Config, s: State, k: Key, a: Item, b: Item, other: Job, latest: Timestamp, view: View<Item>) returns (s': State)
    requires ValidConfig(c) && Reachable(c, s) && Pair(c, s, k, a, Job(0, Check), b, other, latest, view, map[])
    requires latest.Less(a.ts) && (c.exclusive ==> other.pc == Check)
    ensures Reachable(c, s') && Pair(c, s', k, a, Job(1, Check), b, other, a.ts, Got(a), map[]) && Advances(s, s', a.ts, k)
  {
    var s1 := PairSets(c, s, k, a, b, other, latest, view);
    s' := PairPublishes(c, s1, k, a, b, other, a.ts, view);
    AdvancesChains(s, s1, s', a.ts, k);
  }

  // ---- one transaction, while nobody else is committing an item -----------------------------------

  ghost predicate Solo(c: Config, s: State, k: Key, a: Item, job: Job, latest: Timestamp, view: View<Item>, changing: map<Key, Item>)
    requires ValidConfig(c)
  {
    && Stands(c, s, a.ts, k, a, job) && (forall u :: u in s.writers && u != a.ts ==> Calm(s.writers[u]))
    && Latest(s.stores[Home(c, k)], k) == latest && s.stores[Home(c, k)].slots[k] == view && s.changing == changing
  }

  lemma SoloMoves(c: Config, s: State, k: Key, a: Item, pc: Pc, latest: Timestamp, view: View<Item>, changing: map<Key, Item>)
    returns (s': State)
    requires ValidConfig(c) && Reachable(c, s) && Solo(c, s, k, a, Job(0, pc), latest, view, changing) && (pc == Rewrite ==> changing == map[])
    ensures Reachable(c, s') && Advances(s, s', a.ts, k)
    ensures Solo(c, s', k, a, JobNext(latest, a.ts, pc), if pc == Set then a.ts else latest,
                 if pc == Writing then Got(a) else view,
                 match pc case Rewrite => map[k := a] case Writing => changing - {k} case _ => changing)
  {
    s' := Moves(c, s, a.ts, k, a, pc);
    assert pc == Rewrite ==> map[][k := a] == map[k := a];
  }

  lemma SoloSets(c: Config, s: State, k: Key, a: Item, latest: Timestamp, view: View<Item>) returns (s': State)
    requires ValidConfig(c) && Reachable(c, s) && Solo(c, s, k, a, Job(0, Check), latest, view, map[]) && latest.Less(a.ts)
    ensures Reachable(c, s') && Advances(s, s', a.ts, k) && Solo(c, s', k, a, Job(0, Rewrite), a.ts, view, map[])
  {
    var s1 := SoloMoves(c, s, k, a, Check, latest, view, map[]);
    s' := SoloMoves(c, s1, k, a, Set, latest, view, map[]);
    AdvancesChains(s, s1, s', a.ts, k);
  }

  /** It gets as far as copying its item into the slot. */
  lemma SoloCopies(c: Config, s: State, k: Key, a: Item, latest: Timestamp, view: View<Item>) returns (s': State)
    requires ValidConfig(c) && Reachable(c, s) && Solo(c, s, k, a, Job(0, Check), latest, view, map[]) && latest.Less(a.ts)
    ensures Reachable(c, s') && Advances(s, s', a.ts, k) && Solo(c, s', k, a, Job(0, Writing), a.ts, view, map[k := a])
  {
    var s1 := SoloSets(c, s, k, a, latest, view);
    s' := SoloMoves(c, s1, k, a, Rewrite, a.ts, view, map[]);
    AdvancesChains(s, s1, s', a.ts, k);
  }

  // ---- a read --------------------------------------------------------------------------------

  /** A read changes nothing but what it may insert: the zero timestamp of a key never seen. */
  ghost predicate OnlyReads(s: State, s': State) {
    && |s'.stores| == |s.stores| && s'.writers == s.writers && s'.changing == s.changing && s.handed <= s'.handed
    && (forall m :: 0 <= m < |s.stores| ==> s'.stores[m].items == s.stores[m].items && s'.stores[m].slots == s.stores[m].slots)
    && SameLatest(s, s')
  }

  lemma OnlyReadsChains(s: State, s': State, s'': State)
    requires OnlyReads(s, s') && OnlyReads(s', s'')
    ensures OnlyReads(s, s'')
  {
  }

  lemma ReadingStore(st: Store, r: Reader, step: ReaderStep)
    ensures var st' := StoreAfterRead(st, r, step); st'.items == st.items && st'.slots == st.slots && forall k :: Latest(st', k) == Latest(st, k)
  {
  }

  lemma OneStoreRead(s: State, s': State, i: nat, r: Reader, step: ReaderStep)
    requires i < |s.stores| && s' == s.(stores := s.stores[i := StoreAfterRead(s.stores[i], r, step)], readers := s'.readers)
    ensures OnlyReads(s, s')
  {
    ReadingStore(s.stores[i], r, step);
  }

  /** One step of the only reader. */
  lemma ReaderGoes(c: Config, s: State, r: Reader, step: ReaderStep) returns (s': State)
    requires ValidConfig(c) && |s.stores| == c.servers && Reachable(c, s) && s.readers == map[0 := r]
    requires ReaderEnabled(c, s.stores[ReaderServer(c, step)], s.changing, r, step) && (step.ReadSlot? ==> step.key in s.handed)
    ensures Reachable(c, s') && OnlyReads(s, s')
    ensures s'.readers == map[0 := ReaderAfter(c, s.stores[ReaderServer(c, step)], s.changing, r, step)]
  {
    s' := Go(c, s, Get(0, step));
    OneStoreRead(s, s', ReaderServer(c, step), r, step);
  }
}
