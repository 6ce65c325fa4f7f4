/**
 What every run of the RAMP protocols keeps, torn slots or not: versions are stored before they
 are published, and tables and slots hold only what transactions wrote.
 */
module RampSafety {
  import opened Data
  import opened Slot
  import opened Store
  import opened Ramp

  // ---- the invariant ---------------------------------------------------------------------

  predicate Published(s: State, ts: Timestamp) {
    ts in s.writers && s.writers[ts].phase != Preparing
  }

  predicate GenuineTs(s: State, key: Key, ts: Timestamp) {
    ts == ZERO || (Published(s, ts) && key in s.writers[ts].writes)
  }

  /** Either no version yet, or exactly what a publishing writer wrote to this key. */
  predicate Genuine(s: State, key: Key, item: Item) {
    if item.ts == ZERO then item == EMPTY_ITEM || item == InitialItem(key)
    else GenuineTs(s, key, item.ts) && item == ItemOf(s.writers[item.ts], item.ts, key)
  }

  predicate WriterOk(ts: Timestamp, w: Writer) {
    && ZERO.Less(ts)
    && (forall k :: k in w.prepared ==> k in w.writes)
    && (w.phase != Preparing ==> forall k :: k in w.writes ==> k in w.prepared && w.prepared[k] == Acked)
    && (w.phase == Preparing ==> w.jobs == map[])
  }

  ghost predicate WritersOk(s: State) {
    forall t :: t in s.writers ==> WriterOk(t, s.writers[t])
  }

  /** What is stored is what was sent, on the server the key hashes to. */
  ghost predicate VersionsOk(c: Config, s: State)
    requires ValidConfig(c) && |s.stores| == c.servers
  {
    && (forall t, k :: t in s.writers && k in s.writers[t].prepared && k in s.writers[t].writes ==>
          GetByVersion(s.stores[Home(c, k)], k, t) == ItemOf(s.writers[t], t, k))
    && (forall i, t, j :: 0 <= i < c.servers && 0 <= j < |Versions(s.stores[i], t)| ==>
          VersionOk(c, s, i, t, Versions(s.stores[i], t)[j]))
    && (forall i, t :: 0 <= i < c.servers ==> DistinctKeys(Versions(s.stores[i], t)))
  }

  predicate DistinctKeys(versions: seq<Item>) {
    forall i, j :: 0 <= i < j < |versions| ==> versions[i].key != versions[j].key
  }

  predicate VersionOk(c: Config, s: State, server: nat, ts: Timestamp, item: Item)
    requires ValidConfig(c)
  {
    && ts in s.writers && item.key in s.writers[ts].prepared && item.key in s.writers[ts].writes
    && Home(c, item.key) == server && item == ItemOf(s.writers[ts], ts, item.key)
  }

  ghost predicate PublishedOk(s: State) {
    && (forall i, k :: 0 <= i < |s.stores| ==> GenuineTs(s, k, Latest(s.stores[i], k)))
    && (forall i, k :: 0 <= i < |s.stores| && k in s.stores[i].slots && s.stores[i].slots[k].Got? ==>
          SlotItemOk(s, k, s.stores[i].slots[k].item))
  }

  /** What a slot holds when nobody is overwriting it. */
  predicate SlotItemOk(s: State, key: Key, item: Item) {
    Genuine(s, key, item) && (item.ts == ZERO ==> item == InitialItem(key))
  }

  /** A key whose slot some prepare has marked has a slot, and never the initial item in it again. */
  ghost predicate MarkedOk(c: Config, s: State)
    requires ValidConfig(c) && |s.stores| == c.servers
  {
    forall t, k :: t in s.writers && k in s.writers[t].prepared && s.writers[t].prepared[k] != Stored ==>
      MarkedSlot(s.stores[Home(c, k)].slots, k)
  }

  predicate MarkedSlot(slots: map<Key, View<Item>>, key: Key) {
    key in slots && (slots[key].Got? ==> slots[key].item.ts != ZERO)
  }

  /** Whoever holds the mutex of a slot is copying the item that `changing` says, and vice versa. */
  ghost predicate ChangingOk(c: Config, s: State)
    requires ValidConfig(c) && |s.stores| == c.servers
  {
    && (forall k :: k in s.changing ==> Holder(c, s, k))
    && (forall t, h :: t in s.writers && 0 <= h < c.servers && Copies(s, t, h) ==>
          var item := JobItem(s.stores[h], t, s.writers[t], h); item.key in s.changing && s.changing[item.key] == item)
  }

  predicate Holder(c: Config, s: State, k: Key)
    requires ValidConfig(c) && |s.stores| == c.servers && k in s.changing
  {
    var t, h := s.changing[k].ts, Home(c, k);
    s.changing[k].key == k && t in s.writers && Copies(s, t, h) && JobItem(s.stores[h], t, s.writers[t], h) == s.changing[k]
  }

  /** The commit of `t` is inside a slot update on server `h`. */
  predicate Copies(s: State, t: Timestamp, h: nat)
    requires t in s.writers && h < |s.stores|
  {
    JobRuns(s.stores[h], t, s.writers[t], h) && s.writers[t].jobs[h].pc == Writing
  }

  ghost predicate Inv(c: Config, s: State)
    requires ValidConfig(c)
  {
    && |s.stores| == c.servers
    && WritersOk(s) && VersionsOk(c, s) && PublishedOk(s) && MarkedOk(c, s) && ChangingOk(c, s)
  }

  // ---- what one step of a writer does ------------------------------------------------------

  lemma WriterStepOk(c: Config, st: Store, ts: Timestamp, w: Writer, step: WriterStep)
    requires ValidConfig(c) && WriterEnabled(c, st, ts, w, step) && WriterOk(ts, w)
    ensures var w' := WriterAfter(c, st, ts, w, step);
            && WriterOk(ts, w') && w'.writes == w.writes
            && (w.phase != Preparing ==> w'.phase != Preparing)
            && (forall k :: k in w.prepared ==> k in w'.prepared)
  {
  }

  /** Versions only ever grow, by the step's own item. */
  lemma WriterStepVersions(c: Config, st: Store, ts: Timestamp, w: Writer, step: WriterStep, u: Timestamp)
    requires ValidConfig(c) && WriterEnabled(c, st, ts, w, step)
    ensures Versions(StoreAfter(c, st, ts, w, step), u)
         == if u == ts && step.StoreVersion? then Versions(st, u) + [ItemOf(w, ts, step.key)] else Versions(st, u)
    ensures step.StoreVersion? <==> WriterAfter(c, st, ts, w, step).prepared.Keys != w.prepared.Keys
    ensures step.StoreVersion? ==> WriterAfter(c, st, ts, w, step).prepared.Keys == w.prepared.Keys + {step.key}
  {
  }

  /** Only a running job changes what is committed or visible, and only to its own item. */
  lemma WriterStepPublishes(c: Config, st: Store, ts: Timestamp, w: Writer, step: WriterStep, k: Key)
    requires ValidConfig(c) && WriterEnabled(c, st, ts, w, step) && WriterOk(ts, w)
    requires forall j :: 0 <= j < |Versions(st, ts)| ==>
               Versions(st, ts)[j].key in w.writes && Versions(st, ts)[j] == ItemOf(w, ts, Versions(st, ts)[j].key)
    ensures var st' := StoreAfter(c, st, ts, w, step);
            && (Latest(st', k) == Latest(st, k) || (Latest(st', k) == ts && w.phase != Preparing && k in w.writes))
            && (k in st'.slots && st'.slots[k].Got? ==>
                  || (k in st.slots && st'.slots[k] == st.slots[k])
                  || (w.phase != Preparing && k in w.writes && st'.slots[k] == Got(ItemOf(w, ts, k))))
  {
  }

  // ---- preservation ----------------------------------------------------------------------

  /** Writers never change what they write and never take a publication back. */
  ghost predicate Grows(s: State, s': State) {
    forall t :: t in s.writers ==>
      && t in s'.writers && s'.writers[t].writes == s.writers[t].writes
      && (s.writers[t].phase != Preparing ==> s'.writers[t].phase != Preparing)
  }

  lemma GenuineGrows(s: State, s': State, key: Key, item: Item)
    requires Grows(s, s') && Genuine(s, key, item)
    ensures Genuine(s', key, item)
  {
  }

  lemma SlotItemGrows(s: State, s': State, key: Key, item: Item)
    requires Grows(s, s') && SlotItemOk(s, key, item)
    ensures SlotItemOk(s', key, item)
  {
    GenuineGrows(s, s', key, item);
  }

  lemma StepGrows(c: Config, s: State, a: Action)
    requires ValidConfig(c) && |s.stores| == c.servers && WritersOk(s) && Enabled(c, s, a)
    ensures WritersOk(Apply(c, s, a)) && Grows(s, Apply(c, s, a))
  {
    if a.Put? {
      WriterStepOk(c, s.stores[WriterServer(c, a.wstep)], a.ts, s.writers[a.ts], a.wstep);
    }
  }

  lemma VersionsAfterPut(c: Config, s: State, ts: Timestamp, step: WriterStep)
    requires ValidConfig(c) && Inv(c, s) && Enabled(c, s, Put(ts, step))
    ensures VersionsOk(c, Apply(c, s, Put(ts, step)))
  {
    var s', i, w := Apply(c, s, Put(ts, step)), WriterServer(c, step), s.writers[ts];
    WriterStepOk(c, s.stores[i], ts, w, step);
    forall t, k | t in s'.writers && k in s'.writers[t].prepared && k in s'.writers[t].writes
      ensures GetByVersion(s'.stores[Home(c, k)], k, t) == ItemOf(s'.writers[t], t, k)
    {
      FoundAfterPut(c, s, ts, step, t, k);
    }
    StoredAfterPut(c, s, ts, step);
    forall m, t | 0 <= m < c.servers
      ensures DistinctKeys(Versions(s'.stores[m], t))
    {
      DistinctAfterPut(c, s, ts, step, m, t);
    }
  }

  /** The version a StoreVersion step adds has a key that its timestamp did not have yet. */
  lemma NewKey(c: Config, s: State, ts: Timestamp, key: Key, j: nat)
    requires ValidConfig(c) && |s.stores| == c.servers && VersionsOk(c, s) && Enabled(c, s, Put(ts, StoreVersion(key)))
    requires j < |Versions(s.stores[Home(c, key)], ts)|
    ensures Versions(s.stores[Home(c, key)], ts)[j].key != key
  {
    assert VersionOk(c, s, Home(c, key), ts, Versions(s.stores[Home(c, key)], ts)[j]);
  }

  lemma FoundAfterPut(c: Config, s: State, ts: Timestamp, step: WriterStep, t: Timestamp, k: Key)
    requires ValidConfig(c) && |s.stores| == c.servers && VersionsOk(c, s) && WritersOk(s) && Enabled(c, s, Put(ts, step))
    requires var s' := Apply(c, s, Put(ts, step)); t in s'.writers && k in s'.writers[t].prepared && k in s'.writers[t].writes
    ensures var s' := Apply(c, s, Put(ts, step)); GetByVersion(s'.stores[Home(c, k)], k, t) == ItemOf(s'.writers[t], t, k)
  {
    var i, w := WriterServer(c, step), s.writers[ts];
    WriterStepOk(c, s.stores[i], ts, w, step);
    WriterStepVersions(c, s.stores[i], ts, w, step, t);
    if Home(c, k) == i && t == ts && step.StoreVersion? {
      FindAppend(Versions(s.stores[i], t), ItemOf(w, ts, step.key), k);
      if k == step.key {
        forall j | 0 <= j < |Versions(s.stores[i], t)|
          ensures Versions(s.stores[i], t)[j].key != k
        {
          NewKey(c, s, ts, k, j);
        }
      }
    }
  }

  lemma DistinctAfterPut(c: Config, s: State, ts: Timestamp, step: WriterStep, m: nat, t: Timestamp)
    requires ValidConfig(c) && |s.stores| == c.servers && VersionsOk(c, s) && Enabled(c, s, Put(ts, step)) && m < c.servers
    ensures DistinctKeys(Versions(Apply(c, s, Put(ts, step)).stores[m], t))
  {
    var i := WriterServer(c, step);
    WriterStepVersions(c, s.stores[i], ts, s.writers[ts], step, t);
    assert DistinctKeys(Versions(s.stores[m], t));
    if m == i && t == ts && step.StoreVersion? {
      forall j | 0 <= j < |Versions(s.stores[m], t)|
        ensures Versions(s.stores[m], t)[j].key != step.key
      {
        NewKey(c, s, ts, step.key, j);
      }
    }
  }

  lemma StoredAfterPut(c: Config, s: State, ts: Timestamp, step: WriterStep)
    requires ValidConfig(c) && |s.stores| == c.servers && WritersOk(s) && VersionsOk(c, s) && Enabled(c, s, Put(ts, step))
    ensures var s' := Apply(c, s, Put(ts, step));
            forall m, t, j :: 0 <= m < c.servers && 0 <= j < |Versions(s'.stores[m], t)| ==>
              VersionOk(c, s', m, t, Versions(s'.stores[m], t)[j])
  {
    var s' := Apply(c, s, Put(ts, step));
    forall m, t, j | 0 <= m < c.servers && 0 <= j < |Versions(s'.stores[m], t)|
      ensures VersionOk(c, s', m, t, Versions(s'.stores[m], t)[j])
    {
      VersionAfterPut(c, s, ts, step, m, t, j);
    }
  }

  lemma VersionAfterPut(c: Config, s: State, ts: Timestamp, step: WriterStep, m: nat, t: Timestamp, j: nat)
    requires ValidConfig(c) && |s.stores| == c.servers && WritersOk(s) && VersionsOk(c, s) && Enabled(c, s, Put(ts, step))
    requires m < c.servers && j < |Versions(Apply(c, s, Put(ts, step)).stores[m], t)|
    ensures var s' := Apply(c, s, Put(ts, step)); VersionOk(c, s', m, t, Versions(s'.stores[m], t)[j])
  {
    var i, w := WriterServer(c, step), s.writers[ts];
    WriterStepVersions(c, s.stores[i], ts, w, step, t);
    if j < |Versions(s.stores[m], t)| {
      VersionStaysOk(c, s, ts, step, m, t, Versions(s.stores[m], t)[j]);
    }
  }

  lemma VersionStaysOk(c: Config, s: State, ts: Timestamp, step: WriterStep, m: nat, t: Timestamp, item: Item)
    requires ValidConfig(c) && |s.stores| == c.servers && WritersOk(s) && Enabled(c, s, Put(ts, step)) && VersionOk(c, s, m, t, item)
    ensures VersionOk(c, Apply(c, s, Put(ts, step)), m, t, item)
  {
    WriterStepOk(c, s.stores[WriterServer(c, step)], ts, s.writers[ts], step);
  }

  lemma PublishedAfterPut(c: Config, s: State, ts: Timestamp, step: WriterStep)
    requires ValidConfig(c) && |s.stores| == c.servers && WritersOk(s) && VersionsOk(c, s) && PublishedOk(s)
    requires Enabled(c, s, Put(ts, step))
    ensures PublishedOk(Apply(c, s, Put(ts, step)))
  {
    var s', i, w := Apply(c, s, Put(ts, step)), WriterServer(c, step), s.writers[ts];
    var st := s.stores[i];
    StepGrows(c, s, Put(ts, step));
    forall j | 0 <= j < |Versions(st, ts)|
      ensures Versions(st, ts)[j].key in w.writes && Versions(st, ts)[j] == ItemOf(w, ts, Versions(st, ts)[j].key)
    {
      assert VersionOk(c, s, i, ts, Versions(st, ts)[j]);
    }
    forall m, k | 0 <= m < c.servers
      ensures GenuineTs(s', k, Latest(s'.stores[m], k))
      ensures k in s'.stores[m].slots && s'.stores[m].slots[k].Got? ==> SlotItemOk(s', k, s'.stores[m].slots[k].item)
    {
      WriterStepPublishes(c, st, ts, w, step, k);
      assert GenuineTs(s, k, Latest(s.stores[m], k)) && WriterOk(ts, w);
      if k in s.stores[m].slots && s.stores[m].slots[k].Got? {
        SlotItemGrows(s, s', k, s.stores[m].slots[k].item);
      }
    }
  }

  // ---- slots and their mutexes -----------------------------------------------------------------

  /** Slots stay, marking takes the item out, and a rewrite puts one of a real transaction in. */
  lemma MarkedStays(c: Config, st: Store, ts: Timestamp, w: Writer, step: WriterStep, k: Key)
    requires ValidConfig(c) && WriterEnabled(c, st, ts, w, step) && ZERO.Less(ts)
    requires step.StepJob? ==> JobItem(st, ts, w, step.server).ts == ts
    ensures MarkedSlot(st.slots, k) ==> MarkedSlot(StoreAfter(c, st, ts, w, step).slots, k)
    ensures step == MarkSlot(k) ==> MarkedSlot(StoreAfter(c, st, ts, w, step).slots, k)
  {
  }

  lemma MarkedAfterPut(c: Config, s: State, ts: Timestamp, step: WriterStep)
    requires ValidConfig(c) && |s.stores| == c.servers && WritersOk(s) && VersionsOk(c, s) && MarkedOk(c, s)
    requires Enabled(c, s, Put(ts, step))
    ensures MarkedOk(c, Apply(c, s, Put(ts, step)))
  {
    var s', i, w := Apply(c, s, Put(ts, step)), WriterServer(c, step), s.writers[ts];
    assert WriterOk(ts, w);
    if step.StepJob? {
      assert VersionOk(c, s, i, ts, JobItem(s.stores[i], ts, w, i));
    }
    forall t, k | t in s'.writers && k in s'.writers[t].prepared && s'.writers[t].prepared[k] != Stored
      ensures MarkedSlot(s'.stores[Home(c, k)].slots, k)
    {
      MarkedStays(c, s.stores[i], ts, w, step, k);
    }
  }

  /** Jobs of other writers, and of this one on other servers, copy what they copied before. */
  lemma OtherCopies(c: Config, s: State, ts: Timestamp, step: WriterStep, t: Timestamp, h: nat)
    requires ValidConfig(c) && |s.stores| == c.servers && WritersOk(s) && Enabled(c, s, Put(ts, step)) && t in s.writers && h < c.servers
    requires !(t == ts && step == StepJob(h))
    ensures var s' := Apply(c, s, Put(ts, step));
            && t in s'.writers && (Copies(s', t, h) <==> Copies(s, t, h))
            && (Copies(s, t, h) ==> JobItem(s'.stores[h], t, s'.writers[t], h) == JobItem(s.stores[h], t, s.writers[t], h))
  {
    WriterStepVersions(c, s.stores[WriterServer(c, step)], ts, s.writers[ts], step, t);
    assert WriterOk(ts, s.writers[ts]);
  }

  lemma ChangingAfterPut(c: Config, s: State, ts: Timestamp, step: WriterStep)
    requires ValidConfig(c) && Inv(c, s) && Enabled(c, s, Put(ts, step))
    ensures ChangingOk(c, Apply(c, s, Put(ts, step)))
  {
    var s' := Apply(c, s, Put(ts, step));
    forall k | k in s'.changing
      ensures Holder(c, s', k)
    {
      HolderAfterPut(c, s, ts, step, k);
    }
    forall t, h | t in s'.writers && 0 <= h < c.servers && Copies(s', t, h)
      ensures var item := JobItem(s'.stores[h], t, s'.writers[t], h); item.key in s'.changing && s'.changing[item.key] == item
    {
      CopierAfterPut(c, s, ts, step, t, h);
    }
  }

  lemma HolderAfterPut(c: Config, s: State, ts: Timestamp, step: WriterStep, k: Key)
    requires ValidConfig(c) && Inv(c, s) && Enabled(c, s, Put(ts, step)) && k in Apply(c, s, Put(ts, step)).changing
    ensures Holder(c, Apply(c, s, Put(ts, step)), k)
  {
    if k in s.changing && Apply(c, s, Put(ts, step)).changing[k] == s.changing[k] {
      HolderStays(c, s, ts, step, k);
    } else {
      NewlyChanging(c, s, ts, step, k);
      assert VersionOk(c, s, step.server, ts, JobItem(s.stores[step.server], ts, s.writers[ts], step.server));
      NewHolder(c, s, ts, step.server);
    }
  }

  lemma NewlyChanging(c: Config, s: State, ts: Timestamp, step: WriterStep, k: Key)
    requires ValidConfig(c) && |s.stores| == c.servers && Enabled(c, s, Put(ts, step))
    requires var s' := Apply(c, s, Put(ts, step)); k in s'.changing && !(k in s.changing && s'.changing[k] == s.changing[k])
    ensures step.StepJob? && s.writers[ts].jobs[step.server].pc == Rewrite
    ensures JobItem(s.stores[step.server], ts, s.writers[ts], step.server).key == k && k in s.stores[step.server].slots
  {
  }

  lemma HolderStays(c: Config, s: State, ts: Timestamp, step: WriterStep, k: Key)
    requires ValidConfig(c) && |s.stores| == c.servers && WritersOk(s) && Enabled(c, s, Put(ts, step))
    requires k in s.changing && Holder(c, s, k)
    requires var s' := Apply(c, s, Put(ts, step)); k in s'.changing && s'.changing[k] == s.changing[k]
    ensures Holder(c, Apply(c, s, Put(ts, step)), k)
  {
    OtherCopiesIfKept(c, s, ts, step, k);
    OtherCopies(c, s, ts, step, s.changing[k].ts, Home(c, k));
  }

  lemma OtherCopiesIfKept(c: Config, s: State, ts: Timestamp, step: WriterStep, k: Key)
    requires ValidConfig(c) && |s.stores| == c.servers && Enabled(c, s, Put(ts, step))
    requires k in s.changing && Holder(c, s, k) && k in Apply(c, s, Put(ts, step)).changing
    ensures !(s.changing[k].ts == ts && step == StepJob(Home(c, k)))
  {
  }

  /** Beginning the update of a slot keeps the job at its item. */
  lemma NewHolder(c: Config, s: State, ts: Timestamp, h: nat)
    requires ValidConfig(c) && |s.stores| == c.servers && Enabled(c, s, Put(ts, StepJob(h)))
    requires s.writers[ts].jobs[h].pc == Rewrite
    requires var item := JobItem(s.stores[h], ts, s.writers[ts], h); item.key in s.stores[h].slots && item.ts == ts && Home(c, item.key) == h
    ensures Holder(c, Apply(c, s, Put(ts, StepJob(h))), JobItem(s.stores[h], ts, s.writers[ts], h).key)
  {
  }

  lemma CopierAfterPut(c: Config, s: State, ts: Timestamp, step: WriterStep, t: Timestamp, h: nat)
    requires ValidConfig(c) && Inv(c, s) && Enabled(c, s, Put(ts, step)) && h < c.servers
    requires var s' := Apply(c, s, Put(ts, step)); t in s'.writers && Copies(s', t, h)
    ensures var s' := Apply(c, s, Put(ts, step));
            var item := JobItem(s'.stores[h], t, s'.writers[t], h); item.key in s'.changing && s'.changing[item.key] == item
  {
    if t == ts && step == StepJob(h) {
      NewCopier(c, s, ts, h);
    } else {
      OtherCopies(c, s, ts, step, t, h);
      var i, item := WriterServer(c, step), JobItem(s.stores[h], t, s.writers[t], h);
      assert VersionOk(c, s, h, t, item);
      if step.StepJob? {
        assert VersionOk(c, s, i, ts, JobItem(s.stores[i], ts, s.writers[ts], i));
        OthersKeepTheirs(c, s, ts, i, item);
      }
    }
  }

  lemma NewCopier(c: Config, s: State, ts: Timestamp, h: nat)
    requires ValidConfig(c) && |s.stores| == c.servers && Enabled(c, s, Put(ts, StepJob(h)))
    requires Copies(Apply(c, s, Put(ts, StepJob(h))), ts, h)
    ensures var s' := Apply(c, s, Put(ts, StepJob(h)));
            var item := JobItem(s'.stores[h], ts, s'.writers[ts], h); item.key in s'.changing && s'.changing[item.key] == item
  {
  }

  /** A job that ends its copy, or begins one, does not take another item's mutex. */
  lemma OthersKeepTheirs(c: Config, s: State, ts: Timestamp, i: nat, item: Item)
    requires ValidConfig(c) && |s.stores| == c.servers && Enabled(c, s, Put(ts, StepJob(i)))
    requires item.key in s.changing && s.changing[item.key] == item
    requires var own := JobItem(s.stores[i], ts, s.writers[ts], i);
             Copies(s, ts, i) ==> own.key in s.changing && s.changing[own.key] == own && own != item
    ensures var s' := Apply(c, s, Put(ts, StepJob(i))); item.key in s'.changing && s'.changing[item.key] == item
  {
  }

  // ---- steps that are not a writer's -----------------------------------------------------------

  /** Reading inserts zero timestamps and handing out slots adds initial items; neither matters. */
  predicate Harmless(st: Store, st': Store) {
    && st'.items == st.items
    && (forall k :: k in st.latest ==> k in st'.latest && st'.latest[k] == st.latest[k])
    && (forall k :: k in st'.latest && k !in st.latest ==> st'.latest[k] == ZERO)
    && (forall k :: k in st.slots ==> k in st'.slots && st'.slots[k] == st.slots[k])
    && (forall k :: k in st'.slots && k !in st.slots ==> st'.slots[k] == Got(InitialItem(k)))
  }

  /** Steps that leave versions, answers, mutexes and writers as they are, except for new writers. */
  ghost predicate Bystander(s: State, s': State) {
    && |s'.stores| == |s.stores| && s'.changing == s.changing
    && (forall m :: 0 <= m < |s.stores| ==> Harmless(s.stores[m], s'.stores[m]))
    && (forall t :: t in s.writers ==> t in s'.writers && s'.writers[t] == s.writers[t])
    && (forall t :: t in s'.writers && t !in s.writers ==>
          && ZERO.Less(t) && s'.writers[t].phase == Preparing && s'.writers[t].jobs == map[] && s'.writers[t].acks == {} && s'.writers[t].prepared == map[])
  }

  lemma BystanderSteps(c: Config, s: State, a: Action)
    requires ValidConfig(c) && |s.stores| == c.servers && Enabled(c, s, a) && !a.Put?
    ensures Bystander(s, Apply(c, s, a))
  {
    var s' := Apply(c, s, a);
    forall m | 0 <= m < |s.stores|
      ensures Harmless(s.stores[m], s'.stores[m])
    {
      HarmlessStep(c, s, a, m);
    }
  }

  lemma HarmlessStep(c: Config, s: State, a: Action, m: nat)
    requires ValidConfig(c) && |s.stores| == c.servers && Enabled(c, s, a) && !a.Put? && m < |s.stores|
    ensures Harmless(s.stores[m], Apply(c, s, a).stores[m])
  {
  }

  /** While an item is being copied into a slot, no writer marks or overwrites the slot. */
  lemma CopyKeepsWriters(c: Config, st: Store, changing: map<Key, Item>, t: Timestamp, w: Writer, step: WriterStep, k: Key)
    requires ValidConfig(c) && WriterEnabled(c, st, t, w, step) && MutexFree(st, changing, t, w, step)
    requires k in changing && k in ChangingAfter(c, st, changing, t, w, step) && k in st.slots
    ensures ChangingAfter(c, st, changing, t, w, step)[k] == changing[k]
    ensures k in StoreAfter(c, st, t, w, step).slots && StoreAfter(c, st, t, w, step).slots[k] == st.slots[k]
  {
  }

  /** Nor does anybody else. */
  lemma CopyIsAlone(c: Config, s: State, a: Action, k: Key)
    requires ValidConfig(c) && |s.stores| == c.servers && Enabled(c, s, a)
    requires k in s.changing && k in Apply(c, s, a).changing && k in s.stores[Home(c, k)].slots
    ensures Apply(c, s, a).changing[k] == s.changing[k]
    ensures k in Apply(c, s, a).stores[Home(c, k)].slots && Apply(c, s, a).stores[Home(c, k)].slots[k] == s.stores[Home(c, k)].slots[k]
  {
    if a.Put? {
      var i := WriterServer(c, a.wstep);
      if k in s.stores[i].slots {
        CopyKeepsWriters(c, s.stores[i], s.changing, a.ts, s.writers[a.ts], a.wstep, k);
      }
    } else {
      HarmlessStep(c, s, a, Home(c, k));
    }
  }

  lemma BystanderVersions(c: Config, s: State, s': State)
    requires ValidConfig(c) && |s.stores| == c.servers && VersionsOk(c, s) && Bystander(s, s')
    ensures VersionsOk(c, s')
  {
    forall m, t | 0 <= m < c.servers
      ensures Versions(s'.stores[m], t) == Versions(s.stores[m], t)
    {
      assert Harmless(s.stores[m], s'.stores[m]);
    }
    forall m, t, j | 0 <= m < c.servers && 0 <= j < |Versions(s'.stores[m], t)|
      ensures VersionOk(c, s', m, t, Versions(s'.stores[m], t)[j])
    {
      assert VersionOk(c, s, m, t, Versions(s.stores[m], t)[j]);
    }
  }

  lemma BystanderWriters(c: Config, s: State, s': State)
    requires ValidConfig(c) && |s.stores| == c.servers && WritersOk(s) && MarkedOk(c, s) && Bystander(s, s')
    ensures WritersOk(s') && MarkedOk(c, s') && Grows(s, s')
  {
    forall t | t in s'.writers
      ensures WriterOk(t, s'.writers[t])
    {
      assert t in s.writers ==> WriterOk(t, s.writers[t]);
    }
    forall t, k | t in s'.writers && k in s'.writers[t].prepared && s'.writers[t].prepared[k] != Stored
      ensures MarkedSlot(s'.stores[Home(c, k)].slots, k)
    {
      assert Harmless(s.stores[Home(c, k)], s'.stores[Home(c, k)]) && MarkedSlot(s.stores[Home(c, k)].slots, k);
    }
  }

  lemma BystanderPublished(c: Config, s: State, s': State)
    requires ValidConfig(c) && |s.stores| == c.servers && PublishedOk(s) && Bystander(s, s') && Grows(s, s')
    ensures PublishedOk(s')
  {
    forall m, k | 0 <= m < c.servers
      ensures GenuineTs(s', k, Latest(s'.stores[m], k))
      ensures k in s'.stores[m].slots && s'.stores[m].slots[k].Got? ==> SlotItemOk(s', k, s'.stores[m].slots[k].item)
    {
      assert Harmless(s.stores[m], s'.stores[m]) && GenuineTs(s, k, Latest(s.stores[m], k));
      if k in s.stores[m].slots && s.stores[m].slots[k].Got? {
        SlotItemGrows(s, s', k, s.stores[m].slots[k].item);
      }
    }
  }

  lemma SameCopies(s: State, s': State, t: Timestamp, h: nat)
    requires Bystander(s, s') && t in s.writers && h < |s.stores|
    ensures Copies(s', t, h) <==> Copies(s, t, h)
    ensures Copies(s, t, h) ==> JobItem(s'.stores[h], t, s'.writers[t], h) == JobItem(s.stores[h], t, s.writers[t], h)
  {
    assert Harmless(s.stores[h], s'.stores[h]);
  }

  lemma BystanderChanging(c: Config, s: State, s': State)
    requires ValidConfig(c) && |s.stores| == c.servers && ChangingOk(c, s) && Bystander(s, s')
    ensures ChangingOk(c, s')
  {
    forall k | k in s'.changing
      ensures Holder(c, s', k)
    {
      assert Holder(c, s, k);
      SameCopies(s, s', s.changing[k].ts, Home(c, k));
    }
    forall t, h | t in s'.writers && 0 <= h < c.servers && Copies(s', t, h)
      ensures var item := JobItem(s'.stores[h], t, s'.writers[t], h); item.key in s'.changing && s'.changing[item.key] == item
    {
      SameCopies(s, s', t, h);
    }
  }

  /** The invariant survives every step of every client and server, torn reads or not. */
  lemma InvStep(c: Config, s: State, a: Action)
    requires ValidConfig(c) && Inv(c, s) && Enabled(c, s, a)
    ensures Inv(c, Apply(c, s, a)) && Grows(s, Apply(c, s, a))
  {
    var s' := Apply(c, s, a);
    if a.Put? {
      StepGrows(c, s, a);
      VersionsAfterPut(c, s, a.ts, a.wstep);
      PublishedAfterPut(c, s, a.ts, a.wstep);
      MarkedAfterPut(c, s, a.ts, a.wstep);
      ChangingAfterPut(c, s, a.ts, a.wstep);
    } else {
      BystanderSteps(c, s, a);
      BystanderVersions(c, s, s');
      BystanderWriters(c, s, s');
      BystanderPublished(c, s, s');
      BystanderChanging(c, s, s');
    }
  }

  lemma {:induction false} InvAlong(c: Config, run: seq<State>, i: nat)
    requires ValidConfig(c) && IsRun(c, run) && i < |run|
    ensures Inv(c, run[i])
  {
    if i > 0 {
      InvAlong(c, run, i - 1);
      assert Next(c, run[i - 1], run[i - 1 + 1]);
      var a :| Enabled(c, run[i - 1], a) && run[i] == Apply(c, run[i - 1], a);
      InvStep(c, run[i - 1], a);
    }
  }

  lemma StepAt(c: Config, run: seq<State>, i: nat) returns (a: Action)
    requires ValidConfig(c) && IsRun(c, run) && 0 < i < |run|
    ensures Inv(c, run[i - 1]) && Enabled(c, run[i - 1], a) && run[i] == Apply(c, run[i - 1], a)
  {
    InvAlong(c, run, i - 1);
    assert Next(c, run[i - 1], run[i - 1 + 1]);
    a :| Enabled(c, run[i - 1], a) && run[i] == Apply(c, run[i - 1], a);
  }

  // ---- what there is to read -----------------------------------------------------------------

  lemma OldAndNewAreGenuine(c: Config, s: State, k: Key)
    requires ValidConfig(c) && Inv(c, s)
    ensures k in s.changing ==> Genuine(s, k, s.changing[k])
    ensures var slots := s.stores[Home(c, k)].slots; k in slots && slots[k].Got? ==> Genuine(s, k, slots[k].item)
  {
    if k in s.changing {
      ChangingIsGenuine(c, s, k);
    }
    assert k in s.stores[Home(c, k)].slots && s.stores[Home(c, k)].slots[k].Got? ==>
             SlotItemOk(s, k, s.stores[Home(c, k)].slots[k].item);
  }

  /** What is being copied into a slot is what its transaction wrote, and all of that is prepared. */
  lemma ChangingIsGenuine(c: Config, s: State, k: Key)
    requires ValidConfig(c) && Inv(c, s) && k in s.changing
    ensures Genuine(s, k, s.changing[k]) && ZERO.Less(s.changing[k].ts) && MarkedSlot(s.stores[Home(c, k)].slots, k)
    ensures s.changing[k].ts in s.writers && k in s.writers[s.changing[k].ts].writes
  {
    assert Holder(c, s, k);
    var t := s.changing[k].ts;
    assert VersionOk(c, s, Home(c, k), t, s.changing[k]) && WriterOk(t, s.writers[t]);
  }

  /** No version is ever stored under the zero timestamp. */
  lemma GenuineVersion(c: Config, s: State, key: Key, ts: Timestamp)
    requires ValidConfig(c) && |s.stores| == c.servers && WritersOk(s) && VersionsOk(c, s) && GenuineTs(s, key, ts)
    ensures var item := GetByVersion(s.stores[Home(c, key)], key, ts);
            Genuine(s, key, item) && item.ts == ts && (ts == ZERO ==> item == EMPTY_ITEM)
  {
    var versions := Versions(s.stores[Home(c, key)], ts);
    assert |versions| > 0 ==> VersionOk(c, s, Home(c, key), ts, versions[0]);
    assert ts in s.writers ==> WriterOk(ts, s.writers[ts]);
  }

  /** Whatever is committed anywhere has been prepared everywhere its transaction wrote. */
  lemma PreparedBeforeCommitted(c: Config, run: seq<State>, i: nat, server: nat, key: Key, sibling: Key)
    requires ValidConfig(c) && IsRun(c, run) && i < |run|
    requires server < |run[i].stores| && Latest(run[i].stores[server], key) != ZERO
    ensures |run[i].stores| == c.servers && Latest(run[i].stores[server], key) in run[i].writers
    ensures var ts := Latest(run[i].stores[server], key);
            var w := run[i].writers[ts];
            && key in w.writes
            && (sibling in w.writes ==>
                  GetByVersion(run[i].stores[Home(c, sibling)], sibling, ts) == ItemOf(w, ts, sibling))
  {
    InvAlong(c, run, i);
    var s, ts := run[i], Latest(run[i].stores[server], key);
    assert GenuineTs(s, key, ts);
    assert WriterOk(ts, s.writers[ts]);
  }
}
