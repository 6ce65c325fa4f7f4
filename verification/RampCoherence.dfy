/**
 While the commits of one key do not overtake each other, slots agree with the table, and nothing
 on show is older than a finished write. Servers that commit the versions of one key one at a time
 are always in that situation; without that, neither need hold: see `RampRaces`.
 */
module RampCoherence {
  import opened Data
  import opened Slot
  import opened Store
  import opened Ramp
  import opened RampSafety

  // ---- one key as its committers see it ----------------------------------------------------

  /** Where the commit of `ts` is with this key; `Check` also when it is busy with another key. */
  function PcAt(st: Store, ts: Timestamp, w: Writer, server: nat, key: Key): Pc {
    if Amid(st, ts, w, server, key) then w.jobs[server].pc else Check
  }

  /** The commit of `ts` has set the key's latest version, and not finished with its slot. */
  predicate Publishing(st: Store, ts: Timestamp, w: Writer, server: nat, key: Key) {
    PcAt(st, ts, w, server, key) == Rewrite || PcAt(st, ts, w, server, key) == Writing
  }

  /** The commit of `ts` has dealt with this key. */
  ghost predicate Passed(st: Store, ts: Timestamp, w: Writer, server: nat, key: Key) {
    server in w.jobs && exists j :: 0 <= j < w.jobs[server].i && j < |Versions(st, ts)| && Versions(st, ts)[j].key == key
  }

  predicate Visible(st: Store, key: Key) {
    key in st.slots && st.slots[key].Got?
  }

  /** A valid slot holds what the table would answer; a key never committed shows its initial item. */
  ghost predicate Coherent(st: Store, key: Key) {
    Visible(st, key) ==>
      && st.slots[key].item.ts == Latest(st, key)
      && st.slots[key].item == if Latest(st, key) == ZERO then InitialItem(key) else GetLatest(st, key)
  }

  /** Nothing a reader can get of this key is older than a commit that has dealt with it. */
  predicate AtLeast(s: State, server: nat, key: Key, ts: Timestamp)
    requires server < |s.stores|
  {
    var st := s.stores[server];
    && !Latest(st, key).Less(ts)
    && (Visible(st, key) ==> !st.slots[key].item.ts.Less(ts))
    && (key in s.changing ==> !s.changing[key].ts.Less(ts))
  }

  ghost predicate KeyOk(s: State, server: nat, key: Key)
    requires server < |s.stores|
  {
    var st := s.stores[server];
    && (forall t :: t in s.writers && Passed(st, t, s.writers[t], server, key) ==> AtLeast(s, server, key, t))
    && (Visible(st, key) ==>
          var at := st.slots[key].item.ts;
          && !Latest(st, key).Less(at)
          && (at == Latest(st, key)
              || (Latest(st, key) in s.writers && Publishing(st, Latest(st, key), s.writers[Latest(st, key)], server, key))))
  }

  /** Jobs stay within their batches, and acknowledgements mean what they say; `lens` are batch sizes. */
  ghost predicate JobsFit(c: Config, w: Writer, lens: seq<nat>)
    requires ValidConfig(c) && |lens| == c.servers
  {
    && (forall i :: i in w.jobs ==>
          && i < c.servers && w.jobs[i].i <= lens[i] && (w.jobs[i].pc != Check ==> w.jobs[i].i < lens[i]))
    && (forall i :: i in w.acks ==> i in w.jobs && w.jobs[i].i == lens[i])
    && (w.phase == Returned ==> forall i :: 0 <= i < c.servers && Touches(c, w, i) ==> i in w.acks)
  }

  function Batches(s: State, ts: Timestamp): (lens: seq<nat>)
    ensures |lens| == |s.stores|
  {
    seq(|s.stores|, i requires 0 <= i < |s.stores| => |Versions(s.stores[i], ts)|)
  }

  ghost predicate JobsOk(c: Config, s: State, ts: Timestamp)
    requires ValidConfig(c) && |s.stores| == c.servers && ts in s.writers
  {
    JobsFit(c, s.writers[ts], Batches(s, ts))
  }

  ghost predicate SlotsInv(c: Config, s: State)
    requires ValidConfig(c)
  {
    && Inv(c, s)
    && (forall t :: t in s.writers ==> JobsOk(c, s, t))
    && (forall k :: KeyOk(s, Home(c, k), k))
  }

  // ---- commits that do not overtake each other ----------------------------------------------

  /**
   What a commit step finds: a version that is passed over finds nothing older on show; setting
   still finds an older latest version, as the check did; and both ends of a slot update still
   find their own version to be the latest.
   */
  predicate OrderlyJob(s: State, ts: Timestamp, h: nat)
    requires h < |s.stores| && ts in s.writers && JobRuns(s.stores[h], ts, s.writers[ts], h)
  {
    var st := s.stores[h];
    var k := JobItem(st, ts, s.writers[ts], h).key;
    match s.writers[ts].jobs[h].pc
    case Check => !Latest(st, k).Less(ts) ==> k !in s.changing && (Visible(st, k) ==> !st.slots[k].item.ts.Less(ts))
    case Set => Latest(st, k).Less(ts)
    case Rewrite => Latest(st, k) == ts
    case Writing => Latest(st, k) == ts
  }

  ghost predicate Orderly(c: Config, s: State, a: Action)
    requires ValidConfig(c) && |s.stores| == c.servers && Enabled(c, s, a)
  {
    a.Put? && a.wstep.StepJob? ==> OrderlyJob(s, a.ts, a.wstep.server)
  }

  ghost predicate NextOrderly(c: Config, s: State, s': State)
    requires ValidConfig(c)
  {
    |s.stores| == c.servers && exists a :: Enabled(c, s, a) && Orderly(c, s, a) && s' == Apply(c, s, a)
  }

  ghost predicate IsOrderly(c: Config, run: seq<State>)
    requires ValidConfig(c)
  {
    forall i :: 0 <= i < |run| - 1 ==> NextOrderly(c, run[i], run[i + 1])
  }

  // ---- steps that leave a key alone --------------------------------------------------------

  /** The committers of a key stand where they stood, and no new value shows. */
  ghost predicate KeyKept(s: State, s': State, server: nat, key: Key)
    requires server < |s.stores| && server < |s'.stores|
  {
    var st, st' := s.stores[server], s'.stores[server];
    && Latest(st', key) == Latest(st, key)
    && (Visible(st', key) ==> Visible(st, key) && st'.slots[key] == st.slots[key])
    && (key in s'.changing ==> key in s.changing && s'.changing[key] == s.changing[key])
    && (forall t :: t in s.writers ==> t in s'.writers && PcAt(st', t, s'.writers[t], server, key) == PcAt(st, t, s.writers[t], server, key))
    && (forall t :: t in s'.writers && Passed(st', t, s'.writers[t], server, key) ==>
          t in s.writers && Passed(st, t, s.writers[t], server, key))
  }

  lemma KeptStaysOk(s: State, s': State, server: nat, key: Key)
    requires server < |s.stores| && server < |s'.stores|
    requires KeyOk(s, server, key) && KeyKept(s, s', server, key)
    ensures KeyOk(s', server, key)
  {
  }

  /** This step commits `key`. */
  predicate Commits(c: Config, s: State, ts: Timestamp, step: WriterStep, key: Key)
    requires ts in s.writers
  {
    && step.StepJob? && step.server < |s.stores|
    && JobRuns(s.stores[step.server], ts, s.writers[ts], step.server)
    && JobItem(s.stores[step.server], ts, s.writers[ts], step.server).key == key
  }

  /** The latest version of a key moves only when that key is committed. */
  lemma LatestKept(c: Config, s: State, ts: Timestamp, step: WriterStep, k: Key)
    requires ValidConfig(c) && |s.stores| == c.servers && Enabled(c, s, Put(ts, step)) && !Commits(c, s, ts, step, k)
    ensures Latest(Apply(c, s, Put(ts, step)).stores[Home(c, k)], k) == Latest(s.stores[Home(c, k)], k)
  {
  }

  lemma ChangingKept(c: Config, s: State, ts: Timestamp, step: WriterStep, k: Key)
    requires ValidConfig(c) && |s.stores| == c.servers && Enabled(c, s, Put(ts, step)) && !Commits(c, s, ts, step, k)
    ensures var s' := Apply(c, s, Put(ts, step));
            k in s'.changing ==> k in s.changing && s'.changing[k] == s.changing[k]
  {
  }

  lemma KeptByPut(c: Config, s: State, ts: Timestamp, step: WriterStep, k: Key)
    requires ValidConfig(c) && |s.stores| == c.servers && WritersOk(s) && Enabled(c, s, Put(ts, step))
    requires !Commits(c, s, ts, step, k) && JobsOk(c, s, ts)
    ensures KeyKept(s, Apply(c, s, Put(ts, step)), Home(c, k), k)
  {
    var s', h := Apply(c, s, Put(ts, step)), Home(c, k);
    LatestKept(c, s, ts, step, k);
    ChangingKept(c, s, ts, step, k);
    ShowsKept(c, s, ts, step, k);
    forall t | t in s.writers
      ensures PcAt(s'.stores[h], t, s'.writers[t], h, k) == PcAt(s.stores[h], t, s.writers[t], h, k)
      ensures Passed(s'.stores[h], t, s'.writers[t], h, k) ==> Passed(s.stores[h], t, s.writers[t], h, k)
    {
      CommittersKept(c, s, ts, step, k, t);
    }
  }

  lemma ShowsKept(c: Config, s: State, ts: Timestamp, step: WriterStep, k: Key)
    requires ValidConfig(c) && |s.stores| == c.servers && WritersOk(s) && Enabled(c, s, Put(ts, step)) && !Commits(c, s, ts, step, k)
    ensures var st, st' := s.stores[Home(c, k)], Apply(c, s, Put(ts, step)).stores[Home(c, k)];
            Visible(st', k) ==> Visible(st, k) && st'.slots[k] == st.slots[k]
  {
  }

  lemma CommittersKept(c: Config, s: State, ts: Timestamp, step: WriterStep, k: Key, t: Timestamp)
    requires ValidConfig(c) && |s.stores| == c.servers && WritersOk(s) && Enabled(c, s, Put(ts, step)) && !Commits(c, s, ts, step, k)
    requires JobsOk(c, s, ts) && t in s.writers
    ensures var s', h := Apply(c, s, Put(ts, step)), Home(c, k);
            && PcAt(s'.stores[h], t, s'.writers[t], h, k) == PcAt(s.stores[h], t, s.writers[t], h, k)
            && (Passed(s'.stores[h], t, s'.writers[t], h, k) ==> Passed(s.stores[h], t, s.writers[t], h, k))
  {
    var s', h, i := Apply(c, s, Put(ts, step)), Home(c, k), WriterServer(c, step);
    WriterStepVersions(c, s.stores[i], ts, s.writers[ts], step, t);
    assert WriterOk(ts, s.writers[ts]);
    if step.StoreVersion? && t == ts {
      assert s.writers[ts].jobs == map[] == s'.writers[ts].jobs;
    } else {
      assert Versions(s'.stores[h], t) == Versions(s.stores[h], t);
      if t == ts {
        OwnCommitKept(c, s.stores[i], ts, s.writers[ts], step, s.stores[h], s'.stores[h], h, k);
      }
    }
  }

  /** `at` and `at'` are the store of server `h` before and after; `st` is where the step happens. */
  lemma OwnCommitKept(c: Config, st: Store, ts: Timestamp, w: Writer, step: WriterStep, at: Store, at': Store, h: nat, k: Key)
    requires ValidConfig(c) && WriterEnabled(c, st, ts, w, step) && !step.StoreVersion?
    requires Versions(at', ts) == Versions(at, ts)
    requires step.StepJob? && step.server == h ==> at == st && JobItem(st, ts, w, h).key != k
    ensures var w' := WriterAfter(c, st, ts, w, step);
            && PcAt(at', ts, w', h, k) == PcAt(at, ts, w, h, k)
            && (Passed(at', ts, w', h, k) ==> Passed(at, ts, w, h, k))
  {
    var w' := WriterAfter(c, st, ts, w, step);
    if step.StepJob? && step.server == h {
    } else {
      assert h in w.jobs ==> h in w'.jobs && w'.jobs[h] == w.jobs[h];
      assert h in w'.jobs && h !in w.jobs ==> w'.jobs[h] == Job(0, Check);
    }
  }

  // ---- the step that commits a key ---------------------------------------------------------

  /** Other writers' commits stand still while this one moves. */
  lemma OthersStand(c: Config, s: State, ts: Timestamp, server: nat, k: Key, t: Timestamp)
    requires ValidConfig(c) && |s.stores| == c.servers && Enabled(c, s, Put(ts, StepJob(server)))
    requires t in s.writers && t != ts
    ensures var s' := Apply(c, s, Put(ts, StepJob(server)));
            && t in s'.writers
            && PcAt(s'.stores[server], t, s'.writers[t], server, k) == PcAt(s.stores[server], t, s.writers[t], server, k)
            && (Passed(s'.stores[server], t, s'.writers[t], server, k) <==> Passed(s.stores[server], t, s.writers[t], server, k))
  {
    WriterStepVersions(c, s.stores[server], ts, s.writers[ts], StepJob(server), t);
    assert Versions(Apply(c, s, Put(ts, StepJob(server))).stores[server], t) == Versions(s.stores[server], t);
  }

  /** How one micro-step moves the commit of its own key. */
  lemma JobMoves(c: Config, st: Store, ts: Timestamp, w: Writer, server: nat)
    requires ValidConfig(c) && JobRuns(st, ts, w, server) && JobItem(st, ts, w, server).key in st.slots
    ensures var st', w', k := StoreAfter(c, st, ts, w, StepJob(server)), WriterAfter(c, st, ts, w, StepJob(server)), JobItem(st, ts, w, server).key;
            && PcAt(st, ts, w, server, k) == w.jobs[server].pc
            && PcAt(st', ts, w', server, k)
               == (match w.jobs[server].pc
                   case Check => if Latest(st, k).Less(ts) then Set else Check
                   case Set => Rewrite
                   case Rewrite => Writing
                   case Writing => Check)
            && (PcAt(st', ts, w', server, k) != Check && Passed(st', ts, w', server, k) ==> Passed(st, ts, w, server, k))
  {
  }

  /** Everyone but the committer `ts` stands still. */
  ghost predicate OnlyMoves(s: State, s': State, server: nat, k: Key, ts: Timestamp)
    requires server < |s.stores| && server < |s'.stores|
  {
    && s'.writers.Keys == s.writers.Keys && ts in s.writers
    && (forall t :: t in s.writers && t != ts ==>
          && PcAt(s'.stores[server], t, s'.writers[t], server, k) == PcAt(s.stores[server], t, s.writers[t], server, k)
          && (Passed(s'.stores[server], t, s'.writers[t], server, k) ==> Passed(s.stores[server], t, s.writers[t], server, k)))
  }

  lemma CommitterMoves(c: Config, s: State, ts: Timestamp, server: nat, k: Key)
    requires ValidConfig(c) && |s.stores| == c.servers && Enabled(c, s, Put(ts, StepJob(server)))
    ensures OnlyMoves(s, Apply(c, s, Put(ts, StepJob(server))), server, k, ts)
  {
    forall t | t in s.writers && t != ts
      ensures var s' := Apply(c, s, Put(ts, StepJob(server)));
              && PcAt(s'.stores[server], t, s'.writers[t], server, k) == PcAt(s.stores[server], t, s.writers[t], server, k)
              && (Passed(s'.stores[server], t, s'.writers[t], server, k) ==> Passed(s.stores[server], t, s.writers[t], server, k))
    {
      OthersStand(c, s, ts, server, k, t);
    }
  }

  lemma KeyAfterCheck(s: State, s': State, server: nat, k: Key, ts: Timestamp)
    requires server < |s.stores| && server < |s'.stores| && OnlyMoves(s, s', server, k, ts) && KeyOk(s, server, k)
    requires var st, st' := s.stores[server], s'.stores[server];
             && Latest(st', k) == Latest(st, k) && st'.slots == st.slots && s'.changing == s.changing
             && !Publishing(st, ts, s.writers[ts], server, k)
             && (Passed(st', ts, s'.writers[ts], server, k) ==> Passed(st, ts, s.writers[ts], server, k) || AtLeast(s, server, k, ts))
    ensures KeyOk(s', server, k)
  {
  }

  lemma KeyAfterSet(s: State, s': State, server: nat, k: Key, ts: Timestamp)
    requires server < |s.stores| && server < |s'.stores| && OnlyMoves(s, s', server, k, ts) && KeyOk(s, server, k)
    requires var st, st' := s.stores[server], s'.stores[server];
             && Latest(st, k).Less(ts) && Latest(st', k) == ts && st'.slots == st.slots && s'.changing == s.changing
             && Publishing(st', ts, s'.writers[ts], server, k)
             && (Passed(st', ts, s'.writers[ts], server, k) ==> Passed(st, ts, s.writers[ts], server, k))
    ensures KeyOk(s', server, k)
  {
  }

  lemma KeyAfterBegin(s: State, s': State, server: nat, k: Key, ts: Timestamp)
    requires server < |s.stores| && server < |s'.stores| && OnlyMoves(s, s', server, k, ts) && KeyOk(s, server, k)
    requires var st, st' := s.stores[server], s'.stores[server];
             && Latest(st', k) == Latest(st, k) == ts && st'.slots == st.slots
             && k in s'.changing && s'.changing[k].ts == ts
             && Publishing(st', ts, s'.writers[ts], server, k)
             && (Passed(st', ts, s'.writers[ts], server, k) ==> Passed(st, ts, s.writers[ts], server, k))
    ensures KeyOk(s', server, k)
  {
  }

  lemma KeyAfterEnd(s: State, s': State, server: nat, k: Key, ts: Timestamp)
    requires server < |s.stores| && server < |s'.stores| && OnlyMoves(s, s', server, k, ts) && KeyOk(s, server, k)
    requires var st, st' := s.stores[server], s'.stores[server];
             && Latest(st', k) == Latest(st, k) == ts && Visible(st', k) && st'.slots[k].item.ts == ts && k !in s'.changing
    ensures KeyOk(s', server, k)
  {
  }

  lemma CommitKeepsKey(c: Config, s: State, ts: Timestamp, h: nat, k: Key)
    requires ValidConfig(c) && |s.stores| == c.servers && Enabled(c, s, Put(ts, StepJob(h))) && OrderlyJob(s, ts, h)
    requires KeyOk(s, h, k) && k in s.stores[h].slots
    requires JobItem(s.stores[h], ts, s.writers[ts], h).key == k && JobItem(s.stores[h], ts, s.writers[ts], h).ts == ts
    ensures KeyOk(Apply(c, s, Put(ts, StepJob(h))), h, k)
  {
    var s', pc := Apply(c, s, Put(ts, StepJob(h))), s.writers[ts].jobs[h].pc;
    CommitterMoves(c, s, ts, h, k);
    JobMoves(c, s.stores[h], ts, s.writers[ts], h);
    if pc == Check {
      KeyAfterCheck(s, s', h, k, ts);
    } else if pc == Set {
      KeyAfterSet(s, s', h, k, ts);
    } else if pc == Rewrite {
      KeyAfterBegin(s, s', h, k, ts);
    } else {
      KeyAfterEnd(s, s', h, k, ts);
    }
  }

  /** Whoever commits a key has marked its slot before, and commits its own item. */
  lemma CommitsOwnItem(c: Config, s: State, ts: Timestamp, h: nat)
    requires ValidConfig(c) && Inv(c, s) && h < c.servers && ts in s.writers && JobRuns(s.stores[h], ts, s.writers[ts], h)
    ensures var item := JobItem(s.stores[h], ts, s.writers[ts], h);
            && item.ts == ts && Home(c, item.key) == h && item.key in s.stores[h].slots
            && item.key in s.writers[ts].writes && item == ItemOf(s.writers[ts], ts, item.key)
  {
    var item := JobItem(s.stores[h], ts, s.writers[ts], h);
    assert VersionOk(c, s, h, ts, item) && WriterOk(ts, s.writers[ts]);
    assert MarkedSlot(s.stores[Home(c, item.key)].slots, item.key);
  }

  // ---- jobs -------------------------------------------------------------------------------

  lemma JobsAfterPut(c: Config, s: State, ts: Timestamp, step: WriterStep, t: Timestamp)
    requires ValidConfig(c) && |s.stores| == c.servers && WritersOk(s) && Enabled(c, s, Put(ts, step)) && t in s.writers
    requires JobsOk(c, s, t)
    ensures JobsOk(c, Apply(c, s, Put(ts, step)), t)
  {
    var s', i := Apply(c, s, Put(ts, step)), WriterServer(c, step);
    if t == ts && step.StoreVersion? {
      assert WriterOk(ts, s.writers[ts]);
    } else {
      BatchesAfterPut(c, s, ts, step, t);
      if t == ts {
        JobsFitAfter(c, s.stores[i], ts, s.writers[ts], step, Batches(s, ts));
      }
    }
  }

  lemma BatchesAfterPut(c: Config, s: State, ts: Timestamp, step: WriterStep, t: Timestamp)
    requires ValidConfig(c) && |s.stores| == c.servers && Enabled(c, s, Put(ts, step))
    requires t != ts || !step.StoreVersion?
    ensures Batches(Apply(c, s, Put(ts, step)), t) == Batches(s, t)
  {
    WriterStepVersions(c, s.stores[WriterServer(c, step)], ts, s.writers[ts], step, t);
  }

  lemma JobsFitAfter(c: Config, st: Store, ts: Timestamp, w: Writer, step: WriterStep, lens: seq<nat>)
    requires ValidConfig(c) && |lens| == c.servers && WriterServer(c, step) < c.servers
    requires WriterEnabled(c, st, ts, w, step) && !step.StoreVersion?
    requires lens[WriterServer(c, step)] == |Versions(st, ts)| && WriterOk(ts, w) && JobsFit(c, w, lens)
    ensures JobsFit(c, WriterAfter(c, st, ts, w, step), lens)
  {
  }

  /** A finished write has been through every key it wrote. */
  lemma ReturnedHasPassed(c: Config, s: State, ts: Timestamp, k: Key)
    requires ValidConfig(c) && Inv(c, s) && ts in s.writers && JobsOk(c, s, ts)
    requires s.writers[ts].phase == Returned && k in s.writers[ts].writes
    ensures Passed(s.stores[Home(c, k)], ts, s.writers[ts], Home(c, k), k)
  {
    var h := Home(c, k);
    assert WriterOk(ts, s.writers[ts]);
    assert Touches(c, s.writers[ts], h);
    assert GetByVersion(s.stores[h], k, ts) == ItemOf(s.writers[ts], ts, k);
    var j := FindIsThere(Versions(s.stores[h], ts), k);
  }

  // ---- the other steps ---------------------------------------------------------------------

  lemma KeptByBystander(c: Config, s: State, s': State, k: Key)
    requires ValidConfig(c) && SlotsInv(c, s) && Bystander(s, s')
    ensures KeyOk(s', Home(c, k), k)
  {
    var h := Home(c, k);
    assert Harmless(s.stores[h], s'.stores[h]) && KeyOk(s, h, k);
    if k in s'.stores[h].slots && k !in s.stores[h].slots {
      NoSlotNoVersion(c, s, k);
      NewSlotIsOk(s, s', h, k);
    } else {
      BystanderKeepsKey(s, s', h, k);
      KeptStaysOk(s, s', h, k);
    }
  }

  lemma BystanderKeepsKey(s: State, s': State, h: nat, k: Key)
    requires h < |s.stores| && Bystander(s, s')
    requires k in s'.stores[h].slots ==> k in s.stores[h].slots
    ensures KeyKept(s, s', h, k)
  {
    assert Harmless(s.stores[h], s'.stores[h]);
    assert forall t :: Versions(s'.stores[h], t) == Versions(s.stores[h], t);
  }

  /** A key without a slot has never been committed, nor is anybody copying into its slot. */
  lemma NoSlotNoVersion(c: Config, s: State, k: Key)
    requires ValidConfig(c) && Inv(c, s) && k !in s.stores[Home(c, k)].slots
    ensures Latest(s.stores[Home(c, k)], k) == ZERO && k !in s.changing
    ensures forall t :: t in s.writers ==> ZERO.Less(t)
  {
    var t := Latest(s.stores[Home(c, k)], k);
    assert GenuineTs(s, k, t);
    assert t in s.writers ==> WriterOk(t, s.writers[t]);
    assert t != ZERO ==> MarkedSlot(s.stores[Home(c, k)].slots, k);
    if k in s.changing {
      ChangingIsGenuine(c, s, k);
    }
    forall u | u in s.writers
      ensures ZERO.Less(u)
    {
      assert WriterOk(u, s.writers[u]);
    }
  }

  lemma NewSlotIsOk(s: State, s': State, h: nat, k: Key)
    requires h < |s.stores| && Bystander(s, s') && KeyOk(s, h, k) && k !in s.changing
    requires k in s'.stores[h].slots && s'.stores[h].slots[k] == Got(InitialItem(k))
    requires Latest(s.stores[h], k) == ZERO && forall t :: t in s.writers ==> ZERO.Less(t)
    ensures KeyOk(s', h, k)
  {
    var st, st' := s.stores[h], s'.stores[h];
    assert Harmless(st, st');
    forall t | t in s'.writers
      ensures !Passed(st', t, s'.writers[t], h, k)
    {
      assert Versions(st', t) == Versions(st, t);
      if t in s.writers {
        assert Passed(st', t, s'.writers[t], h, k) ==> Passed(st, t, s.writers[t], h, k);
      }
    }
  }

  lemma JobsKeptByBystander(c: Config, s: State, s': State, t: Timestamp)
    requires ValidConfig(c) && |s.stores| == c.servers && Bystander(s, s') && t in s'.writers
    requires forall u :: u in s.writers ==> JobsOk(c, s, u)
    ensures JobsOk(c, s', t)
  {
    forall m | 0 <= m < |s.stores|
      ensures Versions(s'.stores[m], t) == Versions(s.stores[m], t)
    {
      assert Harmless(s.stores[m], s'.stores[m]);
    }
    assert Batches(s', t) == Batches(s, t);
    if t in s.writers {
      assert JobsOk(c, s, t);
    }
  }

  /** Nothing that can be read of a key now is older than a write that has returned. */
  lemma FirstRoundIsFresh(c: Config, s: State, t: Timestamp, k: Key)
    requires ValidConfig(c) && SlotsInv(c, s) && t in s.writers
    requires s.writers[t].phase == Returned && k in s.writers[t].writes
    ensures AtLeast(s, Home(c, k), k, t)
  {
    ReturnedHasPassed(c, s, t, k);
    assert KeyOk(s, Home(c, k), k);
  }

  lemma KeyAfterPut(c: Config, s: State, ts: Timestamp, step: WriterStep, k: Key)
    requires ValidConfig(c) && SlotsInv(c, s) && Enabled(c, s, Put(ts, step)) && Orderly(c, s, Put(ts, step))
    ensures KeyOk(Apply(c, s, Put(ts, step)), Home(c, k), k)
  {
    assert JobsOk(c, s, ts) && KeyOk(s, Home(c, k), k);
    if Commits(c, s, ts, step, k) {
      CommitsOwnItem(c, s, ts, step.server);
      CommitKeepsKey(c, s, ts, step.server, k);
    } else {
      KeptByPut(c, s, ts, step, k);
      KeptStaysOk(s, Apply(c, s, Put(ts, step)), Home(c, k), k);
    }
  }

  /** Every orderly step keeps slots and tables of all keys together, torn reads or not. */
  lemma SlotsStep(c: Config, s: State, a: Action)
    requires ValidConfig(c) && SlotsInv(c, s) && Enabled(c, s, a) && Orderly(c, s, a)
    ensures SlotsInv(c, Apply(c, s, a))
  {
    var s' := Apply(c, s, a);
    InvStep(c, s, a);
    if !a.Put? {
      BystanderSteps(c, s, a);
    }
    forall t | t in s'.writers
      ensures JobsOk(c, s', t)
    {
      if a.Put? {
        JobsAfterPut(c, s, a.ts, a.wstep, t);
      } else {
        JobsKeptByBystander(c, s, s', t);
      }
    }
    forall k
      ensures KeyOk(s', Home(c, k), k)
    {
      if a.Put? {
        KeyAfterPut(c, s, a.ts, a.wstep, k);
      } else {
        KeptByBystander(c, s, s', k);
      }
    }
  }

  // ---- whole runs ----------------------------------------------------------------------------

  lemma OrderlyStepAt(c: Config, run: seq<State>, i: nat) returns (a: Action)
    requires ValidConfig(c) && IsOrderly(c, run) && 0 < i < |run|
    ensures |run[i - 1].stores| == c.servers
    ensures Enabled(c, run[i - 1], a) && Orderly(c, run[i - 1], a) && run[i] == Apply(c, run[i - 1], a)
  {
    assert NextOrderly(c, run[i - 1], run[i - 1 + 1]);
    a :| Enabled(c, run[i - 1], a) && Orderly(c, run[i - 1], a) && run[i] == Apply(c, run[i - 1], a);
  }

  lemma {:induction false} SlotsAlong(c: Config, run: seq<State>, i: nat)
    requires ValidConfig(c) && IsRun(c, run) && IsOrderly(c, run) && i < |run|
    ensures SlotsInv(c, run[i])
  {
    if i == 0 {
      InvAlong(c, run, 0);
    } else {
      SlotsAlong(c, run, i - 1);
      var a := OrderlyStepAt(c, run, i);
      SlotsStep(c, run[i - 1], a);
    }
  }

  // ---- the guarantees ----------------------------------------------------------------------

  /** Nobody has set the key's latest version without having finished with its slot. */
  ghost predicate Settled(c: Config, s: State, key: Key)
    requires ValidConfig(c) && |s.stores| == c.servers
  {
    forall t :: t in s.writers ==> !Publishing(s.stores[Home(c, key)], t, s.writers[t], Home(c, key), key)
  }

  lemma CoherentNow(c: Config, s: State, key: Key)
    requires ValidConfig(c) && Inv(c, s) && KeyOk(s, Home(c, key), key) && Settled(c, s, key)
    ensures Coherent(s.stores[Home(c, key)], key)
  {
    var st := s.stores[Home(c, key)];
    if Visible(st, key) {
      assert SlotItemOk(s, key, st.slots[key].item);
      assert GenuineTs(s, key, Latest(st, key));
      GenuineVersion(c, s, key, Latest(st, key));
    }
  }

  /** Cache coherence: in an orderly run, a slot that reads as valid agrees with the table unless it is being rewritten. */
  lemma SlotsAreCoherent(c: Config, run: seq<State>, i: nat, key: Key)
    requires ValidConfig(c) && IsRun(c, run) && IsOrderly(c, run) && i < |run|
    ensures |run[i].stores| == c.servers
    ensures Settled(c, run[i], key) ==> Coherent(run[i].stores[Home(c, key)], key)
  {
    SlotsAlong(c, run, i);
    if Settled(c, run[i], key) {
      CoherentNow(c, run[i], key);
    }
  }
}
