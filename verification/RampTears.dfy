/**
 Overwriting a slot that still shows a valid item is the one thing that can show a reader an item
 nobody wrote. It does not happen while transactions have each key to themselves from marking its
 slot to rewriting it; otherwise everything depends on how items are laid out in memory.
 */
module RampTears {
  import opened Data
  import opened Slot
  import opened Store
  import opened Ramp
  import opened RampSafety
  import opened RampReads
  import opened RampCoherence
  import opened RampExclusive

  // ---- one transaction per key at a time -------------------------------------------------------

  /** `t` has marked the slot of `k`, and its commit is not done with `k` yet. */
  ghost predicate InWindow(c: Config, s: State, t: Timestamp, k: Key)
    requires ValidConfig(c) && |s.stores| == c.servers
  {
    && t in s.writers && k in s.writers[t].prepared && s.writers[t].prepared[k] != Stored
    && !Passed(s.stores[Home(c, k)], t, s.writers[t], Home(c, k), k)
  }

  ghost predicate OneAtATime(c: Config, s: State)
    requires ValidConfig(c) && |s.stores| == c.servers
  {
    forall t, u, k :: InWindow(c, s, t, k) && InWindow(c, s, u, k) ==> t == u
  }

  /** For one thing, as long as a key is never written again. */
  lemma SingleWriterIsOneAtATime(c: Config, s: State)
    requires ValidConfig(c) && Inv(c, s)
    requires forall t, u, k :: t in s.writers && u in s.writers && k in s.writers[t].writes && k in s.writers[u].writes ==> t == u
    ensures OneAtATime(c, s)
  {
    forall t, u, k | InWindow(c, s, t, k) && InWindow(c, s, u, k)
      ensures t == u
    {
      assert WriterOk(t, s.writers[t]) && WriterOk(u, s.writers[u]);
    }
  }

  ghost predicate QuietWindows(c: Config, s: State)
    requires ValidConfig(c) && |s.stores| == c.servers
  {
    forall t, k :: InWindow(c, s, t, k) ==> k in s.stores[Home(c, k)].slots && !s.stores[Home(c, k)].slots[k].Got?
  }

  /** The item a commit is busy with is one it has not passed. */
  lemma BusyInWindow(c: Config, s: State, t: Timestamp, h: nat)
    requires ValidConfig(c) && Inv(c, s) && t in s.writers && h < c.servers && JobRuns(s.stores[h], t, s.writers[t], h)
    ensures var k := JobItem(s.stores[h], t, s.writers[t], h).key; Home(c, k) == h && InWindow(c, s, t, k)
  {
    var versions, i := Versions(s.stores[h], t), s.writers[t].jobs[h].i;
    assert VersionOk(c, s, h, t, versions[i]) && WriterOk(t, s.writers[t]);
    assert DistinctKeys(versions);
  }

  lemma QuietWindowsAreQuiet(c: Config, s: State)
    requires ValidConfig(c) && Inv(c, s) && QuietWindows(c, s)
    ensures QuietRewrites(c, s)
  {
    forall k | k in s.changing
      ensures var slots := s.stores[Home(c, k)].slots; k in slots && !slots[k].Got?
    {
      assert Holder(c, s, k);
      BusyInWindow(c, s, s.changing[k].ts, Home(c, k));
    }
  }

  /** How far a commit has got with each server's versions never goes back. */
  ghost predicate Onward(s: State, s': State, t: Timestamp, h: nat)
    requires h < |s.stores| && h < |s'.stores|
  {
    && t in s.writers && t in s'.writers && Versions(s.stores[h], t) <= Versions(s'.stores[h], t)
    && (h in s.writers[t].jobs ==> h in s'.writers[t].jobs && s.writers[t].jobs[h].i <= s'.writers[t].jobs[h].i)
  }

  lemma PassedStays(s: State, s': State, t: Timestamp, h: nat, k: Key)
    requires h < |s.stores| && h < |s'.stores| && Onward(s, s', t, h) && Passed(s.stores[h], t, s.writers[t], h, k)
    ensures Passed(s'.stores[h], t, s'.writers[t], h, k)
  {
  }

  lemma PutGoesOnward(c: Config, s: State, ts: Timestamp, step: WriterStep, t: Timestamp, h: nat)
    requires ValidConfig(c) && |s.stores| == c.servers && Enabled(c, s, Put(ts, step)) && t in s.writers && h < c.servers
    ensures Onward(s, Apply(c, s, Put(ts, step)), t, h)
  {
    WriterStepVersions(c, s.stores[WriterServer(c, step)], ts, s.writers[ts], step, t);
  }

  lemma OthersGoOnward(c: Config, s: State, a: Action, t: Timestamp, h: nat)
    requires ValidConfig(c) && |s.stores| == c.servers && Enabled(c, s, a) && !a.Put? && t in s.writers && h < c.servers
    ensures Onward(s, Apply(c, s, a), t, h) && Apply(c, s, a).writers[t] == s.writers[t]
  {
    BystanderSteps(c, s, a);
    assert Harmless(s.stores[h], Apply(c, s, a).stores[h]);
  }

  /** Only one step gets a key past the stage of a stored version. */
  lemma StageMoves(c: Config, st: Store, ts: Timestamp, w: Writer, step: WriterStep, k: Key)
    requires ValidConfig(c) && WriterEnabled(c, st, ts, w, step)
    requires var w' := WriterAfter(c, st, ts, w, step); k in w'.prepared && w'.prepared[k] != Stored
    ensures step == MarkSlot(k) || (k in w.prepared && w.prepared[k] != Stored)
  {
  }

  /** A window opens when its slot is marked, and not otherwise. */
  lemma WindowOpens(c: Config, s: State, a: Action, t: Timestamp, k: Key)
    requires ValidConfig(c) && |s.stores| == c.servers && Enabled(c, s, a)
    requires InWindow(c, Apply(c, s, a), t, k)
    ensures InWindow(c, s, t, k) || a == Put(t, MarkSlot(k))
  {
    var s', h := Apply(c, s, a), Home(c, k);
    if a.Put? {
      PutGoesOnward(c, s, a.ts, a.wstep, t, h);
      if t == a.ts {
        StageMoves(c, s.stores[WriterServer(c, a.wstep)], t, s.writers[t], a.wstep, k);
      }
    } else if t in s.writers {
      OthersGoOnward(c, s, a, t, h);
    }
    if t in s.writers && Passed(s.stores[h], t, s.writers[t], h, k) {
      PassedStays(s, s', t, h, k);
    }
  }

  /** Only the end of a slot update makes a slot valid. */
  lemma RevealedByEnd(c: Config, st: Store, ts: Timestamp, w: Writer, step: WriterStep, k: Key)
    requires ValidConfig(c) && WriterEnabled(c, st, ts, w, step) && k in st.slots && !st.slots[k].Got?
    requires var st' := StoreAfter(c, st, ts, w, step); k in st'.slots && st'.slots[k].Got?
    ensures step.StepJob? && w.jobs[step.server].pc == Writing && JobItem(st, ts, w, step.server).key == k
  {
  }

  /** And whoever ends it has then passed the key. */
  lemma Revealed(c: Config, s: State, a: Action, k: Key)
    requires ValidConfig(c) && Inv(c, s) && Enabled(c, s, a)
    requires var st, st' := s.stores[Home(c, k)], Apply(c, s, a).stores[Home(c, k)];
             k in st.slots && !st.slots[k].Got? && k in st'.slots && st'.slots[k].Got?
    ensures a.Put? && InWindow(c, s, a.ts, k) && !InWindow(c, Apply(c, s, a), a.ts, k)
  {
    var h := Home(c, k);
    if a.Put? {
      RevealedByEnd(c, s.stores[h], a.ts, s.writers[a.ts], a.wstep, k);
      BusyInWindow(c, s, a.ts, a.wstep.server);
      EndPasses(c, s, a.ts, h, k);
    } else {
      HarmlessStep(c, s, a, h);
    }
  }

  lemma EndPasses(c: Config, s: State, ts: Timestamp, h: nat, k: Key)
    requires ValidConfig(c) && |s.stores| == c.servers && Enabled(c, s, Put(ts, StepJob(h)))
    requires s.writers[ts].jobs[h].pc == Writing && JobItem(s.stores[h], ts, s.writers[ts], h).key == k
    ensures var s' := Apply(c, s, Put(ts, StepJob(h))); ts in s'.writers && Passed(s'.stores[h], ts, s'.writers[ts], h, k)
  {
    var s', i := Apply(c, s, Put(ts, StepJob(h))), s.writers[ts].jobs[h].i;
    WriterStepVersions(c, s.stores[h], ts, s.writers[ts], StepJob(h), ts);
    assert Versions(s'.stores[h], ts)[i].key == k;
  }

  lemma QuietWindowsStep(c: Config, s: State, a: Action)
    requires ValidConfig(c) && Inv(c, s) && Enabled(c, s, a) && OneAtATime(c, s) && QuietWindows(c, s)
    ensures QuietWindows(c, Apply(c, s, a))
  {
    var s' := Apply(c, s, a);
    InvStep(c, s, a);
    forall t, k | InWindow(c, s', t, k)
      ensures k in s'.stores[Home(c, k)].slots && !s'.stores[Home(c, k)].slots[k].Got?
    {
      StaysQuiet(c, s, a, t, k);
    }
  }

  lemma StaysQuiet(c: Config, s: State, a: Action, t: Timestamp, k: Key)
    requires ValidConfig(c) && Inv(c, s) && Enabled(c, s, a) && OneAtATime(c, s) && QuietWindows(c, s)
    requires Inv(c, Apply(c, s, a)) && InWindow(c, Apply(c, s, a), t, k)
    ensures var slots := Apply(c, s, a).stores[Home(c, k)].slots; k in slots && !slots[k].Got?
  {
    var slots := Apply(c, s, a).stores[Home(c, k)].slots;
    assert MarkedSlot(slots, k);
    WindowOpens(c, s, a, t, k);
    if slots[k].Got? && InWindow(c, s, t, k) {
      Revealed(c, s, a, k);
    }
  }

  ghost predicate OneAtATimeUntil(c: Config, run: seq<State>, i: nat)
    requires ValidConfig(c) && i <= |run|
  {
    forall j :: 0 <= j < i ==> |run[j].stores| == c.servers && OneAtATime(c, run[j])
  }

  lemma {:induction false} QuietWindowsAlong(c: Config, run: seq<State>, i: nat)
    requires ValidConfig(c) && IsRun(c, run) && i < |run| && OneAtATimeUntil(c, run, i)
    ensures |run[i].stores| == c.servers && QuietWindows(c, run[i])
  {
    if i > 0 {
      QuietWindowsAlong(c, run, i - 1);
      var a := StepAt(c, run, i);
      QuietWindowsStep(c, run[i - 1], a);
    }
  }

  /** Then no update ever overwrites a valid slot, so nobody can read anything torn. */
  lemma OneAtATimeIsUntorn(c: Config, run: seq<State>, i: nat, id: nat)
    requires ValidConfig(c) && IsRun(c, run) && i < |run| && OneAtATimeUntil(c, run, i)
    ensures forall j :: 0 <= j < i ==> |run[j].stores| == c.servers && QuietRewrites(c, run[j])
    ensures UntornUntil(c, run, i, id)
  {
    forall j | 0 <= j < i
      ensures |run[j].stores| == c.servers && QuietRewrites(c, run[j]) && NextWhole(c, run[j], run[j + 1], id)
    {
      InvAlong(c, run, j);
      QuietWindowsAlong(c, run, j);
      QuietWindowsAreQuiet(c, run[j]);
      QuietReadsAreWhole(c, run[j], run[j + 1], id);
    }
  }

  /** Whatever the layout of items, and without any atomic commit: reads are genuine and unfractured. */
  lemma OneAtATimeIsAtomic(c: Config, run: seq<State>, i: nat, id: nat)
    requires ValidConfig(c) && IsRun(c, run) && i < |run| && OneAtATimeUntil(c, run, i) && id in run[i].readers
    ensures FirstIsGenuine(run[i], run[i].readers[id]) && ReadsAtomically(run[i], run[i].readers[id])
  {
    OneAtATimeIsUntorn(c, run, i, id);
    UntornIsAtomic(c, run, i, id);
  }

  // ---- reads that never look at slots ------------------------------------------------------------

  ghost predicate NextAsks(c: Config, s: State, s': State, id: nat)
    requires ValidConfig(c)
  {
    |s.stores| == c.servers && exists a :: Enabled(c, s, a) && !(ReadsSlot(a) && a.reader == id) && s' == Apply(c, s, a)
  }

  /** A read of RAMP-Fast: up to the state at `i`, reader `id` only asks servers. */
  ghost predicate AsksServers(c: Config, run: seq<State>, i: nat, id: nat)
    requires ValidConfig(c) && i < |run|
  {
    forall j :: 0 <= j < i ==> NextAsks(c, run[j], run[j + 1], id)
  }

  lemma AskingIsUntorn(c: Config, run: seq<State>, i: nat, id: nat)
    requires ValidConfig(c) && IsRun(c, run) && i < |run| && AsksServers(c, run, i, id)
    ensures UntornUntil(c, run, i, id)
  {
    forall j | 0 <= j < i
      ensures NextWhole(c, run[j], run[j + 1], id)
    {
      assert NextAsks(c, run[j], run[j + 1], id);
      var a :| Enabled(c, run[j], a) && !(ReadsSlot(a) && a.reader == id) && run[j + 1] == Apply(c, run[j], a);
      assert ReadsWhole(c, run[j], a, id);
    }
  }

  /** Then slots may tear as they like, and other readers may read them. */
  lemma ServerReadsAreAtomic(c: Config, run: seq<State>, i: nat, id: nat)
    requires ValidConfig(c) && IsRun(c, run) && i < |run| && AsksServers(c, run, i, id) && id in run[i].readers
    ensures FirstIsGenuine(run[i], run[i].readers[id]) && ReadsAtomically(run[i], run[i].readers[id])
  {
    AskingIsUntorn(c, run, i, id);
    UntornIsAtomic(c, run, i, id);
  }

  // ---- which items meet in a slot ------------------------------------------------------------------

  /** Two transactions can write `y` and `x` to `k`, and the slot of `k` can hold `y` when `x` is copied over it. */
  predicate Overwrites(c: Config, k: Key, y: Item, x: Item) {
    && y.key == x.key == k && k in y.trxKeys && k in x.trxKeys
    && ZERO.Less(y.ts) && ZERO.Less(x.ts) && y.ts != x.ts && (c.exclusive ==> y.ts.Less(x.ts))
  }

  lemma WrittenItems(s: State, k: Key, y: Item, x: Item)
    requires WritersOk(s) && Genuine(s, k, y) && Genuine(s, k, x) && y.ts != ZERO && x.ts != ZERO
    ensures y.key == x.key == k && k in y.trxKeys && k in x.trxKeys && ZERO.Less(y.ts) && ZERO.Less(x.ts)
    ensures y.ts == x.ts ==> y == x
  {
    assert WriterOk(y.ts, s.writers[y.ts]) && WriterOk(x.ts, s.writers[x.ts]);
  }

  /** Servers that commit the versions of a key one at a time overwrite older versions by newer ones. */
  lemma OlderByNewer(c: Config, s: State, k: Key)
    requires ValidConfig(c) && |s.stores| == c.servers && ChangingOk(c, s) && k in s.changing
    requires KeyOk(s, Home(c, k), k) && OneCommitter(s, Home(c, k), k) && Visible(s.stores[Home(c, k)], k)
    ensures !s.changing[k].ts.Less(s.stores[Home(c, k)].slots[k].item.ts)
  {
    assert Holder(c, s, k);
    var h, t := Home(c, k), s.changing[k].ts;
    assert PcAt(s.stores[h], t, s.writers[t], h, k) == Writing;
  }

  /** Both the item in the slot and the one being copied over it come from transactions. */
  lemma OldAndNewAreWritten(c: Config, s: State, k: Key)
    requires ValidConfig(c) && Inv(c, s) && k in s.changing && Visible(s.stores[Home(c, k)], k)
    ensures var y, x := s.stores[Home(c, k)].slots[k].item, s.changing[k];
            Genuine(s, k, y) && Genuine(s, k, x) && y.ts != ZERO && x.ts != ZERO
  {
    ChangingIsGenuine(c, s, k);
    OldAndNewAreGenuine(c, s, k);
  }

  ghost predicate InOrder(c: Config, s: State, k: Key)
    requires ValidConfig(c) && |s.stores| == c.servers && k in s.changing && Visible(s.stores[Home(c, k)], k)
  {
    c.exclusive ==> !s.changing[k].ts.Less(s.stores[Home(c, k)].slots[k].item.ts)
  }

  lemma ExclusiveInOrder(c: Config, s: State, k: Key)
    requires ValidConfig(c) && |s.stores| == c.servers && ChangingOk(c, s) && k in s.changing
    requires Visible(s.stores[Home(c, k)], k) && (c.exclusive ==> ExclusiveInv(c, s))
    ensures InOrder(c, s, k)
  {
    if c.exclusive {
      OlderByNewer(c, s, k);
    }
  }

  /** What is being copied over what, in any reachable state. */
  lemma OverwritesOnly(c: Config, s: State, k: Key, y: Item, x: Item)
    requires ValidConfig(c) && |s.stores| == c.servers && WritersOk(s) && k in s.changing && Visible(s.stores[Home(c, k)], k)
    requires y == s.stores[Home(c, k)].slots[k].item && x == s.changing[k] && y != x
    requires Genuine(s, k, y) && Genuine(s, k, x) && y.ts != ZERO && x.ts != ZERO && InOrder(c, s, k)
    ensures Overwrites(c, k, y, x)
  {
    WrittenItems(s, k, y, x);
  }

  /** The slot of `k` holds `y`, `x` is being copied over it, and two transactions wrote them. */
  ghost predicate Meet(c: Config, s: State, k: Key, y: Item, x: Item)
    requires ValidConfig(c) && |s.stores| == c.servers
  {
    && k in s.changing && s.changing[k] == x && Visible(s.stores[Home(c, k)], k) && s.stores[Home(c, k)].slots[k].item == y
    && Genuine(s, k, y) && Genuine(s, k, x) && Overwrites(c, k, y, x)
  }

  /** The item came out of a slot in which two items met, and is neither of them. */
  ghost predicate Torn(c: Config, s: State, k: Key, z: Item)
    requires ValidConfig(c) && |s.stores| == c.servers
  {
    exists y, x :: Meet(c, s, k, y, x) && c.mixes(y, x, z) && z != y && z != x
  }

  /** What is known of every reachable state, and of those of exclusive configurations in addition. */
  ghost predicate Known(c: Config, s: State)
    requires ValidConfig(c)
  {
    Inv(c, s) && (c.exclusive ==> ExclusiveInv(c, s))
  }

  lemma KnownAlong(c: Config, run: seq<State>, i: nat)
    requires ValidConfig(c) && IsRun(c, run) && i < |run|
    ensures Known(c, run[i])
  {
    InvAlong(c, run, i);
    if c.exclusive {
      ExclusiveAlong(c, run, i);
    }
  }

  /** A slot read returns what was written, or a mixture of two items that met. */
  lemma GenuineOrTorn(c: Config, s: State, k: Key, z: Item)
    requires ValidConfig(c) && Known(c, s) && SlotShows(c, s.stores[Home(c, k)], s.changing, k, z)
    ensures (Genuine(s, k, z) && IsWhole(c, s, k, z)) || Torn(c, s, k, z)
  {
    if k in s.changing && s.stores[Home(c, k)].slots[k].Got? {
      OldAndNewAreWritten(c, s, k);
      ExclusiveInOrder(c, s, k);
      OldNewOrTorn(c, s, k, s.stores[Home(c, k)].slots[k].item, s.changing[k], z);
    } else {
      OldAndNewAreGenuine(c, s, k);
    }
  }

  lemma OldNewOrTorn(c: Config, s: State, k: Key, y: Item, x: Item, z: Item)
    requires ValidConfig(c) && |s.stores| == c.servers && WritersOk(s) && k in s.changing && Visible(s.stores[Home(c, k)], k)
    requires y == s.stores[Home(c, k)].slots[k].item && x == s.changing[k]
    requires Genuine(s, k, y) && Genuine(s, k, x) && y.ts != ZERO && x.ts != ZERO && InOrder(c, s, k)
    requires SlotShows(c, s.stores[Home(c, k)], s.changing, k, z)
    ensures z == y || z == x || Torn(c, s, k, z)
  {
    if z != y && z != x {
      OverwritesOnly(c, s, k, y, x);
      assert Meet(c, s, k, y, x);
    }
  }
}
