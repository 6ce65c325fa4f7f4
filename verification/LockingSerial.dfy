/** Every run of the locking mode reads and leaves what the serial run in lock order would. */
module LockingSerial {
  import opened Data
  import opened Store
  import opened Locking
  import opened LockingSafety

  // ---- one key of one table --------------------------------------------------------------

  /** The key's latest timestamp is the timestamp of the item the table answers with. */
  predicate Sound(st: Store, key: Key) {
    && GetLatest(st, key).ts == Latest(st, key)
    && (Latest(st, key) == ZERO ==> GetLatest(st, key) == EMPTY_ITEM)
  }

  /** A put of a new version: the table then answers with it, unless it already had a newer one. */
  lemma PutEffect(st: Store, item: Item, key: Key)
    requires ZERO.Less(item.ts) && Sound(st, key)
    requires forall j :: 0 <= j < |Versions(st, item.ts)| ==> Versions(st, item.ts)[j].key != item.key
    ensures Sound(Put(st, item), key)
    ensures GetLatest(Put(st, item), key)
         == if key == item.key && GetLatest(st, key).ts.Less(item.ts) then item else GetLatest(st, key)
  {
    FindAppend(Versions(st, item.ts), item, key);
    var t := Latest(st, key);
    if t == item.ts && key == item.key {
      var j := FindIsThere(Versions(st, t), key);
    }
    assert Versions(Put(st, item), t) == if t == item.ts then Versions(st, t) + [item] else Versions(st, t);
  }

  // ---- the invariant ---------------------------------------------------------------------

  function Answer(c: Config, s: State, key: Key): Item
    requires c.servers > 0 && |s.stores| == c.servers
  {
    GetLatest(s.stores[Home(c, key)], key)
  }

  /** Some phase has written this version. */
  ghost predicate WrittenVersion(c: Config, s: State, ts: Timestamp, item: Item)
    requires |s.phases| == |c.work|
  {
    exists p: nat :: p < |c.work| && c.work[p].txn.PutAll? && c.work[p].txn.ts == ts && item.key in Worked(c.work[p], s.phases[p])
  }

  predicate Writing(c: Config, s: State, p: nat, key: Key)
    requires |s.phases| == |c.work|
  {
    p < |c.work| && s.phases[p].stage == Growing && c.work[p].txn.PutAll? && key in Worked(c.work[p], s.phases[p])
  }

  /** The serial run may lag behind by the writes of the one phase that still holds the key. */
  ghost predicate KeyOk(c: Config, s: State, key: Key)
    requires c.servers > 0 && |s.stores| == c.servers && |s.phases| == |c.work|
  {
    && Sound(s.stores[Home(c, key)], key)
    && (forall p: nat :: Writing(c, s, p, key) ==> Answer(c, s, key) == Overlay(Serial(c, s.log, key), c.work[p].txn, key))
    && ((forall p: nat :: !Writing(c, s, p, key)) ==> Answer(c, s, key) == Serial(c, s.log, key))
  }

  ghost predicate ReadsOk(c: Config, s: State, p: nat)
    requires |s.phases| == |c.work| && p < |c.work|
  {
    s.phases[p].stage == Growing && c.work[p].txn.GetAll? ==>
      forall k :: k in Worked(c.work[p], s.phases[p]) ==> k in s.phases[p].ret && s.phases[p].ret[k] == Serial(c, s.log, k)
  }

  predicate Locked(ph: Phase) {
    ph.stage == Shrinking || ph.stage == Done
  }

  /** The phase logged at `j` read what the serial run shows at that point. */
  ghost predicate EntryOk(c: Config, s: State, j: nat)
    requires |s.phases| == |c.work| && j < |s.log|
  {
    var p := s.log[j];
    && p < |c.work| && Locked(s.phases[p])
    && (c.work[p].txn.GetAll? ==>
          forall k :: k in c.work[p].txn.wanted ==> k in s.phases[p].ret && s.phases[p].ret[k] == Serial(c, s.log[..j], k))
  }

  ghost predicate LogOk(c: Config, s: State)
    requires |s.phases| == |c.work|
  {
    && (forall j :: 0 <= j < |s.log| ==> EntryOk(c, s, j))
    && (forall i, j :: 0 <= i < j < |s.log| ==> s.log[i] != s.log[j])
    && (forall p: nat :: p < |c.work| && Locked(s.phases[p]) ==> p in s.log)
  }

  ghost predicate Inv(c: Config, s: State)
    requires ValidConfig(c)
  {
    && |s.stores| == c.servers && |s.phases| == |c.work|
    && LocksOk(c, s)
    && (forall i, t, j :: 0 <= i < c.servers && 0 <= j < |Versions(s.stores[i], t)| ==> WrittenVersion(c, s, t, Versions(s.stores[i], t)[j]))
    && (forall k :: KeyOk(c, s, k))
    && (forall p :: 0 <= p < |c.work| ==> ReadsOk(c, s, p))
    && LogOk(c, s)
  }

  // ---- working on a key ------------------------------------------------------------------

  /** Nobody is writing a key that this phase has locked and is about to work on. */
  lemma NobodyElseWrites(c: Config, s: State, p: nat, q: nat)
    requires ValidConfig(c) && |s.stores| == c.servers && |s.phases| == |c.work| && p < |c.work| && LocksOk(c, s)
    requires Enabled(c, s, p, Operate)
    ensures !Writing(c, s, q, c.work[p].order[s.phases[p].next])
  {
    var w, ph := c.work[p], s.phases[p];
    var k := w.order[ph.next];
    assert PhaseOk(c, w, ph) && LockOk(c, s, k);
    assert w.order[..ph.next + 1][ph.next] == k;
    if q == p {
      NextIsNotHeld(c, w, ph.(locked := false));
      assert Worked(w, ph) == Taken(w, ph.(locked := false));
    } else if q < |c.work| && s.phases[q].stage == Growing && k in Worked(c.work[q], s.phases[q]) {
      assert PhaseOk(c, c.work[q], s.phases[q]);
      WorkedIsHeld(c, c.work[q], s.phases[q], k);
      if c.work[q].txn.PutAll? {
        Exclusion(c, s, q, p, k);
      }
    }
  }

  lemma WorkedIsHeld(c: Config, w: Work, ph: Phase, k: Key)
    requires c.servers > 0 && PhaseOk(c, w, ph) && ph.stage == Growing && k in Worked(w, ph)
    ensures Holds(w, ph, k)
  {
    if ph.locked {
      assert w.order[..ph.next + 1] == w.order[..ph.next] + [w.order[ph.next]];
    }
  }

  /** A writing phase never meets an earlier version with its timestamp. */
  lemma VersionIsNew(c: Config, s: State, p: nat)
    requires ValidConfig(c) && Inv(c, s) && p < |c.work| && Enabled(c, s, p, Operate) && c.work[p].txn.PutAll?
    ensures var k := c.work[p].order[s.phases[p].next];
            forall j :: 0 <= j < |Versions(s.stores[Home(c, k)], c.work[p].txn.ts)| ==>
              Versions(s.stores[Home(c, k)], c.work[p].txn.ts)[j].key != k
  {
    var k, ts := c.work[p].order[s.phases[p].next], c.work[p].txn.ts;
    NobodyElseWrites(c, s, p, p);
    forall j | 0 <= j < |Versions(s.stores[Home(c, k)], ts)|
      ensures Versions(s.stores[Home(c, k)], ts)[j].key != k
    {
      assert WrittenVersion(c, s, ts, Versions(s.stores[Home(c, k)], ts)[j]);
    }
  }

  /** How an operation moves the answers of the tables: only at its key, and as a serial write would. */
  lemma AnswerAfterOperate(c: Config, s: State, p: nat, k: Key)
    requires ValidConfig(c) && Inv(c, s) && p < |c.work| && Enabled(c, s, p, Operate)
    ensures var s', key, txn := Apply(c, s, p, Operate), c.work[p].order[s.phases[p].next], c.work[p].txn;
            && Sound(s'.stores[Home(c, k)], k)
            && Answer(c, s', k) == if k == key then Overlay(Answer(c, s, k), txn, k) else Answer(c, s, k)
  {
    var key, txn := c.work[p].order[s.phases[p].next], c.work[p].txn;
    assert KeyOk(c, s, k) && key in c.work[p].order;
    if txn.PutAll? {
      VersionIsNew(c, s, p);
    }
    if Home(c, k) == Home(c, key) {
      OperateEffect(s.stores[Home(c, k)], txn, key, k);
    }
  }

  lemma OperateEffect(st: Store, txn: Txn, key: Key, k: Key)
    requires key in KeysOf(txn) && Sound(st, k)
    requires txn.PutAll? ==> ZERO.Less(txn.ts)
    requires txn.PutAll? ==> forall j :: 0 <= j < |Versions(st, txn.ts)| ==> Versions(st, txn.ts)[j].key != key
    ensures Sound(StoreAfter(st, txn, key), k)
    ensures GetLatest(StoreAfter(st, txn, key), k) == if k == key then Overlay(GetLatest(st, k), txn, k) else GetLatest(st, k)
  {
    if txn.PutAll? {
      PutEffect(st, ItemOf(txn, key), k);
    } else {
      TouchKeepsAnswers(st, key, k);
    }
  }

  lemma TouchKeepsAnswers(st: Store, key: Key, k: Key)
    ensures GetLatest(Touch(st, key), k) == GetLatest(st, k) && Latest(Touch(st, key), k) == Latest(st, k)
  {
  }

  /** Only an operation of `p` adds to what `p` has worked on, and only its next key. */
  lemma WritingAfterOperate(c: Config, s: State, p: nat, q: nat, k: Key)
    requires ValidConfig(c) && |s.stores| == c.servers && |s.phases| == |c.work| && p < |c.work| && Enabled(c, s, p, Operate)
    ensures var s', w := Apply(c, s, p, Operate), c.work[p];
            Writing(c, s', q, k) <==> Writing(c, s, q, k) || (q == p && w.txn.PutAll? && k == w.order[s.phases[p].next])
  {
    var w, ph := c.work[p], s.phases[p];
    assert w.order[..ph.next + 1] == w.order[..ph.next] + [w.order[ph.next]];
  }

  lemma KeyAfterOperate(c: Config, s: State, p: nat, k: Key)
    requires ValidConfig(c) && Inv(c, s) && p < |c.work| && Enabled(c, s, p, Operate)
    ensures KeyOk(c, Apply(c, s, p, Operate), k)
  {
    var s', w := Apply(c, s, p, Operate), c.work[p];
    var key := w.order[s.phases[p].next];
    AnswerAfterOperate(c, s, p, k);
    assert KeyOk(c, s, k) && s'.log == s.log && key in w.order;
    forall q: nat
      ensures Writing(c, s', q, k) <==> Writing(c, s, q, k) || (q == p && w.txn.PutAll? && k == key)
      ensures k == key ==> !Writing(c, s, q, k)
    {
      WritingAfterOperate(c, s, p, q, k);
      NobodyElseWrites(c, s, p, q);
    }
    if k == key && w.txn.PutAll? {
      assert Writing(c, s', p, k);
    } else {
      assert Answer(c, s', k) == Answer(c, s, k);
    }
  }

  /** What a reading phase is answered is what the serial run so far shows. */
  lemma AnswerIsSerial(c: Config, s: State, p: nat)
    requires ValidConfig(c) && |s.stores| == c.servers && |s.phases| == |c.work| && p < |c.work|
    requires LocksOk(c, s) && Enabled(c, s, p, Operate) && KeyOk(c, s, c.work[p].order[s.phases[p].next])
    ensures var key := c.work[p].order[s.phases[p].next]; Answer(c, s, key) == Serial(c, s.log, key)
  {
    var key := c.work[p].order[s.phases[p].next];
    forall r: nat
      ensures !Writing(c, s, r, key)
    {
      NobodyElseWrites(c, s, p, r);
    }
  }

  lemma ReadsAfterOperate(c: Config, s: State, p: nat, q: nat)
    requires ValidConfig(c) && |s.stores| == c.servers && |s.phases| == |c.work| && p < |c.work| && q < |c.work|
    requires LocksOk(c, s) && Enabled(c, s, p, Operate) && ReadsOk(c, s, q)
    requires KeyOk(c, s, c.work[p].order[s.phases[p].next])
    ensures ReadsOk(c, Apply(c, s, p, Operate), q)
  {
    if q == p {
      AnswerIsSerial(c, s, p);
      WorkedGrows(c.work[p], s.phases[p]);
    }
  }

  /** One more key is worked on, and only that one. */
  lemma WorkedGrows(w: Work, ph: Phase)
    requires ph.next < |w.order| && ph.next >= 0
    ensures w.order[..ph.next + 1] == w.order[..ph.next] + [w.order[ph.next]]
    ensures forall k :: k in w.order[..ph.next + 1] <==> k in w.order[..ph.next] || k == w.order[ph.next]
  {
  }

  lemma WrittenStays(c: Config, s: State, p: nat, step: Step, t: Timestamp, item: Item)
    requires ValidConfig(c) && |s.stores| == c.servers && |s.phases| == |c.work| && p < |c.work|
    requires Enabled(c, s, p, step) && WrittenVersion(c, s, t, item)
    ensures WrittenVersion(c, Apply(c, s, p, step), t, item)
  {
    var s', w, ph := Apply(c, s, p, step), c.work[p], s.phases[p];
    var q: nat :| q < |c.work| && c.work[q].txn.PutAll? && c.work[q].txn.ts == t && item.key in Worked(c.work[q], s.phases[q]);
    if step.Operate? {
      WorkedGrows(w, ph);
    }
    assert item.key in Worked(c.work[q], s'.phases[q]);
  }

  /** The table gains at most the version that the phase writes. */
  lemma VersionsAfterOperate(c: Config, s: State, p: nat, i: nat, t: Timestamp, j: nat)
    requires ValidConfig(c) && |s.stores| == c.servers && |s.phases| == |c.work| && p < |c.work|
    requires Enabled(c, s, p, Operate) && i < c.servers && j < |Versions(Apply(c, s, p, Operate).stores[i], t)|
    requires j < |Versions(s.stores[i], t)| ==> WrittenVersion(c, s, t, Versions(s.stores[i], t)[j])
    ensures WrittenVersion(c, Apply(c, s, p, Operate), t, Versions(Apply(c, s, p, Operate).stores[i], t)[j])
  {
    var s', w, ph := Apply(c, s, p, Operate), c.work[p], s.phases[p];
    var key := w.order[ph.next];
    assert key in w.order;
    StoredByOperate(s.stores[i], w.txn, key, t);
    if j < |Versions(s.stores[i], t)| {
      WrittenStays(c, s, p, Operate, t, Versions(s.stores[i], t)[j]);
    } else {
      assert w.order[..ph.next + 1] == w.order[..ph.next] + [key];
      assert key in Worked(w, s'.phases[p]);
    }
  }

  lemma StoredByOperate(st: Store, txn: Txn, key: Key, t: Timestamp)
    requires txn.PutAll? ==> key in txn.values
    ensures Versions(StoreAfter(st, txn, key), t)
         == if txn.PutAll? && t == txn.ts then Versions(st, t) + [ItemOf(txn, key)] else Versions(st, t)
  {
  }

  // ---- the lock point --------------------------------------------------------------------

  lemma SerialAppend(c: Config, log: seq<nat>, p: nat, k: Key)
    requires p < |c.work|
    ensures Serial(c, log + [p], k) == Overlay(Serial(c, log, k), c.work[p].txn, k)
  {
    assert (log + [p])[..|log|] == log;
  }

  /** Appending `p` to the serial run changes nothing for keys that another phase is still holding. */
  lemma HeldKeyUnmoved(c: Config, s: State, p: nat, q: nat, k: Key)
    requires ValidConfig(c) && |s.stores| == c.servers && |s.phases| == |c.work| && p < |c.work| && q < |c.work| && p != q
    requires LocksOk(c, s) && Enabled(c, s, p, StartRelease)
    requires s.phases[q].stage == Growing && k in Worked(c.work[q], s.phases[q])
    ensures Serial(c, s.log + [p], k) == Serial(c, s.log, k)
  {
    SerialAppend(c, s.log, p, k);
    assert PhaseOk(c, c.work[p], s.phases[p]) && PhaseOk(c, c.work[q], s.phases[q]) && LockOk(c, s, k);
    WorkedIsHeld(c, c.work[q], s.phases[q], k);
    HolderKeepsWritersOut(c, s, p, q, k);
    EverythingIsHeld(c, c.work[p], s.phases[p]);
  }

  lemma HolderKeepsWritersOut(c: Config, s: State, p: nat, q: nat, k: Key)
    requires c.servers > 0 && |s.phases| == |c.work| && LockOk(c, s, k)
    requires p < |c.work| && q < |c.work| && p != q && Holds(c.work[q], s.phases[q], k)
    ensures c.work[p].txn.PutAll? ==> !Holds(c.work[p], s.phases[p], k)
  {
    assert HeldBy(LockOf(s.locks, k), q);
    assert HeldBy(LockOf(s.locks, k), p) <==> Holds(c.work[p], s.phases[p], k);
  }

  lemma EverythingIsHeld(c: Config, w: Work, ph: Phase)
    requires c.servers > 0 && PhaseOk(c, w, ph) && ph.stage == Growing && ph.next == |w.order|
    ensures forall k :: k in w.order ==> Holds(w, ph, k)
  {
  }

  lemma KeyAfterRelease(c: Config, s: State, p: nat, k: Key)
    requires ValidConfig(c) && |s.stores| == c.servers && |s.phases| == |c.work| && p < |c.work|
    requires LocksOk(c, s) && Enabled(c, s, p, StartRelease) && KeyOk(c, s, k)
    ensures KeyOk(c, Apply(c, s, p, StartRelease), k)
  {
    var s', w := Apply(c, s, p, StartRelease), c.work[p];
    SerialAppend(c, s.log, p, k);
    assert Worked(w, s.phases[p]) == w.order;
    if q: nat :| q != p && Writing(c, s, q, k) {
      HeldKeyUnmoved(c, s, p, q, k);
      forall r: nat
        ensures Writing(c, s', r, k) ==> Writing(c, s, r, k)
      {
      }
      assert Writing(c, s', q, k);
    } else {
      LastWriterReleases(c, s, p, k);
    }
  }

  /** The serial run catches up with the writes of the phase that reaches its lock point. */
  lemma LastWriterReleases(c: Config, s: State, p: nat, k: Key)
    requires ValidConfig(c) && |s.stores| == c.servers && |s.phases| == |c.work| && p < |c.work|
    requires Enabled(c, s, p, StartRelease) && KeyOk(c, s, k)
    requires forall q: nat :: q != p ==> !Writing(c, s, q, k)
    ensures KeyOk(c, Apply(c, s, p, StartRelease), k)
  {
    var s', w := Apply(c, s, p, StartRelease), c.work[p];
    SerialAppend(c, s.log, p, k);
    assert Worked(w, s.phases[p]) == w.order;
    assert Writing(c, s, p, k) <==> w.txn.PutAll? && k in w.txn.values;
    forall q: nat
      ensures !Writing(c, s', q, k)
    {
      assert q != p ==> (Writing(c, s', q, k) <==> Writing(c, s, q, k));
    }
  }

  lemma ReadsAfterRelease(c: Config, s: State, p: nat, q: nat)
    requires ValidConfig(c) && |s.stores| == c.servers && |s.phases| == |c.work| && p < |c.work| && q < |c.work|
    requires LocksOk(c, s) && Enabled(c, s, p, StartRelease) && ReadsOk(c, s, q)
    ensures ReadsOk(c, Apply(c, s, p, StartRelease), q)
  {
    var s' := Apply(c, s, p, StartRelease);
    if q != p && s.phases[q].stage == Growing {
      forall k | k in Worked(c.work[q], s.phases[q])
        ensures Serial(c, s'.log, k) == Serial(c, s.log, k)
      {
        HeldKeyUnmoved(c, s, p, q, k);
      }
    }
  }

  lemma LogAfterRelease(c: Config, s: State, p: nat)
    requires ValidConfig(c) && |s.stores| == c.servers && |s.phases| == |c.work| && p < |c.work|
    requires LocksOk(c, s) && LogOk(c, s) && ReadsOk(c, s, p) && Enabled(c, s, p, StartRelease)
    ensures LogOk(c, Apply(c, s, p, StartRelease))
  {
    var s', n := Apply(c, s, p, StartRelease), |s.log|;
    forall j | 0 <= j < n
      ensures s.log[j] != p && EntryOk(c, s', j)
    {
      EntryStays(c, s, s', j);
    }
    assert s'.log[..n] == s.log && Worked(c.work[p], s.phases[p]) == c.work[p].order;
    assert EntryOk(c, s', n);
    assert p in s'.log;
  }

  lemma EntryStays(c: Config, s: State, s': State, j: nat)
    requires |s.phases| == |s'.phases| == |c.work| && j < |s.log| <= |s'.log| && s'.log[..j + 1] == s.log[..j + 1]
    requires EntryOk(c, s, j)
    requires Locked(s.phases[s.log[j]]) ==> s'.phases[s.log[j]] == s.phases[s.log[j]]
    ensures EntryOk(c, s', j)
  {
    assert s'.log[j] == s'.log[..j + 1][j] && s.log[j] == s.log[..j + 1][j];
    assert s'.log[..j] == s'.log[..j + 1][..j] && s.log[..j] == s.log[..j + 1][..j];
  }

  // ---- all steps -------------------------------------------------------------------------

  predicate Silent(step: Step) {
    !step.Operate? && !step.StartRelease?
  }

  lemma KeyAfterSilent(c: Config, s: State, p: nat, step: Step, k: Key)
    requires ValidConfig(c) && |s.stores| == c.servers && |s.phases| == |c.work| && p < |c.work|
    requires Enabled(c, s, p, step) && Silent(step) && KeyOk(c, s, k) && PhaseOk(c, c.work[p], s.phases[p])
    ensures KeyOk(c, Apply(c, s, p, step), k)
  {
    var s' := Apply(c, s, p, step);
    forall q: nat
      ensures Writing(c, s', q, k) <==> Writing(c, s, q, k)
    {
    }
  }

  lemma ReadsAfterSilent(c: Config, s: State, p: nat, step: Step, q: nat)
    requires ValidConfig(c) && |s.stores| == c.servers && |s.phases| == |c.work| && p < |c.work| && q < |c.work|
    requires Enabled(c, s, p, step) && Silent(step) && ReadsOk(c, s, q) && PhaseOk(c, c.work[p], s.phases[p])
    ensures ReadsOk(c, Apply(c, s, p, step), q)
  {
  }

  lemma LogAfterOther(c: Config, s: State, p: nat, step: Step)
    requires ValidConfig(c) && |s.stores| == c.servers && |s.phases| == |c.work| && p < |c.work|
    requires Enabled(c, s, p, step) && !step.StartRelease? && LogOk(c, s)
    ensures LogOk(c, Apply(c, s, p, step))
  {
    var s' := Apply(c, s, p, step);
    forall j | 0 <= j < |s'.log|
      ensures EntryOk(c, s', j)
    {
      assert EntryOk(c, s, j);
    }
  }

  lemma VersionsAfterStep(c: Config, s: State, p: nat, step: Step)
    requires ValidConfig(c) && Inv(c, s) && p < |c.work| && Enabled(c, s, p, step)
    ensures var s' := Apply(c, s, p, step);
            forall i, t, j :: 0 <= i < c.servers && 0 <= j < |Versions(s'.stores[i], t)| ==> WrittenVersion(c, s', t, Versions(s'.stores[i], t)[j])
  {
    var s' := Apply(c, s, p, step);
    forall i, t, j | 0 <= i < c.servers && 0 <= j < |Versions(s'.stores[i], t)|
      ensures WrittenVersion(c, s', t, Versions(s'.stores[i], t)[j])
    {
      if step.Operate? {
        VersionsAfterOperate(c, s, p, i, t, j);
      } else {
        WrittenStays(c, s, p, step, t, Versions(s.stores[i], t)[j]);
      }
    }
  }

  lemma InvStep(c: Config, s: State, p: nat, step: Step)
    requires ValidConfig(c) && Inv(c, s) && p < |c.work| && Enabled(c, s, p, step)
    ensures Inv(c, Apply(c, s, p, step))
  {
    var s' := Apply(c, s, p, step);
    LocksStep(c, s, p, step);
    VersionsAfterStep(c, s, p, step);
    forall k
      ensures KeyOk(c, s', k)
    {
      assert KeyOk(c, s, k);
      match step
      case Operate => KeyAfterOperate(c, s, p, k);
      case StartRelease => KeyAfterRelease(c, s, p, k);
      case _ => KeyAfterSilent(c, s, p, step, k);
    }
    forall q | 0 <= q < |c.work|
      ensures ReadsOk(c, s', q)
    {
      assert ReadsOk(c, s, q);
      match step
      case Operate => ReadsAfterOperate(c, s, p, q);
      case StartRelease => ReadsAfterRelease(c, s, p, q);
      case _ => ReadsAfterSilent(c, s, p, step, q);
    }
    if step.StartRelease? {
      LogAfterRelease(c, s, p);
    } else {
      LogAfterOther(c, s, p, step);
    }
  }

  lemma InvInit(c: Config, s: State)
    requires ValidConfig(c) && Init(c, s)
    ensures Inv(c, s)
  {
    assert forall p: nat, k :: p < |c.work| ==> !Holds(c.work[p], s.phases[p], k);
  }

  lemma {:induction false} InvAlong(c: Config, run: seq<State>, i: nat)
    requires ValidConfig(c) && IsRun(c, run) && i < |run|
    ensures Inv(c, run[i])
  {
    if i == 0 {
      InvInit(c, run[0]);
    } else {
      InvAlong(c, run, i - 1);
      assert Next(c, run[i - 1], run[i - 1 + 1]);
      var p: nat, step :| p < |c.work| && Enabled(c, run[i - 1], p, step) && run[i] == Apply(c, run[i - 1], p, step);
      InvStep(c, run[i - 1], p, step);
    }
  }

  // ---- the guarantees --------------------------------------------------------------------

  /**
   Serializability: `log` is a duplicate-free list of the phases that have had all their locks;
   each of them read exactly what the phases before it in the list leave behind when run alone,
   one after the other; and once nobody holds locks, so do the tables.
   */
  lemma EveryRunIsSerial(c: Config, run: seq<State>, i: nat)
    requires ValidConfig(c) && IsRun(c, run) && i < |run|
    ensures |run[i].stores| == c.servers && |run[i].phases| == |c.work|
    ensures forall p: nat :: p < |c.work| ==> (Locked(run[i].phases[p]) <==> p in run[i].log)
    ensures forall j, l :: 0 <= j < l < |run[i].log| ==> run[i].log[j] != run[i].log[l]
    ensures forall j :: 0 <= j < |run[i].log| ==> EntryOk(c, run[i], j)
    ensures forall k :: (forall p: nat :: !Writing(c, run[i], p, k)) ==> Answer(c, run[i], k) == Serial(c, run[i].log, k)
  {
    InvAlong(c, run, i);
    Consequences(c, run[i]);
  }

  lemma Consequences(c: Config, s: State)
    requires ValidConfig(c) && Inv(c, s)
    ensures forall p: nat :: p < |c.work| ==> (Locked(s.phases[p]) <==> p in s.log)
    ensures forall j :: 0 <= j < |s.log| ==> EntryOk(c, s, j)
    ensures forall k :: (forall p: nat :: !Writing(c, s, p, k)) ==> Answer(c, s, k) == Serial(c, s.log, k)
  {
    forall p: nat | p < |c.work| && p in s.log
      ensures Locked(s.phases[p])
    {
      var j :| 0 <= j < |s.log| && s.log[j] == p;
      assert EntryOk(c, s, j);
    }
    forall k | forall p: nat :: !Writing(c, s, p, k)
      ensures Answer(c, s, k) == Serial(c, s.log, k)
    {
      assert KeyOk(c, s, k);
    }
  }

  lemma LogGrows(c: Config, run: seq<State>, i: nat, j: nat)
    requires ValidConfig(c) && IsRun(c, run) && i <= j < |run|
    ensures run[i].log <= run[j].log
    decreases j - i
  {
    if i < j {
      LogGrows(c, run, i, j - 1);
      assert Next(c, run[j - 1], run[j - 1 + 1]);
    }
  }

  /** The serial order respects real time: a phase that is done precedes any that begins later. */
  lemma SerialOrderIsRealTime(c: Config, run: seq<State>, i: nat, j: nat, a: nat, b: nat)
    requires ValidConfig(c) && IsRun(c, run) && i <= j < |run|
    requires a < |run[j].log| && b < |run[j].log| && |run[i].phases| == |c.work|
    requires run[j].log[a] < |c.work| && run[j].log[b] < |c.work|
    requires run[i].phases[run[j].log[a]].stage == Done
    requires run[i].phases[run[j].log[b]].stage == Idle
    ensures a < b
  {
    EveryRunIsSerial(c, run, i);
    EveryRunIsSerial(c, run, j);
    LogGrows(c, run, i, j);
    var early, late := run[i].log, run[j].log;
    assert forall x :: 0 <= x < |early| ==> early[x] == late[x];
    assert late[a] in early && late[b] !in early;
    var x :| 0 <= x < |early| && early[x] == late[a];
  }
}
