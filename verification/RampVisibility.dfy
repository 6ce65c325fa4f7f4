/**
 Real-time visibility: while the commits of one key do not overtake each other, a read that begins
 after a write has returned gets it, or something newer, for every key; unless a slot tells it
 something torn that misleads it.
 */
module RampVisibility {
  import opened Data
  import opened Store
  import opened Ramp
  import opened RampSafety
  import opened RampReads
  import opened RampCoherence
  import opened RampTears

  /** The smallest timestamp a write can have. */
  const LOWEST := Timestamp(0, 1)

  // ---- what a reader has been told so far ------------------------------------------------------

  predicate HasReturned(s: State, t: Timestamp, k: Key) {
    t in s.writers && s.writers[t].phase == Returned && k in s.writers[t].writes
  }

  /** Nothing the reader must see of this key is newer; or the second round will ask again, and find it. */
  predicate NotBefore(at: Timestamp, t: Timestamp) {
    !at.Less(t) || (at.Less(ZERO) && t == LOWEST)
  }

  /** An announcement of `j` at this time leads to a version of `j`, or hides nothing the reader must see. */
  ghost predicate NameOk(s: State, r: Reader, j: Key, at: Timestamp) {
    GenuineTs(s, j, at) || forall t :: t in r.returnedBefore && HasReturned(s, t, j) ==> !t.Less(at)
  }

  ghost predicate ItemOk(s: State, r: Reader, k: Key, z: Item) {
    && (forall t :: t in r.returnedBefore && HasReturned(s, t, k) ==> NotBefore(z.ts, t))
    && (forall j :: j in z.trxKeys && j != k ==> NameOk(s, r, j, z.ts))
  }

  ghost predicate AskedOk(s: State, r: Reader, k: Key, at: Timestamp) {
    GenuineTs(s, k, at) && forall t :: t in r.returnedBefore && HasReturned(s, t, k) ==> !at.Less(t)
  }

  ghost predicate ResultFresh(s: State, r: Reader, k: Key)
    requires k in r.first && k in r.result
  {
    if k in r.repaired then forall t :: t in r.returnedBefore && HasReturned(s, t, k) ==> !r.result[k].ts.Less(t)
    else r.result[k] == r.first[k]
  }

  ghost predicate ReaderFresh(s: State, r: Reader) {
    && (forall t :: t in r.returnedBefore ==> t in s.writers && s.writers[t].phase == Returned)
    && (r.phase == FirstRound ==> r.repaired == {})
    && (forall k :: k in r.asked ==> AskedOk(s, r, k, r.asked[k]))
    && (forall k :: k in r.first ==> ItemOk(s, r, k, r.first[k]))
    && (r.phase != FirstRound ==>
          && r.first.Keys == r.result.Keys == r.keys && IsVLatest(r.first, r.vLatest)
          && forall k :: k in r.keys ==> ResultFresh(s, r, k))
    && (r.phase == Finished ==> forall k :: NeedsRepair(r, k) ==> k in r.repaired)
  }

  // ---- steps that are not the reader's -----------------------------------------------------------

  /** What has returned stays returned, and no publication is taken back. */
  ghost predicate Recalled(s: State, s': State, r: Reader) {
    && Grows(s, s')
    && forall t :: t in r.returnedBefore && t in s.writers && s.writers[t].phase == Returned ==> s'.writers[t].phase == Returned
  }

  lemma StepRecalls(c: Config, s: State, a: Action, r: Reader)
    requires ValidConfig(c) && |s.stores| == c.servers && WritersOk(s) && Enabled(c, s, a)
    ensures Recalled(s, Apply(c, s, a), r)
  {
    StepGrows(c, s, a);
  }

  lemma FreshStays(s: State, s': State, r: Reader)
    requires Recalled(s, s', r) && ReaderFresh(s, r)
    ensures ReaderFresh(s', r)
  {
    assert forall t, k :: t in r.returnedBefore ==> (HasReturned(s', t, k) <==> HasReturned(s, t, k));
    forall k | k in r.asked
      ensures AskedOk(s', r, k, r.asked[k])
    {
      assert AskedOk(s, r, k, r.asked[k]);
    }
    forall k | k in r.first
      ensures ItemOk(s', r, k, r.first[k])
    {
      ItemStaysOk(s, s', r, k, r.first[k]);
    }
    if r.phase != FirstRound {
      forall k | k in r.keys
        ensures ResultFresh(s', r, k)
      {
        assert ResultFresh(s, r, k);
      }
    }
  }

  lemma ItemStaysOk(s: State, s': State, r: Reader, k: Key, z: Item)
    requires Grows(s, s') && ItemOk(s, r, k, z)
    requires forall t, j :: t in r.returnedBefore ==> (HasReturned(s', t, j) <==> HasReturned(s, t, j))
    ensures ItemOk(s', r, k, z)
  {
    forall j | j in z.trxKeys && j != k
      ensures NameOk(s', r, j, z.ts)
    {
      assert NameOk(s, r, j, z.ts);
    }
  }

  // ---- the reader's steps ------------------------------------------------------------------------

  lemma GenuineNames(s: State, r: Reader, k: Key, z: Item)
    requires Genuine(s, k, z) && forall t :: t in r.returnedBefore && HasReturned(s, t, k) ==> !z.ts.Less(t)
    ensures ItemOk(s, r, k, z)
  {
    forall j | j in z.trxKeys && j != k
      ensures NameOk(s, r, j, z.ts)
    {
      assert GenuineTs(s, j, z.ts);
    }
  }

  /** What a slot shows when it is not torn is not older than a write that has returned. */
  lemma WholeIsOk(c: Config, s: State, r: Reader, k: Key, z: Item)
    requires ValidConfig(c) && SlotsInv(c, s) && IsWhole(c, s, k, z)
    ensures ItemOk(s, r, k, z)
  {
    OldAndNewAreGenuine(c, s, k);
    forall t | t in r.returnedBefore && HasReturned(s, t, k)
      ensures !z.ts.Less(t)
    {
      FirstRoundIsFresh(c, s, t, k);
    }
    GenuineNames(s, r, k, z);
  }

  lemma VersionIsOk(c: Config, s: State, r: Reader, k: Key)
    requires ValidConfig(c) && |s.stores| == c.servers && WritersOk(s) && VersionsOk(c, s) && k in r.asked && AskedOk(s, r, k, r.asked[k])
    ensures ItemOk(s, r, k, GetByVersion(s.stores[Home(c, k)], k, r.asked[k]))
  {
    GenuineVersion(c, s, k, r.asked[k]);
    GenuineNames(s, r, k, GetByVersion(s.stores[Home(c, k)], k, r.asked[k]));
  }

  lemma LatestIsOk(c: Config, s: State, r: Reader, k: Key)
    requires ValidConfig(c) && SlotsInv(c, s)
    ensures AskedOk(s, r, k, Latest(s.stores[Home(c, k)], k))
  {
    assert GenuineTs(s, k, Latest(s.stores[Home(c, k)], k));
    forall t | t in r.returnedBefore && HasReturned(s, t, k)
      ensures !Latest(s.stores[Home(c, k)], k).Less(t)
    {
      FirstRoundIsFresh(c, s, t, k);
    }
  }

  /** The announcement that a repair follows comes from another key. */
  lemma RepairIsNamed(s: State, r: Reader, k: Key)
    requires ReaderFresh(s, r) && r.phase != FirstRound && NeedsRepair(r, k)
    ensures var at := Lookup(r.vLatest, k); !at.Less(ZERO) && (at != ZERO ==> NameOk(s, r, k, at))
  {
    var at := Lookup(r.vLatest, k);
    if at != ZERO {
      var b :| b in r.first && k in r.first[b].trxKeys && r.first[b].ts == at;
      assert ItemOk(s, r, b, r.first[b]);
    }
  }

  /** What a repair returns is not older than a write that the reader must see. */
  lemma RepairIsFresh(c: Config, s: State, r: Reader, k: Key, t: Timestamp)
    requires ValidConfig(c) && SlotsInv(c, s) && ReaderFresh(s, r) && r.phase != FirstRound && NeedsRepair(r, k)
    requires t in r.returnedBefore && HasReturned(s, t, k)
    ensures !Reply(s.stores[Home(c, k)], k, Lookup(r.vLatest, k)).ts.Less(t)
  {
    var at := Lookup(r.vLatest, k);
    RepairIsNamed(s, r, k);
    assert ItemOk(s, r, k, r.first[k]) && WriterOk(t, s.writers[t]);
    if at == ZERO {
      LatestIsOk(c, s, r, k);
      GenuineVersion(c, s, k, Latest(s.stores[Home(c, k)], k));
    } else {
      NamedIsNewer(s, r, k, t, at);
      GenuineVersion(c, s, k, at);
    }
  }

  lemma NamedIsNewer(s: State, r: Reader, k: Key, t: Timestamp, at: Timestamp)
    requires k in r.first && ItemOk(s, r, k, r.first[k]) && at.Greater(r.first[k].ts) && NameOk(s, r, k, at)
    requires !at.Less(ZERO) && at != ZERO && ZERO.Less(t) && t in r.returnedBefore && HasReturned(s, t, k)
    ensures GenuineTs(s, k, at) && !at.Less(t)
  {
    assert NotBefore(r.first[k].ts, t);
  }

  // ---- one reader along a run --------------------------------------------------------------------

  /** Reader `id`, if it has begun, will see what had returned before. */
  ghost predicate SeesAll(s: State, id: nat) {
    id in s.readers ==> ReaderFresh(s, s.readers[id])
  }

  /** If reader `id` reads a slot here, nothing it must see gets hidden. */
  ghost predicate ReadsHarmless(s: State, a: Action, id: nat) {
    ReadsSlot(a) && a.reader == id && id in s.readers ==> ItemOk(s, s.readers[id], a.rstep.key, a.rstep.item)
  }

  lemma TableReadIsFresh(c: Config, s: State, r: Reader, k: Key)
    requires ValidConfig(c) && SlotsInv(c, s) && ReaderFresh(s, r)
    ensures ReaderFresh(s, r.(asked := r.asked[k := Latest(s.stores[Home(c, k)], k)]))
  {
    LatestIsOk(c, s, r, k);
    SameFresh(s, r, r.(asked := r.asked[k := Latest(s.stores[Home(c, k)], k)]));
  }

  lemma FirstIsFresh(s: State, r: Reader, k: Key, z: Item)
    requires ReaderFresh(s, r) && r.phase == FirstRound && ItemOk(s, r, k, z)
    ensures ReaderFresh(s, r.(first := r.first[k := z]))
  {
    var r' := r.(first := r.first[k := z]);
    forall j | j in r'.first
      ensures ItemOk(s, r', j, r'.first[j])
    {
      assert ItemOk(s, r, j, r'.first[j]);
      SameItem(s, r, r', j, r'.first[j]);
    }
    SameAsked(s, r, r');
  }

  lemma SameItem(s: State, r: Reader, r': Reader, j: Key, z: Item)
    requires r'.returnedBefore == r.returnedBefore && ItemOk(s, r, j, z)
    ensures ItemOk(s, r', j, z)
  {
    forall i | i in z.trxKeys && i != j
      ensures NameOk(s, r', i, z.ts)
    {
      assert NameOk(s, r, i, z.ts);
    }
  }

  lemma SameAsked(s: State, r: Reader, r': Reader)
    requires r'.returnedBefore == r.returnedBefore && r'.asked == r.asked && forall k :: k in r.asked ==> AskedOk(s, r, k, r.asked[k])
    ensures forall k :: k in r'.asked ==> AskedOk(s, r', k, r'.asked[k])
  {
    forall k | k in r'.asked
      ensures AskedOk(s, r', k, r'.asked[k])
    {
      assert AskedOk(s, r, k, r.asked[k]);
    }
  }

  lemma SameFirst(s: State, r: Reader, r': Reader)
    requires r'.returnedBefore == r.returnedBefore && r'.first == r.first && forall k :: k in r.first ==> ItemOk(s, r, k, r.first[k])
    ensures forall k :: k in r'.first ==> ItemOk(s, r', k, r'.first[k])
  {
    forall k | k in r'.first
      ensures ItemOk(s, r', k, r'.first[k])
    {
      SameItem(s, r, r', k, r.first[k]);
    }
  }

  lemma SameFresh(s: State, r: Reader, r': Reader)
    requires ReaderFresh(s, r) && r' == r.(asked := r'.asked, phase := r'.phase)
    requires forall k :: k in r'.asked ==> AskedOk(s, r, k, r'.asked[k])
    requires r'.phase == r.phase || (r.phase == SecondRound && r'.phase == Finished && forall k :: NeedsRepair(r, k) ==> k in r.repaired)
    ensures ReaderFresh(s, r')
  {
    SameFirst(s, r, r');
    forall k | k in r'.asked
      ensures AskedOk(s, r', k, r'.asked[k])
    {
      assert AskedOk(s, r, k, r'.asked[k]);
    }
    if r'.phase != FirstRound {
      forall k | k in r'.keys
        ensures ResultFresh(s, r', k)
      {
        assert ResultFresh(s, r, k);
      }
    }
    assert forall k :: NeedsRepair(r', k) <==> NeedsRepair(r, k);
  }

  lemma SecondRoundIsFresh(s: State, r: Reader, v: map<Key, Timestamp>)
    requires ReaderFresh(s, r) && r.phase == FirstRound && r.first.Keys == r.keys && IsVLatest(r.first, v)
    ensures ReaderFresh(s, r.(phase := SecondRound, vLatest := v, result := r.first))
  {
    var r' := r.(phase := SecondRound, vLatest := v, result := r.first);
    SameFirst(s, r, r');
    SameAsked(s, r, r');
  }

  lemma RepairStaysFresh(s: State, r: Reader, k: Key, item: Item)
    requires ReaderFresh(s, r) && r.phase == SecondRound && NeedsRepair(r, k)
    requires forall t :: t in r.returnedBefore && HasReturned(s, t, k) ==> !item.ts.Less(t)
    ensures ReaderFresh(s, r.(repaired := r.repaired + {k}, result := r.result[k := item]))
  {
    var r' := r.(repaired := r.repaired + {k}, result := r.result[k := item]);
    SameFirst(s, r, r');
    SameAsked(s, r, r');
    assert r'.result.Keys == r.result.Keys;
    forall j | j in r'.keys
      ensures ResultFresh(s, r', j)
    {
      assert ResultFresh(s, r, j);
    }
  }

  lemma FreshAfterGet(c: Config, s: State, id: nat, step: ReaderStep)
    requires ValidConfig(c) && SlotsInv(c, s) && Enabled(c, s, Get(id, step)) && ReaderFresh(s, s.readers[id])
    requires ReadsHarmless(s, Get(id, step), id)
    ensures ReaderFresh(s, ReaderAfter(c, s.stores[ReaderServer(c, step)], s.changing, s.readers[id], step))
  {
    var r, st := s.readers[id], s.stores[ReaderServer(c, step)];
    match step
    case ReadTimestamp(key) => TableReadIsFresh(c, s, r, key);
    case ReadVersion(key) =>
      VersionIsOk(c, s, r, key);
      FirstIsFresh(s, r, key, GetByVersion(st, key, r.asked[key]));
    case ReadSlot(key, item) => FirstIsFresh(s, r, key, item);
    case BeginRepair(v) => SecondRoundIsFresh(s, r, v);
    case Repair(key) =>
      forall t | t in r.returnedBefore && HasReturned(s, t, key)
        ensures !Reply(st, key, Lookup(r.vLatest, key)).ts.Less(t)
      {
        RepairIsFresh(c, s, r, key, t);
      }
      RepairStaysFresh(s, r, key, Reply(st, key, Lookup(r.vLatest, key)));
    case FinishGet => SameFresh(s, r, r.(phase := Finished));
  }

  lemma FreshStep(c: Config, s: State, a: Action, id: nat)
    requires ValidConfig(c) && SlotsInv(c, s) && Enabled(c, s, a) && SeesAll(s, id) && ReadsHarmless(s, a, id)
    ensures SeesAll(Apply(c, s, a), id)
  {
    var s' := Apply(c, s, a);
    if a.Get? && a.reader == id {
      FreshAfterGet(c, s, id, a.rstep);
      StepRecalls(c, s, a, s'.readers[id]);
      FreshStays(s, s', s'.readers[id]);
    } else if id in s.readers {
      StepRecalls(c, s, a, s.readers[id]);
      FreshStays(s, s', s.readers[id]);
    }
  }

  ghost predicate NextHarmless(c: Config, s: State, s': State, id: nat)
    requires ValidConfig(c)
  {
    |s.stores| == c.servers && exists a :: Enabled(c, s, a) && ReadsHarmless(s, a, id) && s' == Apply(c, s, a)
  }

  lemma FreshNext(c: Config, s: State, s': State, id: nat)
    requires ValidConfig(c) && SlotsInv(c, s) && NextHarmless(c, s, s', id) && SeesAll(s, id)
    ensures SeesAll(s', id)
  {
    var a :| Enabled(c, s, a) && ReadsHarmless(s, a, id) && s' == Apply(c, s, a);
    FreshStep(c, s, a, id);
  }

  lemma WholeIsHarmless(c: Config, s: State, s': State, id: nat)
    requires ValidConfig(c) && SlotsInv(c, s) && NextWhole(c, s, s', id)
    ensures NextHarmless(c, s, s', id)
  {
    var a :| Enabled(c, s, a) && ReadsWhole(c, s, a, id) && s' == Apply(c, s, a);
    if ReadsSlot(a) && a.reader == id {
      WholeIsOk(c, s, s.readers[id], a.rstep.key, a.rstep.item);
    }
    assert ReadsHarmless(s, a, id);
  }

  lemma {:induction false} FreshAlong(c: Config, run: seq<State>, i: nat, id: nat)
    requires ValidConfig(c) && IsRun(c, run) && IsOrderly(c, run) && i < |run| && UntornUntil(c, run, i, id)
    ensures SeesAll(run[i], id)
  {
    if i > 0 {
      FreshAlong(c, run, i - 1, id);
      SlotsAlong(c, run, i - 1);
      assert NextWhole(c, run[i - 1], run[i - 1 + 1], id);
      WholeIsHarmless(c, run[i - 1], run[i], id);
      FreshNext(c, run[i - 1], run[i], id);
    }
  }

  // ---- the guarantees ----------------------------------------------------------------------------

  lemma ReturnedStays(c: Config, s: State, a: Action, ts: Timestamp, id: nat)
    requires ValidConfig(c) && |s.stores| == c.servers && Enabled(c, s, a)
    requires ts in s.writers && s.writers[ts].phase == Returned
    requires id in s.readers ==> ts in s.readers[id].returnedBefore
    ensures Recalls(Apply(c, s, a), s.writers[ts].writes, ts, id)
  {
  }

  /** The transaction has returned with these writes, and the reader, if it has begun, knows. */
  predicate Recalls(s: State, writes: map<Key, Values>, ts: Timestamp, id: nat) {
    && ts in s.writers && s.writers[ts].phase == Returned && s.writers[ts].writes == writes
    && (id in s.readers ==> ts in s.readers[id].returnedBefore)
  }

  lemma RecallsStep(c: Config, s: State, s': State, writes: map<Key, Values>, ts: Timestamp, id: nat)
    requires ValidConfig(c) && Next(c, s, s') && Recalls(s, writes, ts, id)
    ensures Recalls(s', writes, ts, id)
  {
    var a :| Enabled(c, s, a) && s' == Apply(c, s, a);
    ReturnedStays(c, s, a, ts, id);
  }

  lemma RunNext(c: Config, run: seq<State>, j: nat)
    requires ValidConfig(c) && IsRun(c, run) && 0 < j < |run|
    ensures Next(c, run[j - 1], run[j])
  {
    assert Next(c, run[j - 1], run[j - 1 + 1]);
  }

  /** What has returned stays returned, and readers that begin later remember it. */
  lemma {:induction false} ReturnedIsRemembered(c: Config, run: seq<State>, i: nat, j: nat, ts: Timestamp, id: nat)
    requires ValidConfig(c) && IsRun(c, run) && i <= j < |run|
    requires ts in run[i].writers && run[i].writers[ts].phase == Returned && id !in run[i].readers
    ensures Recalls(run[j], run[i].writers[ts].writes, ts, id)
    decreases j
  {
    if i < j {
      ReturnedIsRemembered(c, run, i, j - 1, ts, id);
      RunNext(c, run, j);
      RecallsStep(c, run[j - 1], run[j], run[i].writers[ts].writes, ts, id);
    }
  }

  predicate MustSee(s: State, id: nat, ts: Timestamp, key: Key) {
    && id in s.readers && s.readers[id].phase == Finished && key in s.readers[id].keys
    && ts in s.readers[id].returnedBefore && ts in s.writers && key in s.writers[ts].writes
  }

  /** The read that began after the write had returned has it, or something newer, for this key. */
  predicate Sees(s: State, id: nat, ts: Timestamp, key: Key) {
    id in s.readers && key in s.readers[id].result && !s.readers[id].result[key].ts.Less(ts)
  }

  lemma FreshWhenFinished(s: State, id: nat, ts: Timestamp, key: Key)
    requires WritersOk(s) && SeesAll(s, id) && MustSee(s, id, ts, key)
    ensures Sees(s, id, ts, key)
  {
    var r := s.readers[id];
    assert HasReturned(s, ts, key) && ResultFresh(s, r, key) && WriterOk(ts, s.writers[ts]);
    assert ItemOk(s, r, key, r.first[key]);
    assert key !in r.repaired ==> NotBefore(r.first[key].ts, ts) && !NeedsRepair(r, key);
  }

  /**
   A read that begins after `put_all` has returned sees it, or newer, on every key: in every orderly
   run, as long as none of its own slot reads returns a third item.
   */
  lemma FinishedWritesAreVisible(c: Config, run: seq<State>, i: nat, j: nat, ts: Timestamp, id: nat, key: Key)
    requires ValidConfig(c) && IsRun(c, run) && IsOrderly(c, run) && i <= j < |run| && UntornUntil(c, run, j, id)
    requires ts in run[i].writers && run[i].writers[ts].phase == Returned && key in run[i].writers[ts].writes
    requires id !in run[i].readers
    requires id in run[j].readers && run[j].readers[id].phase == Finished && key in run[j].readers[id].keys
    ensures Sees(run[j], id, ts, key)
  {
    ReturnedIsRemembered(c, run, i, j, ts, id);
    InvAlong(c, run, j);
    FreshAlong(c, run, j, id);
    FreshWhenFinished(run[j], id, ts, key);
  }

  /** A read of RAMP-Fast, which only asks servers, needs no condition on slots at all. */
  lemma ServerReadsSeeFinishedWrites(c: Config, run: seq<State>, i: nat, ts: Timestamp, id: nat, key: Key)
    requires ValidConfig(c) && IsRun(c, run) && IsOrderly(c, run) && i < |run| && AsksServers(c, run, i, id)
    requires MustSee(run[i], id, ts, key)
    ensures Sees(run[i], id, ts, key)
  {
    AskingIsUntorn(c, run, i, id);
    InvAlong(c, run, i);
    FreshAlong(c, run, i, id);
    FreshWhenFinished(run[i], id, ts, key);
  }
}
