/**
 Read Atomic isolation: a read none of whose slot reads returned a third item sees no half of a
 transaction, and no item that nobody wrote. When slots can be torn, and what that does to reads,
 is the subject of `RampTears` and `RampUnfractured`.
 */
module RampReads {
  import opened Data
  import opened Slot
  import opened Store
  import opened Ramp
  import opened RampSafety

  // ---- what a reader has been told so far ------------------------------------------------------

  function Others(item: Item, key: Key): set<Key> {
    item.trxKeys - {key}
  }

  /**
   Not what was written, perhaps, but nothing that misleads about other keys: the item announces
   none, or all those that one publishing transaction wrote under this timestamp.
   */
  predicate Plausible(s: State, key: Key, item: Item) {
    && !item.ts.Less(ZERO)
    && (item.ts == ZERO || Others(item, key) == {}
        || (GenuineTs(s, key, item.ts) && Others(item, key) == s.writers[item.ts].writes.Keys - {key}))
  }

  lemma GenuineIsPlausible(s: State, key: Key, item: Item)
    requires WritersOk(s) && Genuine(s, key, item)
    ensures Plausible(s, key, item)
  {
    assert item.ts in s.writers ==> WriterOk(item.ts, s.writers[item.ts]);
  }

  ghost predicate ReaderOk(s: State, r: Reader) {
    && r.first.Keys <= r.keys
    && (r.phase == FirstRound ==> r.repaired == {})
    && (forall k :: k in r.asked ==> k in r.keys && GenuineTs(s, k, r.asked[k]))
    && (forall k :: k in r.first ==> Plausible(s, k, r.first[k]))
    && (r.phase != FirstRound ==>
          && r.first.Keys == r.result.Keys == r.keys
          && IsVLatest(r.first, r.vLatest)
          && (forall k :: k in r.keys ==> ResultOk(s, r, k)))
    && (r.phase == Finished ==>
          forall k :: k in r.keys && Lookup(r.vLatest, k).Greater(r.first[k].ts) ==> k in r.repaired)
  }

  /** A repaired key has the version announced; the others have what the first round returned. */
  predicate ResultOk(s: State, r: Reader, k: Key)
    requires k in r.first && k in r.result
  {
    if k in r.repaired
    then Genuine(s, k, r.result[k]) && r.result[k].ts == Lookup(r.vLatest, k) && r.result[k].ts.Greater(r.first[k].ts)
    else r.result[k] == r.first[k]
  }

  ghost predicate FirstIsGenuine(s: State, r: Reader) {
    forall k :: k in r.first ==> Genuine(s, k, r.first[k])
  }

  lemma ReaderGrows(s: State, s': State, r: Reader)
    requires Grows(s, s') && ReaderOk(s, r)
    ensures ReaderOk(s', r)
  {
    if r.phase != FirstRound {
      forall k | k in r.keys
        ensures ResultOk(s', r, k)
      {
        assert ResultOk(s, r, k);
      }
    }
  }

  lemma FirstGrows(s: State, s': State, r: Reader)
    requires Grows(s, s') && FirstIsGenuine(s, r)
    ensures FirstIsGenuine(s', r)
  {
    forall k | k in r.first
      ensures Genuine(s', k, r.first[k])
    {
      GenuineGrows(s, s', k, r.first[k]);
    }
  }

  // ---- slot reads ------------------------------------------------------------------------------

  predicate ReadsSlot(a: Action) {
    a.Get? && a.rstep.ReadSlot?
  }

  /** The item is what the slot of `k` holds, or what is being copied into it. */
  predicate IsWhole(c: Config, s: State, k: Key, z: Item)
    requires ValidConfig(c) && |s.stores| == c.servers
  {
    var slots := s.stores[Home(c, k)].slots;
    (k in s.changing && z == s.changing[k]) || (k in slots && slots[k] == Got(z))
  }

  /** If reader `id` reads a slot here, it gets no third item. */
  ghost predicate ReadsWhole(c: Config, s: State, a: Action, id: nat)
    requires ValidConfig(c) && |s.stores| == c.servers
  {
    ReadsSlot(a) && a.reader == id ==> IsWhole(c, s, a.rstep.key, a.rstep.item)
  }

  ghost predicate NextWhole(c: Config, s: State, s': State, id: nat)
    requires ValidConfig(c)
  {
    |s.stores| == c.servers && exists a :: Enabled(c, s, a) && ReadsWhole(c, s, a, id) && s' == Apply(c, s, a)
  }

  /** Up to the state at `i`, no slot read of reader `id` has returned a third item. */
  ghost predicate UntornUntil(c: Config, run: seq<State>, i: nat, id: nat)
    requires ValidConfig(c) && i < |run|
  {
    forall j :: 0 <= j < i ==> NextWhole(c, run[j], run[j + 1], id)
  }

  /** No update is overwriting a valid slot. */
  ghost predicate QuietRewrites(c: Config, s: State)
    requires ValidConfig(c) && |s.stores| == c.servers
  {
    forall k :: k in s.changing ==> var slots := s.stores[Home(c, k)].slots; k in slots && !slots[k].Got?
  }

  lemma QuietReadsAreWhole(c: Config, s: State, s': State, id: nat)
    requires ValidConfig(c) && Next(c, s, s') && QuietRewrites(c, s)
    ensures NextWhole(c, s, s', id)
  {
    var a :| Enabled(c, s, a) && s' == Apply(c, s, a);
    assert ReadsWhole(c, s, a, id);
  }

  /** If reader `id` reads a slot here, it gets the initial item, or what a transaction wrote. */
  ghost predicate ReadsTrue(s: State, a: Action, id: nat) {
    ReadsSlot(a) && a.reader == id ==> Genuine(s, a.rstep.key, a.rstep.item)
  }

  ghost predicate NextTrue(c: Config, s: State, s': State, id: nat)
    requires ValidConfig(c)
  {
    |s.stores| == c.servers && exists a :: Enabled(c, s, a) && ReadsTrue(s, a, id) && s' == Apply(c, s, a)
  }

  ghost predicate TrueUntil(c: Config, run: seq<State>, i: nat, id: nat)
    requires ValidConfig(c) && i < |run|
  {
    forall j :: 0 <= j < i ==> NextTrue(c, run[j], run[j + 1], id)
  }

  /** If reader `id` reads a slot here, the item does not mislead it about other keys. */
  ghost predicate ReadsPlausibly(s: State, a: Action, id: nat) {
    ReadsSlot(a) && a.reader == id ==> Plausible(s, a.rstep.key, a.rstep.item)
  }

  ghost predicate NextPlausible(c: Config, s: State, s': State, id: nat)
    requires ValidConfig(c)
  {
    |s.stores| == c.servers && exists a :: Enabled(c, s, a) && ReadsPlausibly(s, a, id) && s' == Apply(c, s, a)
  }

  ghost predicate PlausibleUntil(c: Config, run: seq<State>, i: nat, id: nat)
    requires ValidConfig(c) && i < |run|
  {
    forall j :: 0 <= j < i ==> NextPlausible(c, run[j], run[j + 1], id)
  }

  lemma NextWholeIsTrue(c: Config, s: State, s': State, id: nat)
    requires ValidConfig(c) && Inv(c, s) && NextWhole(c, s, s', id)
    ensures NextTrue(c, s, s', id)
  {
    var a :| Enabled(c, s, a) && ReadsWhole(c, s, a, id) && s' == Apply(c, s, a);
    if ReadsSlot(a) {
      OldAndNewAreGenuine(c, s, a.rstep.key);
    }
    assert ReadsTrue(s, a, id);
  }

  lemma NextTrueIsPlausible(c: Config, s: State, s': State, id: nat)
    requires ValidConfig(c) && WritersOk(s) && NextTrue(c, s, s', id)
    ensures NextPlausible(c, s, s', id)
  {
    var a :| Enabled(c, s, a) && ReadsTrue(s, a, id) && s' == Apply(c, s, a);
    if ReadsSlot(a) && a.reader == id {
      GenuineIsPlausible(s, a.rstep.key, a.rstep.item);
    }
    assert ReadsPlausibly(s, a, id);
  }

  lemma UntornIsTrue(c: Config, run: seq<State>, i: nat, id: nat)
    requires ValidConfig(c) && IsRun(c, run) && i < |run| && UntornUntil(c, run, i, id)
    ensures TrueUntil(c, run, i, id)
  {
    forall j | 0 <= j < i
      ensures NextTrue(c, run[j], run[j + 1], id)
    {
      InvAlong(c, run, j);
      NextWholeIsTrue(c, run[j], run[j + 1], id);
    }
  }

  lemma TrueIsPlausible(c: Config, run: seq<State>, i: nat, id: nat)
    requires ValidConfig(c) && IsRun(c, run) && i < |run| && TrueUntil(c, run, i, id)
    ensures PlausibleUntil(c, run, i, id)
  {
    forall j | 0 <= j < i
      ensures NextPlausible(c, run[j], run[j + 1], id)
    {
      InvAlong(c, run, j);
      NextTrueIsPlausible(c, run[j], run[j + 1], id);
    }
  }

  /** Whoever is handed the address of a key is handed that of a slot. */
  ghost predicate HandedOk(c: Config, s: State)
    requires ValidConfig(c)
  {
    |s.stores| == c.servers && forall k :: k in s.handed ==> k in s.stores[Home(c, k)].slots
  }

  lemma HandedStep(c: Config, s: State, a: Action, k: Key)
    requires ValidConfig(c) && HandedOk(c, s) && Enabled(c, s, a) && k in Apply(c, s, a).handed
    ensures k in Apply(c, s, a).stores[Home(c, k)].slots
  {
    if !a.Put? {
      HarmlessStep(c, s, a, Home(c, k));
    }
  }

  lemma {:induction false} HandedAlong(c: Config, run: seq<State>, i: nat)
    requires ValidConfig(c) && IsRun(c, run) && i < |run|
    ensures HandedOk(c, run[i])
  {
    if i > 0 {
      HandedAlong(c, run, i - 1);
      var a := StepAt(c, run, i);
      forall k | k in run[i].handed
        ensures k in run[i].stores[Home(c, k)].slots
      {
        HandedStep(c, run[i - 1], a, k);
      }
    }
  }

  /** Asking for the latest timestamp leaves the key an entry in the table, and moves no answer. */
  lemma AskingLeavesEntry(c: Config, s: State, id: nat, k: Key, other: Key)
    requires ValidConfig(c) && |s.stores| == c.servers && Enabled(c, s, Get(id, ReadTimestamp(k)))
    ensures var h, s' := Home(c, k), Apply(c, s, Get(id, ReadTimestamp(k)));
            k in s'.stores[h].latest && Latest(s'.stores[h], other) == Latest(s.stores[h], other)
  {
  }

  /** A key that nobody has written gets a slot without data, which a reader can read at once. */
  lemma NewSlotIsRead(c: Config, s: State, k: Key) returns (item: Item)
    requires ValidConfig(c) && Inv(c, s) && k !in s.stores[Home(c, k)].slots
    ensures NoData(item, k)
    ensures var s' := Apply(c, s, HandOutSlot(k));
            k in s'.handed && forall z :: SlotShows(c, s'.stores[Home(c, k)], s'.changing, k, z) <==> z == item
  {
    item := InitialItem(k);
    if k in s.changing {
      ChangingIsGenuine(c, s, k);
    }
  }

  // ---- a reader's steps ------------------------------------------------------------------------

  /** A repair asks for a timestamp that another key announces, and that has been prepared for this one too. */
  lemma RepairIsPublished(s: State, r: Reader, key: Key)
    requires ReaderOk(s, r) && r.phase != FirstRound && NeedsRepair(r, key)
    ensures Lookup(r.vLatest, key) != ZERO && GenuineTs(s, key, Lookup(r.vLatest, key))
  {
    assert Plausible(s, key, r.first[key]);
    var x :| x in r.first && key in r.first[x].trxKeys && r.first[x].ts == Lookup(r.vLatest, key);
    assert Plausible(s, x, r.first[x]) && key in Others(r.first[x], x);
  }

  /** The version that a repair fetches is the one announced. */
  lemma RepairFetches(c: Config, s: State, r: Reader, key: Key)
    requires ValidConfig(c) && |s.stores| == c.servers && WritersOk(s) && VersionsOk(c, s)
    requires ReaderOk(s, r) && r.phase != FirstRound && NeedsRepair(r, key)
    ensures var item := Reply(s.stores[Home(c, key)], key, Lookup(r.vLatest, key));
            Genuine(s, key, item) && item.ts == Lookup(r.vLatest, key) && item.ts != ZERO
  {
    RepairIsPublished(s, r, key);
    GenuineVersion(c, s, key, Lookup(r.vLatest, key));
  }

  lemma AskedStaysOk(c: Config, s: State, r: Reader, key: Key)
    requires ValidConfig(c) && |s.stores| == c.servers && PublishedOk(s) && ReaderOk(s, r) && key in r.keys
    ensures ReaderOk(s, r.(asked := r.asked[key := Latest(s.stores[Home(c, key)], key)]))
  {
    assert GenuineTs(s, key, Latest(s.stores[Home(c, key)], key));
    SameResults(s, r, r.(asked := r.asked[key := Latest(s.stores[Home(c, key)], key)]));
  }

  lemma SameResults(s: State, r: Reader, r': Reader)
    requires r.phase != FirstRound && r.first.Keys == r.result.Keys == r.keys ==> forall k :: k in r.keys ==> ResultOk(s, r, k)
    requires r'.keys == r.keys && r'.first == r.first && r'.result == r.result && r'.repaired == r.repaired && r'.vLatest == r.vLatest
    ensures r.phase != FirstRound && r.first.Keys == r.result.Keys == r.keys ==> forall k :: k in r.keys ==> ResultOk(s, r', k)
  {
    if r.phase != FirstRound && r.first.Keys == r.result.Keys == r.keys {
      forall k | k in r.keys
        ensures ResultOk(s, r', k)
      {
        assert ResultOk(s, r, k);
      }
    }
  }

  lemma FirstRoundStaysOk(s: State, r: Reader, key: Key, item: Item)
    requires ReaderOk(s, r) && r.phase == FirstRound && key in r.keys && Plausible(s, key, item)
    ensures ReaderOk(s, r.(first := r.first[key := item]))
  {
  }

  lemma SecondRoundIsOk(s: State, r: Reader, v: map<Key, Timestamp>)
    requires ReaderOk(s, r) && r.phase == FirstRound && r.first.Keys == r.keys && IsVLatest(r.first, v)
    ensures ReaderOk(s, r.(phase := SecondRound, vLatest := v, result := r.first))
  {
  }

  lemma RepairStaysOk(s: State, r: Reader, key: Key, item: Item)
    requires ReaderOk(s, r) && r.phase == SecondRound && NeedsRepair(r, key)
    requires Genuine(s, key, item) && item.ts == Lookup(r.vLatest, key)
    ensures ReaderOk(s, r.(repaired := r.repaired + {key}, result := r.result[key := item]))
  {
    var r' := r.(repaired := r.repaired + {key}, result := r.result[key := item]);
    assert r'.result.Keys == r.result.Keys;
    forall k | k in r.keys
      ensures ResultOk(s, r', k)
    {
      assert ResultOk(s, r, k);
    }
  }

  lemma FinishIsOk(s: State, r: Reader)
    requires ReaderOk(s, r) && r.phase == SecondRound && forall k :: NeedsRepair(r, k) ==> k in r.repaired
    ensures ReaderOk(s, r.(phase := Finished))
  {
    SameResults(s, r, r.(phase := Finished));
  }

  lemma ReaderAfterGet(c: Config, s: State, id: nat, step: ReaderStep)
    requires ValidConfig(c) && Inv(c, s) && Enabled(c, s, Get(id, step)) && ReaderOk(s, s.readers[id])
    requires ReadsPlausibly(s, Get(id, step), id)
    ensures ReaderOk(s, ReaderAfter(c, s.stores[ReaderServer(c, step)], s.changing, s.readers[id], step))
  {
    var r, st := s.readers[id], s.stores[ReaderServer(c, step)];
    match step
    case ReadTimestamp(key) => AskedStaysOk(c, s, r, key);
    case ReadVersion(key) =>
      GenuineVersion(c, s, key, r.asked[key]);
      GenuineIsPlausible(s, key, GetByVersion(st, key, r.asked[key]));
      FirstRoundStaysOk(s, r, key, GetByVersion(st, key, r.asked[key]));
    case ReadSlot(key, item) => FirstRoundStaysOk(s, r, key, item);
    case BeginRepair(v) => SecondRoundIsOk(s, r, v);
    case Repair(key) =>
      RepairFetches(c, s, r, key);
      RepairStaysOk(s, r, key, Reply(st, key, Lookup(r.vLatest, key)));
    case FinishGet => FinishIsOk(s, r);
  }

  // ---- whole runs ------------------------------------------------------------------------------

  /** Nothing has misled reader `id` so far, if it has begun. */
  ghost predicate NotMisled(s: State, id: nat) {
    id in s.readers ==> ReaderOk(s, s.readers[id])
  }

  lemma ReaderStaysOk(c: Config, s: State, a: Action, id: nat)
    requires ValidConfig(c) && Inv(c, s) && Enabled(c, s, a) && NotMisled(s, id) && ReadsPlausibly(s, a, id)
    ensures NotMisled(Apply(c, s, a), id)
  {
    var s' := Apply(c, s, a);
    StepGrows(c, s, a);
    if a.Get? && a.reader == id {
      ReaderAfterGet(c, s, id, a.rstep);
      ReaderGrows(s, s', s'.readers[id]);
    } else if id in s.readers {
      ReaderGrows(s, s', s.readers[id]);
    }
  }

  lemma ReaderNext(c: Config, s: State, s': State, id: nat)
    requires ValidConfig(c) && Inv(c, s) && NextPlausible(c, s, s', id) && NotMisled(s, id)
    ensures NotMisled(s', id)
  {
    var a :| Enabled(c, s, a) && ReadsPlausibly(s, a, id) && s' == Apply(c, s, a);
    ReaderStaysOk(c, s, a, id);
  }

  lemma {:induction false} ReaderAlong(c: Config, run: seq<State>, i: nat, id: nat)
    requires ValidConfig(c) && IsRun(c, run) && i < |run| && PlausibleUntil(c, run, i, id)
    ensures NotMisled(run[i], id)
  {
    if i > 0 {
      ReaderAlong(c, run, i - 1, id);
      InvAlong(c, run, i - 1);
      assert NextPlausible(c, run[i - 1], run[i - 1 + 1], id);
      ReaderNext(c, run[i - 1], run[i], id);
    }
  }

  /** Reader `id` has been told nothing but the truth so far, if it has begun. */
  ghost predicate KnowsTruth(s: State, id: nat) {
    id in s.readers ==> FirstIsGenuine(s, s.readers[id])
  }

  lemma TruthStays(c: Config, s: State, a: Action, id: nat)
    requires ValidConfig(c) && Inv(c, s) && Enabled(c, s, a) && NotMisled(s, id) && KnowsTruth(s, id) && ReadsTrue(s, a, id)
    ensures KnowsTruth(Apply(c, s, a), id)
  {
    var s' := Apply(c, s, a);
    StepGrows(c, s, a);
    if a.Get? && a.reader == id {
      FirstAfterGet(c, s, id, a.rstep);
      FirstGrows(s, s', s'.readers[id]);
    } else if id in s.readers {
      FirstGrows(s, s', s.readers[id]);
    }
  }

  lemma TruthNext(c: Config, s: State, s': State, id: nat)
    requires ValidConfig(c) && Inv(c, s) && NextTrue(c, s, s', id) && NotMisled(s, id) && KnowsTruth(s, id)
    ensures KnowsTruth(s', id)
  {
    var a :| Enabled(c, s, a) && ReadsTrue(s, a, id) && s' == Apply(c, s, a);
    TruthStays(c, s, a, id);
  }

  lemma FirstAfterGet(c: Config, s: State, id: nat, step: ReaderStep)
    requires ValidConfig(c) && Inv(c, s) && Enabled(c, s, Get(id, step)) && ReadsTrue(s, Get(id, step), id)
    requires ReaderOk(s, s.readers[id]) && FirstIsGenuine(s, s.readers[id])
    ensures FirstIsGenuine(s, ReaderAfter(c, s.stores[ReaderServer(c, step)], s.changing, s.readers[id], step))
  {
    if step.ReadVersion? {
      GenuineVersion(c, s, step.key, s.readers[id].asked[step.key]);
    }
  }

  lemma {:induction false} TruthAlong(c: Config, run: seq<State>, i: nat, id: nat)
    requires ValidConfig(c) && IsRun(c, run) && i < |run| && TrueUntil(c, run, i, id)
    ensures NotMisled(run[i], id) && KnowsTruth(run[i], id)
  {
    TrueIsPlausible(c, run, i, id);
    ReaderAlong(c, run, i, id);
    if i > 0 {
      TruthAlong(c, run, i - 1, id);
      InvAlong(c, run, i - 1);
      assert NextTrue(c, run[i - 1], run[i - 1 + 1], id);
      TruthNext(c, run[i - 1], run[i], id);
    }
  }

  // ---- the guarantees --------------------------------------------------------------------------

  /** Read Atomic: whoever sees one write of a transaction sees its other writes, or newer ones. */
  ghost predicate Unfractured(items: map<Key, Item>) {
    forall x, y :: x in items && y in items && y in items[x].trxKeys ==> !items[y].ts.Less(items[x].ts)
  }

  /** The versions a reader ends up with dominate everything any of them announces. */
  lemma OneRoundSuffices(s: State, r: Reader, x: Key, y: Key)
    requires ReaderOk(s, r) && r.phase == Finished
    requires x in r.keys && y in r.keys && y in r.result[x].trxKeys
    ensures !r.result[y].ts.Less(r.result[x].ts)
    ensures !r.result[y].ts.Less(Lookup(r.vLatest, y)) && !r.result[y].ts.Less(r.first[y].ts)
    ensures FirstIsGenuine(s, r) ==> !Lookup(r.vLatest, y).Less(r.result[x].ts)
  {
    Dominates(s, r, y);
    if x in r.repaired {
      RepairedNames(s, r, x, y);
    } else {
      assert ResultOk(s, r, x);
    }
  }

  lemma Dominates(s: State, r: Reader, y: Key)
    requires ReaderOk(s, r) && r.phase == Finished && y in r.keys
    ensures !r.result[y].ts.Less(Lookup(r.vLatest, y)) && !r.result[y].ts.Less(r.first[y].ts)
  {
    assert ResultOk(s, r, y);
  }

  /** What made the second round fetch `x` announced all that the fetched item announces, or has its timestamp. */
  lemma RepairedNames(s: State, r: Reader, x: Key, y: Key)
    requires ReaderOk(s, r) && r.phase == Finished && x in r.repaired && x in r.keys && y in r.keys && y in r.result[x].trxKeys
    ensures !Lookup(r.vLatest, y).Less(r.result[x].ts) || !r.first[y].ts.Less(r.result[x].ts)
    ensures FirstIsGenuine(s, r) ==> !Lookup(r.vLatest, y).Less(r.result[x].ts)
  {
    assert ResultOk(s, r, x) && Plausible(s, x, r.first[x]);
    var z :| z in r.first && x in r.first[z].trxKeys && r.first[z].ts == Lookup(r.vLatest, x);
    assert Plausible(s, z, r.first[z]) && x in Others(r.first[z], z);
    assert y != z ==> y in Others(r.first[z], z);
    assert FirstIsGenuine(s, r) ==> Genuine(s, z, r.first[z]);
  }

  lemma UnfracturedNow(s: State, r: Reader)
    requires ReaderOk(s, r) && r.phase == Finished
    ensures r.result.Keys == r.keys && Unfractured(r.result)
    ensures FirstIsGenuine(s, r) ==> forall k :: k in r.result ==> Genuine(s, k, r.result[k])
  {
    forall x, y | x in r.result && y in r.result && y in r.result[x].trxKeys
      ensures !r.result[y].ts.Less(r.result[x].ts)
    {
      OneRoundSuffices(s, r, x, y);
    }
    forall k | k in r.result && FirstIsGenuine(s, r)
      ensures Genuine(s, k, r.result[k])
    {
      assert ResultOk(s, r, k);
    }
  }

  lemma NoFracturedReads(c: Config, run: seq<State>, i: nat, id: nat)
    requires ValidConfig(c) && IsRun(c, run) && i < |run| && UntornUntil(c, run, i, id)
    requires id in run[i].readers && run[i].readers[id].phase == Finished
    ensures run[i].readers[id].result.Keys == run[i].readers[id].keys
    ensures Unfractured(run[i].readers[id].result)
  {
    UntornIsTrue(c, run, i, id);
    TruthAlong(c, run, i, id);
    UnfracturedNow(run[i], run[i].readers[id]);
  }

  /** Read results are real: the initial state, or exactly what one transaction wrote there. */
  lemma ReadsAreGenuine(c: Config, run: seq<State>, i: nat, id: nat, key: Key)
    requires ValidConfig(c) && IsRun(c, run) && i < |run| && UntornUntil(c, run, i, id)
    requires id in run[i].readers && run[i].readers[id].phase == Finished && key in run[i].readers[id].keys
    ensures key in run[i].readers[id].result
    ensures var item, ws := run[i].readers[id].result[key], run[i].writers;
            if item.ts == Timestamp(0, 0) then item.key in {"", key} && item.values == map[] && item.trxKeys == {}
            else
              && item.ts in ws && ws[item.ts].phase != Preparing && key in ws[item.ts].writes
              && item.key == key && item.values == ws[item.ts].writes[key] && item.trxKeys == ws[item.ts].writes.Keys
  {
    UntornIsTrue(c, run, i, id);
    TruthAlong(c, run, i, id);
    UnfracturedNow(run[i], run[i].readers[id]);
  }

  /** A second-round GET always finds the version it asks for. */
  lemma RepairNeverComesBackEmpty(c: Config, run: seq<State>, i: nat, id: nat, key: Key)
    requires ValidConfig(c) && IsRun(c, run) && i < |run| && UntornUntil(c, run, i, id)
    requires id in run[i].readers && run[i].readers[id].phase == SecondRound && NeedsRepair(run[i].readers[id], key)
    ensures |run[i].stores| == c.servers
    ensures var ts := Lookup(run[i].readers[id].vLatest, key);
            var item := Reply(run[i].stores[Home(c, key)], key, ts);
            item.key == key && item.ts == ts && key in item.trxKeys
  {
    InvAlong(c, run, i);
    UntornIsTrue(c, run, i, id);
    TruthAlong(c, run, i, id);
    RepairFetches(c, run[i], run[i].readers[id], key);
  }

  // ---- what a finished read returns ------------------------------------------------------------

  /** A finished read returns what was written, and not half a transaction. */
  ghost predicate ReadsAtomically(s: State, r: Reader) {
    r.phase == Finished ==>
      r.result.Keys == r.keys && Unfractured(r.result) && forall k :: k in r.result ==> Genuine(s, k, r.result[k])
  }

  lemma OkReadsAtomically(s: State, r: Reader)
    requires ReaderOk(s, r) && FirstIsGenuine(s, r)
    ensures ReadsAtomically(s, r)
  {
    if r.phase == Finished {
      UnfracturedNow(s, r);
    }
  }

  lemma UntornIsAtomic(c: Config, run: seq<State>, i: nat, id: nat)
    requires ValidConfig(c) && IsRun(c, run) && i < |run| && UntornUntil(c, run, i, id) && id in run[i].readers
    ensures FirstIsGenuine(run[i], run[i].readers[id]) && ReadsAtomically(run[i], run[i].readers[id])
  {
    UntornIsTrue(c, run, i, id);
    TruthAlong(c, run, i, id);
    OkReadsAtomically(run[i], run[i].readers[id]);
  }
}
