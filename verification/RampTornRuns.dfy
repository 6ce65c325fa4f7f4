/**
 Runs in which a read is told something torn: whatever two items can meet in a slot do meet there,
 and whatever mixture of them the layout admits is read, and does the harm it can.
 */
module RampTornRuns {
  import opened Data
  import opened Slot
  import opened Store
  import opened Ramp
  import opened RampSafety
  import opened RampTears
  import opened RampScripts

  // ---- two items meet --------------------------------------------------------------------------

  /** A transaction that writes all that `item` says. */
  function WritesOf(item: Item): (writes: map<Key, Values>)
    ensures writes.Keys == item.trxKeys
    ensures item.key in item.trxKeys ==> WrittenItem(item.ts, writes, item.key) == item
  {
    map k | k in item.trxKeys :: if k == item.key then item.values else map[]
  }

  /** `x` is being copied over `y`; nobody has begun to read. */
  ghost predicate Copying(c: Config, s: State, k: Key, y: Item, x: Item)
    requires ValidConfig(c)
  {
    && Reachable(c, s) && Solo(c, s, k, x, Job(0, Writing), x.ts, Got(y), map[k := x]) && s.readers == map[]
    && y.ts in s.writers && y.ts != x.ts
  }

  /** Only `y` and `x` were ever written, and of their keys only `k` has been committed. */
  ghost predicate OnlyThese(c: Config, s: State, k: Key, y: Item, x: Item)
    requires ValidConfig(c)
  {
    && |s.stores| == c.servers && s.writers.Keys == {y.ts, x.ts}
    && s.writers[y.ts].writes == WritesOf(y) && s.writers[x.ts].writes == WritesOf(x)
    && (forall u :: u in s.writers ==> s.writers[u].jobs.Keys == {Home(c, k)} && s.writers[u].phase == Committing)
    && forall m, j :: 0 <= m < c.servers && j != k ==> Latest(s.stores[m], j) == ZERO
  }

  lemma AdvanceKeepsThese(c: Config, s: State, s': State, k: Key, y: Item, x: Item, t: Timestamp)
    requires ValidConfig(c) && OnlyThese(c, s, k, y, x) && Advances(s, s', t, k)
    ensures OnlyThese(c, s', k, y, x)
  {
  }

  lemma BothReady(c: Config, y: Timestamp)
    requires ValidConfig(c)
    ensures Reachable(c, Start(c)) && ReadyFor(c, Start(c), y)
  {
    StartIsReachable(c);
  }

  lemma BothBegin(c: Config, k: Key, y: Item, x: Item) returns (s: State, view: View<Item>)
    requires ValidConfig(c) && Overwrites(c, k, y, x)
    ensures Reachable(c, s) && Pair(c, s, k, y, Job(0, Check), x, Job(0, Check), ZERO, view, map[]) && s.readers == map[]
    ensures OnlyThese(c, s, k, y, x)
  {
    BothReady(c, y.ts);
    BothReady(c, x.ts);
    s, view := PairBegins(c, Start(c), k, y, x, WritesOf(y), WritesOf(x));
  }

  lemma PairIsSolo(c: Config, s: State, k: Key, a: Item, job: Job, b: Item, other: Job, latest: Timestamp, view: View<Item>, changing: map<Key, Item>)
    requires ValidConfig(c) && Pair(c, s, k, a, job, b, other, latest, view, changing) && Calm(s.writers[b.ts])
    ensures Solo(c, s, k, a, job, latest, view, changing)
  {
  }

  lemma OlderFirst(c: Config, k: Key, y: Item, x: Item) returns (s: State, view: View<Item>)
    requires ValidConfig(c) && Overwrites(c, k, y, x) && y.ts.Less(x.ts)
    ensures Reachable(c, s) && Pair(c, s, k, x, Job(0, Rewrite), y, Job(1, Check), x.ts, Got(y), map[]) && s.readers == map[]
    ensures OnlyThese(c, s, k, y, x)
  {
    var s0;
    s0, view := BothBegin(c, k, y, x);
    var s1 := PairCommits(c, s0, k, y, x, Job(0, Check), ZERO, view);
    AdvanceKeepsThese(c, s0, s1, k, y, x, y.ts);
    Swap(c, s1, k, y, Job(1, Check), x, Job(0, Check), y.ts, Got(y), map[]);
    s := PairSets(c, s1, k, x, y, Job(1, Check), y.ts, Got(y));
    AdvanceKeepsThese(c, s1, s, k, y, x, x.ts);
  }

  /** The newer version is committed between the check and the set of the older one. */
  lemma NewerFirst(c: Config, k: Key, y: Item, x: Item) returns (s: State, view: View<Item>)
    requires ValidConfig(c) && Overwrites(c, k, y, x) && !c.exclusive
    ensures Reachable(c, s) && Pair(c, s, k, x, Job(0, Rewrite), y, Job(1, Check), x.ts, Got(y), map[]) && s.readers == map[]
    ensures OnlyThese(c, s, k, y, x)
  {
    var s0;
    s0, view := BothBegin(c, k, y, x);
    Swap(c, s0, k, y, Job(0, Check), x, Job(0, Check), ZERO, view, map[]);
    var s1 := PairMoves(c, s0, k, x, Check, y, Job(0, Check), ZERO, view, map[]);
    AdvanceKeepsThese(c, s0, s1, k, y, x, x.ts);
    Swap(c, s1, k, x, Job(0, Set), y, Job(0, Check), ZERO, view, map[]);
    var s2 := PairCommits(c, s1, k, y, x, Job(0, Set), ZERO, view);
    AdvanceKeepsThese(c, s1, s2, k, y, x, y.ts);
    Swap(c, s2, k, y, Job(1, Check), x, Job(0, Set), y.ts, Got(y), map[]);
    s := PairMoves(c, s2, k, x, Set, y, Job(1, Check), y.ts, Got(y), map[]);
    AdvanceKeepsThese(c, s2, s, k, y, x, x.ts);
  }

  lemma OverwritingIsReachable(c: Config, k: Key, y: Item, x: Item) returns (s: State)
    requires ValidConfig(c) && Overwrites(c, k, y, x)
    ensures Copying(c, s, k, y, x) && OnlyThese(c, s, k, y, x)
  {
    var s0, view;
    if y.ts.Less(x.ts) {
      s0, view := OlderFirst(c, k, y, x);
    } else {
      s0, view := NewerFirst(c, k, y, x);
    }
    s := PairMoves(c, s0, k, x, Rewrite, y, Job(1, Check), x.ts, Got(y), map[]);
    AdvanceKeepsThese(c, s0, s, k, y, x, x.ts);
    PairIsSolo(c, s, k, x, Job(0, Writing), y, Job(1, Check), x.ts, Got(y), map[k := x]);
  }

  // ---- a read ----------------------------------------------------------------------------------

  /** A reader in its first round, with these items so far. */
  predicate HasRead(r: Reader, keys: set<Key>, first: map<Key, Item>, returned: set<Timestamp>) {
    r.phase == FirstRound && r.keys == keys && r.first == first && r.repaired == {} && r.returnedBefore == returned
  }

  function AllReturned(s: State): set<Timestamp> {
    set t | t in s.writers && s.writers[t].phase == Returned
  }

  lemma BeginsRead(c: Config, s: State, keys: set<Key>) returns (s': State, r: Reader)
    requires ValidConfig(c) && |s.stores| == c.servers && Reachable(c, s) && s.readers == map[]
    ensures Reachable(c, s') && s' == s.(readers := map[0 := r]) && HasRead(r, keys, map[], AllReturned(s))
  {
    s' := Go(c, s, BeginGet(0, keys));
    r := s'.readers[0];
  }

  /** Its client has been handed the address of a slot that is there already. */
  lemma HandsOut(c: Config, s: State, k: Key) returns (s': State)
    requires ValidConfig(c) && |s.stores| == c.servers && Reachable(c, s) && k in s.stores[Home(c, k)].slots
    ensures Reachable(c, s') && s' == s.(handed := s.handed + {k})
  {
    s' := Go(c, s, HandOutSlot(k));
    assert s.stores[Home(c, k) := s.stores[Home(c, k)]] == s.stores;
  }

  /** A reader begins, is handed the address of `k`, and takes its snapshot just when `x` is being copied over `y`. */
  lemma ReadsMixture(c: Config, s: State, k: Key, y: Item, x: Item, z: Item, keys: set<Key>) returns (s': State, r: Reader)
    requires ValidConfig(c) && Copying(c, s, k, y, x) && c.mixes(y, x, z) && k in keys
    ensures Reachable(c, s') && OnlyReads(s, s') && s'.readers == map[0 := r] && HasRead(r, keys, map[k := z], AllReturned(s))
  {
    var s1, r1 := BeginsRead(c, s, keys);
    var s2 := HandsOut(c, s1, k);
    assert SlotShows(c, s2.stores[Home(c, k)], s2.changing, k, z);
    s' := ReaderGoes(c, s2, r1, ReadSlot(k, z));
    r := r1.(first := map[k := z]);
    assert map[][k := z] == map[k := z];
    HandedReads(s, s2, s');
  }

  lemma HandedReads(s: State, s2: State, s': State)
    requires |s2.stores| == |s.stores| && s2 == s.(readers := s2.readers, handed := s2.handed) && s.handed <= s2.handed && OnlyReads(s2, s')
    ensures OnlyReads(s, s')
  {
  }

  /** It asks the table for `j`. */
  lemma ReadsTable(c: Config, s: State, r: Reader, j: Key, item: Item) returns (s': State, r': Reader)
    requires ValidConfig(c) && |s.stores| == c.servers && Reachable(c, s) && s.readers == map[0 := r]
    requires HasRead(r, r.keys, r.first, r.returnedBefore) && j in r.keys && j !in r.first
    requires item == GetByVersion(s.stores[Home(c, j)], j, Latest(s.stores[Home(c, j)], j))
    ensures Reachable(c, s') && OnlyReads(s, s') && s'.readers == map[0 := r']
    ensures HasRead(r', r.keys, r.first[j := item], r.returnedBefore)
  {
    var at := Latest(s.stores[Home(c, j)], j);
    var s1 := ReaderGoes(c, s, r, ReadTimestamp(j));
    var r1 := r.(asked := r.asked[j := at]);
    s' := ReaderGoes(c, s1, r1, ReadVersion(j));
    OnlyReadsChains(s, s1, s');
    assert Versions(s1.stores[Home(c, j)], at) == Versions(s.stores[Home(c, j)], at);
    r' := r1.(first := r.first[j := item]);
  }

  /** The second round has nothing to do. */
  lemma Concludes(c: Config, s: State, r: Reader, v: map<Key, Timestamp>) returns (s': State)
    requires ValidConfig(c) && |s.stores| == c.servers && Reachable(c, s) && s.readers == map[0 := r]
    requires HasRead(r, r.keys, r.first, r.returnedBefore) && r.first.Keys == r.keys && IsVLatest(r.first, v)
    requires forall j :: j in r.first ==> !Lookup(v, j).Greater(r.first[j].ts)
    ensures Reachable(c, s') && OnlyReads(s, s') && Ended(s', r.keys, r.first, r.returnedBefore)
  {
    var s1 := ReaderGoes(c, s, r, BeginRepair(v));
    var r1 := r.(phase := SecondRound, vLatest := v, result := r.first);
    assert forall j :: !NeedsRepair(r1, j);
    s' := ReaderGoes(c, s1, r1, FinishGet);
    OnlyReadsChains(s, s1, s');
  }

  predicate Ended(s: State, keys: set<Key>, result: map<Key, Item>, returned: set<Timestamp>) {
    && s.readers.Keys == {0} && s.readers[0].phase == Finished && s.readers[0].keys == keys
    && s.readers[0].result == result && s.readers[0].returnedBefore == returned
  }

  /** The second round asks again for `q`. */
  lemma ConcludesWith(c: Config, s: State, r: Reader, v: map<Key, Timestamp>, q: Key, item: Item) returns (s': State)
    requires ValidConfig(c) && |s.stores| == c.servers && Reachable(c, s) && s.readers == map[0 := r]
    requires HasRead(r, r.keys, r.first, r.returnedBefore) && r.first.Keys == r.keys && IsVLatest(r.first, v)
    requires forall j :: j in r.first ==> (Lookup(v, j).Greater(r.first[j].ts) <==> j == q)
    requires q in r.first && item == Reply(s.stores[Home(c, q)], q, Lookup(v, q))
    ensures Reachable(c, s') && OnlyReads(s, s') && Ended(s', r.keys, r.first[q := item], r.returnedBefore)
  {
    var s1 := ReaderGoes(c, s, r, BeginRepair(v));
    var r1 := r.(phase := SecondRound, vLatest := v, result := r.first);
    assert forall j :: NeedsRepair(r1, j) <==> j == q;
    SameReply(s, s1, c, q, Lookup(v, q));
    s' := RepairsOne(c, s1, r1, q, item);
    OnlyReadsChains(s, s1, s');
  }

  lemma RepairsOne(c: Config, s: State, r: Reader, q: Key, item: Item) returns (s': State)
    requires ValidConfig(c) && |s.stores| == c.servers && Reachable(c, s) && s.readers == map[0 := r]
    requires r.phase == SecondRound && r.repaired == {} && forall j :: NeedsRepair(r, j) <==> j == q
    requires item == Reply(s.stores[Home(c, q)], q, Lookup(r.vLatest, q))
    ensures Reachable(c, s') && OnlyReads(s, s') && Ended(s', r.keys, r.result[q := item], r.returnedBefore)
  {
    var s1 := ReaderGoes(c, s, r, Repair(q));
    var r1 := r.(repaired := {q}, result := r.result[q := item]);
    assert {} + {q} == {q};
    forall j
      ensures NeedsRepair(r1, j) <==> j == q
    {
      assert NeedsRepair(r, j) <==> j == q;
    }
    s' := ReaderGoes(c, s1, r1, FinishGet);
    OnlyReadsChains(s, s1, s');
  }

  lemma SameReply(s: State, s': State, c: Config, q: Key, at: Timestamp)
    requires ValidConfig(c) && |s.stores| == c.servers && OnlyReads(s, s')
    ensures Reply(s'.stores[Home(c, q)], q, at) == Reply(s.stores[Home(c, q)], q, at)
  {
    var st, st' := s.stores[Home(c, q)], s'.stores[Home(c, q)];
    assert Latest(st', q) == Latest(st, q);
    assert forall t :: Versions(st', t) == Versions(st, t);
  }

  lemma SameAnswer(c: Config, s: State, s': State, j: Key, at: Timestamp)
    requires ValidConfig(c) && |s.stores| == c.servers && OnlyReads(s, s')
    ensures Latest(s'.stores[Home(c, j)], j) == Latest(s.stores[Home(c, j)], j)
    ensures GetByVersion(s'.stores[Home(c, j)], j, at) == GetByVersion(s.stores[Home(c, j)], j, at)
  {
    assert Versions(s'.stores[Home(c, j)], at) == Versions(s.stores[Home(c, j)], at);
  }

  // ---- the sibling check over two items ----------------------------------------------------------

  /** What an item makes of `v_latest[q]`, which is zero to begin with. */
  function NamedBy(item: Item, q: Key): (at: Timestamp)
    ensures !at.Less(ZERO)
  {
    if q in item.trxKeys && ZERO.Less(item.ts) then item.ts else ZERO
  }

  function Newer(a: Timestamp, b: Timestamp): Timestamp {
    if a.Less(b) then b else a
  }

  function NamedByTwo(z: Item, i: Item): (v: map<Key, Timestamp>) {
    map q | q in z.trxKeys + i.trxKeys :: Newer(NamedBy(z, q), NamedBy(i, q))
  }

  lemma LookupNamed(z: Item, i: Item, q: Key)
    ensures Lookup(NamedByTwo(z, i), q) == Newer(NamedBy(z, q), NamedBy(i, q))
  {
  }

  /** All items but two of them are empty. */
  lemma TwoAnnounce(first: map<Key, Item>, k: Key, j: Key)
    requires k in first && j in first && forall x :: x in first && x != k && x != j ==> first[x] == EMPTY_ITEM
    ensures IsVLatest(first, NamedByTwo(first[k], first[j]))
  {
    var z, i := first[k], first[j];
    var v := NamedByTwo(z, i);
    forall q
      ensures Lookup(v, q) == Newer(NamedBy(z, q), NamedBy(i, q))
    {
      LookupNamed(z, i, q);
    }
    forall q | Lookup(v, q) != ZERO
      ensures exists x :: x in first && q in first[x].trxKeys && first[x].ts == Lookup(v, q)
    {
      assert (q in first[k].trxKeys && first[k].ts == Lookup(v, q)) || (q in first[j].trxKeys && first[j].ts == Lookup(v, q));
    }
  }

  // ---- what is there to be found -------------------------------------------------------------------

  lemma ReachableInv(c: Config, s: State)
    requires ValidConfig(c) && Reachable(c, s)
    ensures Inv(c, s)
  {
    var run :| IsRun(c, run) && run[|run| - 1] == s;
    InvAlong(c, run, |run| - 1);
  }

  lemma {:induction false} NotThere(versions: seq<Item>, k: Key)
    requires forall j :: 0 <= j < |versions| ==> versions[j].key != k
    ensures Find(versions, k) == EMPTY_ITEM
  {
    if versions != [] {
      NotThere(versions[1..], k);
    }
  }

  predicate WroteKey(s: State, t: Timestamp, j: Key) {
    t in s.writers && j in s.writers[t].writes
  }

  /** What a transaction did not write, nobody finds under its timestamp. */
  lemma NotWrittenNotFound(c: Config, s: State, t: Timestamp, j: Key)
    requires ValidConfig(c) && |s.stores| == c.servers && VersionsOk(c, s) && !WroteKey(s, t, j)
    ensures GetByVersion(s.stores[Home(c, j)], j, t) == EMPTY_ITEM
  {
    var versions := Versions(s.stores[Home(c, j)], t);
    forall i | 0 <= i < |versions|
      ensures versions[i].key != j
    {
      assert VersionOk(c, s, Home(c, j), t, versions[i]);
    }
    NotThere(versions, j);
  }

  lemma WrittenIsFound(c: Config, s: State, t: Timestamp, j: Key)
    requires ValidConfig(c) && |s.stores| == c.servers && VersionsOk(c, s) && WritersOk(s) && WroteKey(s, t, j) && s.writers[t].phase != Preparing
    ensures GetByVersion(s.stores[Home(c, j)], j, t) == ItemOf(s.writers[t], t, j)
  {
    assert WriterOk(t, s.writers[t]);
  }

  lemma NoVersionYet(c: Config, s: State, t: Timestamp)
    requires ValidConfig(c) && |s.stores| == c.servers && VersionsOk(c, s) && t !in s.writers
    ensures forall m :: 0 <= m < c.servers ==> Versions(s.stores[m], t) == []
  {
    forall m | 0 <= m < c.servers
      ensures Versions(s.stores[m], t) == []
    {
      assert |Versions(s.stores[m], t)| > 0 ==> VersionOk(c, s, m, t, Versions(s.stores[m], t)[0]);
    }
  }

  lemma NewHasNoVersion(c: Config, s: State, t: Timestamp)
    requires ValidConfig(c) && Reachable(c, s) && t !in s.writers
    ensures |s.stores| == c.servers && forall m :: 0 <= m < c.servers ==> Versions(s.stores[m], t) == []
  {
    ReachableInv(c, s);
    NoVersionYet(c, s, t);
  }

  /** Nothing is committed under the zero timestamp, and nothing is found there. */
  lemma NothingCommitted(c: Config, s: State, j: Key)
    requires ValidConfig(c) && |s.stores| == c.servers && VersionsOk(c, s) && WritersOk(s) && Latest(s.stores[Home(c, j)], j) == ZERO
    ensures GetByVersion(s.stores[Home(c, j)], j, Latest(s.stores[Home(c, j)], j)) == EMPTY_ITEM
  {
    GenuineVersion(c, s, j, ZERO);
  }

  // ---- a read that ends with the mixture -----------------------------------------------------------

  /** It asked for nothing else. */
  lemma MixtureAlone(c: Config, s: State, k: Key, y: Item, x: Item, z: Item) returns (s': State)
    requires ValidConfig(c) && Copying(c, s, k, y, x) && c.mixes(y, x, z) && !z.ts.Less(ZERO)
    ensures Reachable(c, s') && OnlyReads(s, s') && Ended(s', {k}, map[k := z], AllReturned(s))
  {
    var s1, r := ReadsMixture(c, s, k, y, x, z, {k});
    TwoAnnounce(map[k := z], k, k);
    LookupNamed(z, z, k);
    s' := Concludes(c, s1, r, NamedByTwo(z, z));
    OnlyReadsChains(s, s1, s');
  }

  /** The mixture announces `j`, of which there is no version under its timestamp. */
  lemma SiblingGoesEmpty(c: Config, s: State, k: Key, y: Item, x: Item, z: Item, j: Key, i: Item) returns (s': State)
    requires ValidConfig(c) && Copying(c, s, k, y, x) && c.mixes(y, x, z) && ZERO.Less(z.ts) && j in z.trxKeys && j != k
    requires i == GetByVersion(s.stores[Home(c, j)], j, Latest(s.stores[Home(c, j)], j)) && !i.ts.Less(ZERO) && i.ts.Less(z.ts)
    requires GetByVersion(s.stores[Home(c, j)], j, z.ts) == EMPTY_ITEM
    ensures Reachable(c, s') && OnlyReads(s, s') && Ended(s', {k, j}, map[k := z, j := EMPTY_ITEM], AllReturned(s))
  {
    var s1, r1 := ReadsMixture(c, s, k, y, x, z, {k, j});
    SameReply(s, s1, c, j, Latest(s.stores[Home(c, j)], j));
    var s2, r2 := ReadsTable(c, s1, r1, j, i);
    OnlyReadsChains(s, s1, s2);
    s' := EndsEmpty(c, s2, r2, k, z, j, i);
    OnlyReadsChains(s, s2, s');
  }

  lemma EndsEmpty(c: Config, s: State, r: Reader, k: Key, z: Item, j: Key, i: Item) returns (s': State)
    requires ValidConfig(c) && |s.stores| == c.servers && Reachable(c, s) && s.readers == map[0 := r] && j in z.trxKeys && j != k
    requires HasRead(r, {k, j}, map[k := z][j := i], r.returnedBefore) && ZERO.Less(z.ts) && !i.ts.Less(ZERO) && i.ts.Less(z.ts)
    requires Reply(s.stores[Home(c, j)], j, z.ts) == EMPTY_ITEM
    ensures Reachable(c, s') && OnlyReads(s, s') && Ended(s', {k, j}, map[k := z, j := EMPTY_ITEM], r.returnedBefore)
  {
    SiblingLags(k, z, j, i);
    var v := NamedByTwo(z, i);
    assert r.first.Keys == r.keys && IsVLatest(r.first, v) && Lookup(v, j) == z.ts;
    EmptyOverwrites(k, z, j, i);
    s' := ConcludesWith(c, s, r, v, j, EMPTY_ITEM);
  }

  lemma EmptyOverwrites(k: Key, z: Item, j: Key, i: Item)
    requires j != k
    ensures map[k := z][j := i][j := EMPTY_ITEM] == map[k := z, j := EMPTY_ITEM]
  {
  }

  lemma SiblingLags(k: Key, z: Item, j: Key, i: Item)
    requires j in z.trxKeys && j != k && ZERO.Less(z.ts) && !i.ts.Less(ZERO) && i.ts.Less(z.ts)
    ensures var first, v := map[k := z][j := i], NamedByTwo(z, i);
            IsVLatest(first, v) && Lookup(v, j) == z.ts && forall x :: x in first ==> (Lookup(v, x).Greater(first[x].ts) <==> x == j)
  {
    var first := map[k := z][j := i];
    assert first[k] == z && first[j] == i;
    TwoAnnounce(first, k, j);
    LookupNamed(z, i, k);
    LookupNamed(z, i, j);
  }
}
