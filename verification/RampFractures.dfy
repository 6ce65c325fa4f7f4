/**
 The conditions of `RampUnfractured` are necessary: whatever third item a torn slot can show, a
 finished read returns it, or half a transaction, in some run.
 */
module RampFractures {
  import opened Data
  import opened Slot
  import opened Store
  import opened Ramp
  import opened RampSafety
  import opened RampReads
  import opened RampTears
  import opened RampScripts
  import opened RampUnfractured
  import opened RampTornRuns

  /** A finished read with half a transaction in it. */
  ghost predicate Fractured(c: Config, s: State)
    requires ValidConfig(c)
  {
    Reachable(c, s) && 0 in s.readers && s.readers[0].phase == Finished && !Unfractured(s.readers[0].result)
  }

  lemma ShowsHalf(c: Config, s: State, keys: set<Key>, result: map<Key, Item>, returned: set<Timestamp>, x: Key, y: Key)
    requires ValidConfig(c) && Reachable(c, s) && Ended(s, keys, result, returned)
    requires x in result && y in result && y in result[x].trxKeys && result[y].ts.Less(result[x].ts)
    ensures Fractured(c, s)
  {
    assert s.readers[0].result == result;
  }

  // ---- the mixture announces what was not written ------------------------------------------------

  /** No transaction wrote `j` under the timestamp that the mixture shows. */
  predicate Misnames(y: Item, x: Item, z: Item, j: Key) {
    !(z.ts == y.ts && j in y.trxKeys) && !(z.ts == x.ts && j in x.trxKeys)
  }

  lemma NothingUnder(c: Config, s: State, k: Key, y: Item, x: Item, z: Item, j: Key)
    requires ValidConfig(c) && Inv(c, s) && OnlyThese(c, s, k, y, x) && j != k && Misnames(y, x, z, j)
    ensures GetByVersion(s.stores[Home(c, j)], j, Latest(s.stores[Home(c, j)], j)) == EMPTY_ITEM
    ensures GetByVersion(s.stores[Home(c, j)], j, z.ts) == EMPTY_ITEM
  {
    NothingCommitted(c, s, j);
    NotWrittenNotFound(c, s, z.ts, j);
  }

  lemma MisnamedIsFractured(c: Config, k: Key, y: Item, x: Item, z: Item, j: Key) returns (s: State)
    requires ValidConfig(c) && Overwrites(c, k, y, x) && c.mixes(y, x, z) && ZERO.Less(z.ts)
    requires j in Others(z, k) && Misnames(y, x, z, j)
    ensures Fractured(c, s)
  {
    var s0 := OverwritingIsReachable(c, k, y, x);
    ReachableInv(c, s0);
    NothingUnder(c, s0, k, y, x, z, j);
    s := SiblingGoesEmpty(c, s0, k, y, x, z, j, EMPTY_ITEM);
    ShowsHalf(c, s, {k, j}, map[k := z, j := EMPTY_ITEM], AllReturned(s0), k, j);
  }

  // ---- the mixture announces only some of what was written ---------------------------------------

  /** `t` wrote `a`, which the mixture announces, and `q`, which it does not. */
  predicate Omits(s: State, k: Key, z: Item, t: Timestamp, a: Key, q: Key) {
    && t == z.ts && ZERO.Less(t) && WroteKey(s, t, a) && WroteKey(s, t, q)
    && a in Others(z, k) && q !in z.trxKeys && q != k
  }

  lemma FirstOfThree(k: Key, z: Item, a: Key, q: Key)
    requires k != a && k != q && a != q && a in z.trxKeys && q !in z.trxKeys && ZERO.Less(z.ts)
    ensures var first, v := map[k := z][a := EMPTY_ITEM][q := EMPTY_ITEM], NamedByTwo(z, z);
            && first.Keys == {k, a, q} && IsVLatest(first, v) && Lookup(v, a) == z.ts
            && forall x :: x in first ==> (Lookup(v, x).Greater(first[x].ts) <==> x == a)
  {
    var first := map[k := z][a := EMPTY_ITEM][q := EMPTY_ITEM];
    assert first[k] == z && first[a] == EMPTY_ITEM && first[q] == EMPTY_ITEM;
    TwoAnnounce(first, k, k);
    LookupNamed(z, z, k);
    LookupNamed(z, z, a);
    LookupNamed(z, z, q);
  }

  /** Both are read before anything of them is committed. */
  lemma ReadsBoth(c: Config, s: State, k: Key, y: Item, x: Item, z: Item, a: Key, q: Key) returns (s': State, r: Reader)
    requires ValidConfig(c) && Inv(c, s) && Copying(c, s, k, y, x) && OnlyThese(c, s, k, y, x) && c.mixes(y, x, z) && a != q && a != k && q != k
    ensures Reachable(c, s') && OnlyReads(s, s') && s'.readers == map[0 := r]
    ensures HasRead(r, {k, a, q}, map[k := z][a := EMPTY_ITEM][q := EMPTY_ITEM], AllReturned(s))
  {
    NothingCommitted(c, s, a);
    NothingCommitted(c, s, q);
    var s1, r1 := ReadsMixture(c, s, k, y, x, z, {k, a, q});
    SameReply(s, s1, c, a, ZERO);
    SameAnswer(c, s, s1, a, ZERO);
    var s2, r2 := ReadsTable(c, s1, r1, a, EMPTY_ITEM);
    OnlyReadsChains(s, s1, s2);
    SameAnswer(c, s, s2, q, ZERO);
    s', r := ReadsTable(c, s2, r2, q, EMPTY_ITEM);
    OnlyReadsChains(s, s2, s');
  }

  lemma EndsOmitting(c: Config, s: State, r: Reader, k: Key, z: Item, a: Key, q: Key, item: Item) returns (s': State)
    requires ValidConfig(c) && |s.stores| == c.servers && Reachable(c, s) && s.readers == map[0 := r]
    requires HasRead(r, {k, a, q}, map[k := z][a := EMPTY_ITEM][q := EMPTY_ITEM], r.returnedBefore)
    requires k != a && k != q && a != q && a in z.trxKeys && q !in z.trxKeys && ZERO.Less(z.ts)
    requires item == GetByVersion(s.stores[Home(c, a)], a, z.ts) && q in item.trxKeys && item.ts == z.ts
    ensures Fractured(c, s')
  {
    FirstOfThree(k, z, a, q);
    var result := r.first[a := item];
    s' := ConcludesWith(c, s, r, NamedByTwo(z, z), a, item);
    assert result[a] == item && result[q] == EMPTY_ITEM;
    ShowsHalf(c, s', {k, a, q}, result, r.returnedBefore, a, q);
  }

  lemma OmissionIsFractured(c: Config, s0: State, k: Key, y: Item, x: Item, z: Item, t: Timestamp, a: Key, q: Key) returns (s: State)
    requires ValidConfig(c) && Inv(c, s0) && Copying(c, s0, k, y, x) && OnlyThese(c, s0, k, y, x) && c.mixes(y, x, z)
    requires Omits(s0, k, z, t, a, q) && s0.writers[t].phase != Preparing
    ensures Fractured(c, s)
  {
    WrittenIsFound(c, s0, t, a);
    var s1, r := ReadsBoth(c, s0, k, y, x, z, a, q);
    SameAnswer(c, s0, s1, a, t);
    s := EndsOmitting(c, s1, r, k, z, a, q, ItemOf(s0.writers[t], t, a));
  }

  /** The mixture has this item's timestamp, and names some of its siblings, but not all. */
  predicate NamesSome(k: Key, w: Item, z: Item) {
    z.ts == w.ts && Others(z, k) != {} && Others(z, k) < Others(w, k)
  }

  lemma SomeIsFractured(c: Config, k: Key, y: Item, x: Item, z: Item) returns (s: State)
    requires ValidConfig(c) && Overwrites(c, k, y, x) && c.mixes(y, x, z) && (NamesSome(k, y, z) || NamesSome(k, x, z))
    ensures Fractured(c, s)
  {
    var w := if NamesSome(k, y, z) then y else x;
    var a :| a in Others(z, k);
    var q :| q in Others(w, k) && q !in Others(z, k);
    var s0 := OverwritingIsReachable(c, k, y, x);
    ReachableInv(c, s0);
    assert Omits(s0, k, z, w.ts, a, q);
    s := OmissionIsFractured(c, s0, k, y, x, z, w.ts, a, q);
  }

  // ---- a mixture with a negative timestamp -------------------------------------------------------

  /** Later than both, and a key that is not `k`. */
  function Later(y: Item, x: Item): (t: Timestamp)
    requires ZERO.Less(y.ts) && ZERO.Less(x.ts)
    ensures y.ts.Less(t) && x.ts.Less(t)
  {
    Timestamp(y.ts.sec + x.ts.sec + 1, 0)
  }

  function Sibling(k: Key): (m: Key)
    ensures m != k
  {
    k + "'"
  }

  function LaterItem(k: Key, y: Item, x: Item): (w: Item)
    requires ZERO.Less(y.ts) && ZERO.Less(x.ts)
  {
    Item(k, map[], Later(y, x), {k, Sibling(k)})
  }

  lemma ReadsKeepSolo(c: Config, s: State, s': State, k: Key, a: Item, job: Job, latest: Timestamp, view: View<Item>, changing: map<Key, Item>)
    requires ValidConfig(c) && Solo(c, s, k, a, job, latest, view, changing) && OnlyReads(s, s')
    ensures Solo(c, s', k, a, job, latest, view, changing)
  {
    assert s'.stores[Home(c, k)].items == s.stores[Home(c, k)].items;
  }

  /** The reader has caught the mixture, and then asked the table for the other key. */
  lemma CatchesAndAsks(c: Config, k: Key, y: Item, x: Item, z: Item) returns (s: State, r: Reader)
    requires ValidConfig(c) && Overwrites(c, k, y, x) && c.mixes(y, x, z)
    ensures Reachable(c, s) && s.readers == map[0 := r] && OnlyThese(c, s, k, y, x) && Solo(c, s, k, x, Job(0, Writing), x.ts, Got(y), map[k := x])
    ensures HasRead(r, {k, Sibling(k)}, map[k := z][Sibling(k) := EMPTY_ITEM], r.returnedBefore)
  {
    var m := Sibling(k);
    var s0 := OverwritingIsReachable(c, k, y, x);
    ReachableInv(c, s0);
    NothingCommitted(c, s0, m);
    var s1, r1 := ReadsMixture(c, s0, k, y, x, z, {k, m});
    SameAnswer(c, s0, s1, m, ZERO);
    s, r := ReadsTable(c, s1, r1, m, EMPTY_ITEM);
    OnlyReadsChains(s0, s1, s);
    ReadsKeepSolo(c, s0, s, k, x, Job(0, Writing), x.ts, Got(y), map[k := x]);
  }

  /** Then `x` is in place, and a later transaction prepares both keys and sets the latest version of `k`. */
  lemma LaterCommits(c: Config, s: State, k: Key, y: Item, x: Item) returns (s': State)
    requires ValidConfig(c) && Overwrites(c, k, y, x) && Reachable(c, s) && OnlyThese(c, s, k, y, x)
    requires Solo(c, s, k, x, Job(0, Writing), x.ts, Got(y), map[k := x])
    ensures Reachable(c, s') && |s'.stores| == c.servers && s'.readers == s.readers
    ensures GetLatest(s'.stores[Home(c, k)], k) == LaterItem(k, y, x)
  {
    var w := LaterItem(k, y, x);
    var s1 := EndsCopy(c, s, k, y, x);
    s' := CommitsNext(c, s1, k, x, w);
  }

  lemma EndsCopy(c: Config, s: State, k: Key, y: Item, x: Item) returns (s': State)
    requires ValidConfig(c) && Reachable(c, s) && OnlyThese(c, s, k, y, x) && Solo(c, s, k, x, Job(0, Writing), x.ts, Got(y), map[k := x])
    ensures Reachable(c, s') && s'.writers.Keys == {y.ts, x.ts} && s'.readers == s.readers && Calm(s'.writers[x.ts])
    ensures Solo(c, s', k, x, Job(1, Check), x.ts, Got(x), map[])
  {
    s' := SoloMoves(c, s, k, x, Writing, x.ts, Got(y), map[k := x]);
    assert map[k := x] - {k} == map[];
  }

  lemma CommitsNext(c: Config, s: State, k: Key, x: Item, w: Item) returns (s': State)
    requires ValidConfig(c) && Reachable(c, s) && Solo(c, s, k, x, Job(1, Check), x.ts, Got(x), map[]) && Calm(s.writers[x.ts])
    requires w.ts !in s.writers && ZERO.Less(w.ts) && x.ts.Less(w.ts) && w.key == k && k in w.trxKeys
    ensures Reachable(c, s') && |s'.stores| == c.servers && s'.readers == s.readers && GetLatest(s'.stores[Home(c, k)], k) == w
  {
    NewHasNoVersion(c, s, w.ts);
    var s1 := Begins(c, s, w.ts, WritesOf(w), k);
    NewIsSolo(c, s, s1, k, x, w);
    s' := SoloSets(c, s1, k, w, x.ts, s1.stores[Home(c, k)].slots[k]);
    assert Versions(s'.stores[Home(c, k)], w.ts)[0] == w;
  }

  lemma NewIsSolo(c: Config, s: State, s': State, k: Key, x: Item, w: Item)
    requires ValidConfig(c) && Solo(c, s, k, x, Job(1, Check), x.ts, Got(x), map[]) && Calm(s.writers[x.ts])
    requires OnlyBegins(c, s, s', w.ts) && w.ts !in s.writers && Stands(c, s', w.ts, k, w, Job(0, Check))
    ensures Solo(c, s', k, w, Job(0, Check), x.ts, s'.stores[Home(c, k)].slots[k], map[])
  {
    forall u | u in s'.writers && u != w.ts
      ensures Calm(s'.writers[u])
    {
      assert u in s.writers && s'.writers[u] == s.writers[u];
    }
  }

  lemma NegativeLags(k: Key, m: Key, z: Item)
    requires z.ts.Less(ZERO) && m != k
    ensures var first, v := map[k := z][m := EMPTY_ITEM], NamedByTwo(z, EMPTY_ITEM);
            && first.Keys == {k, m} && IsVLatest(first, v) && Lookup(v, k) == ZERO
            && forall x :: x in first ==> (Lookup(v, x).Greater(first[x].ts) <==> x == k)
  {
    var first := map[k := z][m := EMPTY_ITEM];
    assert first[k] == z && first[m] == EMPTY_ITEM;
    TwoAnnounce(first, k, m);
    LookupNamed(z, EMPTY_ITEM, k);
    LookupNamed(z, EMPTY_ITEM, m);
  }

  /** A negative timestamp makes the second round ask for the latest version, and nobody checks its siblings. */
  lemma NegativeIsFractured(c: Config, k: Key, y: Item, x: Item, z: Item) returns (s: State)
    requires ValidConfig(c) && Overwrites(c, k, y, x) && c.mixes(y, x, z) && z.ts.Less(ZERO)
    ensures Fractured(c, s)
  {
    var m, w := Sibling(k), LaterItem(k, y, x);
    var s0, r := CatchesAndAsks(c, k, y, x, z);
    var s1 := LaterCommits(c, s0, k, y, x);
    NegativeLags(k, m, z);
    s := ConcludesWith(c, s1, r, NamedByTwo(z, EMPTY_ITEM), k, w);
    var result := map[k := z][m := EMPTY_ITEM][k := w];
    assert result[k] == w && result[m] == EMPTY_ITEM;
    ShowsHalf(c, s, {k, m}, result, r.returnedBefore, k, m);
  }

  // ---- the conditions are exact ------------------------------------------------------------------

  /** Whatever mixture does not name its siblings together fractures a read in some run. */
  lemma TornReadIsFractured(c: Config, k: Key, y: Item, x: Item, z: Item) returns (s: State)
    requires ValidConfig(c) && Overwrites(c, k, y, x) && c.mixes(y, x, z) && !NamesTogether(k, y, x, z)
    ensures Fractured(c, s)
  {
    if z.ts.Less(ZERO) {
      s := NegativeIsFractured(c, k, y, x, z);
    } else if j :| j in Others(z, k) && Misnames(y, x, z, j) {
      s := MisnamedIsFractured(c, k, y, x, z, j);
    } else {
      assert forall j :: j in Others(z, k) ==> !Misnames(y, x, z, j);
      s := SomeIsFractured(c, k, y, x, z);
    }
  }

  /**
   For every configuration: no finished read of any run sees half of a transaction, if and only if
   every mixture that a slot can show names its siblings together.
   */
  lemma UnfracturedIffTogether(c: Config)
    requires ValidConfig(c)
    ensures AlwaysUnfractured(c) <==> KeepsTogether(c)
  {
    if KeepsTogether(c) {
      TogetherIsUnfractured(c);
    } else {
      var k: Key, y: Item, x: Item, z: Item :| Overwrites(c, k, y, x) && c.mixes(y, x, z) && !NamesTogether(k, y, x, z);
      var s := TornReadIsFractured(c, k, y, x, z);
    }
  }

  /** A read that asked for nothing else ends with an item that nobody wrote. */
  lemma ForgeryIsReturned(c: Config, k: Key, y: Item, x: Item, z: Item) returns (s: State)
    requires ValidConfig(c) && Overwrites(c, k, y, x) && c.mixes(y, x, z) && !NoForgery(k, y, x, z) && !z.ts.Less(ZERO)
    ensures Reachable(c, s) && 0 in s.readers && s.readers[0].phase == Finished && s.readers[0].result == map[k := z] && !Genuine(s, k, z)
  {
    var s0 := OverwritingIsReachable(c, k, y, x);
    NotGenuine(c, s0, k, y, x, z);
    s := MixtureAlone(c, s0, k, y, x, z);
    assert s.writers == s0.writers;
  }

  lemma NotGenuine(c: Config, s: State, k: Key, y: Item, x: Item, z: Item)
    requires ValidConfig(c) && OnlyThese(c, s, k, y, x) && Overwrites(c, k, y, x) && !NoForgery(k, y, x, z)
    ensures !Genuine(s, k, z)
  {
    assert ItemOf(s.writers[y.ts], y.ts, k) == WrittenItem(y.ts, WritesOf(y), k) == y;
    assert ItemOf(s.writers[x.ts], x.ts, k) == WrittenItem(x.ts, WritesOf(x), k) == x;
  }

  lemma TornReadIsNotAtomic(c: Config, k: Key, y: Item, x: Item, z: Item) returns (s: State)
    requires ValidConfig(c) && Overwrites(c, k, y, x) && c.mixes(y, x, z) && !NoForgery(k, y, x, z)
    ensures Reachable(c, s) && 0 in s.readers && !ReadsAtomically(s, s.readers[0])
  {
    if z.ts.Less(ZERO) {
      s := NegativeIsFractured(c, k, y, x, z);
    } else {
      s := ForgeryIsReturned(c, k, y, x, z);
      assert s.readers[0].result[k] == z;
    }
  }

  /**
   For every configuration: finished reads of all runs return what was written, and no half of a
   transaction, if and only if no mixture that a slot can show passes for a third item.
   */
  lemma AtomicIffNeverTears(c: Config)
    requires ValidConfig(c)
    ensures AllReadsAtomic(c) <==> NeverTears(c)
  {
    if NeverTears(c) {
      NeverTearsIsAtomic(c);
    } else {
      var k: Key, y: Item, x: Item, z: Item :| Overwrites(c, k, y, x) && c.mixes(y, x, z) && !NoForgery(k, y, x, z);
      var s := TornReadIsNotAtomic(c, k, y, x, z);
    }
  }
}
