/**
 The program does not make "check, then set, then rewrite" of one key atomic. Exactly because of
 that a slot can keep showing an item that the table no longer answers with, and a finished write
 can disappear from later reads; a torn slot can hide one even without that. This holds on any
 number of servers, and however keys are spread over them.
 */
module RampRaces {
  import opened Data
  import opened Slot
  import opened Store
  import opened Ramp
  import opened RampCoherence
  import opened RampExclusive
  import opened RampTears
  import opened RampScripts
  import opened RampTornRuns
  import opened RampHarmless
  import opened RampLostRuns

  const X: Key := "x"
  const T1 := Timestamp(1, 0)
  const T2 := Timestamp(2, 0)
  const WRITES: map<Key, Values> := map[X := map[]]

  function Written(ts: Timestamp): Item {
    Item(X, map[], ts, {X})
  }

  // ---- coherence -----------------------------------------------------------------------------

  /** In every reachable state a valid slot agrees with the table, unless its key is just being published. */
  ghost predicate AlwaysCoherent(c: Config)
    requires ValidConfig(c)
  {
    forall s, key :: Reachable(c, s) && |s.stores| == c.servers && Settled(c, s, key) ==> Coherent(s.stores[Home(c, key)], key)
  }

  lemma ExclusiveMeansCoherent(c: Config)
    requires ValidConfig(c) && c.exclusive
    ensures AlwaysCoherent(c)
  {
    forall s, key | Reachable(c, s) && |s.stores| == c.servers && Settled(c, s, key)
      ensures Coherent(s.stores[Home(c, key)], key)
    {
      var run :| IsRun(c, run) && run[|run| - 1] == s;
      ExclusiveRunsAreOrderly(c, run);
      SlotsAreCoherent(c, run, |run| - 1, key);
    }
  }

  lemma BothStart(c: Config) returns (s: State, view: View<Item>)
    requires ValidConfig(c)
    ensures Reachable(c, s) && Pair(c, s, X, Written(T1), Job(0, Check), Written(T2), Job(0, Check), ZERO, view, map[]) && s.readers == map[]
    ensures SingleWriter(c, s, T1) && SingleWriter(c, s, T2)
  {
    assert Written(T1) == WrittenItem(T1, WRITES, X) && Written(T2) == WrittenItem(T2, WRITES, X);
    BothReady(c, T1);
    BothReady(c, T2);
    s, view := PairBegins(c, Start(c), X, Written(T1), Written(T2), WRITES, WRITES);
  }

  /** Both commits have checked before either sets. */
  lemma BothHaveChecked(c: Config) returns (s: State, view: View<Item>)
    requires ValidConfig(c) && !c.exclusive
    ensures Reachable(c, s) && Pair(c, s, X, Written(T1), Job(0, Set), Written(T2), Job(0, Set), ZERO, view, map[]) && s.readers == map[]
    ensures SingleWriter(c, s, T1) && SingleWriter(c, s, T2)
  {
    var a, b := Written(T1), Written(T2);
    var s0;
    s0, view := BothStart(c);
    var s1 := PairMoves(c, s0, X, a, Check, b, Job(0, Check), ZERO, view, map[]);
    BothStaySingle(c, s0, s1, T1);
    Swap(c, s1, X, a, Job(0, Set), b, Job(0, Check), ZERO, view, map[]);
    s := PairMoves(c, s1, X, b, Check, a, Job(0, Set), ZERO, view, map[]);
    BothStaySingle(c, s1, s, T2);
    Swap(c, s, X, b, Job(0, Set), a, Job(0, Set), ZERO, view, map[]);
  }

  lemma BothStaySingle(c: Config, s: State, s': State, u: Timestamp)
    requires ValidConfig(c) && Advances(s, s', u, X) && SingleWriter(c, s, T1) && SingleWriter(c, s, T2)
    ensures SingleWriter(c, s', T1) && SingleWriter(c, s', T2)
  {
    StaysSingle(c, s, s', T1, u);
    StaysSingle(c, s, s', T2, u);
  }

  /** A transaction that writes `X` only, and whose commit has not returned. */
  ghost predicate SingleWriter(c: Config, s: State, t: Timestamp)
    requires ValidConfig(c)
  {
    && |s.stores| == c.servers && t in s.writers && Versions(s.stores[Home(c, X)], t) == [Written(t)]
    && s.writers[t].writes == WRITES && s.writers[t].phase == Committing && s.writers[t].jobs.Keys == {Home(c, X)} && s.writers[t].acks == {}
  }

  lemma StaysSingle(c: Config, s: State, s': State, t: Timestamp, u: Timestamp)
    requires ValidConfig(c) && Advances(s, s', u, X) && SingleWriter(c, s, t)
    ensures SingleWriter(c, s', t)
  {
    assert s'.stores[Home(c, X)].items == s.stores[Home(c, X)].items;
  }

  /** T2 sets, then T1 sets: the older version is the latest, and neither slot update has begun. */
  lemma BothHaveSet(c: Config) returns (s: State, view: View<Item>)
    requires ValidConfig(c) && !c.exclusive
    ensures Reachable(c, s) && Pair(c, s, X, Written(T1), Job(0, Rewrite), Written(T2), Job(0, Rewrite), T1, view, map[])
  {
    var a, b := Written(T1), Written(T2);
    var s0;
    s0, view := BothHaveChecked(c);
    Swap(c, s0, X, a, Job(0, Set), b, Job(0, Set), ZERO, view, map[]);
    var s1 := PairMoves(c, s0, X, b, Set, a, Job(0, Set), ZERO, view, map[]);
    Swap(c, s1, X, b, Job(0, Rewrite), a, Job(0, Set), T2, view, map[]);
    s := PairMoves(c, s1, X, a, Set, b, Job(0, Rewrite), T2, view, map[]);
  }

  /** When both commits are over, nobody is publishing the key. */
  lemma PairIsSettled(c: Config, s: State, a: Item, b: Item, latest: Timestamp, view: View<Item>)
    requires ValidConfig(c) && Pair(c, s, X, a, Job(1, Check), b, Job(1, Check), latest, view, map[])
    ensures Settled(c, s, X)
  {
  }

  /**
   T1 publishes, then T2 publishes. Nobody is committing any more, the slot shows T2, and the
   table answers with T1.
   */
  lemma IncoherentSlotIsReachable(c: Config) returns (s: State)
    requires ValidConfig(c) && !c.exclusive
    ensures Reachable(c, s) && |s.stores| == c.servers && Settled(c, s, X)
    ensures var st := s.stores[Home(c, X)];
            X in st.slots && st.slots[X] == Got(Written(T2)) && Latest(st, X) == T1 && !Coherent(st, X)
  {
    var a, b := Written(T1), Written(T2);
    var s0, view := BothHaveSet(c);
    var s1 := PairPublishes(c, s0, X, a, b, Job(0, Rewrite), T1, view);
    Swap(c, s1, X, a, Job(1, Check), b, Job(0, Rewrite), T1, Got(a), map[]);
    s := PairPublishes(c, s1, X, b, a, Job(1, Check), T1, Got(a));
    PairIsSettled(c, s, b, a, T1, Got(b));
  }

  /** Exactly the servers that commit the versions of a key one at a time keep slots and tables together. */
  lemma CoherentIffExclusive(c: Config)
    requires ValidConfig(c)
    ensures AlwaysCoherent(c) <==> c.exclusive
  {
    if c.exclusive {
      ExclusiveMeansCoherent(c);
    } else {
      var s := IncoherentSlotIsReachable(c);
    }
  }

  // ---- visibility ----------------------------------------------------------------------------

  /** T2 commits from its set on; T1 has only checked. */
  lemma SecondPublishes(c: Config) returns (s: State)
    requires ValidConfig(c) && !c.exclusive
    ensures Reachable(c, s) && Pair(c, s, X, Written(T2), Job(1, Check), Written(T1), Job(0, Set), T2, Got(Written(T2)), map[])
    ensures SingleWriter(c, s, T1) && SingleWriter(c, s, T2) && s.readers == map[]
  {
    var a, b := Written(T1), Written(T2);
    var s0, view := BothHaveChecked(c);
    Swap(c, s0, X, a, Job(0, Set), b, Job(0, Set), ZERO, view, map[]);
    var s1 := PairMoves(c, s0, X, b, Set, a, Job(0, Set), ZERO, view, map[]);
    BothStaySingle(c, s0, s1, T2);
    s := PairPublishes(c, s1, X, b, a, Job(0, Set), T2, view);
    BothStaySingle(c, s1, s, T2);
  }

  /** ... and its `put_all` returns. */
  lemma SecondReturns(c: Config) returns (s: State)
    requires ValidConfig(c) && !c.exclusive
    ensures Reachable(c, s) && Stands(c, s, T1, X, Written(T1), Job(0, Set)) && SingleWriter(c, s, T1)
    ensures T2 in s.writers && s.writers[T2].phase == Returned && s.writers[T2].writes == WRITES && s.readers == map[]
  {
    var s0 := SecondPublishes(c);
    s := SingleReturns(c, s0, T2);
  }

  /** A commit of one key that is through acknowledges, and the client returns. */
  lemma SingleReturns(c: Config, s: State, t: Timestamp) returns (s': State)
    requires ValidConfig(c) && Reachable(c, s) && SingleWriter(c, s, t) && s.writers[t].jobs[Home(c, X)] == Job(1, Check)
    ensures Reachable(c, s') && s' == s.(writers := s.writers[t := s.writers[t].(acks := {Home(c, X)}, phase := Returned)])
  {
    var h, w := Home(c, X), s.writers[t];
    var s1 := WriterGoes(c, s, t, w, AckCommit(h), s.stores[h]);
    assert s.stores[h := s.stores[h]] == s.stores && s.stores[0 := s.stores[0]] == s.stores;
    assert {} + {h} == {h};
    s' := WriterGoes(c, s1, t, w.(acks := {h}), ReturnPut, s.stores[0]);
    assert s'.writers == s.writers[t := w.(acks := {h}, phase := Returned)];
  }

  /** T1, which checked earlier, sets: from now on the table answers with T1 again. */
  lemma LateSet(c: Config) returns (s: State)
    requires ValidConfig(c) && !c.exclusive
    ensures Reachable(c, s) && |s.stores| == c.servers && s.readers == map[]
    ensures Latest(s.stores[Home(c, X)], X) == T1 && Versions(s.stores[Home(c, X)], T1) == [Written(T1)]
    ensures T2 in s.writers && s.writers[T2].phase == Returned && s.writers[T2].writes == WRITES
  {
    var s0 := SecondReturns(c);
    s := Moves(c, s0, T1, X, Written(T1), Set);
    assert s.stores[Home(c, X)].items == s0.stores[Home(c, X)].items;
  }

  /** A read of `X` that asks the table. */
  lemma AsksTable(c: Config, s: State, item: Item) returns (s': State)
    requires ValidConfig(c) && |s.stores| == c.servers && Reachable(c, s) && s.readers == map[]
    requires item == GetByVersion(s.stores[Home(c, X)], X, Latest(s.stores[Home(c, X)], X)) && ZERO.Less(item.ts)
    ensures Reachable(c, s') && s'.writers == s.writers && Ended(s', {X}, map[X := item], AllReturned(s))
  {
    var s1, r1 := BeginsRead(c, s, {X});
    var s2, r2 := ReadsTable(c, s1, r1, X, item);
    assert map[][X := item] == map[X := item];
    TwoAnnounce(map[X := item], X, X);
    LookupNamed(item, item, X);
    s' := Concludes(c, s2, r2, NamedByTwo(item, item));
  }

  /** T2 had returned before the read began, and the read gets T1. */
  lemma LostWriteIsReachable(c: Config) returns (s: State)
    requires ValidConfig(c) && !c.exclusive
    ensures Lost(c, s, T2, X)
  {
    var s0 := LateSet(c);
    s := AsksTable(c, s0, Written(T1));
    assert s.readers[0].result[X] == Written(T1);
  }

  /**
   For every configuration: finished writes are visible to every later read of every run, if and only
   if servers commit the versions of a key one at a time and every mixture that a slot can show is
   harmless.
   */
  lemma VisibleIff(c: Config)
    requires ValidConfig(c)
    ensures AlwaysVisible(c) <==> c.exclusive && HarmlessMixtures(c)
  {
    if !c.exclusive {
      var s := LostWriteIsReachable(c);
    } else if HarmlessMixtures(c) {
      HarmlessMeansVisible(c);
    } else {
      var k: Key, y: Item, x: Item, z: Item :| Overwrites(c, k, y, x) && c.mixes(y, x, z) && !HarmlessMixture(k, y, x, z);
      var s, t, j := HarmfulMixtureLoses(c, k, y, x, z);
    }
  }
}
