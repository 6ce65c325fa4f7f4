/**
 Real-time visibility over all runs of servers that commit the versions of a key one at a time:
 which layouts of items keep it, although a slot may be read while one item is being copied over
 another. That the condition is also necessary is shown in `RampLostRuns`.
 */
module RampHarmless {
  import opened Data
  import opened Store
  import opened Ramp
  import opened RampSafety
  import opened RampReads
  import opened RampCoherence
  import opened RampExclusive
  import opened RampTears
  import opened RampScripts
  import opened RampVisibility

  /**
   The mixture shows its own key at least as new as `y`. A negative timestamp makes the second round
   ask again, which only helps if no transaction older than `y` can be announced instead.
   */
  predicate NewEnough(y: Item, z: Item) {
    !z.ts.Less(y.ts) || (z.ts.Less(ZERO) && y.ts == LOWEST)
  }

  /** A write of `j` that is older than `at` can have returned while `x` is being copied over `y`. */
  predicate OlderWrite(y: Item, x: Item, j: Key, at: Timestamp, t: Timestamp) {
    ZERO.Less(t) && t.Less(at) && t != x.ts && (t == y.ts ==> j in y.trxKeys)
  }

  /** A sibling `j` of the mixture leads to a version of `j`, or to nothing that hides a write. */
  ghost predicate LeadsRight(y: Item, x: Item, z: Item, j: Key) {
    || (z.ts == y.ts && j in y.trxKeys) || (z.ts == x.ts && j in x.trxKeys)
    || forall t: Timestamp :: !OlderWrite(y, x, j, z.ts, t)
  }

  ghost predicate HarmlessMixture(k: Key, y: Item, x: Item, z: Item) {
    NewEnough(y, z) && forall j :: j in z.trxKeys && j != k ==> LeadsRight(y, x, z, j)
  }

  ghost predicate HarmlessMixtures(c: Config) {
    forall k: Key, y: Item, x: Item, z: Item :: Overwrites(c, k, y, x) && c.mixes(y, x, z) ==> HarmlessMixture(k, y, x, z)
  }

  /** In all runs, every finished read has, for each of its keys, at least what had returned when it began. */
  ghost predicate AlwaysVisible(c: Config)
    requires ValidConfig(c)
  {
    forall s, id, ts, key :: Reachable(c, s) && MustSee(s, id, ts, key) ==> Sees(s, id, ts, key)
  }

  // ---- a harmless mixture misleads no read -------------------------------------------------------

  /** Whoever is copying has not returned. */
  lemma CopierHasNotReturned(c: Config, s: State, k: Key)
    requires ValidConfig(c) && SlotsInv(c, s) && k in s.changing
    ensures s.changing[k].ts in s.writers && s.writers[s.changing[k].ts].phase != Returned
  {
    assert Holder(c, s, k);
    ChangingIsGenuine(c, s, k);
    var t, h := s.changing[k].ts, Home(c, k);
    assert JobsOk(c, s, t);
    assert Touches(c, s.writers[t], h);
    assert Batches(s, t)[h] == |Versions(s.stores[h], t)|;
  }

  lemma OwnKeyIsOk(c: Config, s: State, k: Key, y: Item, x: Item, z: Item, t: Timestamp)
    requires ValidConfig(c) && SlotsInv(c, s) && Meet(c, s, k, y, x) && NewEnough(y, z) && HasReturned(s, t, k)
    ensures NotBefore(z.ts, t)
  {
    FirstRoundIsFresh(c, s, t, k);
    assert WriterOk(t, s.writers[t]);
    OldIsNewEnough(y, z, t);
  }

  lemma OldIsNewEnough(y: Item, z: Item, t: Timestamp)
    requires NewEnough(y, z) && ZERO.Less(t) && !y.ts.Less(t)
    ensures NotBefore(z.ts, t)
  {
  }

  lemma NameIsOk(s: State, r: Reader, k: Key, y: Item, x: Item, z: Item, j: Key)
    requires WritersOk(s) && Genuine(s, k, y) && Genuine(s, k, x) && y.ts != ZERO && x.ts != ZERO && LeadsRight(y, x, z, j)
    requires s.writers[x.ts].phase != Returned
    ensures NameOk(s, r, j, z.ts)
  {
    if !GenuineTs(s, j, z.ts) {
      forall t | t in r.returnedBefore && HasReturned(s, t, j)
        ensures !t.Less(z.ts)
      {
        assert WriterOk(t, s.writers[t]);
        assert t == y.ts ==> j in y.trxKeys;
        assert !OlderWrite(y, x, j, z.ts, t);
      }
    }
  }

  lemma HarmlessIsOk(c: Config, s: State, r: Reader, k: Key, y: Item, x: Item, z: Item)
    requires ValidConfig(c) && SlotsInv(c, s) && Meet(c, s, k, y, x) && HarmlessMixture(k, y, x, z)
    ensures ItemOk(s, r, k, z)
  {
    CopierHasNotReturned(c, s, k);
    forall t | t in r.returnedBefore && HasReturned(s, t, k)
      ensures NotBefore(z.ts, t)
    {
      OwnKeyIsOk(c, s, k, y, x, z, t);
    }
    forall j | j in z.trxKeys && j != k
      ensures NameOk(s, r, j, z.ts)
    {
      NameIsOk(s, r, k, y, x, z, j);
    }
  }

  lemma SlotIsOk(c: Config, s: State, r: Reader, k: Key, z: Item)
    requires ValidConfig(c) && SlotsInv(c, s) && HarmlessMixtures(c) && (IsWhole(c, s, k, z) || Torn(c, s, k, z))
    ensures ItemOk(s, r, k, z)
  {
    if Torn(c, s, k, z) {
      var y, x :| Meet(c, s, k, y, x) && c.mixes(y, x, z) && z != y && z != x;
      HarmlessIsOk(c, s, r, k, y, x, z);
    } else {
      WholeIsOk(c, s, r, k, z);
    }
  }

  lemma NextReadsHarmless(c: Config, s: State, s': State, id: nat)
    requires ValidConfig(c) && c.exclusive && ExclusiveInv(c, s) && HarmlessMixtures(c) && Next(c, s, s')
    ensures NextHarmless(c, s, s', id)
  {
    var a :| Enabled(c, s, a) && s' == Apply(c, s, a);
    if ReadsSlot(a) && a.reader == id {
      GenuineOrTorn(c, s, a.rstep.key, a.rstep.item);
      SlotIsOk(c, s, s.readers[id], a.rstep.key, a.rstep.item);
    }
    assert ReadsHarmless(s, a, id);
  }

  lemma {:induction false} HarmlessAlong(c: Config, run: seq<State>, i: nat, id: nat)
    requires ValidConfig(c) && c.exclusive && HarmlessMixtures(c) && IsRun(c, run) && i < |run|
    ensures SeesAll(run[i], id)
  {
    if i > 0 {
      HarmlessAlong(c, run, i - 1, id);
      ExclusiveAlong(c, run, i - 1);
      assert Next(c, run[i - 1], run[i - 1 + 1]);
      NextReadsHarmless(c, run[i - 1], run[i], id);
      FreshNext(c, run[i - 1], run[i], id);
    }
  }

  lemma HarmlessMeansVisible(c: Config)
    requires ValidConfig(c) && c.exclusive && HarmlessMixtures(c)
    ensures AlwaysVisible(c)
  {
    forall s, id, ts, key | Reachable(c, s) && MustSee(s, id, ts, key)
      ensures Sees(s, id, ts, key)
    {
      var run :| IsRun(c, run) && run[|run| - 1] == s;
      InvAlong(c, run, |run| - 1);
      HarmlessAlong(c, run, |run| - 1, id);
      FreshWhenFinished(s, id, ts, key);
    }
  }
}
