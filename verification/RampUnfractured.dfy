/**
 Read Atomic isolation over all runs: which layouts of items keep it, although a slot may be read
 while one item is being copied over another. That these conditions are also necessary is shown by
 the runs of `RampFractures`.
 */
module RampUnfractured {
  import opened Data
  import opened Ramp
  import opened RampSafety
  import opened RampReads
  import opened RampTears
  import opened RampScripts

  // ---- reads return what was written -----------------------------------------------------------

  /** In all runs, finished reads return what was written, and no half of a transaction. */
  ghost predicate AllReadsAtomic(c: Config)
    requires ValidConfig(c)
  {
    forall s, id :: Reachable(c, s) && id in s.readers ==> ReadsAtomically(s, s.readers[id])
  }

  predicate NoForgery(k: Key, y: Item, x: Item, z: Item) {
    z in {y, x, EMPTY_ITEM, InitialItem(k)}
  }

  /** No mixture of two items that can meet in a slot passes for a third that carries a version. */
  ghost predicate NeverTears(c: Config) {
    forall k: Key, y: Item, x: Item, z: Item :: Overwrites(c, k, y, x) && c.mixes(y, x, z) ==> NoForgery(k, y, x, z)
  }

  lemma NextReadsTrue(c: Config, s: State, s': State, id: nat)
    requires ValidConfig(c) && Known(c, s) && NeverTears(c) && Next(c, s, s')
    ensures NextTrue(c, s, s', id)
  {
    var a :| Enabled(c, s, a) && s' == Apply(c, s, a);
    if ReadsSlot(a) {
      SlotIsGenuine(c, s, a.rstep.key, a.rstep.item);
    }
    assert ReadsTrue(s, a, id);
  }

  lemma SlotIsGenuine(c: Config, s: State, k: Key, z: Item)
    requires ValidConfig(c) && Known(c, s) && NeverTears(c) && SlotShows(c, s.stores[Home(c, k)], s.changing, k, z)
    ensures Genuine(s, k, z)
  {
    GenuineOrTorn(c, s, k, z);
    if !Genuine(s, k, z) {
      var y, x :| Meet(c, s, k, y, x) && c.mixes(y, x, z) && z != y && z != x;
      UnforgedIsGenuine(s, k, y, x, z);
    }
  }

  lemma UnforgedIsGenuine(s: State, k: Key, y: Item, x: Item, z: Item)
    requires Genuine(s, k, y) && Genuine(s, k, x) && NoForgery(k, y, x, z)
    ensures Genuine(s, k, z)
  {
  }

  lemma NeverTearsIsTrue(c: Config, run: seq<State>, i: nat, id: nat)
    requires ValidConfig(c) && IsRun(c, run) && i < |run| && NeverTears(c)
    ensures TrueUntil(c, run, i, id)
  {
    forall j | 0 <= j < i
      ensures NextTrue(c, run[j], run[j + 1], id)
    {
      KnownAlong(c, run, j);
      NextReadsTrue(c, run[j], run[j + 1], id);
    }
  }

  lemma NeverTearsIsAtomic(c: Config)
    requires ValidConfig(c) && NeverTears(c)
    ensures AllReadsAtomic(c)
  {
    forall s, id | Reachable(c, s) && id in s.readers
      ensures ReadsAtomically(s, s.readers[id])
    {
      var run :| IsRun(c, run) && run[|run| - 1] == s;
      NeverTearsIsTrue(c, run, |run| - 1, id);
      TruthAlong(c, run, |run| - 1, id);
      OkReadsAtomically(s, s.readers[id]);
    }
  }

  // ---- reads see no half of a transaction --------------------------------------------------------

  /** In all runs, finished reads see no half of a transaction. */
  ghost predicate AlwaysUnfractured(c: Config)
    requires ValidConfig(c)
  {
    forall s, id :: Reachable(c, s) && id in s.readers && s.readers[id].phase == Finished ==>
      s.readers[id].result.Keys == s.readers[id].keys && Unfractured(s.readers[id].result)
  }

  /**
   A mixture whose timestamp is negative is taken for outdated by every read. Any other announces
   nothing if its timestamp is zero; otherwise the siblings it names, apart from its own key, must be
   none, or all those of the transaction whose timestamp it shows.
   */
  predicate NamesTogether(k: Key, y: Item, x: Item, z: Item) {
    && !z.ts.Less(ZERO)
    && (z.ts == ZERO || Others(z, k) == {}
        || (z.ts == y.ts && Others(z, k) == Others(y, k))
        || (z.ts == x.ts && Others(z, k) == Others(x, k)))
  }

  ghost predicate KeepsTogether(c: Config) {
    forall k: Key, y: Item, x: Item, z: Item :: Overwrites(c, k, y, x) && c.mixes(y, x, z) ==> NamesTogether(k, y, x, z)
  }

  lemma TogetherIsPlausible(s: State, k: Key, y: Item, x: Item, z: Item)
    requires Genuine(s, k, y) && Genuine(s, k, x) && y.ts != ZERO && x.ts != ZERO && NamesTogether(k, y, x, z)
    ensures Plausible(s, k, z)
  {
  }

  lemma NextReadsPlausibly(c: Config, s: State, s': State, id: nat)
    requires ValidConfig(c) && Known(c, s) && KeepsTogether(c) && Next(c, s, s')
    ensures NextPlausible(c, s, s', id)
  {
    var a :| Enabled(c, s, a) && s' == Apply(c, s, a);
    if ReadsSlot(a) {
      SlotIsPlausible(c, s, a.rstep.key, a.rstep.item);
    }
    assert ReadsPlausibly(s, a, id);
  }

  lemma SlotIsPlausible(c: Config, s: State, k: Key, z: Item)
    requires ValidConfig(c) && Known(c, s) && KeepsTogether(c) && SlotShows(c, s.stores[Home(c, k)], s.changing, k, z)
    ensures Plausible(s, k, z)
  {
    GenuineOrTorn(c, s, k, z);
    if Genuine(s, k, z) {
      GenuineIsPlausible(s, k, z);
    } else {
      var y, x :| Meet(c, s, k, y, x) && c.mixes(y, x, z) && z != y && z != x;
      TogetherIsPlausible(s, k, y, x, z);
    }
  }

  lemma TogetherUntil(c: Config, run: seq<State>, i: nat, id: nat)
    requires ValidConfig(c) && IsRun(c, run) && i < |run| && KeepsTogether(c)
    ensures PlausibleUntil(c, run, i, id)
  {
    forall j | 0 <= j < i
      ensures NextPlausible(c, run[j], run[j + 1], id)
    {
      KnownAlong(c, run, j);
      NextReadsPlausibly(c, run[j], run[j + 1], id);
    }
  }

  lemma TogetherIsUnfractured(c: Config)
    requires ValidConfig(c) && KeepsTogether(c)
    ensures AlwaysUnfractured(c)
  {
    forall s, id | Reachable(c, s) && id in s.readers && s.readers[id].phase == Finished
      ensures s.readers[id].result.Keys == s.readers[id].keys && Unfractured(s.readers[id].result)
    {
      var run :| IsRun(c, run) && run[|run| - 1] == s;
      TogetherUntil(c, run, |run| - 1, id);
      ReaderAlong(c, run, |run| - 1, id);
      UnfracturedNow(s, s.readers[id]);
    }
  }
}
