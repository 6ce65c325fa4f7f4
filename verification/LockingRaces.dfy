/** A run of the locking mode in which a finished write is lost, because its timestamp was taken too early. */
module LockingRaces {
  import opened Data
  import opened Store
  import opened Locking
  import opened LockingOrder

  /** Steps of the machine lead from one state to the other. */
  ghost predicate Leads(c: Config, s: State, s': State)
    requires ValidConfig(c)
  {
    exists path :: IsPath(c, path) && path[0] == s && path[|path| - 1] == s'
  }

  ghost predicate IsPath(c: Config, path: seq<State>)
    requires ValidConfig(c)
  {
    |path| > 0 && forall i :: 0 <= i < |path| - 1 ==> Next(c, path[i], path[i + 1])
  }

  lemma StaysPut(c: Config, s: State)
    requires ValidConfig(c)
    ensures Leads(c, s, s)
  {
    assert IsPath(c, [s]) && [s][0] == s && [s][|[s]| - 1] == s;
  }

  lemma Go(c: Config, start: State, s: State, p: nat, step: Step, s': State)
    requires ValidConfig(c) && |s.stores| == c.servers && |s.phases| == |c.work| && p < |c.work|
    requires Leads(c, start, s) && Enabled(c, s, p, step) && s' == Apply(c, s, p, step)
    ensures Leads(c, start, s')
  {
    var path :| IsPath(c, path) && path[0] == start && path[|path| - 1] == s;
    var longer := path + [s'];
    assert Next(c, s, s');
    forall i | 0 <= i < |longer| - 1
      ensures Next(c, longer[i], longer[i + 1])
    {
      assert i < |path| - 1 ==> Next(c, path[i], path[i + 1]);
    }
    assert IsPath(c, longer);
  }

  const FRESH := Phase(Idle, 0, false, map[], map[], {})

  predicate OneKey(c: Config, p: nat, key: Key) {
    p < |c.work| && c.work[p].order == [key]
  }

  /** The state after phase `p` has locked its one key, worked on it, and asked for the release. */
  function Worked(c: Config, s: State, p: nat, key: Key): State
    requires ValidConfig(c) && |s.stores| == c.servers && |s.phases| == |c.work| && OneKey(c, p, key)
    requires c.work[p].txn.PutAll? ==> key in c.work[p].txn.values
  {
    var h, t := Home(c, key), c.work[p].txn;
    var ret := if t.GetAll? then map[key := GetLatest(s.stores[h], key)] else map[];
    s.(stores := s.stores[h := StoreAfter(s.stores[h], t, key)],
       locks := s.locks[key := if t.PutAll? then WrittenBy(p) else ReadBy({p})],
       phases := s.phases[p := Phase(Shrinking, 1, false, ret, map[h := {key}], {})],
       log := s.log + [p])
  }

  function Locked(c: Config, s: State, p: nat, key: Key): State
    requires p < |c.work| && p < |s.phases|
  {
    s.(phases := s.phases[p := FRESH.(stage := Growing, locked := true)],
       locks := s.locks[key := if c.work[p].txn.PutAll? then WrittenBy(p) else ReadBy({p})])
  }

  lemma Locks(c: Config, start: State, s: State, p: nat, key: Key)
    requires ValidConfig(c) && |s.stores| == c.servers && |s.phases| == |c.work| && OneKey(c, p, key)
    requires Leads(c, start, s) && s.phases[p] == FRESH && LockOf(s.locks, key) == Free
    ensures Leads(c, start, Locked(c, s, p, key))
  {
    var s1 := s.(phases := s.phases[p := FRESH.(stage := Growing)]);
    Go(c, start, s, p, Begin, s1);
    var s2 := Locked(c, s, p, key);
    assert s2.phases == s1.phases[p := s2.phases[p]];
    Go(c, start, s1, p, Lock, s2);
  }

  lemma Operates(c: Config, start: State, s: State, p: nat, key: Key)
    requires ValidConfig(c) && |s.stores| == c.servers && |s.phases| == |c.work| && OneKey(c, p, key)
    requires c.work[p].txn.PutAll? ==> key in c.work[p].txn.values
    requires Leads(c, start, Locked(c, s, p, key))
    ensures Leads(c, start, Worked(c, s, p, key))
  {
    var s2, done := Locked(c, s, p, key), Worked(c, s, p, key);
    var s3 := done.(phases := s.phases[p := done.phases[p].(stage := Growing)], log := s.log);
    assert s3.phases == s2.phases[p := s3.phases[p]];
    assert {} + {key} == {key};
    Go(c, start, s2, p, Operate, s3);
    assert done.phases == s3.phases[p := done.phases[p]];
    Go(c, start, s3, p, StartRelease, done);
  }

  /** ... and after it has given its lock back. */
  function Released(s: State, p: nat, key: Key, h: nat): State
    requires p < |s.phases|
  {
    s.(locks := s.locks[key := Free],
       phases := s.phases[p := s.phases[p].(stage := Done, released := {key}, access := map[h := {}])])
  }

  lemma Releases(c: Config, start: State, s: State, p: nat, key: Key)
    requires ValidConfig(c) && |s.stores| == c.servers && |s.phases| == |c.work| && OneKey(c, p, key)
    requires Leads(c, start, s) && s.phases[p].stage == Shrinking && s.phases[p].access == map[Home(c, key) := {key}]
    requires s.phases[p].released == {} && AfterUnlock(LockOf(s.locks, key), p) == Free
    ensures Leads(c, start, Released(s, p, key, Home(c, key)))
  {
    var ph, h := s.phases[p], Home(c, key);
    var s1 := s.(locks := s.locks[key := Free], phases := s.phases[p := ph.(released := {key})]);
    assert {} + {key} == {key};
    Go(c, start, s, p, Unlock(key), s1);
    var s2 := s1.(phases := s.phases[p := ph.(released := {key}, access := map[h := {}])]);
    assert map[h := {key}][h := {}] == map[h := {}];
    assert s2.phases == s1.phases[p := s2.phases[p]];
    Go(c, start, s1, p, Clear(h), s2);
    var s3 := Released(s, p, key, Home(c, key));
    assert s3.phases == s2.phases[p := s3.phases[p]];
    Go(c, start, s2, p, Finish, s3);
  }

  /** A one-key phase that nobody disturbs runs from start to end. */
  lemma RunsAlone(c: Config, start: State, s: State, p: nat, key: Key) returns (s': State)
    requires ValidConfig(c) && |s.stores| == c.servers && |s.phases| == |c.work| && OneKey(c, p, key)
    requires c.work[p].txn.PutAll? ==> key in c.work[p].txn.values
    requires Leads(c, start, s) && s.phases[p] == FRESH && LockOf(s.locks, key) == Free
    ensures Leads(c, start, s') && |s'.stores| == c.servers && |s'.phases| == |c.work|
    ensures s'.log == s.log + [p] && LockOf(s'.locks, key) == Free && s'.phases[p].stage == Done
    ensures s'.stores == s.stores[Home(c, key) := StoreAfter(s.stores[Home(c, key)], c.work[p].txn, key)]
    ensures c.work[p].txn.GetAll? ==> s'.phases[p].ret == map[key := GetLatest(s.stores[Home(c, key)], key)]
    ensures forall q :: 0 <= q < |c.work| && q != p ==> s'.phases[q] == s.phases[q]
  {
    Locks(c, start, s, p, key);
    Operates(c, start, s, p, key);
    var w := Worked(c, s, p, key);
    assert {p} - {p} == {};
    Releases(c, start, w, p, key);
    s' := Released(w, p, key, Home(c, key));
  }

  const WINNER: Item := ItemOf(LATE.txn, "k")
  const LOSER: Item := ItemOf(EARLY.txn, "k")
  const START := State([EMPTY_STORE], map[], [FRESH, FRESH, FRESH], [])

  /** The write with the newer timestamp, undisturbed. */
  lemma FirstWrite() returns (s: State)
    ensures ValidConfig(THREE) && Leads(THREE, START, s) && |s.phases| == 3 && s.log == [0]
    ensures s.phases[0].stage == Done && s.phases[1] == s.phases[2] == FRESH && LockOf(s.locks, "k") == Free
    ensures s.stores == [Put(EMPTY_STORE, WINNER)]
  {
    LateLockLosesAWrite();
    StaysPut(THREE, START);
    s := RunsAlone(THREE, START, START, 0, "k");
  }

  /** Then the one with the older, which nobody disturbs either. */
  lemma TwoWrites() returns (s: State)
    ensures ValidConfig(THREE) && Leads(THREE, START, s) && |s.phases| == 3 && s.log == [0, 1]
    ensures s.phases[0].stage == s.phases[1].stage == Done && s.phases[2] == FRESH && LockOf(s.locks, "k") == Free
    ensures s.stores == [Put(Put(EMPTY_STORE, WINNER), LOSER)]
  {
    var s1 := FirstWrite();
    s := RunsAlone(THREE, START, s1, 1, "k");
  }

  lemma ThenARead(before: State, item: Item) returns (after: State)
    requires ValidConfig(THREE) && |before.stores| == 1 && |before.phases| == 3
    requires before.phases[2] == FRESH && LockOf(before.locks, "k") == Free && GetLatest(before.stores[0], "k") == item
    ensures Leads(THREE, before, after) && |after.phases| == 3 && after.log == before.log + [2]
    ensures after.phases[2].stage == Done && after.phases[2].ret == map["k" := item]
  {
    StaysPut(THREE, before);
    after := RunsAlone(THREE, before, before, 2, "k");
  }

  /**
   From the start a state is reached in which both writes have finished and the read has not begun,
   and from there one in which the read has returned the first of them.
   */
  lemma FinishedWriteIsNotRead() returns (before: State, after: State)
    ensures ValidConfig(THREE) && Init(THREE, START) && Leads(THREE, START, before) && Leads(THREE, before, after)
    ensures |before.phases| == |after.phases| == 3 && before.log == [0, 1] && after.log == [0, 1, 2]
    ensures before.phases[0].stage == before.phases[1].stage == Done && before.phases[2].stage == Idle
    ensures after.phases[2].stage == Done && after.phases[2].ret == map["k" := WINNER]
    ensures LastWritten(THREE, before.log, "k") == LOSER
  {
    before := TwoWrites();
    WinnerStays();
    after := ThenARead(before, WINNER);
    assert [0, 1] + [2] == [0, 1, 2];
  }

  lemma WinnerStays()
    ensures GetLatest(Put(Put(EMPTY_STORE, WINNER), LOSER), "k") == WINNER
    ensures LastWritten(THREE, [0, 1], "k") == LOSER
  {
    NewerStays(WINNER, LOSER);
    assert [0, 1][..1] == [0];
  }

  /** Putting an older version under a newer one changes no answer. */
  lemma NewerStays(newer: Item, older: Item)
    requires newer.key == older.key && older.ts.Less(newer.ts) && ZERO.Less(older.ts)
    ensures GetLatest(Put(Put(EMPTY_STORE, newer), older), newer.key) == newer
  {
    var st := Put(EMPTY_STORE, newer);
    assert Latest(st, newer.key) == newer.ts && Versions(st, newer.ts) == [newer];
    var st' := Put(st, older);
    assert Latest(st', newer.key) == newer.ts && Versions(st', newer.ts) == [newer];
  }
}
