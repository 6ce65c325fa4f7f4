/** A transaction whose commit nobody disturbs goes through all its servers and returns. */
module RampReturns {
  import opened Data
  import opened Store
  import opened Ramp
  import opened RampSafety
  import opened RampExclusive
  import opened RampScripts

  /** `t` is committing and between two items on every server, and so is everybody else. */
  ghost predicate Undisturbed(c: Config, s: State, t: Timestamp)
    requires ValidConfig(c)
  {
    && Reachable(c, s) && |s.stores| == c.servers && s.changing == map[] && t in s.writers && s.writers[t].phase == Committing
    && forall u :: u in s.writers ==> Calm(s.writers[u])
  }

  /** The commit of `t` is past `k`, the first of its items on that server. */
  predicate PastKey(c: Config, s: State, t: Timestamp, k: Key)
    requires ValidConfig(c)
  {
    && |s.stores| == c.servers && t in s.writers && Home(c, k) in s.writers[t].jobs && s.writers[t].jobs[Home(c, k)].i > 0
    && |Versions(s.stores[Home(c, k)], t)| > 0 && Versions(s.stores[Home(c, k)], t)[0].key == k
  }

  /** Of a store, only keys of `touched` other than `k` change, and only to `t`, and no version. */
  ghost predicate OnlyTouches(st: Store, st': Store, t: Timestamp, touched: set<Key>, k: Key) {
    && st'.items == st.items
    && (forall j :: Latest(st', j) == Latest(st, j) || Latest(st', j) == t)
    && (forall j :: j in st.slots ==> j in st'.slots)
    && (forall j :: j == k || j !in touched ==> Latest(st', j) == Latest(st, j))
    && (forall j :: (j == k || j !in touched) && j in st.slots ==> st'.slots[j] == st.slots[j])
  }

  /** Apart from its own state, the commit of `t` changes only keys it writes, and not `k`. */
  ghost predicate OnlyFinishes(s: State, s': State, t: Timestamp, k: Key) {
    && |s'.stores| == |s.stores| && s'.readers == s.readers && s'.writers.Keys == s.writers.Keys && t in s.writers
    && (forall u :: u in s.writers && u != t ==> s'.writers[u] == s.writers[u])
    && s'.writers[t].writes == s.writers[t].writes
    && forall m :: 0 <= m < |s.stores| ==> OnlyTouches(s.stores[m], s'.stores[m], t, s.writers[t].writes.Keys, k)
  }

  lemma FinishesChains(s: State, s': State, s'': State, t: Timestamp, k: Key)
    requires OnlyFinishes(s, s', t, k) && OnlyFinishes(s', s'', t, k)
    ensures OnlyFinishes(s, s'', t, k)
  {
    forall m | 0 <= m < |s.stores|
      ensures OnlyTouches(s.stores[m], s''.stores[m], t, s.writers[t].writes.Keys, k)
    {
      assert OnlyTouches(s.stores[m], s'.stores[m], t, s.writers[t].writes.Keys, k);
      assert OnlyTouches(s'.stores[m], s''.stores[m], t, s.writers[t].writes.Keys, k);
    }
  }

  lemma ReachableExclusive(c: Config, s: State)
    requires ValidConfig(c) && c.exclusive && Reachable(c, s)
    ensures ExclusiveInv(c, s)
  {
    var run :| IsRun(c, run) && run[|run| - 1] == s;
    ExclusiveAlong(c, run, |run| - 1);
  }

  // ---- one item --------------------------------------------------------------------------------

  /** Only the commit of `t` on `h` is in the middle of an item, and stands there at `job`. */
  ghost predicate Alone(c: Config, s: State, t: Timestamp, h: nat, job: Job)
    requires ValidConfig(c)
  {
    && Reachable(c, s) && |s.stores| == c.servers && t in s.writers && s.writers[t].phase == Committing
    && (forall u :: u in s.writers && u != t ==> Calm(s.writers[u]))
    && (forall g :: g in s.writers[t].jobs && g != h ==> s.writers[t].jobs[g].pc == Check)
    && h < c.servers && h in s.writers[t].jobs && s.writers[t].jobs[h] == job
    && (job.pc != Check ==> job.i < |Versions(s.stores[h], t)|)
    && s.changing == if job.pc == Writing then map[Versions(s.stores[h], t)[job.i].key := Versions(s.stores[h], t)[job.i]] else map[]
  }

  /** One step of it changes nothing but its job and the key of its item. */
  lemma JobStep(c: Config, s: State, t: Timestamp, h: nat, k: Key) returns (s': State)
    requires ValidConfig(c) && Reachable(c, s) && OwnItem(c, s, t, h, k) && Enabled(c, s, Put(t, StepJob(h)))
    ensures Reachable(c, s') && OnlyFinishes(s, s', t, k) && s' == Apply(c, s, Put(t, StepJob(h)))
  {
    s' := Go(c, s, Put(t, StepJob(h)));
    StepTouches(c, s.stores[h], t, s.writers[t], h, k);
  }

  lemma StepTouches(c: Config, st: Store, t: Timestamp, w: Writer, h: nat, k: Key)
    requires ValidConfig(c) && JobRuns(st, t, w, h) && JobItem(st, t, w, h).key in w.writes && JobItem(st, t, w, h).key != k
    ensures OnlyTouches(st, StoreAfter(c, st, t, w, StepJob(h)), t, w.writes.Keys, k)
  {
  }

  /** Its own item, which is neither `k` nor anybody else's business. */
  predicate OwnItem(c: Config, s: State, t: Timestamp, h: nat, k: Key)
    requires ValidConfig(c)
  {
    && |s.stores| == c.servers && h < c.servers && t in s.writers && JobRuns(s.stores[h], t, s.writers[t], h)
    && var key := JobItem(s.stores[h], t, s.writers[t], h).key; key in s.writers[t].writes && key != k && Home(c, key) == h
  }

  lemma ItemIsOwn(c: Config, s: State, t: Timestamp, h: nat, k: Key)
    requires ValidConfig(c) && Inv(c, s) && PastKey(c, s, t, k) && h < c.servers && JobRuns(s.stores[h], t, s.writers[t], h)
    ensures OwnItem(c, s, t, h, k)
  {
    var versions, i := Versions(s.stores[h], t), s.writers[t].jobs[h].i;
    assert VersionOk(c, s, h, t, versions[i]) && DistinctKeys(versions);
  }

  lemma MayStep(c: Config, s: State, t: Timestamp, h: nat, job: Job)
    requires ValidConfig(c) && Alone(c, s, t, h, job) && job.i < |Versions(s.stores[h], t)|
    ensures Enabled(c, s, Put(t, StepJob(h)))
  {
    assert JobRuns(s.stores[h], t, s.writers[t], h);
    forall u | u in s.writers && job.pc == Check
      ensures !Amid(s.stores[h], u, s.writers[u], h, JobItem(s.stores[h], t, s.writers[t], h).key)
    {
      assert u != t ==> Calm(s.writers[u]);
    }
  }

  /** After a step it is still alone, a little further on. */
  lemma StaysAlone(c: Config, s: State, s': State, t: Timestamp, h: nat, job: Job)
    requires ValidConfig(c) && Alone(c, s, t, h, job) && job.i < |Versions(s.stores[h], t)| && Enabled(c, s, Put(t, StepJob(h)))
    requires s' == Apply(c, s, Put(t, StepJob(h))) && Reachable(c, s') && s'.stores[h].items == s.stores[h].items
    ensures Alone(c, s', t, h, JobAfter(s.stores[h], t, s.writers[t], h))
    ensures s'.writers[t] == s.writers[t].(jobs := s.writers[t].jobs[h := JobAfter(s.stores[h], t, s.writers[t], h)])
  {
    var next, item := JobAfter(s.stores[h], t, s.writers[t], h), JobItem(s.stores[h], t, s.writers[t], h);
    assert Versions(s'.stores[h], t) == Versions(s.stores[h], t);
    assert job.pc == Rewrite ==> map[][item.key := item] == map[item.key := item];
    assert job.pc == Writing ==> map[item.key := item] - {item.key} == map[];
  }

  lemma StaysPast(c: Config, s: State, s': State, t: Timestamp, k: Key)
    requires ValidConfig(c) && PastKey(c, s, t, k) && OnlyFinishes(s, s', t, k)
    requires forall h :: h in s.writers[t].jobs ==> h in s'.writers[t].jobs && s.writers[t].jobs[h].i <= s'.writers[t].jobs[h].i
    ensures PastKey(c, s', t, k)
  {
    assert OnlyTouches(s.stores[Home(c, k)], s'.stores[Home(c, k)], t, s.writers[t].writes.Keys, k);
  }

  // ---- the single steps together are a commit ------------------------------------------------------

  lemma StepCommits(c: Config, s: State, t: Timestamp, h: nat, job: Job) returns (s': State)
    requires ValidConfig(c) && Alone(c, s, t, h, job) && job.i < |Versions(s.stores[h], t)|
    ensures Alone(c, s', t, h, JobAfter(s.stores[h], t, s.writers[t], h))
    ensures s'.stores == s.stores[h := StoreAfter(c, s.stores[h], t, s.writers[t], StepJob(h))]
    ensures Versions(s'.stores[h], t) == Versions(s.stores[h], t)
  {
    MayStep(c, s, t, h, job);
    s' := Go(c, s, Put(t, StepJob(h)));
    StaysAlone(c, s, s', t, h, job);
  }

  /** Check, set, and both ends of the slot update, or the check alone: one item of a commit. */
  lemma ItemCommits(c: Config, s: State, t: Timestamp, h: nat, i: nat) returns (s': State)
    requires ValidConfig(c) && Alone(c, s, t, h, Job(i, Check)) && i < |Versions(s.stores[h], t)|
    ensures Alone(c, s', t, h, Job(i + 1, Check)) && Versions(s'.stores[h], t) == Versions(s.stores[h], t)
    ensures s'.stores == s.stores[h := CommitItem(s.stores[h], Versions(s.stores[h], t)[i], t)]
  {
    var st, item := s.stores[h], Versions(s.stores[h], t)[i];
    s' := StepCommits(c, s, t, h, Job(i, Check));
    if Latest(st, item.key).Less(t) {
      s' := SetsItem(c, s', t, h, i);
    }
  }

  lemma SetsItem(c: Config, s: State, t: Timestamp, h: nat, i: nat) returns (s': State)
    requires ValidConfig(c) && Alone(c, s, t, h, Job(i, Set)) && i < |Versions(s.stores[h], t)|
    ensures Alone(c, s', t, h, Job(i + 1, Check)) && Versions(s'.stores[h], t) == Versions(s.stores[h], t)
    ensures var item := Versions(s.stores[h], t)[i];
            s'.stores == s.stores[h := Publish(SetLatest(s.stores[h], item.key, t), item)]
  {
    var s1 := StepCommits(c, s, t, h, Job(i, Set));
    s' := FinishesItem(c, s1, t, h, i);
  }

  lemma FinishesItem(c: Config, s: State, t: Timestamp, h: nat, i: nat) returns (s': State)
    requires ValidConfig(c) && Alone(c, s, t, h, Job(i, Rewrite)) && i < |Versions(s.stores[h], t)|
    ensures Alone(c, s', t, h, Job(i + 1, Check)) && Versions(s'.stores[h], t) == Versions(s.stores[h], t)
    ensures s'.stores == s.stores[h := Publish(s.stores[h], Versions(s.stores[h], t)[i])]
  {
    s' := StepCommits(c, s, t, h, Job(i, Rewrite));
    assert s.stores[h := s.stores[h]] == s.stores;
    if Versions(s.stores[h], t)[i].key in s.stores[h].slots {
      s' := StepCommits(c, s', t, h, Job(i, Writing));
    } else {
      assert Publish(s.stores[h], Versions(s.stores[h], t)[i]) == s.stores[h];
    }
  }

  lemma {:induction false} BatchCommits(c: Config, start: Store, s: State, t: Timestamp, h: nat, i: nat) returns (s': State)
    requires ValidConfig(c) && Alone(c, s, t, h, Job(i, Check)) && Versions(s.stores[h], t) == Versions(start, t) && i <= |Versions(start, t)|
    requires s.stores[h] == CommitItems(start, Versions(start, t)[..i], t)
    ensures Alone(c, s', t, h, Job(|Versions(start, t)|, Check))
    ensures s'.stores == s.stores[h := Commit(start, t)]
    decreases |Versions(start, t)| - i
  {
    var batch := Versions(start, t);
    if i == |batch| {
      s' := s;
      assert batch[..i] == batch;
      assert s.stores[h := s.stores[h]] == s.stores;
    } else {
      CommitItemsStep(start, batch, i, t);
      var s1 := ItemCommits(c, s, t, h, i);
      s' := BatchCommits(c, start, s1, t, h, i + 1);
    }
  }

  /** A server's job on a COMMIT that nobody disturbs leaves the table and the slots that `commit` leaves. */
  lemma JobIsCommit(c: Config, s: State, t: Timestamp, h: nat) returns (s': State)
    requires ValidConfig(c) && Alone(c, s, t, h, Job(0, Check))
    ensures Alone(c, s', t, h, Job(|Versions(s.stores[h], t)|, Check))
    ensures s'.stores == s.stores[h := Commit(s.stores[h], t)]
  {
    assert Versions(s.stores[h], t)[..0] == [];
    s' := BatchCommits(c, s.stores[h], s, t, h, 0);
  }

  function Rank(pc: Pc): nat {
    match pc case Check => 3 case Set => 2 case Rewrite => 1 case Writing => 0
  }

  /** The commit of `t` has gone on, past `k` already; its acknowledgements are these. */
  ghost predicate WentOn(c: Config, s: State, s': State, t: Timestamp, k: Key, acks: set<nat>)
    requires ValidConfig(c)
  {
    PastKey(c, s', t, k) && OnlyFinishes(s, s', t, k) && s'.writers[t].acks == acks
  }

  lemma WentOnChains(c: Config, s: State, s': State, s'': State, t: Timestamp, k: Key, acks: set<nat>, more: set<nat>)
    requires ValidConfig(c) && WentOn(c, s, s', t, k, acks) && WentOn(c, s', s'', t, k, more)
    ensures WentOn(c, s, s'', t, k, more)
  {
    FinishesChains(s, s', s'', t, k);
  }

  lemma BatchStep(c: Config, s: State, t: Timestamp, h: nat, job: Job, k: Key) returns (s': State, next: Job)
    requires ValidConfig(c) && c.exclusive && Alone(c, s, t, h, job) && PastKey(c, s, t, k) && job.i < |Versions(s.stores[h], t)|
    ensures WentOn(c, s, s', t, k, s.writers[t].acks) && Alone(c, s', t, h, next)
    ensures next.i == job.i + 1 || (next.i == job.i && Rank(next.pc) < Rank(job.pc))
    ensures Versions(s'.stores[h], t) == Versions(s.stores[h], t)
  {
    ItemIsAlwaysOwn(c, s, t, h, k);
    MayStep(c, s, t, h, job);
    next := JobAfter(s.stores[h], t, s.writers[t], h);
    JobGoesOn(c, s.stores[h], t, s.writers[t], h);
    s' := JobStep(c, s, t, h, k);
    SameItems(s, s', t, k, h);
    StaysAlone(c, s, s', t, h, job);
    StaysPast(c, s, s', t, k);
  }

  lemma ItemIsAlwaysOwn(c: Config, s: State, t: Timestamp, h: nat, k: Key)
    requires ValidConfig(c) && c.exclusive && Reachable(c, s)
    requires PastKey(c, s, t, k) && h < c.servers && JobRuns(s.stores[h], t, s.writers[t], h)
    ensures OwnItem(c, s, t, h, k)
  {
    ReachableExclusive(c, s);
    ItemIsOwn(c, s, t, h, k);
  }

  lemma JobGoesOn(c: Config, st: Store, t: Timestamp, w: Writer, h: nat)
    requires JobRuns(st, t, w, h)
    ensures var next := JobAfter(st, t, w, h);
            next.i == w.jobs[h].i + 1 || (next.i == w.jobs[h].i && Rank(next.pc) < Rank(w.jobs[h].pc))
  {
  }

  /** What is left of the batch on `h`. */
  lemma {:induction false} FinishBatch(c: Config, s: State, t: Timestamp, h: nat, job: Job, k: Key) returns (s': State, i: nat)
    requires ValidConfig(c) && c.exclusive && Alone(c, s, t, h, job) && PastKey(c, s, t, k)
    ensures WentOn(c, s, s', t, k, s.writers[t].acks) && Alone(c, s', t, h, Job(i, Check)) && i >= |Versions(s'.stores[h], t)|
    decreases if job.i < |Versions(s.stores[h], t)| then |Versions(s.stores[h], t)| - job.i else 0, Rank(job.pc)
  {
    if job.i < |Versions(s.stores[h], t)| {
      var s1, next := BatchStep(c, s, t, h, job, k);
      s', i := FinishBatch(c, s1, t, h, next, k);
      WentOnChains(c, s, s1, s', t, k, s.writers[t].acks, s.writers[t].acks);
    } else {
      s', i := s, job.i;
      NothingFinished(s, t, k);
    }
  }

  lemma SameItems(s: State, s': State, t: Timestamp, k: Key, h: nat)
    requires OnlyFinishes(s, s', t, k) && h < |s.stores|
    ensures s'.stores[h].items == s.stores[h].items
  {
    assert OnlyTouches(s.stores[h], s'.stores[h], t, s.writers[t].writes.Keys, k);
  }

  lemma NothingFinished(s: State, t: Timestamp, k: Key)
    requires t in s.writers
    ensures OnlyFinishes(s, s, t, k)
  {
    forall m | 0 <= m < |s.stores|
      ensures OnlyTouches(s.stores[m], s.stores[m], t, s.writers[t].writes.Keys, k)
    {
    }
  }

  // ---- all servers -------------------------------------------------------------------------------

  /** A step of `t` itself that leaves the stores alone. */
  lemma OwnStep(c: Config, s: State, t: Timestamp, step: WriterStep, k: Key) returns (s': State)
    requires ValidConfig(c) && Undisturbed(c, s, t) && WriterServer(c, step) < c.servers
    requires step.StartJob? || step.AckCommit? || step.ReturnPut?
    requires WriterEnabled(c, s.stores[WriterServer(c, step)], t, s.writers[t], step)
    ensures Reachable(c, s') && OnlyFinishes(s, s', t, k) && s'.changing == map[] && |s'.stores| == c.servers
    ensures s'.writers[t] == WriterAfter(c, s.stores[WriterServer(c, step)], t, s.writers[t], step)
    ensures forall u :: u in s'.writers ==> Calm(s'.writers[u])
  {
    s' := Go(c, s, Put(t, step));
    assert s'.stores == s.stores;
    NothingFinished(s, t, k);
    forall m | 0 <= m < |s.stores|
      ensures OnlyTouches(s.stores[m], s'.stores[m], t, s.writers[t].writes.Keys, k)
    {
    }
  }

  /** The job on `h` starts, unless it is there already. */
  lemma StartServer(c: Config, s: State, t: Timestamp, h: nat, k: Key) returns (s': State)
    requires ValidConfig(c) && Undisturbed(c, s, t) && PastKey(c, s, t, k) && h < c.servers && Touches(c, s.writers[t], h)
    ensures Undisturbed(c, s', t) && WentOn(c, s, s', t, k, s.writers[t].acks) && h in s'.writers[t].jobs
  {
    if h in s.writers[t].jobs {
      s' := s;
      NothingFinished(s, t, k);
    } else {
      s' := OwnStep(c, s, t, StartJob(h), k);
      StaysPast(c, s, s', t, k);
    }
  }

  /** ... runs to its end, ... */
  lemma RunServer(c: Config, s: State, t: Timestamp, h: nat, k: Key) returns (s': State)
    requires ValidConfig(c) && c.exclusive && Undisturbed(c, s, t) && PastKey(c, s, t, k) && h < c.servers && h in s.writers[t].jobs
    ensures Undisturbed(c, s', t) && WentOn(c, s, s', t, k, s.writers[t].acks)
    ensures h in s'.writers[t].jobs && s'.writers[t].jobs[h].i >= |Versions(s'.stores[h], t)|
  {
    assert Calm(s.writers[t]);
    var i;
    s', i := FinishBatch(c, s, t, h, s.writers[t].jobs[h], k);
    AloneIsUndisturbed(c, s', t, h, Job(i, Check));
  }

  /** ... and is acknowledged. */
  lemma AckServer(c: Config, s: State, t: Timestamp, h: nat, k: Key) returns (s': State)
    requires ValidConfig(c) && Undisturbed(c, s, t) && PastKey(c, s, t, k) && h < c.servers
    requires h in s.writers[t].jobs && s.writers[t].jobs[h].i >= |Versions(s.stores[h], t)|
    ensures Undisturbed(c, s', t) && WentOn(c, s, s', t, k, s.writers[t].acks + {h})
  {
    s' := OwnStep(c, s, t, AckCommit(h), k);
    StaysPast(c, s, s', t, k);
  }

  lemma FinishServer(c: Config, s: State, t: Timestamp, h: nat, k: Key) returns (s': State)
    requires ValidConfig(c) && c.exclusive && Undisturbed(c, s, t) && PastKey(c, s, t, k) && h < c.servers && Touches(c, s.writers[t], h)
    ensures Undisturbed(c, s', t) && WentOn(c, s, s', t, k, s.writers[t].acks + {h})
  {
    var s1 := StartServer(c, s, t, h, k);
    var s2 := RunServer(c, s1, t, h, k);
    s' := AckServer(c, s2, t, h, k);
    WentOnChains(c, s, s1, s2, t, k, s.writers[t].acks, s.writers[t].acks);
    WentOnChains(c, s, s2, s', t, k, s.writers[t].acks, s.writers[t].acks + {h});
  }

  lemma AloneIsUndisturbed(c: Config, s: State, t: Timestamp, h: nat, job: Job)
    requires ValidConfig(c) && Alone(c, s, t, h, job) && job.pc == Check
    ensures Undisturbed(c, s, t)
  {
    assert Calm(s.writers[t]);
  }

  /** The servers below `h` that the transaction touches have acknowledged its commit. */
  predicate AckedBelow(c: Config, w: Writer, h: nat, acks: set<nat>)
    requires ValidConfig(c)
  {
    forall g :: 0 <= g < h && Touches(c, w, g) ==> g in acks
  }

  lemma {:induction false} FinishServers(c: Config, s: State, t: Timestamp, h: nat, k: Key) returns (s': State)
    requires ValidConfig(c) && c.exclusive && Undisturbed(c, s, t) && PastKey(c, s, t, k) && h <= c.servers
    requires AckedBelow(c, s.writers[t], h, s.writers[t].acks)
    ensures Undisturbed(c, s', t) && WentOn(c, s, s', t, k, s'.writers[t].acks) && AckedBelow(c, s.writers[t], c.servers, s'.writers[t].acks)
    decreases c.servers - h
  {
    if h == c.servers {
      s' := s;
      NothingFinished(s, t, k);
    } else {
      var s1 := s;
      if Touches(c, s.writers[t], h) {
        s1 := FinishServer(c, s, t, h, k);
      } else {
        NothingFinished(s, t, k);
      }
      OneMoreAck(c, s.writers[t], s1.writers[t], h, s1.writers[t].acks);
      s' := FinishServers(c, s1, t, h + 1, k);
      WentOnChains(c, s, s1, s', t, k, s1.writers[t].acks, s'.writers[t].acks);
      SameTouches(c, s.writers[t], s1.writers[t], s'.writers[t].acks);
    }
  }

  lemma OneMoreAck(c: Config, w: Writer, w': Writer, h: nat, acks: set<nat>)
    requires ValidConfig(c) && w'.writes == w.writes && AckedBelow(c, w, h, acks) && (Touches(c, w, h) ==> h in acks)
    ensures AckedBelow(c, w', h + 1, acks)
  {
    forall g | 0 <= g < h + 1 && Touches(c, w', g)
      ensures g in acks
    {
      assert Touches(c, w, g);
    }
  }

  lemma SameTouches(c: Config, w: Writer, w': Writer, acks: set<nat>)
    requires ValidConfig(c) && w'.writes == w.writes && AckedBelow(c, w', c.servers, acks)
    ensures AckedBelow(c, w, c.servers, acks)
  {
    forall g | 0 <= g < c.servers && Touches(c, w, g)
      ensures g in acks
    {
      assert Touches(c, w', g);
    }
  }

  /** ... and `put_all` returns. */
  lemma Returns(c: Config, s: State, t: Timestamp, k: Key) returns (s': State)
    requires ValidConfig(c) && c.exclusive && Undisturbed(c, s, t) && PastKey(c, s, t, k)
    ensures Reachable(c, s') && OnlyFinishes(s, s', t, k) && |s'.stores| == c.servers && s'.changing == map[]
    ensures s'.writers[t].phase == Returned && forall u :: u in s'.writers ==> Calm(s'.writers[u])
  {
    var s1 := FinishServers(c, s, t, 0, k);
    SameTouches(c, s1.writers[t], s.writers[t], s1.writers[t].acks);
    s' := OwnStep(c, s1, t, ReturnPut, k);
    FinishesChains(s, s1, s', t, k);
  }
}
