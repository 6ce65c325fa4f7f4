/** Servers that commit the versions of one key one at a time never let commits overtake each other. */
module RampExclusive {
  import opened Data
  import opened Store
  import opened Ramp
  import opened RampSafety
  import opened RampCoherence

  /** At most one commit is busy with the key, and what it has checked or set still holds. */
  ghost predicate OneCommitter(s: State, server: nat, key: Key)
    requires server < |s.stores|
  {
    var st := s.stores[server];
    && (forall t, u :: t in s.writers && u in s.writers && t != u ==>
          PcAt(st, t, s.writers[t], server, key) == Check || PcAt(st, u, s.writers[u], server, key) == Check)
    && (forall t :: t in s.writers ==> StandsFirm(Latest(st, key), PcAt(st, t, s.writers[t], server, key), t))
  }

  predicate StandsFirm(latest: Timestamp, pc: Pc, t: Timestamp) {
    match pc
    case Check => true
    case Set => latest.Less(t)
    case Rewrite => latest == t
    case Writing => latest == t
  }

  ghost predicate ExclusiveInv(c: Config, s: State)
    requires ValidConfig(c)
  {
    SlotsInv(c, s) && forall k :: OneCommitter(s, Home(c, k), k)
  }

  lemma ChangingMeansAmid(c: Config, s: State, k: Key)
    requires ValidConfig(c) && |s.stores| == c.servers && ChangingOk(c, s) && k in s.changing
    ensures exists t :: t in s.writers && Amid(s.stores[Home(c, k)], t, s.writers[t], Home(c, k), k)
  {
    assert Holder(c, s, k);
    var t := s.changing[k].ts;
    assert Amid(s.stores[Home(c, k)], t, s.writers[t], Home(c, k), k);
  }

  /** A commit that passes a key over finds nobody in the middle of it, so its slot agrees with the table. */
  lemma PassesOverSettled(c: Config, s: State, ts: Timestamp, h: nat)
    requires ValidConfig(c) && c.exclusive && SlotsInv(c, s) && Enabled(c, s, Put(ts, StepJob(h))) && s.writers[ts].jobs[h].pc == Check
    ensures OrderlyJob(s, ts, h)
  {
    CommitsOwnItem(c, s, ts, h);
    var k := JobItem(s.stores[h], ts, s.writers[ts], h).key;
    assert KeyOk(s, h, k);
    NobodyAmid(c, s, ts, h, k);
    ShowsLatest(s, h, k);
  }

  lemma NobodyAmid(c: Config, s: State, ts: Timestamp, h: nat, k: Key)
    requires ValidConfig(c) && c.exclusive && |s.stores| == c.servers && ChangingOk(c, s) && Enabled(c, s, Put(ts, StepJob(h)))
    requires s.writers[ts].jobs[h].pc == Check && k == JobItem(s.stores[h], ts, s.writers[ts], h).key && Home(c, k) == h
    ensures k !in s.changing && forall u :: u in s.writers ==> !Amid(s.stores[h], u, s.writers[u], h, k)
  {
    if k in s.changing {
      ChangingMeansAmid(c, s, k);
    }
  }

  lemma ShowsLatest(s: State, h: nat, k: Key)
    requires h < |s.stores| && KeyOk(s, h, k) && forall u :: u in s.writers ==> !Amid(s.stores[h], u, s.writers[u], h, k)
    ensures Visible(s.stores[h], k) ==> s.stores[h].slots[k].item.ts == Latest(s.stores[h], k)
  {
  }

  lemma ExclusiveIsOrderly(c: Config, s: State, a: Action)
    requires ValidConfig(c) && c.exclusive && ExclusiveInv(c, s) && Enabled(c, s, a)
    ensures Orderly(c, s, a)
  {
    if a.Put? && a.wstep.StepJob? {
      var ts, h := a.ts, a.wstep.server;
      CommitsOwnItem(c, s, ts, h);
      var k := JobItem(s.stores[h], ts, s.writers[ts], h).key;
      if s.writers[ts].jobs[h].pc == Check {
        PassesOverSettled(c, s, ts, h);
      } else {
        assert OneCommitter(s, Home(c, k), k);
        assert PcAt(s.stores[h], ts, s.writers[ts], h, k) == s.writers[ts].jobs[h].pc;
      }
    }
  }

  lemma OneCommitterKept(s: State, s': State, server: nat, key: Key)
    requires server < |s.stores| && server < |s'.stores| && OneCommitter(s, server, key) && KeyKept(s, s', server, key)
    requires forall t :: t in s'.writers && t !in s.writers ==> PcAt(s'.stores[server], t, s'.writers[t], server, key) == Check
    ensures OneCommitter(s', server, key)
  {
  }

  lemma OneCommitterMoves(c: Config, s: State, ts: Timestamp, h: nat, k: Key)
    requires ValidConfig(c) && c.exclusive && |s.stores| == c.servers && Enabled(c, s, Put(ts, StepJob(h)))
    requires OneCommitter(s, h, k) && k in s.stores[h].slots && JobItem(s.stores[h], ts, s.writers[ts], h).key == k
    ensures OneCommitter(Apply(c, s, Put(ts, StepJob(h))), h, k)
  {
    var s' := Apply(c, s, Put(ts, StepJob(h)));
    CommitterMoves(c, s, ts, h, k);
    JobMoves(c, s.stores[h], ts, s.writers[ts], h);
    forall t | t in s.writers && t != ts
      ensures PcAt(s'.stores[h], t, s'.writers[t], h, k) == Check
    {
      assert PcAt(s.stores[h], ts, s.writers[ts], h, k) == s.writers[ts].jobs[h].pc;
      assert PcAt(s.stores[h], t, s.writers[t], h, k) == Check;
    }
  }

  lemma OneCommitterAfter(c: Config, s: State, a: Action, k: Key)
    requires ValidConfig(c) && c.exclusive && ExclusiveInv(c, s) && Enabled(c, s, a)
    ensures OneCommitter(Apply(c, s, a), Home(c, k), k)
  {
    var s', h := Apply(c, s, a), Home(c, k);
    assert OneCommitter(s, h, k);
    if a.Put? {
      if Commits(c, s, a.ts, a.wstep, k) {
        CommitsOwnItem(c, s, a.ts, a.wstep.server);
        OneCommitterMoves(c, s, a.ts, h, k);
      } else {
        KeptByPut(c, s, a.ts, a.wstep, k);
        OneCommitterKept(s, s', h, k);
      }
    } else {
      BystanderSteps(c, s, a);
      OneCommitterBystander(s, s', h, k);
    }
  }

  lemma OneCommitterBystander(s: State, s': State, h: nat, k: Key)
    requires h < |s.stores| && Bystander(s, s') && OneCommitter(s, h, k)
    ensures OneCommitter(s', h, k)
  {
    assert Harmless(s.stores[h], s'.stores[h]);
    assert forall t :: Versions(s'.stores[h], t) == Versions(s.stores[h], t);
    assert Latest(s'.stores[h], k) == Latest(s.stores[h], k);
    forall t | t in s'.writers
      ensures t in s.writers ==> PcAt(s'.stores[h], t, s'.writers[t], h, k) == PcAt(s.stores[h], t, s.writers[t], h, k)
      ensures t !in s.writers ==> PcAt(s'.stores[h], t, s'.writers[t], h, k) == Check
    {
    }
  }

  lemma ExclusiveStep(c: Config, s: State, a: Action)
    requires ValidConfig(c) && c.exclusive && ExclusiveInv(c, s) && Enabled(c, s, a)
    ensures Orderly(c, s, a) && ExclusiveInv(c, Apply(c, s, a))
  {
    ExclusiveIsOrderly(c, s, a);
    SlotsStep(c, s, a);
    forall k
      ensures OneCommitter(Apply(c, s, a), Home(c, k), k)
    {
      OneCommitterAfter(c, s, a, k);
    }
  }

  lemma {:induction false} ExclusiveAlong(c: Config, run: seq<State>, i: nat)
    requires ValidConfig(c) && c.exclusive && IsRun(c, run) && i < |run|
    ensures ExclusiveInv(c, run[i])
  {
    if i == 0 {
      InvAlong(c, run, 0);
    } else {
      ExclusiveAlong(c, run, i - 1);
      var a := StepAt(c, run, i);
      ExclusiveStep(c, run[i - 1], a);
    }
  }

  /** Exclusive commits are orderly in every run. */
  lemma ExclusiveRunsAreOrderly(c: Config, run: seq<State>)
    requires ValidConfig(c) && c.exclusive && IsRun(c, run)
    ensures IsOrderly(c, run)
  {
    forall i | 0 <= i < |run| - 1
      ensures NextOrderly(c, run[i], run[i + 1])
    {
      ExclusiveAlong(c, run, i);
      var a := StepAt(c, run, i + 1);
      ExclusiveStep(c, run[i], a);
    }
  }
}
