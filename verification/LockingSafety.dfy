/** The lock table is right, and every run of the locking mode is equivalent to a serial one. */
module LockingSafety {
  import opened Data
  import opened Store
  import opened Locking

  // ---- the lock table --------------------------------------------------------------------

  /** Keys whose lock the phase has ever been granted. */
  function Taken(w: Work, ph: Phase): seq<Key> {
    var n := if ph.locked then ph.next + 1 else ph.next;
    if n <= |w.order| then w.order[..n] else w.order
  }

  function Worked(w: Work, ph: Phase): seq<Key> {
    if ph.next <= |w.order| then w.order[..ph.next] else w.order
  }

  predicate Holds(w: Work, ph: Phase, key: Key) {
    key in Taken(w, ph) && key !in ph.released
  }

  ghost predicate PhaseOk(c: Config, w: Work, ph: Phase)
    requires c.servers > 0
  {
    && ph.next <= |w.order|
    && (ph.locked ==> ph.stage == Growing && ph.next < |w.order|)
    && (ph.stage == Idle ==> ph.next == 0)
    && (ph.stage == Idle || ph.stage == Growing ==> ph.released == {})
    && (ph.stage == Shrinking || ph.stage == Done ==> ph.next == |w.order|)
    && (forall i, k :: i in ph.access && k in ph.access[i] ==> Home(c, k) == i && k in Worked(w, ph))
    && (forall k :: k in Worked(w, ph) && k !in ph.released ==> k in Access(ph, Home(c, k)))
    && (ph.stage == Done ==> forall k :: k in w.order ==> k in ph.released)
  }

  ghost predicate LocksOk(c: Config, s: State)
    requires c.servers > 0 && |s.phases| == |c.work|
  {
    && (forall p :: 0 <= p < |c.work| ==> PhaseOk(c, c.work[p], s.phases[p]))
    && (forall k :: LockOk(c, s, k))
  }

  /** A lock is held by exactly the phases that took it and have not given it back. */
  ghost predicate LockOk(c: Config, s: State, k: Key)
    requires |s.phases| == |c.work|
  {
    var l := LockOf(s.locks, k);
    && (forall p: nat :: HeldBy(l, p) <==> p < |c.work| && Holds(c.work[p], s.phases[p], k))
    && (forall p: nat :: HeldBy(l, p) && p < |c.work| ==> (l.WrittenBy? <==> c.work[p].txn.PutAll?))
    && (l.ReadBy? ==> l.readers != {})
  }

  lemma OperateStep(c: Config, st: Store, w: Work, ph: Phase)
    requires c.servers > 0 && PhaseOk(c, w, ph) && ph.stage == Growing && ph.locked
    ensures PhaseOk(c, w, PhaseAfter(c, st, w, ph, Operate))
  {
    assert w.order[..ph.next + 1] == w.order[..ph.next] + [w.order[ph.next]];
  }

  lemma PhaseStep(c: Config, s: State, p: nat, step: Step)
    requires ValidConfig(c) && |s.stores| == c.servers && |s.phases| == |c.work| && p < |c.work|
    requires Enabled(c, s, p, step) && PhaseOk(c, c.work[p], s.phases[p])
    ensures PhaseOk(c, c.work[p], Apply(c, s, p, step).phases[p])
  {
    var w, ph, ph' := c.work[p], s.phases[p], Apply(c, s, p, step).phases[p];
    if step.Operate? {
      OperateStep(c, s.stores[Home(c, w.order[ph.next])], w, ph);
    }
    if step.StartRelease? {
      assert w.order[..|w.order|] == w.order;
    }
    if step.Finish? {
      forall k | k in w.order
        ensures k in ph.released
      {
        assert w.order[..|w.order|] == w.order;
        assert Access(ph, Home(c, k)) == {};
      }
    }
  }

  /** What a phase holds changes only when it locks or unlocks. */
  lemma HoldsStep(c: Config, s: State, p: nat, step: Step, k: Key)
    requires ValidConfig(c) && |s.stores| == c.servers && |s.phases| == |c.work| && p < |c.work|
    requires Enabled(c, s, p, step) && PhaseOk(c, c.work[p], s.phases[p])
    ensures var w, ph, ph' := c.work[p], s.phases[p], Apply(c, s, p, step).phases[p];
            Holds(w, ph', k) <==>
              match step
              case Lock => Holds(w, ph, k) || k == w.order[ph.next]
              case Unlock(key) => Holds(w, ph, k) && k != key
              case _ => Holds(w, ph, k)
  {
    var w, ph := c.work[p], s.phases[p];
    if step.Lock? {
      assert w.order[..ph.next + 1] == w.order[..ph.next] + [w.order[ph.next]];
    }
  }

  lemma NextIsNotHeld(c: Config, w: Work, ph: Phase)
    requires c.servers > 0 && PhaseOk(c, w, ph) && Ascending(w.order) && !ph.locked && ph.next < |w.order|
    ensures !Holds(w, ph, w.order[ph.next])
  {
    forall i | 0 <= i < ph.next
      ensures w.order[i] != w.order[ph.next]
    {
      KeyLessIrreflexive(w.order[i]);
    }
  }

  /** Working on a key leaves it an entry in the table; a read moves no answer. */
  lemma OperateLeavesEntry(c: Config, s: State, p: nat, other: Key)
    requires ValidConfig(c) && |s.stores| == c.servers && |s.phases| == |c.work| && p < |c.work| && Enabled(c, s, p, Operate)
    ensures var key, s' := c.work[p].order[s.phases[p].next], Apply(c, s, p, Operate);
            && key in s'.stores[Home(c, key)].latest
            && (c.work[p].txn.GetAll? ==> Latest(s'.stores[Home(c, key)], other) == Latest(s.stores[Home(c, key)], other))
  {
  }

  /** Readers share, a writer is alone, and a lock has no holders but those who were let in. */
  lemma LockRules(l: RwLock, p: nat, q: nat)
    requires l.ReadBy? ==> l.readers != {}
    ensures CanWrite(l) <==> forall r: nat :: !HeldBy(l, r)
    ensures CanRead(l) <==> forall w: nat :: l != WrittenBy(w)
    ensures CanRead(l) ==> CanRead(AfterRead(l, p)) && !CanWrite(AfterRead(l, p)) && (HeldBy(AfterRead(l, p), q) <==> HeldBy(l, q) || q == p)
    ensures !CanRead(WrittenBy(p)) && (HeldBy(WrittenBy(p), q) <==> q == p)
  {
    if l.ReadBy? {
      var r :| r in l.readers;
      assert HeldBy(l, r);
    } else if l.WrittenBy? {
      assert HeldBy(l, l.writer);
    }
  }

  lemma UnlockGivesBack(l: RwLock, p: nat)
    requires HeldBy(l, p) && (l.ReadBy? ==> l.readers != {})
    ensures forall q: nat :: HeldBy(AfterUnlock(l, p), q) <==> HeldBy(l, q) && q != p
    ensures AfterUnlock(l, p).WrittenBy? ==> l.WrittenBy?
    ensures AfterUnlock(l, p).ReadBy? ==> l.ReadBy? && AfterUnlock(l, p).readers != {}
  {
    forall q: nat
      ensures HeldBy(AfterUnlock(l, p), q) <==> HeldBy(l, q) && q != p
    {
      assert l.ReadBy? ==> (q in l.readers - {p} <==> q in l.readers && q != p);
    }
  }

  lemma LockStep(c: Config, s: State, p: nat, step: Step, k: Key)
    requires ValidConfig(c) && |s.stores| == c.servers && |s.phases| == |c.work| && p < |c.work|
    requires PhaseOk(c, c.work[p], s.phases[p]) && LockOk(c, s, k) && Enabled(c, s, p, step)
    ensures LockOk(c, Apply(c, s, p, step), k)
  {
    var s', w, ph := Apply(c, s, p, step), c.work[p], s.phases[p];
    var l, l' := LockOf(s.locks, k), LockOf(s'.locks, k);
    HoldsStep(c, s, p, step, k);
    assert HeldBy(l, p) <==> Holds(w, ph, k);
    if step.Lock? && w.order[ph.next] == k {
      assert Holds(w, s'.phases[p], k);
      assert forall q: nat :: HeldBy(l', q) <==> HeldBy(l, q) || q == p;
    } else if step.Unlock? && step.key == k {
      assert k in Worked(w, ph);
      assert Holds(w, ph, k);
      UnlockGivesBack(l, p);
    } else {
      assert l' == l;
    }
    forall q: nat
      ensures HeldBy(l', q) <==> q < |c.work| && Holds(c.work[q], s'.phases[q], k)
    {
      assert HeldBy(l, q) <==> q < |c.work| && Holds(c.work[q], s.phases[q], k);
    }
  }

  lemma LocksStep(c: Config, s: State, p: nat, step: Step)
    requires ValidConfig(c) && |s.stores| == c.servers && |s.phases| == |c.work| && p < |c.work|
    requires LocksOk(c, s) && Enabled(c, s, p, step)
    ensures LocksOk(c, Apply(c, s, p, step))
  {
    PhaseStep(c, s, p, step);
    forall k
      ensures LockOk(c, Apply(c, s, p, step), k)
    {
      LockStep(c, s, p, step, k);
    }
  }

  /** Two phases share a lock only if both read. */
  lemma Exclusion(c: Config, s: State, p: nat, q: nat, k: Key)
    requires c.servers > 0 && |s.phases| == |c.work| && LockOk(c, s, k)
    requires p < |c.work| && q < |c.work| && p != q && c.work[p].txn.PutAll? && Holds(c.work[p], s.phases[p], k)
    ensures !Holds(c.work[q], s.phases[q], k)
  {
    assert HeldBy(LockOf(s.locks, k), p);
  }
}
