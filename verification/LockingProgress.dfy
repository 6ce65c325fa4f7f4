/** Taking locks in key order: the locking mode never deadlocks, and every run comes to an end. */
module LockingProgress {
  import opened Sets
  import opened Data
  import opened Store
  import opened Locking
  import opened LockingSafety
  import opened LockingSerial

  // ---- who holds what --------------------------------------------------------------------

  /**
   The lock table in every reachable state: a key has one writer or only readers, and whenever an
   executor is between operations the keys it holds are the keys it has noted down.
   */
  lemma LockTableIsRight(c: Config, run: seq<State>, i: nat, p: nat, key: Key)
    requires ValidConfig(c) && IsRun(c, run) && i < |run| && p < |c.work|
    ensures |run[i].phases| == |c.work|
    ensures var l := LockOf(run[i].locks, key);
            && (forall q: nat :: HeldBy(l, q) ==> q < |c.work| && run[i].phases[q].stage in {Growing, Shrinking})
            && (forall q: nat :: HeldBy(l, p) && HeldBy(l, q) && p != q && q < |c.work| ==> c.work[p].txn.GetAll? && c.work[q].txn.GetAll?)
            && (!run[i].phases[p].locked ==>
                  (HeldBy(l, p) <==> key in Access(run[i].phases[p], Home(c, key)) && key !in run[i].phases[p].released))
  {
    InvAlong(c, run, i);
    LockTableNow(c, run[i], p, key);
  }

  lemma LockTableNow(c: Config, s: State, p: nat, key: Key)
    requires ValidConfig(c) && |s.phases| == |c.work| && LocksOk(c, s) && p < |c.work|
    ensures var l := LockOf(s.locks, key);
            && (forall q: nat :: HeldBy(l, q) ==> q < |c.work| && s.phases[q].stage in {Growing, Shrinking})
            && (forall q: nat :: HeldBy(l, p) && HeldBy(l, q) && p != q && q < |c.work| ==> c.work[p].txn.GetAll? && c.work[q].txn.GetAll?)
            && (!s.phases[p].locked ==>
                  (HeldBy(l, p) <==> key in Access(s.phases[p], Home(c, key)) && key !in s.phases[p].released))
  {
    assert LockOk(c, s, key) && PhaseOk(c, c.work[p], s.phases[p]);
    forall q: nat | HeldBy(LockOf(s.locks, key), q)
      ensures q < |c.work| && s.phases[q].stage in {Growing, Shrinking}
    {
      assert PhaseOk(c, c.work[q], s.phases[q]);
    }
  }

  /** Once an executor has cleared, its client holds no key of that server. */
  lemma ClearedHoldsNothing(c: Config, run: seq<State>, i: nat, p: nat, server: nat, key: Key)
    requires ValidConfig(c) && IsRun(c, run) && i < |run| && p < |c.work| && |run[i].phases| == |c.work|
    requires run[i].phases[p].stage == Shrinking && Access(run[i].phases[p], server) == {} && Home(c, key) == server
    ensures !HeldBy(LockOf(run[i].locks, key), p)
  {
    LockTableIsRight(c, run, i, p, key);
    InvAlong(c, run, i);
    assert PhaseOk(c, c.work[p], run[i].phases[p]);
  }

  // ---- no deadlock -----------------------------------------------------------------------

  predicate Waits(w: Work, ph: Phase) {
    ph.stage == Growing && !ph.locked && ph.next < |w.order|
  }

  ghost predicate CanMove(c: Config, s: State)
    requires ValidConfig(c) && |s.stores| == c.servers && |s.phases| == |c.work|
  {
    exists p: nat, step :: p < |c.work| && Enabled(c, s, p, step)
  }

  /** The phases that wait for a key beyond this one. */
  ghost function WaitingBeyond(c: Config, s: State, key: Key): set<nat>
    requires |s.phases| == |c.work|
  {
    set r: nat | r < |c.work| && Waits(c.work[r], s.phases[r]) && KeyLess(key, c.work[r].order[s.phases[r].next])
  }

  lemma ReleasingMoves(c: Config, s: State, p: nat)
    requires ValidConfig(c) && |s.stores| == c.servers && |s.phases| == |c.work| && p < |c.work|
    requires LocksOk(c, s) && s.phases[p].stage == Shrinking
    ensures CanMove(c, s)
  {
    var ph := s.phases[p];
    assert PhaseOk(c, c.work[p], ph);
    if i :| i in ph.access && ph.access[i] != {} {
      if k :| k in ph.access[i] && k !in ph.released {
        assert Enabled(c, s, p, Unlock(k));
      } else {
        assert Enabled(c, s, p, Clear(i));
      }
    } else {
      assert Enabled(c, s, p, Finish);
    }
  }

  lemma NotWaitingMoves(c: Config, s: State, p: nat)
    requires ValidConfig(c) && |s.stores| == c.servers && |s.phases| == |c.work| && p < |c.work|
    requires LocksOk(c, s) && s.phases[p].stage != Done && !Waits(c.work[p], s.phases[p])
    ensures CanMove(c, s)
  {
    var ph := s.phases[p];
    assert PhaseOk(c, c.work[p], ph);
    match ph.stage
    case Idle => assert Enabled(c, s, p, Begin);
    case Growing =>
      if ph.locked {
        assert Enabled(c, s, p, Operate);
      } else {
        assert Enabled(c, s, p, StartRelease);
      }
    case Shrinking => ReleasingMoves(c, s, p);
  }

  /** If a phase cannot get its next lock, somebody else has it, and waits only for later keys. */
  lemma Blocker(c: Config, s: State, p: nat) returns (q: nat)
    requires ValidConfig(c) && |s.stores| == c.servers && |s.phases| == |c.work| && p < |c.work|
    requires LocksOk(c, s) && Waits(c.work[p], s.phases[p]) && !Enabled(c, s, p, Lock)
    ensures q < |c.work| && s.phases[q].stage != Done
    ensures Waits(c.work[q], s.phases[q]) ==>
              KeyLess(c.work[p].order[s.phases[p].next], c.work[q].order[s.phases[q].next])
  {
    var k := c.work[p].order[s.phases[p].next];
    var l := LockOf(s.locks, k);
    assert LockOk(c, s, k);
    if l.WrittenBy? {
      q := l.writer;
    } else {
      q :| q in l.readers;
    }
    assert HeldBy(l, q);
    assert PhaseOk(c, c.work[q], s.phases[q]);
    if Waits(c.work[q], s.phases[q]) {
      var j :| 0 <= j < s.phases[q].next && c.work[q].order[j] == k;
    }
  }

  /** Deadlock freedom: while any phase is unfinished, some phase can take a step. */
  lemma {:induction false} NoDeadlock(c: Config, s: State, p: nat)
    requires ValidConfig(c) && |s.stores| == c.servers && |s.phases| == |c.work| && p < |c.work|
    requires LocksOk(c, s) && s.phases[p].stage != Done
    ensures CanMove(c, s)
    decreases if Waits(c.work[p], s.phases[p]) then 1 + |WaitingBeyond(c, s, c.work[p].order[s.phases[p].next])| else 0
  {
    if !Waits(c.work[p], s.phases[p]) {
      NotWaitingMoves(c, s, p);
    } else if Enabled(c, s, p, Lock) {
    } else {
      var q := Blocker(c, s, p);
      if Waits(c.work[q], s.phases[q]) {
        FewerBeyond(c, s, c.work[p].order[s.phases[p].next], q);
      }
      NoDeadlock(c, s, q);
    }
  }

  lemma FewerBeyond(c: Config, s: State, key: Key, q: nat)
    requires |s.phases| == |c.work| && q < |c.work| && Waits(c.work[q], s.phases[q])
    requires KeyLess(key, c.work[q].order[s.phases[q].next])
    ensures |WaitingBeyond(c, s, c.work[q].order[s.phases[q].next])| < |WaitingBeyond(c, s, key)|
  {
    var next := c.work[q].order[s.phases[q].next];
    var fewer, more := WaitingBeyond(c, s, next), WaitingBeyond(c, s, key);
    KeyLessIrreflexive(next);
    forall r | r in fewer
      ensures r in more - {q}
    {
      KeyLessTransitive(key, next, c.work[r].order[s.phases[r].next]);
    }
    SubsetSize(fewer, more - {q});
  }

  // ---- termination -----------------------------------------------------------------------

  ghost function Busy(ph: Phase): set<nat> {
    set i | i in ph.access && ph.access[i] != {}
  }

  function StagesLeft(stage: Stage): nat {
    match stage case Idle => 4 case Growing => 3 case Shrinking => 2 case Done => 1
  }

  /** An upper bound on the steps a phase has left. */
  ghost function Left(w: Work, ph: Phase): nat
    requires ph.next <= |w.order|
  {
    StagesLeft(ph.stage)
    + 3 * (|w.order| - ph.next) - (if ph.locked then 1 else 0)
    + |(set k | k in w.order) - ph.released| + |Busy(ph)|
  }

  lemma StepUsesUp(c: Config, st: Store, w: Work, ph: Phase, step: Step)
    requires c.servers > 0 && PhaseOk(c, w, ph) && ph.next <= |w.order|
    requires match step
             case Begin => ph.stage == Idle
             case Lock => ph.stage == Growing && !ph.locked && ph.next < |w.order|
             case Operate => ph.stage == Growing && ph.locked && ph.next < |w.order|
             case StartRelease => ph.stage == Growing && !ph.locked && ph.next == |w.order|
             case Unlock(key) => key in Access(ph, Home(c, key)) && key !in ph.released
             case Clear(server) => Access(ph, server) != {}
             case Finish => ph.stage == Shrinking
    ensures PhaseAfter(c, st, w, ph, step).next <= |w.order|
    ensures Left(w, PhaseAfter(c, st, w, ph, step)) < Left(w, ph)
  {
    match step
    case Operate => OperateUsesUp(c, st, w, ph);
    case Unlock(key) => UnlockUsesUp(c, st, w, ph, key);
    case Clear(server) => ClearUsesUp(c, st, w, ph, server);
    case _ => SameKeysUsesUp(w, ph, PhaseAfter(c, st, w, ph, step));
  }

  lemma ClearUsesUp(c: Config, st: Store, w: Work, ph: Phase, server: nat)
    requires c.servers > 0 && ph.next <= |w.order| && Access(ph, server) != {}
    ensures Left(w, PhaseAfter(c, st, w, ph, Clear(server))) < Left(w, ph)
  {
    assert Busy(PhaseAfter(c, st, w, ph, Clear(server))) == Busy(ph) - {server};
  }

  /** Begin, Lock, StartRelease and Finish only change the stage or take a lock. */
  lemma SameKeysUsesUp(w: Work, ph: Phase, ph': Phase)
    requires ph.next <= |w.order| && ph' == ph.(stage := ph'.stage, locked := ph'.locked)
    requires ph.next < |w.order| || !ph'.locked
    requires StagesLeft(ph'.stage) - (if ph'.locked then 1 else 0) < StagesLeft(ph.stage) - (if ph.locked then 1 else 0)
    ensures Left(w, ph') < Left(w, ph)
  {
    assert Busy(ph') == Busy(ph);
  }

  lemma OperateUsesUp(c: Config, st: Store, w: Work, ph: Phase)
    requires c.servers > 0 && ph.locked && ph.next < |w.order|
    ensures Left(w, PhaseAfter(c, st, w, ph, Operate)) < Left(w, ph)
  {
    SubsetSize(Busy(PhaseAfter(c, st, w, ph, Operate)), Busy(ph) + {Home(c, w.order[ph.next])});
  }

  lemma UnlockUsesUp(c: Config, st: Store, w: Work, ph: Phase, key: Key)
    requires c.servers > 0 && PhaseOk(c, w, ph) && ph.next <= |w.order|
    requires key in Access(ph, Home(c, key)) && key !in ph.released
    ensures Left(w, PhaseAfter(c, st, w, ph, Unlock(key))) < Left(w, ph)
  {
    var ph' := PhaseAfter(c, st, w, ph, Unlock(key));
    var keys := set k | k in w.order;
    assert key in w.order;
    assert keys - ph'.released == (keys - ph.released) - {key};
    assert Busy(ph') == Busy(ph);
  }

  ghost function Total(work: seq<Work>, phases: seq<Phase>): nat
    requires |work| == |phases| && forall p :: 0 <= p < |work| ==> phases[p].next <= |work[p].order|
  {
    if work == [] then 0 else Left(work[0], phases[0]) + Total(work[1..], phases[1..])
  }

  lemma {:induction false} TotalUpdate(work: seq<Work>, phases: seq<Phase>, p: nat, ph: Phase)
    requires |work| == |phases| && (forall q :: 0 <= q < |work| ==> phases[q].next <= |work[q].order|)
    requires p < |work| && ph.next <= |work[p].order|
    ensures Total(work, phases[p := ph]) - Left(work[p], ph) == Total(work, phases) - Left(work[p], phases[p])
  {
    if p == 0 {
      assert phases[p := ph][1..] == phases[1..];
    } else {
      assert phases[p := ph][1..] == phases[1..][p - 1 := ph];
      TotalUpdate(work[1..], phases[1..], p - 1, ph);
    }
  }

  lemma EveryStepUsesUp(c: Config, s: State, p: nat, step: Step)
    requires ValidConfig(c) && |s.stores| == c.servers && |s.phases| == |c.work| && p < |c.work|
    requires LocksOk(c, s) && Enabled(c, s, p, step)
    requires forall q :: 0 <= q < |c.work| ==> s.phases[q].next <= |c.work[q].order|
    ensures var s' := Apply(c, s, p, step);
            && (forall q :: 0 <= q < |c.work| ==> s'.phases[q].next <= |c.work[q].order|)
            && Total(c.work, s'.phases) < Total(c.work, s.phases)
  {
    var i := if step.Operate? then Home(c, c.work[p].order[s.phases[p].next]) else 0;
    var ph' := PhaseAfter(c, s.stores[i], c.work[p], s.phases[p], step);
    assert PhaseOk(c, c.work[p], s.phases[p]);
    StepUsesUp(c, s.stores[i], c.work[p], s.phases[p], step);
    assert Apply(c, s, p, step).phases == s.phases[p := ph'];
    TotalUpdate(c.work, s.phases, p, ph');
  }

  ghost predicate InRange(c: Config, s: State) {
    |s.phases| == |c.work| && forall q :: 0 <= q < |c.work| ==> s.phases[q].next <= |c.work[q].order|
  }

  lemma LocksAlong(c: Config, run: seq<State>, i: nat)
    requires ValidConfig(c) && IsRun(c, run) && i < |run|
    ensures |run[i].stores| == c.servers && |run[i].phases| == |c.work| && LocksOk(c, run[i])
  {
    InvAlong(c, run, i);
  }

  lemma NextUsesUp(c: Config, s: State, s': State)
    requires ValidConfig(c) && Next(c, s, s') && LocksOk(c, s) && InRange(c, s)
    ensures InRange(c, s') && Total(c.work, s'.phases) < Total(c.work, s.phases)
  {
    var p: nat, step :| p < |c.work| && Enabled(c, s, p, step) && s' == Apply(c, s, p, step);
    EveryStepUsesUp(c, s, p, step);
  }

  /** Termination: a run is never longer than the work it starts with. */
  lemma {:induction false} RunsAreBounded(c: Config, run: seq<State>, i: nat)
    requires ValidConfig(c) && IsRun(c, run) && i < |run|
    ensures InRange(c, run[0]) && InRange(c, run[i])
    ensures i + Total(c.work, run[i].phases) <= Total(c.work, run[0].phases)
  {
    if i > 0 {
      RunsAreBounded(c, run, i - 1);
      LocksAlong(c, run, i - 1);
      assert Next(c, run[i - 1], run[i - 1 + 1]);
      NextUsesUp(c, run[i - 1], run[i]);
    }
  }

  /** A run that nobody can extend has finished every phase, and its tables hold the serial result. */
  lemma MaximalRunsFinish(c: Config, run: seq<State>)
    requires ValidConfig(c) && IsRun(c, run)
    requires var s := run[|run| - 1]; |s.stores| == c.servers && |s.phases| == |c.work| && !CanMove(c, s)
    ensures var s := run[|run| - 1];
            && (forall p: nat :: p < |c.work| ==> s.phases[p].stage == Done && p in s.log)
            && (forall k :: Answer(c, s, k) == Serial(c, s.log, k))
  {
    var s := run[|run| - 1];
    InvAlong(c, run, |run| - 1);
    EveryRunIsSerial(c, run, |run| - 1);
    forall p: nat | p < |c.work|
      ensures s.phases[p].stage == Done
    {
      if s.phases[p].stage != Done {
        NoDeadlock(c, s, p);
      }
    }
    assert forall p: nat, k :: !Writing(c, s, p, k);
  }
}
