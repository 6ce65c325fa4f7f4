/** The bounded queue is a FIFO queue, and its two refusals mean exactly this much. */
module MpmcFifo {
  import opened MpmcQueue
  import opened MpmcSafety

  // ---- which step changes what -----------------------------------------------------------

  predicate ClaimsWrite<T>(q: Queue<T>, a: Action<T>)
    requires Enabled(q, a)
  {
    a.Proceed? && !a.weakFailure && q.threads[a.thread].EnqClaim? && q.threads[a.thread].pos == q.enqPos
  }

  predicate ClaimsRead<T>(q: Queue<T>, a: Action<T>)
    requires Enabled(q, a)
  {
    a.Proceed? && !a.weakFailure && q.threads[a.thread].DeqClaim? && q.threads[a.thread].pos == q.deqPos
  }

  lemma Effect<T>(q: Queue<T>, a: Action<T>)
    requires Accepted(|q.cells|) && Enabled(q, a)
    ensures var q', th := Apply(q, a), q.threads[a.thread];
            && (if ClaimsWrite(q, a) then q'.log == q.log + [th.value] && q'.enqPos == q.enqPos + 1
                else q'.log == q.log && q'.enqPos == q.enqPos)
            && q'.deqPos == (if ClaimsRead(q, a) then q.deqPos + 1 else q.deqPos)
            && q'.published == (if th.EnqPublish? then q.published + {th.pos} else q.published)
            && q'.released == (if th.DeqRelease? then q.released[th.pos := th.got] else q.released)
  {
    if a.Proceed? {
      var q', th := Apply(q, a), q.threads[a.thread];
      if Enqueuing(th) {
        assert q' == ProceedEnqueue(q, a.thread, a.weakFailure);
      } else {
        assert q' == ProceedDequeue(q, a.thread, a.weakFailure);
      }
    }
  }

  // ---- whole runs ------------------------------------------------------------------------

  lemma {:induction false} InvAlong<T(!new)>(run: seq<Queue<T>>, i: nat)
    requires IsRun(run) && i < |run|
    ensures Inv(run[i])
  {
    if i == 0 {
      InitInv(run[0]);
    } else {
      InvAlong(run, i - 1);
      assert Next(run[i - 1], run[i - 1 + 1]);
      var a :| Enabled(run[i - 1], a) && run[i] == Apply(run[i - 1], a);
      InvStep(run[i - 1], a);
    }
  }

  ghost predicate Remembers<T(!new)>(q: Queue<T>, q': Queue<T>) {
    && q.log <= q'.log && q.published <= q'.published
    && (forall p :: p in q.released ==> p in q'.released && q'.released[p] == q.released[p])
  }

  /** Nothing that was claimed, published or handed out is taken back or changed. */
  lemma StepRemembers<T(!new)>(q: Queue<T>, a: Action<T>)
    requires Inv(q) && Enabled(q, a)
    ensures Remembers(q, Apply(q, a))
  {
    Effect(q, a);
    assert ThreadOk(q, q.threads[a.thread]);
  }

  lemma RunStepRemembers<T(!new)>(run: seq<Queue<T>>, j: nat)
    requires IsRun(run) && 0 < j < |run|
    ensures Remembers(run[j - 1], run[j])
  {
    InvAlong(run, j - 1);
    assert Next(run[j - 1], run[j - 1 + 1]);
    var a :| Enabled(run[j - 1], a) && run[j] == Apply(run[j - 1], a);
    StepRemembers(run[j - 1], a);
  }

  lemma RemembersChains<T(!new)>(q: Queue<T>, q': Queue<T>, q'': Queue<T>)
    requires Remembers(q, q') && Remembers(q', q'')
    ensures Remembers(q, q'')
  {
  }

  lemma {:induction false} RunRemembers<T(!new)>(run: seq<Queue<T>>, i: nat, j: nat)
    requires IsRun(run) && i <= j < |run|
    ensures Remembers(run[i], run[j])
    decreases j
  {
    if i < j {
      RunStepRemembers(run, j);
      RunRemembers(run, i, j - 1);
      RemembersChains(run[i], run[j - 1], run[j]);
    }
  }

  lemma StepMovesOn<T(!new)>(q: Queue<T>, q': Queue<T>)
    requires Next(q, q')
    ensures q.enqPos <= q'.enqPos && q.deqPos <= q'.deqPos
  {
    var a :| Enabled(q, a) && q' == Apply(q, a);
    Effect(q, a);
  }

  lemma {:induction false} PositionsGrow<T(!new)>(run: seq<Queue<T>>, i: nat, j: nat)
    requires IsRun(run) && i <= j < |run|
    ensures run[i].enqPos <= run[j].enqPos && run[i].deqPos <= run[j].deqPos
    decreases j
  {
    if i < j {
      PositionsGrow(run, i, j - 1);
      assert Next(run[j - 1], run[j - 1 + 1]);
      StepMovesOn(run[j - 1], run[j]);
    }
  }

  ghost predicate StepAt<T(!new)>(run: seq<Queue<T>>, i: nat, a: Action<T>) {
    i + 1 < |run| && Accepted(|run[i].cells|) && Enabled(run[i], a) && run[i + 1] == Apply(run[i], a)
  }

  /** At most once: two releases of one run hand out different positions, and two publications fill different ones. */
  lemma HandedOutOnce<T(!new)>(run: seq<Queue<T>>, i: nat, a: Action<T>, j: nat, b: Action<T>)
    requires IsRun(run) && i < j && StepAt(run, i, a) && StepAt(run, j, b)
    ensures var first, second := run[i].threads[a.thread], run[j].threads[b.thread];
            && (first.DeqRelease? && second.DeqRelease? ==> first.pos != second.pos)
            && (first.EnqPublish? && second.EnqPublish? ==> first.pos != second.pos)
  {
    InvAlong(run, j);
    RunRemembers(run, i + 1, j);
    Effect(run[i], a);
    assert ThreadOk(run[j], run[j].threads[b.thread]);
  }

  /**
   Positions respect real time: whoever claims one after another call has its own gets a later one.
   So a call that starts when another has finished comes behind it in the queue.
   */
  lemma LaterClaimsComeLater<T(!new)>(run: seq<Queue<T>>, i: nat, t: nat, j: nat, b: Action<T>)
    requires IsRun(run) && StepAt(run, j, b) && i <= j && t < |run[i].threads|
    ensures var th := run[i].threads[t];
            && (ClaimsWrite(run[j], b) && (th.EnqWrite? || th.EnqPublish?) ==> th.pos < run[j].threads[b.thread].pos)
            && (ClaimsRead(run[j], b) && (th.DeqRead? || th.DeqRelease?) ==> th.pos < run[j].threads[b.thread].pos)
  {
    InvAlong(run, i);
    PositionsGrow(run, i, j);
    assert ThreadOk(run[i], run[i].threads[t]);
  }

  /** A published value stays in its cell until the position is released, whatever the other threads do. */
  lemma NoOverwrite<T(!new)>(run: seq<Queue<T>>, i: nat, j: nat, p: nat)
    requires IsRun(run) && i <= j < |run|
    requires p in run[i].published && p !in run[j].released
    ensures p < |run[i].log| && Accepted(|run[j].cells|) && Data(run[j], p) == run[i].log[p]
  {
    InvAlong(run, i);
    InvAlong(run, j);
    RunRemembers(run, i, j);
  }

  // ---- first in, first out ---------------------------------------------------------------

  /** The claimed values nobody has claimed for reading yet. */
  function Contents<T>(q: Queue<T>): seq<T>
    requires q.deqPos <= q.enqPos == |q.log|
  {
    q.log[q.deqPos..]
  }

  lemma ContentsFit<T(!new)>(q: Queue<T>)
    requires Inv(q)
    ensures q.deqPos <= q.enqPos == |q.log| && |Contents(q)| <= |q.cells|
  {
    if q.deqPos > 0 {
      assert q.deqPos - 1 in q.published;
    }
    if q.enqPos > |q.cells| {
      assert q.enqPos - |q.cells| - 1 in q.released;
    }
  }

  /** Each step is one bounded-FIFO operation or leaves the contents alone. */
  lemma RefinesBoundedFifo<T(!new)>(q: Queue<T>, a: Action<T>)
    requires Inv(q) && Enabled(q, a)
    ensures q.deqPos <= q.enqPos == |q.log|
    ensures Apply(q, a).deqPos <= Apply(q, a).enqPos == |Apply(q, a).log|
    ensures ClaimsWrite(q, a) ==>
              |Contents(q)| < |q.cells| && Contents(Apply(q, a)) == Contents(q) + [q.threads[a.thread].value]
    ensures ClaimsRead(q, a) ==>
              |Contents(q)| > 0 && Contents(q) == [q.log[q.deqPos]] + Contents(Apply(q, a))
    ensures !ClaimsWrite(q, a) && !ClaimsRead(q, a) ==> Contents(Apply(q, a)) == Contents(q)
  {
    Effect(q, a);
    ContentsFit(q);
    if ClaimsWrite(q, a) {
      RoomForClaim(q, a.thread);
    } else if ClaimsRead(q, a) {
      assert ThreadOk(q, q.threads[a.thread]);
      assert q.deqPos < q.enqPos;
    }
  }

  lemma RoomForClaim<T(!new)>(q: Queue<T>, t: nat)
    requires Inv(q) && t < |q.threads| && q.threads[t].EnqClaim? && q.threads[t].pos == q.enqPos
    ensures q.enqPos < q.deqPos + |q.cells|
  {
    assert ThreadOk(q, q.threads[t]);
    if q.enqPos >= |q.cells| {
      assert q.enqPos - |q.cells| in q.released;
    }
  }

  /** A dequeue returns the value of the position it claimed, which no other call has returned or will return. */
  lemma DeliversItsClaimOnce<T(!new)>(q: Queue<T>, t: nat, u: nat)
    requires Inv(q) && t < |q.threads| && q.threads[t].DeqRelease? && u < |q.threads| && u != t
    ensures q.threads[t].pos < |q.log| && q.threads[t].got == q.log[q.threads[t].pos]
    ensures q.threads[t].pos !in q.released && !Reads(q.threads[u], q.threads[t].pos)
    ensures Apply(q, Proceed(t, false)).threads[t] == Idle(Dequeued(q.threads[t].got))
    ensures Apply(q, Proceed(t, false)).released == q.released[q.threads[t].pos := q.threads[t].got]
  {
    assert ThreadOk(q, q.threads[t]);
    assert Reads(q.threads[t], q.threads[t].pos);
  }

  // ---- what a refusal means ----------------------------------------------------------------

  /** `enqueue` gives up exactly when the cell's previous occupant is not released at its sequence load. */
  lemma FullIffPreviousLapUnreleased<T(!new)>(q: Queue<T>, t: nat, weakFailure: bool)
    requires Inv(q) && t < |q.threads| && q.threads[t].EnqSequence?
    ensures var pos := q.threads[t].pos;
            var full := Apply(q, Proceed(t, weakFailure)).threads[t] == Idle(QueueFull);
            && (full <==> pos >= |q.cells| && pos - |q.cells| !in q.released)
            && (full ==> pos == q.enqPos)
            && (full ==> q.enqPos - q.deqPos == |q.cells|
                         || exists r :: 0 <= r < |q.threads| && Reads(q.threads[r], pos - |q.cells|))
  {
    var pos, n := q.threads[t].pos, |q.cells|;
    assert ThreadOk(q, q.threads[t]);
    SequenceLoaded(q, pos);
    ContentsFit(q);
    if pos >= n && pos - n !in q.released {
      assert pos < q.enqPos ==> pos - n in q.released;
      assert pos - n < q.deqPos ==> exists r :: 0 <= r < |q.threads| && Reads(q.threads[r], pos - n);
    }
  }

  /** `dequeue` gives up exactly when the position it looks at is not published at its sequence load. */
  lemma EmptyIffUnpublished<T(!new)>(q: Queue<T>, t: nat, weakFailure: bool)
    requires Inv(q) && t < |q.threads| && q.threads[t].DeqSequence?
    ensures var pos := q.threads[t].pos;
            var empty := Apply(q, Proceed(t, weakFailure)).threads[t] == Idle(QueueEmpty);
            && (empty <==> pos !in q.published)
            && (empty ==> pos == q.deqPos)
            && (empty ==> q.deqPos == q.enqPos || exists w :: 0 <= w < |q.threads| && Writes(q.threads[w], pos))
  {
    var pos := q.threads[t].pos;
    assert ThreadOk(q, q.threads[t]);
    ContentsFit(q);
    assert pos in q.published <==> Sequence(q, pos) >= pos + 1;
  }

  /** A call goes round its loop again only because another call of its kind has claimed the position. */
  lemma RetriesMeanProgress<T(!new)>(q: Queue<T>, t: nat)
    requires Inv(q) && t < |q.threads|
    ensures q.threads[t].EnqSequence? && Sequence(q, q.threads[t].pos) > q.threads[t].pos ==> q.enqPos > q.threads[t].pos
    ensures q.threads[t].EnqClaim? && q.enqPos != q.threads[t].pos ==> q.enqPos > q.threads[t].pos
    ensures q.threads[t].DeqSequence? && Sequence(q, q.threads[t].pos) > q.threads[t].pos + 1 ==> q.deqPos > q.threads[t].pos
    ensures q.threads[t].DeqClaim? && q.deqPos != q.threads[t].pos ==> q.deqPos > q.threads[t].pos
  {
    var th := q.threads[t];
    assert ThreadOk(q, th);
    if th.EnqSequence? {
      assert th.pos in q.published <==> Sequence(q, th.pos) >= th.pos + 1;
    } else if th.DeqSequence? {
      assert th.pos in q.published <==> Sequence(q, th.pos) >= th.pos + 1;
    }
  }

  // ---- where every call goes, and how it returns ---------------------------------------------

  lemma OthersStand<T>(q: Queue<T>, a: Action<T>, u: nat)
    requires Accepted(|q.cells|) && Enabled(q, a) && u < |q.threads| && u != a.thread
    ensures Apply(q, a).threads[u] == q.threads[u]
  {
    if a.Proceed? {
      assert Apply(q, a) == if Enqueuing(q.threads[a.thread]) then ProceedEnqueue(q, a.thread, a.weakFailure)
                            else ProceedDequeue(q, a.thread, a.weakFailure);
    }
  }

  /**
   What an enqueue does next, in terms of what has been claimed, published and released: it returns
   from two places only, and when it is overtaken it goes on with the current position.
   */
  lemma WhereEnqueuesGo<T(!new)>(q: Queue<T>, t: nat, weakFailure: bool)
    requires Inv(q) && t < |q.threads|
    ensures var th, th' := q.threads[t], ProceedEnqueue(q, t, weakFailure).threads[t];
            match th
            case EnqLoad(value) => th' == EnqSequence(value, q.enqPos)
            case EnqSequence(value, pos) =>
              th' == if pos >= |q.cells| && pos - |q.cells| !in q.released then Idle(QueueFull)
                     else if pos in q.published then EnqLoad(value)
                     else EnqClaim(value, pos)
            case EnqClaim(value, pos) => th' == if pos == q.enqPos && !weakFailure then EnqWrite(value, pos) else EnqSequence(value, q.enqPos)
            case EnqWrite(value, pos) => th' == EnqPublish(value, pos)
            case EnqPublish(_, _) => th' == Idle(Enqueued)
            case _ => true
  {
    var th := q.threads[t];
    if th.EnqSequence? {
      SequenceLoaded(q, th.pos);
      assert th.pos in q.published <==> Sequence(q, th.pos) >= th.pos + 1;
    }
  }

  lemma WhereDequeuesGo<T(!new)>(q: Queue<T>, t: nat, weakFailure: bool)
    requires Inv(q) && t < |q.threads|
    ensures var th, th' := q.threads[t], ProceedDequeue(q, t, weakFailure).threads[t];
            match th
            case DeqLoad => th' == DeqSequence(q.deqPos)
            case DeqSequence(pos) =>
              th' == if pos !in q.published then Idle(QueueEmpty) else if pos in q.released then DeqLoad else DeqClaim(pos)
            case DeqClaim(pos) => th' == if pos == q.deqPos && !weakFailure then DeqRead(pos) else DeqSequence(q.deqPos)
            case DeqRead(pos) => pos < |q.log| && th' == DeqRelease(pos, q.log[pos])
            case DeqRelease(_, got) => th' == Idle(Dequeued(got))
            case _ => true
  {
    var th := q.threads[t];
    assert ThreadOk(q, th);
    if th.DeqSequence? {
      assert th.pos in q.published <==> Sequence(q, th.pos) >= th.pos + 1;
      assert th.pos in q.released <==> Sequence(q, th.pos) >= th.pos + |q.cells|;
    } else if th.DeqRead? {
      assert th.pos in q.published;
    }
  }

  /** Nobody is told of success but by the step that publishes, or releases, the position the call has claimed. */
  lemma SuccessIsEarned<T(!new)>(q: Queue<T>, a: Action<T>)
    requires Inv(q) && Enabled(q, a)
    ensures var q', th := Apply(q, a), q.threads[a.thread];
            match q'.threads[a.thread]
            case Idle(Enqueued) =>
              && th.EnqPublish? && th.pos < |q.log| && q.log[th.pos] == th.value
              && th.pos !in q.published && q'.published == q.published + {th.pos}
            case Idle(Dequeued(x)) =>
              && th.DeqRelease? && th.pos < |q.log| && q.log[th.pos] == x
              && th.pos !in q.released && q'.released == q.released[th.pos := x]
            case Idle(NoCall) => false
            case _ => true
  {
    var th := q.threads[a.thread];
    Effect(q, a);
    assert ThreadOk(q, th);
    if a.Proceed? {
      if Enqueuing(th) {
        WhereEnqueuesGo(q, a.thread, a.weakFailure);
      } else {
        WhereDequeuesGo(q, a.thread, a.weakFailure);
      }
    }
  }

  lemma JustPublished<T(!new)>(q: Queue<T>, a: Action<T>, p: nat)
    requires Inv(q) && Enabled(q, a) && p in Apply(q, a).published && p !in q.published
    ensures q.threads[a.thread].EnqPublish? && q.threads[a.thread].pos == p && Apply(q, a).threads[a.thread] == Idle(Enqueued)
  {
    Effect(q, a);
    WhereEnqueuesGo(q, a.thread, false);
  }

  lemma JustReleased<T(!new)>(q: Queue<T>, a: Action<T>, p: nat)
    requires Inv(q) && Enabled(q, a) && p in Apply(q, a).released && p !in q.released
    ensures q.threads[a.thread].DeqRelease? && q.threads[a.thread].pos == p
    ensures Apply(q, a).threads[a.thread] == Idle(Dequeued(Apply(q, a).released[p]))
  {
    Effect(q, a);
    WhereDequeuesGo(q, a.thread, false);
  }

  ghost predicate ReturnsAt<T(!new)>(run: seq<Queue<T>>, j: nat, a: Action<T>, outcome: Outcome<T>) {
    StepAt(run, j, a) && run[j + 1].threads[a.thread] == Idle(outcome)
  }

  lemma StepPublishes<T(!new)>(run: seq<Queue<T>>, j: nat, p: nat) returns (a: Action<T>)
    requires IsRun(run) && j + 1 < |run| && p in run[j + 1].published && p !in run[j].published
    ensures ReturnsAt(run, j, a, Enqueued) && run[j].threads[a.thread].EnqPublish? && run[j].threads[a.thread].pos == p
  {
    InvAlong(run, j);
    assert Next(run[j], run[j + 1]);
    a :| Enabled(run[j], a) && run[j + 1] == Apply(run[j], a);
    JustPublished(run[j], a, p);
  }

  lemma StepReleases<T(!new)>(run: seq<Queue<T>>, j: nat, p: nat) returns (a: Action<T>)
    requires IsRun(run) && j + 1 < |run| && p in run[j + 1].released && p !in run[j].released
    ensures ReturnsAt(run, j, a, Dequeued(run[j + 1].released[p]))
    ensures run[j].threads[a.thread].DeqRelease? && run[j].threads[a.thread].pos == p
  {
    InvAlong(run, j);
    assert Next(run[j], run[j + 1]);
    a :| Enabled(run[j], a) && run[j + 1] == Apply(run[j], a);
    JustReleased(run[j], a, p);
  }

  /** Every published position is that of one enqueue, which has returned with success by publishing it. */
  lemma {:induction false} PublishedByReturn<T(!new)>(run: seq<Queue<T>>, i: nat, p: nat) returns (j: nat, a: Action<T>)
    requires IsRun(run) && i < |run| && p in run[i].published
    ensures j < i && ReturnsAt(run, j, a, Enqueued)
    ensures run[j].threads[a.thread].EnqPublish? && run[j].threads[a.thread].pos == p
  {
    assert i > 0;
    if p in run[i - 1].published {
      j, a := PublishedByReturn(run, i - 1, p);
    } else {
      j := i - 1;
      a := StepPublishes(run, j, p);
    }
  }

  /** Every released position is that of one dequeue, which has returned with what is recorded there. */
  lemma {:induction false} ReleasedByReturn<T(!new)>(run: seq<Queue<T>>, i: nat, p: nat) returns (j: nat, a: Action<T>)
    requires IsRun(run) && i < |run| && p in run[i].released
    ensures j < i && ReturnsAt(run, j, a, Dequeued(run[i].released[p]))
    ensures run[j].threads[a.thread].DeqRelease? && run[j].threads[a.thread].pos == p
  {
    assert i > 0;
    if p in run[i - 1].released {
      RunRemembers(run, i - 1, i);
      j, a := ReleasedByReturn(run, i - 1, p);
    } else {
      j := i - 1;
      a := StepReleases(run, j, p);
    }
  }

  // ---- one caller at a time ----------------------------------------------------------------

  ghost predicate Quiet<T(!new)>(q: Queue<T>) {
    forall t :: 0 <= t < |q.threads| ==> q.threads[t].Idle?
  }

  /** With no call in progress everything claimed is finished. */
  lemma QuietHistories<T(!new)>(q: Queue<T>)
    requires Inv(q) && Quiet(q)
    ensures forall p: nat :: p in q.published <==> p < q.enqPos
    ensures forall p: nat :: p in q.released <==> p < q.deqPos
  {
  }

  /** The thread runs alone for at most `n` steps, or until its call returns. */
  function Alone<T>(q: Queue<T>, t: nat, n: nat): (r: Queue<T>)
    requires Accepted(|q.cells|) && t < |q.threads|
    ensures |r.threads| == |q.threads|
    decreases n
  {
    if n == 0 || q.threads[t].Idle? then q else Alone(Apply(q, Proceed(t, false)), t, n - 1)
  }

  lemma EnqueueRuns<T(!new)>(q: Queue<T>, t: nat, value: T)
    requires Accepted(|q.cells|) && t < |q.threads| && q.threads[t].Idle?
    ensures var pos, r := q.enqPos, Alone(Apply(q, CallEnqueue(t, value)), t, 5);
            && (Sequence(q, pos) < pos ==>
                  r.threads[t] == Idle(QueueFull) && r.log == q.log && r.enqPos == pos && r.deqPos == q.deqPos)
            && (Sequence(q, pos) == pos ==>
                  r.threads[t] == Idle(Enqueued) && r.log == q.log + [value] && r.enqPos == pos + 1 && r.deqPos == q.deqPos)
  {
    var pos, q1 := q.enqPos, Apply(q, CallEnqueue(t, value));
    var q2 := Apply(q1, Proceed(t, false));
    assert q2.threads[t] == EnqSequence(value, pos) && q2.cells == q.cells;
    var q3 := Apply(q2, Proceed(t, false));
    assert Alone(q1, t, 5) == Alone(q2, t, 4) == Alone(q3, t, 3);
    if Sequence(q, pos) == pos {
      assert q3.threads[t] == EnqClaim(value, pos) && q3.enqPos == pos;
      var q4 := Apply(q3, Proceed(t, false));
      assert q4.threads[t] == EnqWrite(value, pos);
      var q5 := Apply(q4, Proceed(t, false));
      assert q5.threads[t] == EnqPublish(value, pos);
      assert Alone(q3, t, 3) == Alone(q4, t, 2) == Alone(q5, t, 1);
    }
  }

  lemma DequeueRuns<T(!new)>(q: Queue<T>, t: nat)
    requires Accepted(|q.cells|) && t < |q.threads| && q.threads[t].Idle?
    ensures var pos, r := q.deqPos, Alone(Apply(q, CallDequeue(t)), t, 5);
            && r.log == q.log && r.enqPos == q.enqPos
            && (Sequence(q, pos) < pos + 1 ==> r.threads[t] == Idle(QueueEmpty) && r.deqPos == pos)
            && (Sequence(q, pos) == pos + 1 ==> r.threads[t] == Idle(Dequeued(Data(q, pos))) && r.deqPos == pos + 1)
  {
    var pos, q1 := q.deqPos, Apply(q, CallDequeue(t));
    var q2 := Apply(q1, Proceed(t, false));
    assert q2.threads[t] == DeqSequence(pos) && q2.cells == q.cells;
    var q3 := Apply(q2, Proceed(t, false));
    assert Alone(q1, t, 5) == Alone(q2, t, 4) == Alone(q3, t, 3);
    if Sequence(q, pos) == pos + 1 {
      assert q3.threads[t] == DeqClaim(pos) && q3.deqPos == pos;
      var q4 := Apply(q3, Proceed(t, false));
      assert q4.threads[t] == DeqRead(pos) && q4.cells == q.cells;
      var q5 := Apply(q4, Proceed(t, false));
      assert q5.threads[t] == DeqRelease(pos, Data(q, pos));
      assert Alone(q3, t, 3) == Alone(q4, t, 2) == Alone(q5, t, 1);
    }
  }

  lemma QuietSequences<T(!new)>(q: Queue<T>)
    requires Inv(q) && Quiet(q)
    ensures q.enqPos - q.deqPos < |q.cells| ==> Sequence(q, q.enqPos) == q.enqPos
    ensures q.enqPos - q.deqPos >= |q.cells| ==> Sequence(q, q.enqPos) < q.enqPos
    ensures q.deqPos < q.enqPos ==> Sequence(q, q.deqPos) == q.deqPos + 1 && q.deqPos < |q.log| && Data(q, q.deqPos) == q.log[q.deqPos]
    ensures q.deqPos >= q.enqPos ==> Sequence(q, q.deqPos) < q.deqPos + 1
  {
    QuietHistories(q);
    SequenceLoaded(q, q.enqPos);
    assert q.enqPos !in q.published;
  }

  /** Called alone, `enqueue` appends its value, or refuses exactly when the queue holds `size` values. */
  lemma EnqueueAlone<T(!new)>(q: Queue<T>, t: nat, value: T)
    requires Inv(q) && Quiet(q) && t < |q.threads|
    ensures q.deqPos <= q.enqPos == |q.log|
    ensures var r := Alone(Apply(q, CallEnqueue(t, value)), t, 5);
            && r.deqPos <= r.enqPos == |r.log|
            && (if |Contents(q)| < |q.cells|
                then r.threads[t] == Idle(Enqueued) && Contents(r) == Contents(q) + [value]
                else r.threads[t] == Idle(QueueFull) && Contents(r) == Contents(q))
  {
    QuietSequences(q);
    ContentsFit(q);
    EnqueueRuns(q, t, value);
  }

  /** Called alone, `dequeue` takes the oldest value, or refuses exactly when there is none. */
  lemma DequeueAlone<T(!new)>(q: Queue<T>, t: nat)
    requires Inv(q) && Quiet(q) && t < |q.threads|
    ensures q.deqPos <= q.enqPos == |q.log|
    ensures var r := Alone(Apply(q, CallDequeue(t)), t, 5);
            && r.deqPos <= r.enqPos == |r.log|
            && (if |Contents(q)| > 0
                then r.threads[t] == Idle(Dequeued(Contents(q)[0])) && Contents(r) == Contents(q)[1..]
                else r.threads[t] == Idle(QueueEmpty) && Contents(r) == Contents(q))
  {
    QuietSequences(q);
    ContentsFit(q);
    DequeueRuns(q, t);
  }
}
