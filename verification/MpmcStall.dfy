/** What the bounded queue does not promise: a stalled writer hides the writes that finished after it. */
module MpmcStall {
  import opened Bits
  import opened MpmcQueue
  import opened MpmcFifo

  ghost predicate Reachable<T(!new)>(q: Queue<T>) {
    exists run: seq<Queue<T>> :: IsRun(run) && run[|run| - 1] == q
  }

  lemma ReachableStep<T(!new)>(q: Queue<T>, a: Action<T>)
    requires Reachable(q) && Accepted(|q.cells|) && Enabled(q, a)
    ensures Reachable(Apply(q, a))
  {
    var run :| IsRun(run) && run[|run| - 1] == q;
    var longer := run + [Apply(q, a)];
    assert Next(q, Apply(q, a));
    forall i | 0 <= i < |longer| - 1
      ensures Next(longer[i], longer[i + 1])
    {
      assert i < |run| - 1 ==> Next(run[i], run[i + 1]);
    }
    assert IsRun(longer);
  }

  const NOTHING: Thread<int> := Idle(NoCall)
  const BLANK: seq<Cell<int>> := [Cell(0, 0), Cell(1, 0)]
  /** The second cell is written and published; the first still belongs to the stalled writer. */
  const HALF: seq<Cell<int>> := [Cell(0, 0), Cell(2, 8)]

  lemma TwoCells()
    ensures Accepted(2) && Index(0, 2) == 0 && Index(1, 2) == 1
  {
    assert And(2, 1) == 0 && And(0, 1) == 0 && And(1, 1) == 1;
  }

  /** The thread takes the step that leads to `next`. */
  lemma Go(q: Queue<int>, a: Action<int>, next: Queue<int>)
    requires Reachable(q) && |q.cells| == 2 && Enabled(q, a)
    requires Accepted(2) ==> next == Apply(q, a)
    ensures Reachable(next)
  {
    TwoCells();
    ReachableStep(q, a);
  }

  /** A call finds the next cell free and claims it. */
  lemma Claims(q: Queue<int>, t: nat, value: int)
    requires Reachable(q) && |q.cells| == 2 && t < |q.threads| && q.threads[t].Idle?
    requires Accepted(2) && Sequence(q, q.enqPos) == q.enqPos
    ensures Reachable(q.(enqPos := q.enqPos + 1, log := q.log + [value], threads := q.threads[t := EnqWrite(value, q.enqPos)]))
  {
    var pos := q.enqPos;
    var q1, q2, q3 := Move(q, t, EnqLoad(value)), Move(q, t, EnqSequence(value, pos)), Move(q, t, EnqClaim(value, pos));
    Go(q, CallEnqueue(t, value), q1);
    assert q2.threads == q1.threads[t := EnqSequence(value, pos)];
    Go(q1, Proceed(t, false), q2);
    assert q3.threads == q2.threads[t := EnqClaim(value, pos)];
    Go(q2, Proceed(t, false), q3);
    var q4 := q.(enqPos := pos + 1, log := q.log + [value], threads := q.threads[t := EnqWrite(value, pos)]);
    assert q4.threads == q3.threads[t := EnqWrite(value, pos)];
    Go(q3, Proceed(t, false), q4);
  }

  /** A claimed cell is written and published, and the call returns. */
  lemma Finishes(q: Queue<int>, t: nat, value: int, pos: nat, i: nat, written: seq<Cell<int>>, done: seq<Cell<int>>)
    requires Reachable(q) && |q.cells| == 2 && t < |q.threads| && q.threads[t] == EnqWrite(value, pos)
    requires Accepted(2) && Index(pos, 2) == i
    requires written == q.cells[i := Cell(q.cells[i].sequence, value)] && done == written[i := Cell(pos + 1, value)]
    ensures Reachable(q.(cells := done, published := q.published + {pos}, threads := q.threads[t := Idle(Enqueued)]))
  {
    var q1 := q.(cells := written, threads := q.threads[t := EnqPublish(value, pos)]);
    var q2 := q.(cells := done, published := q.published + {pos}, threads := q.threads[t := Idle(Enqueued)]);
    WriteEffect(q, t, value, pos, written, q1);
    Go(q, Proceed(t, false), q1);
    PublishEffect(q1, t, value, pos, done, q2);
    Go(q1, Proceed(t, false), q2);
  }

  lemma WriteEffect(q: Queue<int>, t: nat, value: int, pos: nat, written: seq<Cell<int>>, q': Queue<int>)
    requires |q.cells| == 2 && t < |q.threads| && q.threads[t] == EnqWrite(value, pos)
    requires Accepted(2) && written == SetData(q, pos, value)
    requires q' == q.(cells := written, threads := q.threads[t := EnqPublish(value, pos)])
    ensures q' == Apply(q, Proceed(t, false))
  {
  }

  lemma PublishEffect(q: Queue<int>, t: nat, value: int, pos: nat, done: seq<Cell<int>>, q': Queue<int>)
    requires |q.cells| == 2 && t < |q.threads| && q.threads[t] == EnqPublish(value, pos)
    requires Accepted(2) && done == SetSequence(q, pos, pos + 1)
    requires q'.threads == q.threads[t := Idle(Enqueued)]
    requires q' == q.(cells := done, published := q.published + {pos}, threads := q'.threads)
    ensures q' == Apply(q, Proceed(t, false))
  {
  }

  /** Thread 0 claims position 0 for the value 7 and stops. */
  lemma FirstWriterStalls()
    ensures Reachable(Queue(BLANK, 1, 0, [EnqWrite(7, 0), NOTHING, NOTHING], [7], {}, map[]))
  {
    TwoCells();
    var q := Queue(BLANK, 0, 0, [NOTHING, NOTHING, NOTHING], [], {}, map[]);
    assert IsRun([q]) && [q][|[q]| - 1] == q;
    Claims(q, 0, 7);
    assert q.threads[0 := EnqWrite(7, 0)] == [EnqWrite(7, 0), NOTHING, NOTHING] && [] + [7] == [7];
  }

  /** Thread 1 enqueues 8 meanwhile, and its call returns. */
  lemma SecondWriterFinishes()
    ensures Reachable(Queue(HALF, 2, 0, [EnqWrite(7, 0), Idle(Enqueued), NOTHING], [7, 8], {1}, map[]))
  {
    TwoCells();
    FirstWriterStalls();
    var q := Queue(BLANK, 1, 0, [EnqWrite(7, 0), NOTHING, NOTHING], [7], {}, map[]);
    Claims(q, 1, 8);
    var claimed := Queue(BLANK, 2, 0, [EnqWrite(7, 0), EnqWrite(8, 1), NOTHING], [7, 8], {}, map[]);
    assert q.threads[1 := EnqWrite(8, 1)] == claimed.threads && [7] + [8] == [7, 8];
    SecondWriterPublishes(claimed);
  }

  lemma SecondWriterPublishes(q: Queue<int>)
    requires Reachable(q) && q == Queue(BLANK, 2, 0, [EnqWrite(7, 0), EnqWrite(8, 1), NOTHING], [7, 8], {}, map[])
    ensures Reachable(Queue(HALF, 2, 0, [EnqWrite(7, 0), Idle(Enqueued), NOTHING], [7, 8], {1}, map[]))
  {
    TwoCells();
    var written := [Cell(0, 0), Cell(1, 8)];
    assert written == BLANK[1 := Cell(1, 8)] && HALF == written[1 := Cell(2, 8)];
    Finishes(q, 1, 8, 1, 1, written, HALF);
    assert [EnqWrite(7, 0), Idle(Enqueued), NOTHING] == q.threads[1 := Idle(Enqueued)] && {} + {1 as nat} == {1};
  }

  /** A dequeue that starts now is told that the queue is empty, although an enqueue has returned. */
  lemma EmptyDespiteFinishedEnqueue() returns (before: Queue<int>, after: Queue<int>)
    ensures Reachable(before) && Accepted(|before.cells|) && |before.threads| == 3 && before.deqPos <= before.enqPos == |before.log|
    ensures before.threads[1] == Idle(Enqueued) && before.threads[2].Idle? && Contents(before) == [7, 8]
    ensures after == Alone(Apply(before, CallDequeue(2)), 2, 2) && after.threads[2] == Idle(QueueEmpty)
  {
    TwoCells();
    SecondWriterFinishes();
    before := Queue(HALF, 2, 0, [EnqWrite(7, 0), Idle(Enqueued), NOTHING], [7, 8], {1}, map[]);
    var q1 := Apply(before, CallDequeue(2));
    var q2 := Apply(q1, Proceed(2, false));
    assert q2.threads[2] == DeqSequence(0) && Sequence(q2, 0) == 0;
    after := Apply(q2, Proceed(2, false));
    assert Alone(q1, 2, 2) == Alone(q2, 2, 1) == after;
  }
}
