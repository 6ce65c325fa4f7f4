/** What every step of the bounded queue keeps, and what follows for whole runs. */
module MpmcSafety {
  import opened MpmcQueue

  // ---- the invariant ---------------------------------------------------------------------

  /** A cell's sequence number tells exactly which of its positions are published and released. */
  ghost predicate SequencesOk<T(!new)>(q: Queue<T>)
    requires Accepted(|q.cells|)
  {
    && (forall p: nat :: p in q.published <==> Sequence(q, p) >= p + 1)
    && (forall p: nat :: p in q.released <==> Sequence(q, p) >= p + |q.cells|)
    && (forall p: nat :: p < |q.cells| ==> Sequence(q, p) >= p)
    && (forall p: nat :: p in q.published && p !in q.released ==> Sequence(q, p) == p + 1)
  }

  /** A position is claimed for writing only after the previous lap's occupant was released. */
  ghost predicate PositionsOk<T(!new)>(q: Queue<T>) {
    && |q.log| == q.enqPos
    && (forall p :: p in q.published ==> p < q.enqPos)
    && (forall p: nat :: p < q.deqPos ==> p in q.published)
    && (forall p :: p in q.released ==> p < q.deqPos && p < |q.log| && q.released[p] == q.log[p])
    && (forall p: nat :: p + |q.cells| < q.enqPos ==> p in q.released)
  }

  /** A published position keeps its value until it is released. */
  ghost predicate DataOk<T(!new)>(q: Queue<T>)
    requires Accepted(|q.cells|)
  {
    forall p :: p in q.published && p !in q.released && p < |q.log| ==> Data(q, p) == q.log[p]
  }

  predicate Writes<T>(t: Thread<T>, p: nat) {
    (t.EnqWrite? || t.EnqPublish?) && t.pos == p
  }

  predicate Reads<T>(t: Thread<T>, p: nat) {
    (t.DeqRead? || t.DeqRelease?) && t.pos == p
  }

  predicate ThreadOk<T(==)>(q: Queue<T>, t: Thread<T>)
    requires Accepted(|q.cells|)
  {
    match t
    case EnqSequence(_, pos) => pos <= q.enqPos
    case EnqClaim(_, pos) => pos <= q.enqPos && (pos >= |q.cells| ==> pos - |q.cells| in q.released)
    case EnqWrite(value, pos) => pos < q.enqPos && pos < |q.log| && q.log[pos] == value && pos !in q.published
    case EnqPublish(value, pos) =>
      pos < q.enqPos && pos < |q.log| && q.log[pos] == value && pos !in q.published && Data(q, pos) == value
    case DeqSequence(pos) => pos <= q.deqPos
    case DeqClaim(pos) => pos <= q.deqPos && pos in q.published
    case DeqRead(pos) => pos < q.deqPos && pos !in q.released
    case DeqRelease(pos, got) => pos < q.deqPos && pos !in q.released && pos < |q.log| && got == q.log[pos]
    case _ => true
  }

  ghost predicate ThreadsOk<T(!new)>(q: Queue<T>)
    requires Accepted(|q.cells|)
  {
    forall t :: 0 <= t < |q.threads| ==> ThreadOk(q, q.threads[t])
  }

  /** Nobody shares a claimed position. */
  ghost predicate OwnersDiffer<T(!new)>(q: Queue<T>) {
    forall t, u, p: nat :: 0 <= t < |q.threads| && 0 <= u < |q.threads| && t != u ==>
      !(Writes(q.threads[t], p) && Writes(q.threads[u], p)) && !(Reads(q.threads[t], p) && Reads(q.threads[u], p))
  }

  /** A claimed position that is not finished yet is being worked on. */
  ghost predicate OwnersExist<T(!new)>(q: Queue<T>) {
    && (forall p: nat :: p < q.enqPos && p !in q.published ==>
          exists t :: 0 <= t < |q.threads| && Writes(q.threads[t], p))
    && (forall p: nat :: p < q.deqPos && p !in q.released ==>
          exists t :: 0 <= t < |q.threads| && Reads(q.threads[t], p))
  }

  ghost predicate Inv<T(!new)>(q: Queue<T>) {
    && Accepted(|q.cells|)
    && SequencesOk(q) && PositionsOk(q) && DataOk(q) && ThreadsOk(q) && OwnersDiffer(q) && OwnersExist(q)
  }

  lemma InitInv<T(!new)>(q: Queue<T>)
    requires Init(q)
    ensures Inv(q)
  {
    forall p: nat
      ensures Sequence(q, p) <= p && (p < |q.cells| ==> Sequence(q, p) == p)
    {
      if p < |q.cells| {
        FirstLap(p, |q.cells|);
      }
    }
  }

  /** A writer's cell: every earlier position is released, and no later one is claimed. */
  lemma WriterHasCell<T(!new)>(q: Queue<T>, pos: nat, p: nat)
    requires Accepted(|q.cells|) && SequencesOk(q) && PositionsOk(q)
    requires pos < q.enqPos && pos !in q.published
    requires Index(p, |q.cells|) == Index(pos, |q.cells|) && p != pos
    ensures p < pos ==> p + |q.cells| <= pos && p in q.released
    ensures p > pos ==> pos + |q.cells| <= p && p !in q.published && p >= q.enqPos
  {
    var n := |q.cells|;
    if p < pos {
      SameCell(p, pos, n);
      NextLap(pos - n, n);
      assert pos - n in q.released;
      assert Sequence(q, pos - n) == Sequence(q, p);
    } else {
      SameCell(pos, p, n);
      NextLap(p - n, n);
      assert pos !in q.released;
      assert Sequence(q, p - n) == Sequence(q, pos) == Sequence(q, p);
    }
  }

  /** A reader's cell: every earlier position is released, and no later one is published. */
  lemma ReaderHasCell<T(!new)>(q: Queue<T>, pos: nat, p: nat)
    requires Accepted(|q.cells|) && SequencesOk(q)
    requires pos in q.published && pos !in q.released
    requires Index(p, |q.cells|) == Index(pos, |q.cells|) && p != pos
    ensures p < pos ==> p + |q.cells| <= pos && p in q.released
    ensures p > pos ==> pos + |q.cells| <= p && p !in q.published
  {
    assert Sequence(q, p) == Sequence(q, pos);
    if p < pos {
      SameCell(p, pos, |q.cells|);
    } else {
      SameCell(pos, p, |q.cells|);
    }
  }

  // ---- every step keeps the memory in order ------------------------------------------------

  ghost predicate MemoryOk<T(!new)>(q: Queue<T>) {
    Accepted(|q.cells|) && SequencesOk(q) && PositionsOk(q) && DataOk(q)
  }

  ghost predicate SameMemory<T(!new)>(q: Queue<T>, q': Queue<T>) {
    q' == q.(threads := q'.threads)
  }

  lemma MemoryUntouched<T(!new)>(q: Queue<T>, q': Queue<T>)
    requires MemoryOk(q) && SameMemory(q, q')
    ensures MemoryOk(q')
  {
    forall p: nat
      ensures Sequence(q', p) == Sequence(q, p) && Data(q', p) == Data(q, p)
    {
    }
  }

  lemma MemoryAfterWriteClaim<T(!new)>(q: Queue<T>, q': Queue<T>, value: T)
    requires MemoryOk(q) && SameMemory(q.(enqPos := q.enqPos + 1, log := q.log + [value]), q')
    requires q.enqPos >= |q.cells| ==> q.enqPos - |q.cells| in q.released
    ensures MemoryOk(q')
  {
    forall p: nat
      ensures Sequence(q', p) == Sequence(q, p) && Data(q', p) == Data(q, p)
    {
    }
  }

  lemma MemoryAfterReadClaim<T(!new)>(q: Queue<T>, q': Queue<T>)
    requires MemoryOk(q) && SameMemory(q.(deqPos := q.deqPos + 1), q')
    requires q.deqPos in q.published
    ensures MemoryOk(q')
  {
    forall p: nat
      ensures Sequence(q', p) == Sequence(q, p) && Data(q', p) == Data(q, p)
    {
    }
  }

  lemma MemoryAfterWrite<T(!new)>(q: Queue<T>, q': Queue<T>, pos: nat, value: T)
    requires MemoryOk(q) && pos < q.enqPos && pos !in q.published
    requires SameMemory(q.(cells := SetData(q, pos, value)), q')
    ensures MemoryOk(q')
    ensures forall p: nat :: p < q.enqPos && p != pos && p !in q.released ==> Data(q', p) == Data(q, p)
  {
    forall p: nat
      ensures Sequence(q', p) == Sequence(q, p)
      ensures p < q.enqPos && p != pos && p !in q.released ==> Data(q', p) == Data(q, p)
    {
      if Index(p, |q.cells|) == Index(pos, |q.cells|) && p != pos {
        WriterHasCell(q, pos, p);
      }
    }
  }

  lemma MemoryAfterPublish<T(!new)>(q: Queue<T>, q': Queue<T>, pos: nat)
    requires MemoryOk(q) && pos < q.enqPos && pos !in q.published && Data(q, pos) == q.log[pos]
    requires SameMemory(q.(cells := SetSequence(q, pos, pos + 1), published := q.published + {pos}), q')
    ensures MemoryOk(q')
    ensures forall p: nat :: Data(q', p) == Data(q, p)
  {
    forall p: nat
      ensures Data(q', p) == Data(q, p)
      ensures p in q'.published <==> Sequence(q', p) >= p + 1
      ensures p in q'.released <==> Sequence(q', p) >= p + |q'.cells|
      ensures p in q'.published && p !in q'.released ==> Sequence(q', p) == p + 1
    {
      if Index(p, |q.cells|) == Index(pos, |q.cells|) && p != pos {
        WriterHasCell(q, pos, p);
        assert Sequence(q', p) == pos + 1;
      }
    }
  }

  lemma MemoryAfterRelease<T(!new)>(q: Queue<T>, q': Queue<T>, pos: nat, got: T)
    requires MemoryOk(q) && pos < q.deqPos && pos !in q.released && pos < |q.log| && got == q.log[pos]
    requires SameMemory(q.(cells := SetSequence(q, pos, pos + |q.cells|), released := q.released[pos := got]), q')
    ensures MemoryOk(q')
    ensures forall p: nat :: Data(q', p) == Data(q, p)
  {
    forall p: nat
      ensures Data(q', p) == Data(q, p)
      ensures p in q'.published <==> Sequence(q', p) >= p + 1
      ensures p in q'.released <==> Sequence(q', p) >= p + |q'.cells|
      ensures p in q'.published && p !in q'.released ==> Sequence(q', p) == p + 1
    {
      if Index(p, |q.cells|) == Index(pos, |q.cells|) && p != pos {
        ReaderHasCell(q, pos, p);
        assert Sequence(q', p) == pos + |q.cells|;
      }
    }
  }

  // ---- and every thread in order -----------------------------------------------------------

  /** A step of thread `t` that only adds to the histories. */
  ghost predicate StepOf<T(!new)>(q: Queue<T>, q': Queue<T>, t: nat) {
    && |q'.cells| == |q.cells| && |q'.threads| == |q.threads| && t < |q.threads|
    && q'.threads == q.threads[t := q'.threads[t]]
    && q.enqPos <= q'.enqPos && q.deqPos <= q'.deqPos
    && q.log <= q'.log && q.published <= q'.published
    && q.released.Keys <= q'.released.Keys
  }

  lemma OthersStayOk<T(!new)>(q: Queue<T>, q': Queue<T>, t: nat)
    requires MemoryOk(q) && Accepted(|q'.cells|) && ThreadsOk(q) && OwnersDiffer(q) && StepOf(q, q', t)
    requires ThreadOk(q', q'.threads[t])
    requires forall p :: p in q'.published && p !in q.published ==> Writes(q.threads[t], p)
    requires forall p :: p in q'.released && p !in q.released ==> Reads(q.threads[t], p)
    requires forall p: nat :: p < q.enqPos && !Writes(q.threads[t], p) && p !in q.released ==> Data(q', p) == Data(q, p)
    ensures ThreadsOk(q')
  {
    forall u | 0 <= u < |q.threads| && u != t
      ensures ThreadOk(q', q'.threads[u])
    {
      var th := q.threads[u];
      assert ThreadOk(q, th);
      if th.EnqWrite? || th.EnqPublish? {
        assert Writes(th, th.pos) && !Writes(q.threads[t], th.pos);
        assert q'.log[th.pos] == q.log[th.pos];
        assert th.pos !in q.released;
      } else if th.DeqRead? || th.DeqRelease? {
        assert Reads(th, th.pos) && !Reads(q.threads[t], th.pos);
      }
    }
  }

  lemma OwnersAfterMove<T(!new)>(q: Queue<T>, q': Queue<T>, t: nat)
    requires Accepted(|q.cells|) && ThreadsOk(q) && OwnersDiffer(q) && OwnersExist(q) && StepOf(q, q', t)
    requires forall p: nat :: Writes(q'.threads[t], p) ==> Writes(q.threads[t], p) || p == q.enqPos
    requires forall p: nat :: Reads(q'.threads[t], p) ==> Reads(q.threads[t], p) || p == q.deqPos
    requires forall p: nat :: Writes(q.threads[t], p) ==> Writes(q'.threads[t], p) || p in q'.published
    requires forall p: nat :: Reads(q.threads[t], p) ==> Reads(q'.threads[t], p) || p in q'.released
    requires forall p: nat :: q.enqPos <= p < q'.enqPos ==> Writes(q'.threads[t], p)
    requires forall p: nat :: q.deqPos <= p < q'.deqPos ==> Reads(q'.threads[t], p)
    ensures OwnersDiffer(q') && OwnersExist(q')
  {
    forall u, p: nat | 0 <= u < |q.threads| && u != t
      ensures !(Writes(q'.threads[t], p) && Writes(q.threads[u], p))
      ensures !(Reads(q'.threads[t], p) && Reads(q.threads[u], p))
    {
      assert ThreadOk(q, q.threads[u]);
    }
    forall p: nat | p < q'.enqPos && p !in q'.published
      ensures exists u :: 0 <= u < |q'.threads| && Writes(q'.threads[u], p)
    {
      if p < q.enqPos {
        var u :| 0 <= u < |q.threads| && Writes(q.threads[u], p);
        assert Writes(q'.threads[u], p);
      }
    }
    forall p: nat | p < q'.deqPos && p !in q'.released
      ensures exists u :: 0 <= u < |q'.threads| && Reads(q'.threads[u], p)
    {
      if p < q.deqPos {
        var u :| 0 <= u < |q.threads| && Reads(q.threads[u], p);
        assert Reads(q'.threads[u], p);
      }
    }
  }

  lemma {:induction false} LoadStep<T(!new)>(q: Queue<T>, q': Queue<T>, t: nat)
    requires Inv(q) && t < |q.threads| && SameMemory(q, q') && StepOf(q, q', t)
    requires ThreadOk(q, q'.threads[t])
    requires forall p: nat :: Writes(q'.threads[t], p) == Writes(q.threads[t], p)
    requires forall p: nat :: Reads(q'.threads[t], p) == Reads(q.threads[t], p)
    ensures Inv(q')
  {
    MemoryUntouched(q, q');
    forall p: nat
      ensures Data(q', p) == Data(q, p)
    {
    }
    OthersStayOk(q, q', t);
    OwnersAfterMove(q, q', t);
  }

  lemma WriteClaimStep<T(!new)>(q: Queue<T>, t: nat)
    requires Inv(q) && t < |q.threads| && q.threads[t].EnqClaim? && q.enqPos == q.threads[t].pos
    ensures Inv(ProceedEnqueue(q, t, false))
  {
    var q', th := ProceedEnqueue(q, t, false), q.threads[t];
    assert ThreadOk(q, th);
    MemoryAfterWriteClaim(q, q', th.value);
    assert q'.threads[t] == EnqWrite(th.value, th.pos);
    OthersStayOk(q, q', t);
    OwnersAfterMove(q, q', t);
  }

  lemma WriteStep<T(!new)>(q: Queue<T>, t: nat)
    requires Inv(q) && t < |q.threads| && q.threads[t].EnqWrite?
    ensures Inv(ProceedEnqueue(q, t, false))
  {
    var q', th := ProceedEnqueue(q, t, false), q.threads[t];
    assert ThreadOk(q, th);
    MemoryAfterWrite(q, q', th.pos, th.value);
    OthersStayOk(q, q', t);
    OwnersAfterMove(q, q', t);
  }

  lemma PublishStep<T(!new)>(q: Queue<T>, t: nat)
    requires Inv(q) && t < |q.threads| && q.threads[t].EnqPublish?
    ensures Inv(ProceedEnqueue(q, t, false))
  {
    var q', th := ProceedEnqueue(q, t, false), q.threads[t];
    assert ThreadOk(q, th);
    MemoryAfterPublish(q, q', th.pos);
    OthersStayOk(q, q', t);
    OwnersAfterMove(q, q', t);
  }

  lemma SequenceStep<T(!new)>(q: Queue<T>, t: nat, weakFailure: bool)
    requires Inv(q) && t < |q.threads| && q.threads[t].EnqSequence?
    ensures Inv(ProceedEnqueue(q, t, weakFailure))
  {
    assert ThreadOk(q, q.threads[t]);
    SequenceLoaded(q, q.threads[t].pos);
    LoadStep(q, ProceedEnqueue(q, t, weakFailure), t);
  }

  lemma EnqueueStep<T(!new)>(q: Queue<T>, t: nat, weakFailure: bool)
    requires Inv(q) && t < |q.threads| && Enqueuing(q.threads[t])
    ensures Inv(ProceedEnqueue(q, t, weakFailure))
  {
    var th := q.threads[t];
    if th.EnqWrite? {
      WriteStep(q, t);
    } else if th.EnqPublish? {
      PublishStep(q, t);
    } else if th.EnqSequence? {
      SequenceStep(q, t, weakFailure);
    } else if th.EnqClaim? && q.enqPos == th.pos && !weakFailure {
      WriteClaimStep(q, t);
    } else {
      LoadStep(q, ProceedEnqueue(q, t, weakFailure), t);
    }
  }

  lemma ReadClaimStep<T(!new)>(q: Queue<T>, t: nat)
    requires Inv(q) && t < |q.threads| && q.threads[t].DeqClaim? && q.deqPos == q.threads[t].pos
    ensures Inv(ProceedDequeue(q, t, false))
  {
    var q', th := ProceedDequeue(q, t, false), q.threads[t];
    assert ThreadOk(q, th);
    MemoryAfterReadClaim(q, q');
    assert th.pos !in q.released;
    OthersStayOk(q, q', t);
    OwnersAfterMove(q, q', t);
  }

  lemma ReleaseStep<T(!new)>(q: Queue<T>, t: nat)
    requires Inv(q) && t < |q.threads| && q.threads[t].DeqRelease?
    ensures Inv(ProceedDequeue(q, t, false))
  {
    var q', th := ProceedDequeue(q, t, false), q.threads[t];
    assert ThreadOk(q, th);
    MemoryAfterRelease(q, q', th.pos, th.got);
    OthersStayOk(q, q', t);
    OwnersAfterMove(q, q', t);
  }

  lemma ReadStep<T(!new)>(q: Queue<T>, t: nat)
    requires Inv(q) && t < |q.threads| && q.threads[t].DeqRead?
    ensures Inv(ProceedDequeue(q, t, false))
  {
    var pos := q.threads[t].pos;
    assert ThreadOk(q, q.threads[t]);
    assert pos in q.published && pos < |q.log|;
    LoadStep(q, ProceedDequeue(q, t, false), t);
  }

  lemma ReadSequenceStep<T(!new)>(q: Queue<T>, t: nat, weakFailure: bool)
    requires Inv(q) && t < |q.threads| && q.threads[t].DeqSequence?
    ensures Inv(ProceedDequeue(q, t, weakFailure))
  {
    assert ThreadOk(q, q.threads[t]);
    LoadStep(q, ProceedDequeue(q, t, weakFailure), t);
  }

  lemma DequeueStep<T(!new)>(q: Queue<T>, t: nat, weakFailure: bool)
    requires Inv(q) && t < |q.threads| && !q.threads[t].Idle? && !Enqueuing(q.threads[t])
    ensures Inv(ProceedDequeue(q, t, weakFailure))
  {
    var th := q.threads[t];
    if th.DeqRelease? {
      ReleaseStep(q, t);
    } else if th.DeqRead? {
      ReadStep(q, t);
    } else if th.DeqSequence? {
      ReadSequenceStep(q, t, weakFailure);
    } else if th.DeqClaim? && q.deqPos == th.pos && !weakFailure {
      ReadClaimStep(q, t);
    } else {
      LoadStep(q, ProceedDequeue(q, t, weakFailure), t);
    }
  }

  /** Seeing sequence number `pos` means the previous lap's occupant has been released. */
  lemma SequenceLoaded<T(!new)>(q: Queue<T>, pos: nat)
    requires MemoryOk(q)
    ensures Sequence(q, pos) < pos <==> pos >= |q.cells| && pos - |q.cells| !in q.released
  {
    var n := |q.cells|;
    if pos < n {
      assert Sequence(q, pos) >= pos;
    } else {
      NextLap(pos - n, n);
      assert Sequence(q, pos - n) == Sequence(q, pos);
    }
  }

  lemma InvStep<T(!new)>(q: Queue<T>, a: Action<T>)
    requires Inv(q) && Enabled(q, a)
    ensures Inv(Apply(q, a))
  {
    match a
    case CallEnqueue(t, _) => LoadStep(q, Apply(q, a), t);
    case CallDequeue(t) => LoadStep(q, Apply(q, a), t);
    case Proceed(t, weakFailure) =>
      if Enqueuing(q.threads[t]) {
        EnqueueStep(q, t, weakFailure);
      } else {
        DequeueStep(q, t, weakFailure);
      }
  }
}
