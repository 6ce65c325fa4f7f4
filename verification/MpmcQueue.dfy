/**
 The logger's bounded queue for many producers and many consumers as a state machine: every atomic
 load, compare-and-swap and store of a thread is one step, under sequential consistency and with
 positions that never wrap around.
 */
module MpmcQueue {
  import opened Bits

  datatype Cell<T> = Cell(sequence: nat, data: T)

  /** What a finished call told its caller. */
  datatype Outcome<T> = NoCall | Enqueued | QueueFull | Dequeued(got: T) | QueueEmpty

  /** Where a thread stands; the name says which access it performs next. */
  datatype Thread<T> =
    | Idle(last: Outcome<T>)
    | EnqLoad(value: T)
    | EnqSequence(value: T, pos: nat)
    | EnqClaim(value: T, pos: nat)
    | EnqWrite(value: T, pos: nat)
    | EnqPublish(value: T, pos: nat)
    | DeqLoad
    | DeqSequence(pos: nat)
    | DeqClaim(pos: nat)
    | DeqRead(pos: nat)
    | DeqRelease(pos: nat, got: T)

  /**
   The shared memory, the threads, and three histories: the values by claimed position, the
   positions published so far, and what each released position handed out.
   */
  datatype Queue<T> = Queue(
    cells: seq<Cell<T>>,
    enqPos: nat,
    deqPos: nat,
    threads: seq<Thread<T>>,
    log: seq<T>,
    published: set<nat>,
    released: map<nat, T>
  )

  /** The constructor throws unless this holds. */
  predicate Accepted(size: nat) {
    size >= 2 && And(size, size - 1) == 0
  }

  function Index(pos: nat, size: nat): (i: nat)
    requires Accepted(size)
    ensures i < size
  {
    And(pos, size - 1)
  }

  ghost predicate Init<T(!new)>(q: Queue<T>) {
    && Accepted(|q.cells|)
    && (forall i :: 0 <= i < |q.cells| ==> q.cells[i].sequence == i)
    && q.enqPos == 0 && q.deqPos == 0 && q.log == [] && q.published == {} && q.released == map[]
    && (forall t :: 0 <= t < |q.threads| ==> q.threads[t] == Idle(NoCall))
  }

  // ---- steps -----------------------------------------------------------------------------

  datatype Action<T> =
    | CallEnqueue(thread: nat, value: T)
    | CallDequeue(thread: nat)
    | Proceed(thread: nat, weakFailure: bool)

  predicate Enabled<T>(q: Queue<T>, a: Action<T>) {
    && a.thread < |q.threads|
    && (a.Proceed? <==> !q.threads[a.thread].Idle?)
  }

  function Sequence<T>(q: Queue<T>, pos: nat): nat
    requires Accepted(|q.cells|)
  {
    q.cells[Index(pos, |q.cells|)].sequence
  }

  function Data<T>(q: Queue<T>, pos: nat): T
    requires Accepted(|q.cells|)
  {
    q.cells[Index(pos, |q.cells|)].data
  }

  function SetSequence<T>(q: Queue<T>, pos: nat, sequence: nat): seq<Cell<T>>
    requires Accepted(|q.cells|)
  {
    var i := Index(pos, |q.cells|);
    q.cells[i := Cell(sequence, q.cells[i].data)]
  }

  function SetData<T>(q: Queue<T>, pos: nat, data: T): seq<Cell<T>>
    requires Accepted(|q.cells|)
  {
    var i := Index(pos, |q.cells|);
    q.cells[i := Cell(q.cells[i].sequence, data)]
  }

  function Move<T>(q: Queue<T>, t: nat, to: Thread<T>): Queue<T>
    requires t < |q.threads|
  {
    q.(threads := q.threads[t := to])
  }

  function ProceedEnqueue<T>(q: Queue<T>, t: nat, weakFailure: bool): (r: Queue<T>)
    requires Accepted(|q.cells|) && t < |q.threads|
    ensures |r.cells| == |q.cells| && |r.threads| == |q.threads|
  {
    match q.threads[t]
    case EnqLoad(value) => Move(q, t, EnqSequence(value, q.enqPos))
    case EnqSequence(value, pos) =>
      var sequence := Sequence(q, pos);
      if sequence == pos then Move(q, t, EnqClaim(value, pos))
      else if sequence < pos then Move(q, t, Idle(QueueFull))
      else Move(q, t, EnqLoad(value))
    case EnqClaim(value, pos) =>
      if q.enqPos == pos && !weakFailure then
        Move(q.(enqPos := pos + 1, log := q.log + [value]), t, EnqWrite(value, pos))
      else
        Move(q, t, EnqSequence(value, q.enqPos))
    case EnqWrite(value, pos) => Move(q.(cells := SetData(q, pos, value)), t, EnqPublish(value, pos))
    case EnqPublish(_, pos) =>
      Move(q.(cells := SetSequence(q, pos, pos + 1), published := q.published + {pos}), t, Idle(Enqueued))
    case _ => q
  }

  function ProceedDequeue<T>(q: Queue<T>, t: nat, weakFailure: bool): (r: Queue<T>)
    requires Accepted(|q.cells|) && t < |q.threads|
    ensures |r.cells| == |q.cells| && |r.threads| == |q.threads|
  {
    match q.threads[t]
    case DeqLoad => Move(q, t, DeqSequence(q.deqPos))
    case DeqSequence(pos) =>
      var sequence := Sequence(q, pos);
      if sequence == pos + 1 then Move(q, t, DeqClaim(pos))
      else if sequence < pos + 1 then Move(q, t, Idle(QueueEmpty))
      else Move(q, t, DeqLoad)
    case DeqClaim(pos) =>
      if q.deqPos == pos && !weakFailure then Move(q.(deqPos := pos + 1), t, DeqRead(pos))
      else Move(q, t, DeqSequence(q.deqPos))
    case DeqRead(pos) => Move(q, t, DeqRelease(pos, Data(q, pos)))
    case DeqRelease(pos, got) =>
      Move(q.(cells := SetSequence(q, pos, pos + |q.cells|), released := q.released[pos := got]), t, Idle(Dequeued(got)))
    case _ => q
  }

  predicate Enqueuing<T>(t: Thread<T>) {
    t.EnqLoad? || t.EnqSequence? || t.EnqClaim? || t.EnqWrite? || t.EnqPublish?
  }

  function Apply<T>(q: Queue<T>, a: Action<T>): (r: Queue<T>)
    requires Accepted(|q.cells|) && Enabled(q, a)
    ensures |r.cells| == |q.cells| && |r.threads| == |q.threads|
  {
    match a
    case CallEnqueue(t, value) => Move(q, t, EnqLoad(value))
    case CallDequeue(t) => Move(q, t, DeqLoad)
    case Proceed(t, weakFailure) =>
      if Enqueuing(q.threads[t]) then ProceedEnqueue(q, t, weakFailure) else ProceedDequeue(q, t, weakFailure)
  }

  ghost predicate Next<T(!new)>(q: Queue<T>, q': Queue<T>) {
    Accepted(|q.cells|) && exists a :: Enabled(q, a) && q' == Apply(q, a)
  }

  ghost predicate IsRun<T(!new)>(run: seq<Queue<T>>) {
    && |run| > 0 && Init(run[0])
    && forall i :: 0 <= i < |run| - 1 ==> Next(run[i], run[i + 1])
  }

  // ---- the ring --------------------------------------------------------------------------

  lemma SizeIsPowerOfTwo(size: nat) returns (k: nat)
    requires Accepted(size)
    ensures size == Pow2(k)
  {
    SingleBitIffPowerOfTwo(size);
    k :| size == Pow2(k);
  }

  lemma AcceptedSizes(size: nat)
    ensures Accepted(size) <==> exists k: nat :: k > 0 && size == Pow2(k)
  {
    if size >= 2 {
      SingleBitIffPowerOfTwo(size);
      if Accepted(size) {
        var k := SizeIsPowerOfTwo(size);
        assert k > 0;
      }
    }
    if k: nat :| k > 0 && size == Pow2(k) {
      assert size == 2 * Pow2(k - 1);
    }
  }

  /** Masking with `size - 1` walks the ring: it is the remainder modulo the size. */
  lemma IndexIsRemainder(pos: nat, size: nat)
    requires Accepted(size)
    ensures Index(pos, size) == pos % size
  {
    var k := SizeIsPowerOfTwo(size);
    MaskIsRemainder(pos, k);
  }

  lemma FirstLap(pos: nat, size: nat)
    requires Accepted(size) && pos < size
    ensures Index(pos, size) == pos
  {
    IndexIsRemainder(pos, size);
    RemainderIsUnique(pos, size, 0, pos);
  }

  lemma NextLap(pos: nat, size: nat)
    requires Accepted(size)
    ensures Index(pos + size, size) == Index(pos, size)
  {
    IndexIsRemainder(pos, size);
    IndexIsRemainder(pos + size, size);
    RemainderNextLap(pos, size);
  }

  /** Two positions that share a cell are at least a lap apart. */
  lemma SameCell(p: nat, q: nat, size: nat)
    requires Accepted(size) && Index(p, size) == Index(q, size) && p < q
    ensures p + size <= q
  {
    IndexIsRemainder(p, size);
    IndexIsRemainder(q, size);
    SameRemainder(p, q, size);
  }
}
