/** The counter that reports an id only once it and all ids before it have been acknowledged. */
module AckCounter {
  import opened Bits

  const WINDOW_SIZE := 1048576
  const WINDOW_MASK := 1048575

  function Slot(value: nat): (s: nat)
    ensures s < WINDOW_SIZE && s <= value
  {
    value % WINDOW_SIZE
  }

  /** The program masks the id; that is the same slot. */
  lemma MaskedSlot(value: nat)
    ensures And(value, WINDOW_MASK) == Slot(value)
  {
    assert Pow2(4) == 16;
    assert Pow2(8) == 256;
    assert Pow2(12) == 4096;
    assert Pow2(16) == 65536;
    assert Pow2(20) == WINDOW_SIZE;
    MaskIsRemainder(value, 20);
  }

  /** Within one window every id has a slot of its own. */
  lemma SlotsDiffer(base: nat, v: nat, w: nat)
    requires base < v <= base + WINDOW_SIZE && base < w <= base + WINDOW_SIZE && v != w
    ensures Slot(v) != Slot(w)
  {
  }

  /** The id in the window above `base` that uses the same slot as `value`. */
  function Alias(base: nat, value: nat): (v: nat)
    ensures base < v <= base + WINDOW_SIZE && v % WINDOW_SIZE == value % WINDOW_SIZE
  {
    base + 1 + (value - base - 1) % WINDOW_SIZE
  }

  // ---- what the ring stands for ----------------------------------------------------------

  /** Ids `start..limit` are acknowledged; the ring holds the acknowledged ids of the window above `limit`. */
  ghost predicate Represents(start: nat, acked: set<nat>, limit: nat, window: seq<bool>) {
    && |window| == WINDOW_SIZE && start <= limit + 1
    && (forall v: nat :: start <= v <= limit ==> v in acked)
    && (forall v: nat :: v in acked ==> start <= v <= limit + WINDOW_SIZE)
    && (forall v: nat :: limit < v <= limit + WINDOW_SIZE ==> (window[Slot(v)] <==> v in acked))
  }

  /** `limit` is the last id of the unbroken row that starts at `start`. */
  ghost predicate EndsRow(start: nat, acked: set<nat>, limit: nat) {
    && start <= limit + 1 && limit + 1 !in acked
    && (forall v: nat :: start <= v <= limit ==> v in acked)
  }

  lemma RowHasOneEnd(start: nat, acked: set<nat>, a: nat, b: nat)
    requires EndsRow(start, acked, a) && EndsRow(start, acked, b)
    ensures a == b
  {
    assert a < b ==> a + 1 in acked;
    assert b < a ==> b + 1 in acked;
  }

  /** The set of acknowledged ids alone decides the state: the order in which they came does not matter. */
  lemma OrderDoesNotMatter(start: nat, acked: set<nat>, a: nat, windowA: seq<bool>, b: nat, windowB: seq<bool>)
    requires Represents(start, acked, a, windowA) && EndsRow(start, acked, a)
    requires Represents(start, acked, b, windowB) && EndsRow(start, acked, b)
    ensures a == b && windowA == windowB
  {
    RowHasOneEnd(start, acked, a, b);
    forall s | 0 <= s < WINDOW_SIZE
      ensures windowA[s] == windowB[s]
    {
      assert Slot(Alias(a, s)) == s;
    }
  }

  /** One sweep: the ids above `limit` whose slots are set, up to the first one that is not. */
  ghost predicate Swept(limit: nat, window: seq<bool>, limit': nat, window': seq<bool>) {
    && |window| == |window'| == WINDOW_SIZE && limit <= limit' <= limit + WINDOW_SIZE
    && (forall v: nat :: limit < v <= limit' ==> window[Slot(v)] && !window'[Slot(v)])
    && (forall v: nat :: limit' < v <= limit + WINDOW_SIZE ==> window'[Slot(v)] == window[Slot(v)])
    && !window'[Slot(limit' + 1)]
  }

  /** A sweep moves acknowledged ids out of the ring and stops at the end of the row. */
  lemma SweepAdvances(start: nat, acked: set<nat>, limit: nat, window: seq<bool>, limit': nat, window': seq<bool>)
    requires Represents(start, acked, limit, window) && Swept(limit, window, limit', window')
    ensures Represents(start, acked, limit', window') && EndsRow(start, acked, limit')
  {
    forall v: nat | limit' < v <= limit' + WINDOW_SIZE
      ensures window'[Slot(v)] <==> v in acked
    {
      if v > limit + WINDOW_SIZE {
        var low := v - WINDOW_SIZE;
        assert !window'[Slot(low)];
      }
    }
  }

  /** Marking an id of the window that is not acknowledged yet finds its slot free and keeps the meaning. */
  lemma MarkInWindow(start: nat, acked: set<nat>, limit: nat, window: seq<bool>, value: nat)
    requires Represents(start, acked, limit, window) && value !in acked && start <= value
    requires value <= limit + WINDOW_SIZE
    ensures !window[Slot(value)]
    ensures Represents(start, acked + {value}, limit, window[Slot(value) := true])
  {
    assert limit < value;
    forall v: nat | limit < v <= limit + WINDOW_SIZE
      ensures window[Slot(value) := true][Slot(v)] <==> v in acked + {value}
    {
      if v != value {
        SlotsDiffer(limit, v, value);
      }
    }
  }

  predicate InWindow(limit: nat, value: nat) {
    limit < value <= limit + WINDOW_SIZE
  }

  /**
   Marking any other id, too new or already passed, makes the ring claim an id that nobody
   acknowledged, unless that id's own acknowledgement is there already and the mark is refused.
   */
  lemma MarkOutsideWindow(start: nat, acked: set<nat>, limit: nat, window: seq<bool>, value: nat)
    requires Represents(start, acked, limit, window) && !InWindow(limit, value)
    ensures window[Slot(value)] <==> Alias(limit, value) in acked
    ensures InWindow(limit, Alias(limit, value)) && Alias(limit, value) != value
    ensures window[Slot(value) := true][Slot(Alias(limit, value))]
  {
    assert Slot(Alias(limit, value)) == Slot(value);
  }

  /** A sweep that has passed the ids below `index` so far. */
  ghost predicate Passed(limit: nat, before: seq<bool>, now: seq<bool>, index: nat) {
    && |before| == |now| == WINDOW_SIZE && limit < index <= limit + 1 + WINDOW_SIZE
    && (forall v: nat :: limit < v < index ==> before[Slot(v)] && !now[Slot(v)])
    && (forall v: nat :: index <= v <= limit + WINDOW_SIZE ==> now[Slot(v)] == before[Slot(v)])
  }

  lemma PassOne(limit: nat, before: seq<bool>, now: seq<bool>, index: nat)
    requires Passed(limit, before, now, index) && now[Slot(index)]
    ensures Passed(limit, before, now[Slot(index) := false], index + 1)
  {
    StopsAfterOneLap(limit, before, now, index);
    forall v: nat | limit < v <= limit + WINDOW_SIZE && v != index
      ensures Slot(v) != Slot(index)
    {
      SlotsDiffer(limit, v, index);
    }
  }

  /** After a whole window the next slot is one the sweep has cleared itself. */
  lemma StopsAfterOneLap(limit: nat, before: seq<bool>, now: seq<bool>, index: nat)
    requires Passed(limit, before, now, index)
    ensures index == limit + 1 + WINDOW_SIZE ==> !now[Slot(index)]
  {
    assert Slot(limit + 1 + WINDOW_SIZE) == Slot(limit + 1);
  }

  class AcknowledgedCounter {
    const window: array<bool>
    var limit: nat
    const start: nat
    ghost var acked: set<nat>

    ghost predicate Valid()
      reads this, window
    {
      window.Length == WINDOW_SIZE && Represents(start, acked, limit, window[..])
    }

    constructor (countStart: nat)
      requires countStart >= 1
      ensures Valid() && start == countStart && acked == {} && limit == countStart - 1
      ensures fresh(window) && EndsRow(start, acked, limit)
    {
      window := new bool[WINDOW_SIZE](_ => false);
      limit := countStart - 1;
      start := countStart;
      acked := {};
    }

    /**
     Makes one id available, or refuses it (`ok` is false). `gotLock` says whether the sweep's lock
     was free; a caller that does not get it leaves the sweep to a later one. In the window exactly
     the ids acknowledged before are refused. After an id that is taken the ring keeps its meaning
     exactly if the id lies in the window.
     */
    method Acknowledge(value: nat, gotLock: bool) returns (ok: bool)
      requires Valid()
      modifies this`limit, this`acked, window
      ensures ok == !old(window[Slot(value)])
      ensures InWindow(old(limit), value) ==> (ok <==> value !in old(acked))
      ensures !InWindow(old(limit), value) ==> (ok <==> Alias(old(limit), value) !in old(acked))
      ensures !ok ==> window[..] == old(window[..]) && limit == old(limit) && acked == old(acked)
      ensures ok ==> acked == old(acked) + {value} && (Valid() <==> InWindow(old(limit), value))
      ensures ok && gotLock && Valid() ==> EndsRow(start, acked, limit)
      ensures !gotLock ==> limit == old(limit)
    {
      var currentSlot := And(value, WINDOW_MASK);
      MaskedSlot(value);
      if !InWindow(limit, value) {
        MarkOutsideWindow(start, acked, limit, window[..], value);
      } else if value !in acked {
        MarkInWindow(start, acked, limit, window[..], value);
      }
      if window[currentSlot] {
        return false;
      }
      window[currentSlot] := true;
      acked := acked + {value};
      ok := true;
      ghost var marked := window[..];
      assert marked == old(window[..])[currentSlot := true];
      if gotLock {
        Sweep();
        if InWindow(old(limit), value) {
          SweepAdvances(start, acked, old(limit), marked, limit, window[..]);
        } else {
          StaysWrong(start, acked, old(limit), marked, limit, window[..], Alias(old(limit), value));
        }
      }
    }

    /** Moves the contiguous acknowledged ids above `limit` out of the ring; it ends because it clears what it passes. */
    method Sweep()
      requires window.Length == WINDOW_SIZE
      modifies this`limit, window
      ensures Swept(old(limit), old(window[..]), limit, window[..])
    {
      ghost var before := window[..];
      var beforeFirstSlot := And(limit, WINDOW_MASK);
      var index := limit + 1;
      while index != beforeFirstSlot
        invariant limit == old(limit) && Passed(limit, before, window[..], index)
        decreases limit + 1 + WINDOW_SIZE - index
      {
        var slot := And(index, WINDOW_MASK);
        MaskedSlot(index);
        ghost var now := window[..];
        StopsAfterOneLap(limit, before, now, index);
        if !window[slot] {
          break;
        }
        PassOne(limit, before, now, index);
        window[slot] := false;
        assert window[..] == now[slot := false];
        index := index + 1;
      }
      ghost var after := window[..];
      StopsAfterOneLap(limit, before, after, index);
      assert Swept(limit, before, index - 1, after);
      limit := index - 1;
      assert window[..] == after;
    }
  }

  /** A slot that is set for an id nobody acknowledged stays wrong through a sweep. */
  lemma StaysWrong(start: nat, acked: set<nat>, limit: nat, window: seq<bool>, limit': nat, window': seq<bool>, v: nat)
    requires Swept(limit, window, limit', window')
    requires start <= v && limit < v <= limit + WINDOW_SIZE && window[Slot(v)] && v !in acked
    ensures !Represents(start, acked, limit', window')
  {
    assert v <= limit' || window'[Slot(v)];
  }
}
