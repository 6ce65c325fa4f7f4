/**
 What the serial run of the locking mode means to its users. A phase takes its timestamp before
 its locks, and a put with an older timestamp than the key already has is swallowed. So writes
 behave like ordinary overwrites exactly if timestamps increase along every key's lock order;
 that reads are not fractured needs no such luck.
 */
module LockingOrder {
  import opened Data
  import opened Locking
  import opened LockingSerial

  predicate InWork(c: Config, log: seq<nat>) {
    forall j :: 0 <= j < |log| ==> log[j] < |c.work|
  }

  predicate Distinct(log: seq<nat>) {
    forall i, j :: 0 <= i < j < |log| ==> log[i] != log[j]
  }

  predicate WritesTo(c: Config, p: nat, key: Key) {
    p < |c.work| && c.work[p].txn.PutAll? && key in c.work[p].txn.values
  }

  /** What a user of a key-value store expects to find: what was written last. */
  function LastWritten(c: Config, log: seq<nat>, key: Key): Item {
    if log == [] then EMPTY_ITEM
    else if WritesTo(c, log[|log| - 1], key) then ItemOf(c.work[log[|log| - 1]].txn, key)
    else LastWritten(c, log[..|log| - 1], key)
  }

  /** Along the lock order of every key, timestamps increase. */
  predicate Increasing(c: Config, log: seq<nat>, key: Key) {
    forall i, j :: 0 <= i < j < |log| && WritesTo(c, log[i], key) && WritesTo(c, log[j], key) ==>
      c.work[log[i]].txn.ts.Less(c.work[log[j]].txn.ts)
  }

  /** Every write of the log is at most as new as the serial result, which is one of them. */
  lemma {:induction false} SerialIsNewest(c: Config, log: seq<nat>, key: Key)
    requires ValidConfig(c) && InWork(c, log)
    ensures forall i :: 0 <= i < |log| && WritesTo(c, log[i], key) ==> !Serial(c, log, key).ts.Less(c.work[log[i]].txn.ts)
    ensures Serial(c, log, key) == EMPTY_ITEM
            || exists i :: 0 <= i < |log| && WritesTo(c, log[i], key) && Serial(c, log, key) == ItemOf(c.work[log[i]].txn, key)
  {
    if log != [] {
      var n := |log| - 1;
      SerialIsNewest(c, log[..n], key);
      assert forall i :: 0 <= i < n ==> log[..n][i] == log[i];
      var prev := Serial(c, log[..n], key);
      assert Serial(c, log, key) == Overlay(prev, c.work[log[n]].txn, key);
      if Serial(c, log, key) == prev && prev != EMPTY_ITEM {
        var i :| 0 <= i < n && WritesTo(c, log[..n][i], key) && prev == ItemOf(c.work[log[..n][i]].txn, key);
        assert WritesTo(c, log[i], key);
      } else if Serial(c, log, key) != EMPTY_ITEM {
        assert WritesTo(c, log[n], key);
      }
    }
  }

  /** Field by field: nothing, or key, values and timestamp of a newest write of the log. */
  lemma SerialHoldsWrite(c: Config, log: seq<nat>, key: Key)
    requires ValidConfig(c) && InWork(c, log)
    ensures var item := Serial(c, log, key);
            if forall i :: 0 <= i < |log| ==> !WritesTo(c, log[i], key)
            then item.values == map[] && item.ts == Timestamp(0, 0) && item.trxKeys == {}
            else exists i :: 0 <= i < |log| && HoldsWrite(c, log, i, key, item)
  {
    SerialIsNewest(c, log, key);
    if i :| 0 <= i < |log| && WritesTo(c, log[i], key) {
      assert Serial(c, log, key) != EMPTY_ITEM;
      var j :| 0 <= j < |log| && WritesTo(c, log[j], key) && Serial(c, log, key) == ItemOf(c.work[log[j]].txn, key);
      assert HoldsWrite(c, log, j, key, Serial(c, log, key));
    }
  }

  /** The item is what the `i`th phase of the log wrote to the key, and no phase of the log wrote it later in time. */
  ghost predicate HoldsWrite(c: Config, log: seq<nat>, i: nat, key: Key, item: Item)
    requires i < |log|
  {
    && WritesTo(c, log[i], key) && var t := c.work[log[i]].txn;
       && item.key == key && item.values == t.values[key] && item.ts == t.ts && item.trxKeys == {}
       && forall j :: 0 <= j < |log| && WritesTo(c, log[j], key) ==> !t.ts.Less(c.work[log[j]].txn.ts)
  }

  lemma {:induction false} IncreasingMeansOverwriting(c: Config, log: seq<nat>, key: Key)
    requires ValidConfig(c) && InWork(c, log) && Increasing(c, log, key)
    ensures Serial(c, log, key) == LastWritten(c, log, key)
  {
    if log != [] {
      var n := |log| - 1;
      assert forall i :: 0 <= i < n ==> log[..n][i] == log[i];
      IncreasingMeansOverwriting(c, log[..n], key);
      SerialIsNewest(c, log[..n], key);
    }
  }

  lemma OverwritingMeansIncreasing(c: Config, log: seq<nat>, key: Key, i: nat, j: nat)
    requires ValidConfig(c) && InWork(c, log) && Distinct(log)
    requires i < j < |log| && WritesTo(c, log[i], key) && WritesTo(c, log[j], key)
    requires Serial(c, log[..j + 1], key) == LastWritten(c, log[..j + 1], key)
    ensures c.work[log[i]].txn.ts.Less(c.work[log[j]].txn.ts)
  {
    var upto := log[..j + 1];
    assert upto[..j] == log[..j] && upto[j] == log[j];
    SerialIsNewest(c, log[..j], key);
    assert log[..j][i] == log[i];
    SerialIsOfOthers(c, log[..j], log[j], key);
    assert Serial(c, upto, key) == Overlay(Serial(c, log[..j], key), c.work[log[j]].txn, key);
  }

  lemma SerialIsOfOthers(c: Config, log: seq<nat>, p: nat, key: Key)
    requires ValidConfig(c) && InWork(c, log) && p !in log && WritesTo(c, p, key)
    ensures Serial(c, log, key).ts != c.work[p].txn.ts
  {
    SerialIsNewest(c, log, key);
    assert forall l :: 0 <= l < |log| && WritesTo(c, log[l], key) ==> log[l] != p;
  }

  /**
   Exactly when the locking mode is serializable for users who expect overwriting: at every
   point of the serial run the key holds what was last written, iff timestamps increase.
   */
  lemma SerializableIffTimestampsIncrease(c: Config, log: seq<nat>, key: Key)
    requires ValidConfig(c) && InWork(c, log) && Distinct(log)
    ensures (forall n :: 0 <= n <= |log| ==> Serial(c, log[..n], key) == LastWritten(c, log[..n], key)) <==> Increasing(c, log, key)
  {
    if Increasing(c, log, key) {
      forall n | 0 <= n <= |log|
        ensures Serial(c, log[..n], key) == LastWritten(c, log[..n], key)
      {
        assert forall i :: 0 <= i < n ==> log[..n][i] == log[i];
        IncreasingMeansOverwriting(c, log[..n], key);
      }
    }
    if forall n :: 0 <= n <= |log| ==> Serial(c, log[..n], key) == LastWritten(c, log[..n], key) {
      forall i, j | 0 <= i < j < |log| && WritesTo(c, log[i], key) && WritesTo(c, log[j], key)
        ensures c.work[log[i]].txn.ts.Less(c.work[log[j]].txn.ts)
      {
        OverwritingMeansIncreasing(c, log, key, i, j);
      }
    }
  }

  /**
   No fractured reads, whatever the timestamps: a `get_all` that sees one write of a `put_all`
   sees that write's timestamp or a newer one on every other key of the two.
   */
  lemma NoFracturedReads(c: Config, run: seq<State>, i: nat, g: nat, p: nat, x: Key, y: Key)
    requires ValidConfig(c) && IsRun(c, run) && i < |run| && g < |c.work| && p < |c.work|
    requires |run[i].phases| == |c.work| && run[i].phases[g].stage == Done
    requires c.work[g].txn.GetAll? && x in c.work[g].txn.wanted && y in c.work[g].txn.wanted
    requires c.work[p].txn.PutAll? && y in c.work[p].txn.values
    requires x in run[i].phases[g].ret && run[i].phases[g].ret[x].ts == c.work[p].txn.ts
    ensures y in run[i].phases[g].ret && !run[i].phases[g].ret[y].ts.Less(c.work[p].txn.ts)
  {
    EveryRunIsSerial(c, run, i);
    var s := run[i];
    var j :| 0 <= j < |s.log| && s.log[j] == g;
    assert EntryOk(c, s, j);
    assert forall l :: 0 <= l < j ==> EntryOk(c, s, l) && s.log[..j][l] == s.log[l];
    SerialIsNewest(c, s.log[..j], x);
    SerialIsNewest(c, s.log[..j], y);
    var l :| 0 <= l < j && WritesTo(c, s.log[..j][l], x) && Serial(c, s.log[..j], x) == ItemOf(c.work[s.log[..j][l]].txn, x);
    assert s.log[..j][l] == p;
  }

  /** Three phases, in this lock order: a write with the newer timestamp, one with the older, a read. */
  const LATE := Work(PutAll(Timestamp(2, 0), map["k" := map["f" := "new"]]), ["k"])
  const EARLY := Work(PutAll(Timestamp(1, 0), map["k" := map["f" := "late"]]), ["k"])
  const READ := Work(GetAll({"k"}), ["k"])
  const THREE := Config(1, (k: Key) => 0, [LATE, EARLY, READ])

  /** The second write took its timestamp first; in lock order it comes last, and it is lost. */
  lemma LateLockLosesAWrite()
    ensures ValidConfig(THREE) && !Increasing(THREE, [0, 1, 2], "k")
    ensures Serial(THREE, [0, 1], "k").values == map["f" := "new"]
    ensures LastWritten(THREE, [0, 1], "k").values == map["f" := "late"]
  {
    assert [0, 1][..1] == [0] && [0][..0] == [];
    assert Serial(THREE, [0], "k") == Overlay(EMPTY_ITEM, LATE.txn, "k");
    assert Serial(THREE, [0, 1], "k") == Overlay(Serial(THREE, [0], "k"), EARLY.txn, "k");
    assert WritesTo(THREE, [0, 1, 2][0], "k") && WritesTo(THREE, [0, 1, 2][1], "k");
  }
}
