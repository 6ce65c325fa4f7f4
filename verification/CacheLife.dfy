/** Two facts about the server's cache that need its whole history. */
module CacheLife {
  import opened Data
  import opened Slot
  import opened Store

  // ---- which slots keep a reader waiting for ever -----------------------------------------

  datatype CacheOp = Invalidated(key: Key) | Updated(item: Item) | HandedOut(key: Key)

  function Play(ops: seq<CacheOp>): map<Key, View<Item>> {
    if ops == [] then map[]
    else
      var slots := Play(ops[..|ops| - 1]);
      match ops[|ops| - 1]
      case Invalidated(key) => InvalidateSlot(slots, key)
      case Updated(item) => UpdateSlot(slots, item)
      case HandedOut(key) => HandOutSlot(slots, key)
  }

  predicate Takes(op: CacheOp, key: Key) {
    match op
    case Invalidated(k) => k == key
    case HandedOut(k) => k == key
    case Updated(_) => false
  }

  predicate Writes(op: CacheOp, key: Key) {
    op.Updated? && op.item.key == key
  }

  /** The key got its slot from operation `i`, an invalidation, and nothing was written since. */
  predicate NeverWritten(ops: seq<CacheOp>, key: Key, i: nat)
    requires i < |ops|
  {
    && ops[i] == Invalidated(key)
    && (forall j :: 0 <= j < i ==> !Takes(ops[j], key))
    && (forall j :: i < j < |ops| ==> !Writes(ops[j], key))
  }

  lemma {:induction false} HasSlotIffTaken(ops: seq<CacheOp>, key: Key)
    ensures key in Play(ops) <==> exists i :: 0 <= i < |ops| && Takes(ops[i], key)
  {
    if ops != [] {
      var n := |ops| - 1;
      HasSlotIffTaken(ops[..n], key);
      if i :| 0 <= i < |ops| && Takes(ops[i], key) {
        assert i < n ==> ops[..n][i] == ops[i];
      }
      if key in Play(ops[..n]) {
        var i :| 0 <= i < n && Takes(ops[..n][i], key);
        assert Takes(ops[i], key);
      } else if key in Play(ops) {
        assert Takes(ops[n], key);
      }
    }
  }

  lemma NeverWrittenStep(ops: seq<CacheOp>, key: Key, i: nat)
    requires i < |ops|
    ensures var n := |ops| - 1;
            NeverWritten(ops, key, i) <==>
              if i < n then NeverWritten(ops[..n], key, i) && !Writes(ops[n], key)
              else ops[n] == Invalidated(key) && forall j :: 0 <= j < n ==> !Takes(ops[..n][j], key)
  {
    var n := |ops| - 1;
    assert forall j :: 0 <= j < n ==> ops[..n][j] == ops[j];
  }

  /**
   A slot reads as "not arrived" exactly if its key was prepared before anyone asked for its
   address and no version of it has been committed since. A client that is given such an address
   polls a local copy that nothing will ever change.
   */
  lemma {:induction false} WaitingIffNeverWritten(ops: seq<CacheOp>, key: Key)
    ensures key in Play(ops) && Play(ops)[key] == Waiting <==> exists i :: 0 <= i < |ops| && NeverWritten(ops, key, i)
  {
    if ops != [] {
      var n := |ops| - 1;
      var before := ops[..n];
      WaitingIffNeverWritten(before, key);
      HasSlotIffTaken(before, key);
      forall i | 0 <= i < |ops|
        ensures NeverWritten(ops, key, i) <==>
                  if i < n then NeverWritten(before, key, i) && !Writes(ops[n], key)
                  else ops[n] == Invalidated(key) && key !in Play(before)
      {
        NeverWrittenStep(ops, key, i);
      }
      assert (exists i :: 0 <= i < |ops| && NeverWritten(ops, key, i)) <==>
               NeverWritten(ops, key, n) || exists i :: 0 <= i < n && NeverWritten(ops, key, i);
      assert (exists i :: 0 <= i < n && NeverWritten(ops, key, i)) <==>
               !Writes(ops[n], key) && exists i :: 0 <= i < |before| && NeverWritten(before, key, i);
    }
  }

  // ---- the newer tree's commit --------------------------------------------------------------

  /**
   In the newer copy of the table, the one-argument commit reads `latest_commit` through
   `operator[]`, which inserts zero, and then uses `insert`, which does not overwrite.
   */
  function CommitItemByInsert(s: Store, item: Item, ts: Timestamp): Store {
    var touched := Touch(s, item.key);
    if Latest(s, item.key).Less(ts)
    then Publish(if item.key in touched.latest then touched else SetLatest(touched, item.key, ts), item)
    else touched
  }

  function CommitByInsert(s: Store, batch: seq<Item>, ts: Timestamp): Store {
    if batch == [] then s
    else CommitItemByInsert(CommitByInsert(s, batch[..|batch| - 1], ts), batch[|batch| - 1], ts)
  }

  /** So it never moves any key's latest version, while the slots do change. */
  lemma {:induction false} InsertNeverAdvances(s: Store, batch: seq<Item>, ts: Timestamp, key: Key)
    ensures Latest(CommitByInsert(s, batch, ts), key) == Latest(s, key)
    ensures GetLatest(CommitByInsert(s, batch, ts), key) == GetLatest(s, key)
    ensures CommitByInsert(s, batch, ts).items == s.items
  {
    if batch != [] {
      InsertNeverAdvances(s, batch[..|batch| - 1], ts, key);
    }
  }

  /** Version `i` is the last one of this key in the batch. */
  predicate LastOf(batch: seq<Item>, key: Key, i: nat) {
    i < |batch| && batch[i].key == key && forall j :: i < j < |batch| ==> batch[j].key != key
  }

  /** A key that it leaves behind shows the last of its versions, not the first as with the assigning commit. */
  lemma {:induction false} InsertShowsLast(s: Store, batch: seq<Item>, ts: Timestamp, key: Key)
    requires key in s.slots
    ensures var slots, moves := CommitByInsert(s, batch, ts).slots, Has(batch, key) && Latest(s, key).Less(ts);
            && key in slots && (!moves ==> slots[key] == s.slots[key])
            && (moves ==> forall i: nat :: LastOf(batch, key, i) ==> slots[key] == Got(batch[i]))
  {
    if batch != [] {
      var n := |batch| - 1;
      InsertShowsLast(s, batch[..n], ts, key);
      InsertNeverAdvances(s, batch[..n], ts, key);
      assert Has(batch, key) <==> Has(batch[..n], key) || batch[n].key == key;
      forall i: nat
        ensures LastOf(batch, key, i) ==> if i < n then LastOf(batch[..n], key, i) && batch[n].key != key else i == n
      {
      }
    }
  }
}
