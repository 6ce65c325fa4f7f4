/**
 The server's multi-version store as a value: every version ever prepared, the newest
 committed timestamp of each key, and what a one-sided read of each key's cache slot decodes to.
 The functions here are the single steps that executors take on it; class `Table`
 performs them in place and the protocol models interleave them.
 */
module Store {
  import opened Data
  import opened Slot

  datatype Store = Store(
    items: map<Timestamp, seq<Item>>,
    latest: map<Key, Timestamp>,
    slots: map<Key, View<Item>>)

  const EMPTY_STORE := Store(map[], map[], map[])

  function Versions(s: Store, ts: Timestamp): seq<Item> {
    if ts in s.items then s.items[ts] else []
  }

  function Latest(s: Store, key: Key): Timestamp {
    if key in s.latest then s.latest[key] else ZERO
  }

  /** `latest_commit[key]`: reading through `operator[]` inserts the zero timestamp. */
  function Touch(s: Store, key: Key): Store {
    s.(latest := s.latest[key := Latest(s, key)])
  }

  /** First item with this key among the versions of one timestamp, else the empty item. */
  function Find(versions: seq<Item>, key: Key): Item {
    if versions == [] then EMPTY_ITEM
    else if versions[0].key == key then versions[0]
    else Find(versions[1..], key)
  }

  /** Appending a version hides nothing, and shows itself if its key was missing. */
  lemma {:induction false} FindAppend(versions: seq<Item>, item: Item, key: Key)
    ensures Find(versions, key) != EMPTY_ITEM ==> Find(versions + [item], key) == Find(versions, key)
    ensures (forall j :: 0 <= j < |versions| ==> versions[j].key != key) && item.key == key ==>
              Find(versions + [item], key) == item
    ensures item.key != key ==> Find(versions + [item], key) == Find(versions, key)
  {
    if versions == [] {
      assert versions + [item] == [item];
    } else {
      assert (versions + [item])[1..] == versions[1..] + [item];
      FindAppend(versions[1..], item, key);
    }
  }

  lemma {:induction false} FindIsThere(versions: seq<Item>, key: Key) returns (j: nat)
    requires Find(versions, key) != EMPTY_ITEM
    ensures j < |versions| && versions[j].key == key
  {
    if versions[0].key == key {
      j := 0;
    } else {
      j := FindIsThere(versions[1..], key);
      j := j + 1;
    }
  }

  function GetByVersion(s: Store, key: Key, ts: Timestamp): Item {
    Find(Versions(s, ts), key)
  }

  function GetLatest(s: Store, key: Key): Item {
    GetByVersion(s, key, Latest(s, key))
  }

  // ---- prepare: store the version, then invalidate the slot -----------------------------

  function Push(s: Store, item: Item): Store {
    s.(items := s.items[item.ts := Versions(s, item.ts) + [item]])
  }

  /** The first invalidation of a key only takes a zeroed slot; later ones mark it. */
  function InvalidateSlot(slots: map<Key, View<Item>>, key: Key): map<Key, View<Item>> {
    slots[key := if key !in slots || slots[key].Waiting? then Waiting else Rejected]
  }

  function Invalidate(s: Store, key: Key): Store {
    s.(slots := InvalidateSlot(s.slots, key))
  }

  function Prepare(s: Store, item: Item): Store {
    Invalidate(Push(s, item), item.key)
  }

  // ---- commit: for every item of the timestamp, check, set, rewrite the slot -------------

  function SetLatest(s: Store, key: Key, ts: Timestamp): Store {
    s.(latest := s.latest[key := ts])
  }

  /** A slot update for a key without a slot is only logged. */
  function UpdateSlot(slots: map<Key, View<Item>>, item: Item): map<Key, View<Item>> {
    if item.key in slots then slots[item.key := Got(item)] else slots
  }

  function Publish(s: Store, item: Item): Store {
    s.(slots := UpdateSlot(s.slots, item))
  }

  function CommitItem(s: Store, item: Item, ts: Timestamp): Store {
    if Latest(s, item.key).Less(ts)
    then Publish(SetLatest(Touch(s, item.key), item.key, ts), item)
    else Touch(s, item.key)
  }

  function CommitItems(s: Store, batch: seq<Item>, ts: Timestamp): Store {
    if batch == [] then s
    else
      var n := |batch| - 1;
      CommitItem(CommitItems(s, batch[..n], ts), batch[n], ts)
  }

  lemma CommitItemsStep(s: Store, batch: seq<Item>, i: nat, ts: Timestamp)
    requires i < |batch|
    ensures CommitItems(s, batch[..i + 1], ts) == CommitItem(CommitItems(s, batch[..i], ts), batch[i], ts)
  {
    assert batch[..i + 1][..i] == batch[..i];
  }

  function Commit(s: Store, ts: Timestamp): Store {
    CommitItems(s, Versions(s, ts), ts)
  }

  /** The two-argument commit of the locking mode: no slot update. */
  function CommitKey(s: Store, key: Key, ts: Timestamp): Store {
    if Latest(s, key).Less(ts) then SetLatest(Touch(s, key), key, ts) else Touch(s, key)
  }

  function Put(s: Store, item: Item): Store {
    CommitKey(Prepare(s, item), item.key, item.ts)
  }

  // ---- GET_WITH_ADDR: hand out a slot, giving the key one if it has none -----------------

  function HandOutSlot(slots: map<Key, View<Item>>, key: Key): map<Key, View<Item>> {
    if key in slots then slots else slots[key := Got(InitialItem(key))]
  }

  function HandOut(s: Store, key: Key): Store {
    s.(slots := HandOutSlot(s.slots, key))
  }

  // ---- what the operations leave, said without them ----------------------------------------

  /** Version `i` is the first one of this key among the versions of a timestamp. */
  predicate FirstOf(versions: seq<Item>, key: Key, i: nat) {
    i < |versions| && versions[i].key == key && forall j :: 0 <= j < i ==> versions[j].key != key
  }

  predicate Has(versions: seq<Item>, key: Key) {
    exists i :: 0 <= i < |versions| && versions[i].key == key
  }

  lemma {:induction false} FindsFirst(versions: seq<Item>, key: Key)
    ensures forall i: nat :: FirstOf(versions, key, i) ==> Find(versions, key) == versions[i]
    ensures !Has(versions, key) ==> Find(versions, key) == EMPTY_ITEM && NoData(EMPTY_ITEM, "")
  {
    if versions != [] && versions[0].key != key {
      FindsFirst(versions[1..], key);
      forall i: nat | FirstOf(versions, key, i)
        ensures Find(versions, key) == versions[i]
      {
        assert FirstOf(versions[1..], key, i - 1);
      }
      assert Has(versions[1..], key) ==> Has(versions, key);
    } else if versions != [] {
      assert versions[0].key == key;
    }
  }

  /** A prepare adds a version at the end, moves no answer, and leaves the slot not valid. */
  lemma PrepareLeaves(s: Store, item: Item, key: Key, ts: Timestamp)
    ensures Versions(Prepare(s, item), ts) == Versions(s, ts) + if ts == item.ts then [item] else []
    ensures Latest(Prepare(s, item), key) == Latest(s, key)
    ensures var slots := Prepare(s, item).slots;
            if key == item.key then key in slots && !slots[key].Got?
            else (key in slots <==> key in s.slots) && (key in slots ==> slots[key] == s.slots[key])
  {
  }

  /**
   A commit moves exactly the keys that the timestamp has a version of and that are behind it; their
   slots show the first such version. Everything else is as it was, the versions too.
   */
  lemma CommitLeaves(s: Store, ts: Timestamp, key: Key)
    ensures Commit(s, ts).items == s.items
    ensures var moves := Has(Versions(s, ts), key) && Latest(s, key).Less(ts);
            && Latest(Commit(s, ts), key) == (if moves then ts else Latest(s, key))
            && (key in Commit(s, ts).slots <==> key in s.slots)
            && (key in s.slots && !moves ==> Commit(s, ts).slots[key] == s.slots[key])
            && (key in s.slots && moves ==>
                  forall i: nat :: FirstOf(Versions(s, ts), key, i) ==> Commit(s, ts).slots[key] == Got(Versions(s, ts)[i]))
  {
    BatchLeaves(s, Versions(s, ts), ts, key);
  }

  lemma {:induction false} BatchLeaves(s: Store, batch: seq<Item>, ts: Timestamp, key: Key)
    ensures CommitItems(s, batch, ts).items == s.items
    ensures var s', moves := CommitItems(s, batch, ts), Has(batch, key) && Latest(s, key).Less(ts);
            && Latest(s', key) == (if moves then ts else Latest(s, key))
            && (key in s'.slots <==> key in s.slots)
            && (key in s.slots && !moves ==> s'.slots[key] == s.slots[key])
            && (key in s.slots && moves ==> forall i: nat :: FirstOf(batch, key, i) ==> s'.slots[key] == Got(batch[i]))
  {
    if batch != [] {
      var n := |batch| - 1;
      var front := batch[..n];
      BatchLeaves(s, front, ts, key);
      assert Has(batch, key) <==> Has(front, key) || batch[n].key == key;
      forall i: nat
        ensures FirstOf(batch, key, i) <==> if i < n then FirstOf(front, key, i) else i == n && batch[n].key == key && !Has(front, key)
      {
        assert forall j :: 0 <= j < n ==> front[j] == batch[j];
      }
    }
  }

  /** The two-argument commit moves the key if it is behind, and touches no slot. */
  lemma PutLeaves(s: Store, item: Item, key: Key, ts: Timestamp)
    ensures Versions(Put(s, item), ts) == Versions(s, ts) + if ts == item.ts then [item] else []
    ensures Latest(Put(s, item), key) == if key == item.key && Latest(s, key).Less(item.ts) then item.ts else Latest(s, key)
    ensures Put(s, item).slots == Prepare(s, item).slots
  {
  }

  /** A new slot shows the key and no data; a slot that is there stays as it is. */
  lemma HandOutLeaves(s: Store, key: Key, other: Key)
    ensures var slots := HandOut(s, key).slots;
            && key in slots && (key in s.slots ==> slots[key] == s.slots[key])
            && (key !in s.slots ==> slots[key].Got? && NoData(slots[key].item, key))
            && (other != key ==> (other in slots <==> other in s.slots) && (other in slots ==> slots[other] == s.slots[other]))
    ensures HandOut(s, key).items == s.items && HandOut(s, key).latest == s.latest
  {
  }

  /** An item that nobody wrote: no fields, no time, no siblings. */
  predicate NoData(item: Item, key: Key) {
    item.key == key && item.values == map[] && item.ts.sec == 0 && item.ts.usec == 0 && item.trxKeys == {}
  }

  /** Asking for the latest version leaves an entry for the key, and answers as before. */
  lemma TouchLeaves(s: Store, key: Key, other: Key)
    ensures key in Touch(s, key).latest && Latest(Touch(s, key), other) == Latest(s, other)
    ensures other != key ==> (other in Touch(s, key).latest <==> other in s.latest)
    ensures Touch(s, key).items == s.items && Touch(s, key).slots == s.slots
  {
  }
}
