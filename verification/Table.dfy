/** The server's multi-version table, updated in place; every method is one operation of `Store`. */
module Table {
  import opened Data
  import opened Slot
  import opened Store
  import S = Store
  import Cache = CommittedItems

  ghost predicate Stored(items: map<Timestamp, seq<Item>>, codec: Codec<Item>, keys: set<Key>) {
    forall t, i :: t in items && 0 <= i < |items[t]| ==> Packs(codec, items[t][i]) && items[t][i].key in keys
  }

  lemma StoredPush(items: map<Timestamp, seq<Item>>, codec: Codec<Item>, keys: set<Key>, item: Item, versions: seq<Item>)
    requires Stored(items, codec, keys) && Packs(codec, item)
    requires versions == if item.ts in items then items[item.ts] else []
    ensures Stored(items[item.ts := versions + [item]], codec, keys + {item.key})
  {
  }

  lemma StoredMore(items: map<Timestamp, seq<Item>>, codec: Codec<Item>, keys: set<Key>, more: set<Key>)
    requires Stored(items, codec, keys) && keys <= more
    ensures Stored(items, codec, more)
  {
  }

  lemma PrepareInTwo(start: Store, item: Item, items: map<Timestamp, seq<Item>>, views: map<Key, View<Item>>)
    requires items == S.Push(start, item).items && views == InvalidateSlot(start.slots, item.key)
    ensures Store(items, start.latest, views) == S.Prepare(start, item)
  {
  }

  class Table {
    var items: map<Timestamp, seq<Item>>
    var latestCommit: map<Key, Timestamp>
    const committedItems: Cache.CommittedItems

    /** Every stored version can be serialised and its key owns a cache slot. */
    ghost predicate Valid()
      reads this, committedItems, committedItems.mem
    {
      && committedItems.Valid()
      && Stored(items, committedItems.codec, committedItems.index.Keys)
    }

    ghost function Contents(): Store
      requires Valid()
      reads this, committedItems, committedItems.mem
    {
      Store(items, latestCommit, committedItems.Views())
    }

    /** The key has a slot, or one is left for it: at most 1000 keys live on a server. */
    ghost predicate HasRoom(key: Key)
      reads this, committedItems
    {
      if key in committedItems.entries then committedItems.entries[key] != null else committedItems.unused != []
    }

    constructor (codec: Codec<Item>)
      ensures Valid() && Contents() == EMPTY_STORE
      ensures fresh(committedItems) && fresh(committedItems.mem) && fresh(committedItems.carved)
    {
      items := map[];
      latestCommit := map[];
      committedItems := new Cache.CommittedItems(codec);
    }

    /** `items[item.ts].push_back(item)`. */
    method Push(item: Item)
      requires Valid() && Packs(committedItems.codec, item)
      modifies this`items
      ensures items == S.Push(old(Contents()), item).items
      ensures Stored(items, committedItems.codec, committedItems.index.Keys + {item.key})
    {
      var versions := if item.ts in items then items[item.ts] else [];
      StoredPush(items, committedItems.codec, committedItems.index.Keys, item, versions);
      items := items[item.ts := versions + [item]];
    }

    method Prepare(item: Item)
      requires Valid() && HasRoom(item.key) && Packs(committedItems.codec, item)
      modifies this`items, committedItems, committedItems.mem, committedItems.carved
      ensures Valid() && Contents() == S.Prepare(old(Contents()), item)
    {
      ghost var start, keys := Contents(), committedItems.index.Keys;
      Push(item);
      ghost var pushed := items;
      Mark(item.key);
      StoredMore(pushed, committedItems.codec, keys + {item.key}, committedItems.index.Keys);
      PrepareInTwo(start, item, pushed, committedItems.Views());
    }

    /** `committed_items.invalidate(key)`. */
    method Mark(key: Key)
      requires committedItems.Valid() && HasRoom(key)
      modifies committedItems, committedItems.mem, committedItems.carved
      ensures committedItems.Valid() && committedItems.Views() == InvalidateSlot(old(committedItems.Views()), key)
      ensures old(committedItems.index.Keys) + {key} <= committedItems.index.Keys
    {
      committedItems.Invalidate(key);
    }

    /** Publishes every version of a timestamp that is newer than what its key has. */
    method Commit(ts: Timestamp, pad: seq<byte>)
      requires Valid() && |pad| == 8
      modifies this`latestCommit, committedItems.mem, committedItems.carved
      ensures Valid() && Contents() == S.Commit(old(Contents()), ts)
    {
      if ts in items {
        var batch := items[ts];
        ghost var start := Contents();
        assert batch[..0] == [] && CommitItems(start, [], ts) == start;
        for i := 0 to |batch|
          invariant Valid() && items == start.items
          invariant Contents() == CommitItems(start, batch[..i], ts)
        {
          CommitItemsStep(start, batch, i, ts);
          CommitOne(batch[i], ts, pad);
        }
        assert batch[..|batch|] == batch;
      }
    }

    method Publish(item: Item, pad: seq<byte>)
      requires Valid() && |pad| == 8
      requires Packs(committedItems.codec, item) && item.key in committedItems.index
      modifies committedItems.mem, committedItems.carved
      ensures Valid() && Contents() == S.Publish(old(Contents()), item)
    {
      committedItems.Update(item, pad);
    }

    /** Check, set, rewrite the slot. */
    method CommitOne(item: Item, ts: Timestamp, pad: seq<byte>)
      requires Valid() && |pad| == 8
      requires Packs(committedItems.codec, item) && item.key in committedItems.index
      modifies this`latestCommit, committedItems.mem, committedItems.carved
      ensures Valid() && Contents() == CommitItem(old(Contents()), item, ts)
    {
      var newest := ReadLatest(item.key);
      if newest.Less(ts) {
        WriteLatest(item.key, ts);
        Publish(item, pad);
      }
    }

    /** `latestCommit[key]` through `operator[]`. */
    method ReadLatest(key: Key) returns (ts: Timestamp)
      requires Valid()
      modifies this`latestCommit
      ensures Valid() && Contents() == Touch(old(Contents()), key)
      ensures ts == Latest(old(Contents()), key)
    {
      if key !in latestCommit {
        latestCommit := latestCommit[key := ZERO];
      } else {
        assert latestCommit == latestCommit[key := latestCommit[key]];
      }
      ts := latestCommit[key];
    }

    method WriteLatest(key: Key, ts: Timestamp)
      requires Valid()
      modifies this`latestCommit
      ensures Valid() && Contents() == SetLatest(old(Contents()), key, ts)
    {
      latestCommit := latestCommit[key := ts];
    }

    method CommitKey(key: Key, ts: Timestamp)
      requires Valid()
      modifies this`latestCommit
      ensures Valid() && Contents() == S.CommitKey(old(Contents()), key, ts)
    {
      var newest := ReadLatest(key);
      if newest.Less(ts) {
        WriteLatest(key, ts);
      }
    }

    method Put(item: Item)
      requires Valid() && HasRoom(item.key) && Packs(committedItems.codec, item)
      modifies this, committedItems, committedItems.mem, committedItems.carved
      ensures Valid() && Contents() == S.Put(old(Contents()), item)
    {
      Prepare(item);
      CommitKey(item.key, item.ts);
    }

    method GetItemByVer(key: Key, ts: Timestamp) returns (item: Item)
      requires Valid()
      ensures item == GetByVersion(Contents(), key, ts)
    {
      if ts in items {
        var versions := items[ts];
        for i := 0 to |versions|
          invariant Find(versions, key) == Find(versions[i..], key)
        {
          if versions[i].key == key {
            return versions[i];
          }
          assert versions[i..][1..] == versions[i + 1..];
        }
      }
      item := EMPTY_ITEM;
    }

    method GetLatestItem(key: Key) returns (item: Item)
      requires Valid()
      modifies this`latestCommit
      ensures Valid() && Contents() == Touch(old(Contents()), key)
      ensures item == GetLatest(old(Contents()), key)
    {
      var newest := ReadLatest(key);
      item := GetItemByVer(key, newest);
    }

    /** GET_WITH_ADDR: the latest item together with the address of the key's slot. */
    method GetItemAndAddr(key: Key, pad: seq<byte>) returns (item: Item, addr: Option<nat>)
      requires Valid() && |pad| == 8 && HasRoom(key) && Packs(committedItems.codec, InitialItem(key))
      modifies this`latestCommit, committedItems, committedItems.mem, committedItems.carved
      ensures Valid() && Contents() == HandOut(Touch(old(Contents()), key), key)
      ensures item == GetLatest(old(Contents()), key)
      ensures key !in old(committedItems.index) ==> Contents().slots[key].Got? && NoData(Contents().slots[key].item, key)
      ensures key in committedItems.entries && committedItems.entries[key] != null
      ensures addr == Some(committedItems.entries[key].base)
    {
      item := GetLatestItem(key);
      addr := committedItems.GetItemAddr(key, pad);
    }
  }
}
