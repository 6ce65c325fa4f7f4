/** The cache of committed items: 1000 slots carved out of one block and handed to keys on demand. */
module CommittedItems {
  import opened Sets
  import opened Data
  import opened Slot
  import opened Entry
  import opened Store

  const ENTRY_NUM := 1000
  const CACHE_SIZE := 2560000      // ENTRY_NUM slots of SLOT_SIZE bytes

  // ---- the block as a value: which slot holds what ---------------------------------------

  function SlotAt(block: seq<byte>, i: nat): (s: seq<byte>)
    requires |block| == CACHE_SIZE && i < ENTRY_NUM
    ensures |s| == SLOT_SIZE
  {
    block[2560 * i..2560 * i + SLOT_SIZE]
  }

  /** Between operations a slot decodes to an item, or is quiet; it waits only if never written. */
  predicate Settled(c: Codec<Item>, slot: seq<byte>)
    requires |slot| == SLOT_SIZE
  {
    Decode(c, slot).Got?
    || (Quiet(slot) && Decode(c, slot) == if IsZeroWord(slot, INT_SIZE + FLAG_OFFSET) then Waiting else Rejected)
  }

  /** The first `used` slots have owners, the rest are as the allocator left them. */
  predicate Laid(c: Codec<Item>, block: seq<byte>, used: nat)
    requires |block| == CACHE_SIZE && used <= ENTRY_NUM
  {
    && (forall i :: 0 <= i < used ==> Settled(c, SlotAt(block, i)))
    && (forall i :: used <= i < ENTRY_NUM ==> Zeroed(SlotAt(block, i)))
  }

  /** Distinct keys own distinct slots, and together they own exactly the first `|index|`. */
  predicate Owned(index: map<Key, nat>, used: nat) {
    && |index| == used
    && (forall k :: k in index ==> index[k] < used)
    && (forall k, l :: k in index && l in index && k != l ==> index[k] != index[l])
  }

  function SlotViews(c: Codec<Item>, block: seq<byte>): (v: seq<View<Item>>)
    requires |block| == CACHE_SIZE
    ensures |v| == ENTRY_NUM
  {
    seq(ENTRY_NUM, i requires 0 <= i < ENTRY_NUM => Decode(c, SlotAt(block, i)))
  }

  function ViewsOf(views: seq<View<Item>>, index: map<Key, nat>): (v: map<Key, View<Item>>)
    requires forall k :: k in index ==> index[k] < |views|
    ensures v.Keys == index.Keys
  {
    map k | k in index :: views[index[k]]
  }

  /** Rewriting one slot leaves every other slot's bytes alone. */
  lemma OtherSlots(before: seq<byte>, after: seq<byte>, i: nat)
    requires |before| == |after| == CACHE_SIZE && i < ENTRY_NUM
    requires after[..2560 * i] == before[..2560 * i]
    requires after[2560 * i + SLOT_SIZE..] == before[2560 * i + SLOT_SIZE..]
    ensures forall j :: 0 <= j < ENTRY_NUM && j != i ==> SlotAt(after, j) == SlotAt(before, j)
  {
    forall j | 0 <= j < ENTRY_NUM && j != i
      ensures SlotAt(after, j) == SlotAt(before, j)
    {
      if j < i {
        SameBelow(before, after, 2560 * i, 2560 * j);
      } else {
        SameAbove(before, after, 2560 * i + SLOT_SIZE, 2560 * j);
      }
    }
  }

  lemma SameBelow(before: seq<byte>, after: seq<byte>, cut: nat, at: nat)
    requires |before| == |after| && at + SLOT_SIZE <= cut <= |before| && after[..cut] == before[..cut]
    ensures after[at..at + SLOT_SIZE] == before[at..at + SLOT_SIZE]
  {
    assert after[at..at + SLOT_SIZE] == after[..cut][at..at + SLOT_SIZE];
    assert before[at..at + SLOT_SIZE] == before[..cut][at..at + SLOT_SIZE];
  }

  lemma SameAbove(before: seq<byte>, after: seq<byte>, cut: nat, at: nat)
    requires |before| == |after| && cut <= at && at + SLOT_SIZE <= |before| && after[cut..] == before[cut..]
    ensures after[at..at + SLOT_SIZE] == before[at..at + SLOT_SIZE]
  {
    forall x | at <= x < at + SLOT_SIZE
      ensures after[x] == before[x]
    {
      assert after[x] == after[cut..][x - cut] && before[x] == before[cut..][x - cut];
    }
  }

  /** A slot just taken from the pool waits for its first message. */
  lemma ZeroedIsSettled(c: Codec<Item>, slot: seq<byte>)
    requires |slot| == SLOT_SIZE && Zeroed(slot)
    ensures Settled(c, slot) && Decode(c, slot) == Waiting
  {
  }

  lemma InvalidatedIsSettled(c: Codec<Item>, slot: seq<byte>)
    requires |slot| == SLOT_SIZE && Settled(c, slot)
    ensures Settled(c, Invalidated(slot))
    ensures Decode(c, Invalidated(slot)) == if Decode(c, slot).Waiting? then Waiting else Rejected
  {
    DecodeInvalidated(c, slot);
  }

  lemma TakeKeepsOwned(index: map<Key, nat>, used: nat, key: Key)
    requires Owned(index, used) && key !in index
    ensures Owned(index[key := used], used + 1)
  {
    var index' := index[key := used];
    assert index'.Keys == index.Keys + {key};
    assert |index'| == |index'.Keys| && |index| == |index.Keys|;
  }

  lemma TakeKeepsLaid(c: Codec<Item>, block: seq<byte>, used: nat)
    requires |block| == CACHE_SIZE && used < ENTRY_NUM && Laid(c, block, used)
    ensures Laid(c, block, used + 1)
    ensures SlotViews(c, block)[used] == Waiting
  {
    ZeroedIsSettled(c, SlotAt(block, used));
  }

  lemma RewriteKeepsLaid(c: Codec<Item>, before: seq<byte>, after: seq<byte>, i: nat, used: nat)
    requires |before| == |after| == CACHE_SIZE && i < used <= ENTRY_NUM && Laid(c, before, used)
    requires after[..2560 * i] == before[..2560 * i]
    requires after[2560 * i + SLOT_SIZE..] == before[2560 * i + SLOT_SIZE..]
    requires Settled(c, SlotAt(after, i))
    ensures Laid(c, after, used)
    ensures SlotViews(c, after) == SlotViews(c, before)[i := Decode(c, SlotAt(after, i))]
  {
    OtherSlots(before, after, i);
  }

  /** Writing to the next unused slot before anyone owns it. */
  lemma FillKeepsLaid(c: Codec<Item>, before: seq<byte>, after: seq<byte>, used: nat)
    requires |before| == |after| == CACHE_SIZE && used < ENTRY_NUM && Laid(c, before, used)
    requires after[..2560 * used] == before[..2560 * used]
    requires after[2560 * used + SLOT_SIZE..] == before[2560 * used + SLOT_SIZE..]
    requires Settled(c, SlotAt(after, used))
    ensures Laid(c, after, used + 1)
    ensures SlotViews(c, after) == SlotViews(c, before)[used := Decode(c, SlotAt(after, used))]
  {
    OtherSlots(before, after, used);
  }

  lemma TakeOneView(views: seq<View<Item>>, index: map<Key, nat>, key: Key, i: nat)
    requires i < |views| && forall k :: k in index ==> index[k] < |views|
    ensures ViewsOf(views, index[key := i]) == ViewsOf(views, index)[key := views[i]]
  {
  }

  lemma FillOneView(views: seq<View<Item>>, index: map<Key, nat>, key: Key, i: nat, view: View<Item>)
    requires i < |views| && forall k :: k in index ==> index[k] < i
    ensures ViewsOf(views[i := view], index[key := i]) == ViewsOf(views, index)[key := view]
  {
  }

  /** Rewriting the slot of one key changes what that key's readers see and nothing else. */
  lemma RewriteOneView(views: seq<View<Item>>, index: map<Key, nat>, key: Key, view: View<Item>)
    requires Owned(index, |index|) && |index| <= |views| && key in index
    ensures ViewsOf(views[index[key] := view], index) == ViewsOf(views, index)[key := view]
  {
  }

  /** No snapshot among these decodes to anything but "not yet" or the new item. */
  predicate NeverTorn(c: Codec<Item>, snapshots: seq<seq<byte>>, item: Item) {
    forall i :: 0 <= i < |snapshots| ==>
      |snapshots[i]| == SLOT_SIZE && (Decode(c, snapshots[i]) == Got(item) || Decode(c, snapshots[i]) in {Waiting, Rejected})
  }

  lemma QuietRewriteIsNeverTorn(c: Codec<Item>, slot: seq<byte>, item: Item, pad: seq<byte>)
    requires |slot| == SLOT_SIZE && |pad| == 8 && Packs(c, item) && Settled(c, slot)
    ensures !Decode(c, slot).Got? ==> NeverTorn(c, Updating(slot, c.pack(item), pad), item)
  {
    if !Decode(c, slot).Got? {
      QuietUpdateIsSafe(c, slot, item, pad);
    }
  }

  // ---- the class -------------------------------------------------------------------------

  class CommittedItems {
    const codec: Codec<Item>
    const mem: array<byte>

    /** A key maps to null when it arrived after the last slot had been taken. */
    var entries: map<Key, Entry?>
    var unused: seq<Entry>

    ghost const carved: seq<Entry>       // all slots, by address
    ghost var used: nat                  // how many of them have been taken
    ghost var index: map<Key, nat>       // which of them each key owns

    ghost predicate Carved() {
      && mem.Length == CACHE_SIZE
      && |carved| == ENTRY_NUM
      && (forall i :: 0 <= i < ENTRY_NUM ==> carved[i].mem == mem && carved[i].base == 2560 * i)
    }

    /** Slots and keys: who owns what, and what is left. */
    ghost predicate Pool()
      reads this
    {
      && Carved()
      && Owned(index, used)
      && used + |unused| == ENTRY_NUM
      && (forall j :: 0 <= j < |unused| ==> unused[j] == carved[used + j])
      && (forall k :: k in index ==> k in entries && entries[k] == carved[index[k]])
      && (forall k :: k in entries && k !in index ==> entries[k] == null && unused == [])
    }

    ghost predicate Valid()
      reads this, mem
    {
      Pool() && Laid(codec, mem[..], used)
    }

    /** What a one-sided read of each key's slot would decode to. */
    ghost function Views(): (v: map<Key, View<Item>>)
      requires Valid()
      reads this, mem
      ensures v.Keys == index.Keys
    {
      ViewsOf(SlotViews(codec, mem[..]), index)
    }

    constructor (codec: Codec<Item>)
      ensures Valid() && entries == map[] && Views() == map[]
      ensures this.codec == codec && fresh(mem) && fresh(carved)
    {
      this.codec := codec;
      var block := new byte[CACHE_SIZE](i => 0);
      var pool: seq<Entry> := [];
      for i := 0 to ENTRY_NUM
        invariant |pool| == i && fresh(pool)
        invariant forall j :: 0 <= j < CACHE_SIZE ==> block[j] == 0
        invariant forall j :: 0 <= j < i ==> pool[j].mem == block && pool[j].base == 2560 * j
      {
        var entry := new Entry(block, 2560 * i);
        pool := pool + [entry];
      }
      mem := block;
      unused := pool;
      carved := pool;
      entries := map[];
      index := map[];
      used := 0;
      new;
      assert forall i :: 0 <= i < CACHE_SIZE ==> mem[..][i] == 0;
      assert forall i :: 0 <= i < ENTRY_NUM ==> Zeroed(SlotAt(mem[..], i));
    }

    /** Moves the first unused slot to a key that has none. */
    method Take(key: Key)
      requires Pool() && unused != [] && key !in index
      modifies this`entries, this`unused, this`index, this`used
      ensures Pool() && unused == old(unused)[1..] && used == old(used) + 1
      ensures index == old(index)[key := old(used)] && entries == old(entries)[key := old(unused)[0]]
    {
      TakeKeepsOwned(index, used, key);
      entries := entries[key := unused[0]];
      unused := unused[1..];
      index := index[key := used];
      used := used + 1;
      assert forall j :: 0 <= j < |unused| ==> unused[j] == old(unused)[j + 1];
    }

    /** Marks the slot a key already has. */
    method Mark(key: Key)
      requires Valid() && key in index
      modifies mem, carved
      ensures Valid()
      ensures Views() == InvalidateSlot(old(Views()), key)
    {
      ghost var i, before := index[key], mem[..];
      entries[key].Invalidate();
      ghost var after := mem[..];
      assert after[..2560 * i] == before[..2560 * i];
      assert after[2560 * i + SLOT_SIZE..] == before[2560 * i + SLOT_SIZE..];
      InvalidatedIsSettled(codec, SlotAt(before, i));
      RewriteKeepsLaid(codec, before, after, i, used);
      RewriteOneView(SlotViews(codec, before), index, key, Decode(codec, SlotAt(after, i)));
    }

    /** A slot taken by an invalidation is still all zeros: its readers will wait. */
    method TakeZeroed(key: Key)
      requires Valid() && unused != [] && key !in entries
      modifies this`entries, this`unused, this`index, this`used
      ensures Valid() && index == old(index)[key := old(used)] && entries == old(entries)[key := old(unused)[0]]
      ensures Views() == InvalidateSlot(old(Views()), key)
    {
      ghost var block := mem[..];
      TakeKeepsLaid(codec, block, used);
      TakeOneView(SlotViews(codec, block), index, key, used);
      Take(key);
      assert mem[..] == block;
    }

    /** The pool is exhausted: the key is recorded without a slot. */
    method Starve(key: Key)
      requires Valid() && unused == [] && key !in entries
      modifies this`entries
      ensures Valid() && Views() == old(Views())
      ensures entries == old(entries)[key := null]
    {
      entries := entries[key := null];
      assert mem[..] == old(mem[..]);
    }

    /** A key seen for the first time gets a slot, if there is one left. */
    method Admit(key: Key)
      requires Valid() && key !in entries
      modifies this`entries, this`unused, this`index, this`used
      ensures Valid() && (forall k :: k in old(index) ==> k in index)
      ensures old(unused) != [] ==> Views() == InvalidateSlot(old(Views()), key) && key in index
      ensures old(unused) == [] ==> Views() == old(Views())
      ensures key in entries && entries == old(entries)[key := entries[key]] && (entries[key] == null <==> old(unused) == [])
    {
      if unused != [] {
        TakeZeroed(key);
      } else {
        Starve(key);
      }
    }

    method Invalidate(key: Key)
      requires Valid() && (key in entries ==> entries[key] != null)
      modifies this`entries, this`unused, this`index, this`used, mem, carved
      ensures Valid()
      ensures key in old(entries) || old(unused) != [] ==>
                && Views() == InvalidateSlot(old(Views()), key)
                && key in entries && entries[key] != null && key in index
      ensures key !in old(entries) && old(unused) == [] ==>
                && Views() == old(Views())
                && key in entries && entries[key] == null
      ensures entries == if key in old(entries) then old(entries) else old(entries)[key := entries[key]]
      ensures forall k :: k in old(index) ==> k in index
    {
      ghost var views := Views();
      if key !in entries {
        Admit(key);
      } else {
        assert key in index;
        Mark(key);
        assert Views() == InvalidateSlot(views, key);
      }
    }

    /** Rewrites one carved slot; every other byte of the block stays. */
    method RewriteSlot(e: Entry, ghost i: nat, item: Item, pad: seq<byte>)
      requires Carved() && i < ENTRY_NUM && e == carved[i] && |pad| == 8 && Packs(codec, item)
      modifies mem, carved
      ensures mem[..2560 * i] == old(mem[..2560 * i]) && mem[2560 * i + SLOT_SIZE..] == old(mem[2560 * i + SLOT_SIZE..])
      ensures var slot, body := SlotAt(old(mem[..]), i), codec.pack(item);
              && SlotAt(mem[..], i) == After(slot, body, pad, |Image(body, pad)| + INT_SIZE)
              && e.history == old(e.history) + Updating(slot, body, pad)
    {
      assert e.Bytes() == SlotAt(mem[..], i);
      e.Update(codec, item, pad);
      assert e.Bytes() == SlotAt(mem[..], i);
    }

    /** Rewrites the slot a key already has; no reader sees a mixture if the slot was not valid. */
    method Rewrite(item: Item, pad: seq<byte>)
      requires Valid() && item.key in index && |pad| == 8 && Packs(codec, item)
      modifies mem, carved
      ensures Valid()
      ensures Views() == UpdateSlot(old(Views()), item)
      ensures var e := entries[item.key];
              && old(e.history) <= e.history
              && (!old(Views())[item.key].Got? ==> NeverTorn(codec, e.history[|old(e.history)|..], item))
    {
      ghost var i, before := index[item.key], mem[..];
      ghost var slot := SlotAt(before, i);
      RewriteSlot(entries[item.key], i, item, pad);
      ghost var after := mem[..];
      assert after[..2560 * i] == before[..2560 * i] && after[2560 * i + SLOT_SIZE..] == before[2560 * i + SLOT_SIZE..];
      CompleteUpdateDecodes(codec, slot, item, pad);
      QuietRewriteIsNeverTorn(codec, slot, item, pad);
      RewriteKeepsLaid(codec, before, after, i, used);
      RewriteOneView(SlotViews(codec, before), index, item.key, Got(item));
    }

    /** A commit rewrites the key's slot; for a key without a slot it is only logged. */
    method Update(item: Item, pad: seq<byte>)
      requires Valid() && |pad| == 8 && Packs(codec, item)
      requires item.key in entries ==> entries[item.key] != null
      modifies mem, carved
      ensures Valid()
      ensures Views() == UpdateSlot(old(Views()), item)
    {
      if item.key in entries {
        Rewrite(item, pad);
      }
    }

    /** Pops a slot, writes the initial item, and only then lets the key own it. */
    method TakeFilled(key: Key, pad: seq<byte>)
      requires Valid() && unused != [] && key !in entries && |pad| == 8 && Packs(codec, InitialItem(key))
      modifies this`entries, this`unused, this`index, this`used, mem, carved
      ensures Valid() && index == old(index)[key := old(used)] && entries == old(entries)[key := old(unused)[0]]
      ensures Views() == HandOutSlot(old(Views()), key)
    {
      ghost var i, before := used, mem[..];
      RewriteSlot(unused[0], i, InitialItem(key), pad);
      ghost var after := mem[..];
      assert after[..2560 * i] == before[..2560 * i] && after[2560 * i + SLOT_SIZE..] == before[2560 * i + SLOT_SIZE..];
      CompleteUpdateDecodes(codec, SlotAt(before, i), InitialItem(key), pad);
      FillKeepsLaid(codec, before, after, i);
      FillOneView(SlotViews(codec, before), index, key, i, Got(InitialItem(key)));
      Take(key);
      assert mem[..] == after;
    }

    /** The address handed to a client; asking for a key when no slot is left fails. */
    method GetItemAddr(key: Key, pad: seq<byte>) returns (addr: Option<nat>)
      requires Valid() && |pad| == 8 && Packs(codec, InitialItem(key))
      requires key in entries ==> entries[key] != null
      modifies this`entries, this`unused, this`index, this`used, mem, carved
      ensures Valid()
      ensures addr.None? <==> key !in old(entries) && old(unused) == []
      ensures addr.None? ==> Views() == old(Views()) && entries == old(entries)
      ensures addr.Some? ==>
                && Views() == HandOutSlot(old(Views()), key)
                && (key !in old(entries) ==> Views()[key].Got? && NoData(Views()[key].item, key))
                && key in entries && entries[key] != null && addr == Some(entries[key].base)
                && entries == if key in old(entries) then old(entries) else old(entries)[key := entries[key]]
    {
      if key !in entries {
        if unused != [] {
          TakeFilled(key, pad);
        }
      }
      addr := if key in entries then Some(entries[key].base) else None;
    }

    /** Two keys' slots never overlap and lie inside the block that clients may read. */
    lemma AddressesAreDisjoint(k: Key, l: Key)
      requires Valid() && k in entries && l in entries && k != l
      requires entries[k] != null && entries[l] != null
      ensures entries[k].base + SLOT_SIZE <= entries[l].base || entries[l].base + SLOT_SIZE <= entries[k].base
      ensures entries[k].base + SLOT_SIZE <= mem.Length && entries[k].base % SLOT_SIZE == 0
    {
    }

    /** Every slot is in use or in the pool, and only the 1001st key goes without. */
    lemma SlotsAreConserved()
      requires Valid()
      ensures |set k | k in entries && entries[k] != null| + |unused| == ENTRY_NUM
      ensures |entries| <= ENTRY_NUM ==> forall k :: k in entries ==> entries[k] != null
    {
      assert (set k | k in entries && entries[k] != null) == index.Keys;
      if k :| k in entries && entries[k] == null {
        assert index.Keys <= entries.Keys - {k};
        SubsetSize(index.Keys, entries.Keys - {k});
        assert |entries.Keys| == |entries|;
      }
    }
  }
}
