/**
 The bytes behind the slots of the protocol: what a one-sided read may decode to in the state
 machine is what the four copies of a slot update really let it decode to, and a read that is torn
 when items are laid out as msgpack packs them.
 */
module RampBytes {
  import opened Data
  import opened Slot
  import opened Tearing
  import opened Store
  import opened Ramp
  import opened RampSafety
  import opened RampScripts
  import opened RampReads
  import opened RampTears
  import opened RampTornRuns
  import opened RampFractures
  import opened RampLostRuns

  // ---- views and bytes -----------------------------------------------------------------------

  /** The bytes of a slot that holds an item, or that is marked or was never written. */
  ghost predicate Bytes(codec: Codec<Item>, slot: seq<byte>, view: View<Item>)
    requires |slot| == SLOT_SIZE
  {
    if view.Got? then Fits(codec.pack(view.item)) && exists pad: seq<byte> :: |pad| == 8 && Holds(codec, slot, view.item, pad)
    else Quiet(slot)
  }

  /** Some slot of this view reads as `z` at some moment of being overwritten by `x`. */
  ghost predicate Snaps(codec: Codec<Item>, view: View<Item>, x: Item, z: Item) {
    exists slot: seq<byte>, pad: seq<byte>, n: nat :: SnapsAt(codec, slot, pad, n, view, x, z)
  }

  ghost predicate SnapsAt(codec: Codec<Item>, slot: seq<byte>, pad: seq<byte>, n: nat, view: View<Item>, x: Item, z: Item) {
    && |slot| == SLOT_SIZE && |pad| == 8 && Fits(codec.pack(x)) && n <= |Image(codec.pack(x), pad)| + INT_SIZE
    && Bytes(codec, slot, view) && Decode(codec, After(slot, codec.pack(x), pad, n)) == Got(z)
  }

  lemma SnapsOfValidIffMixture(codec: Codec<Item>, y: Item, x: Item, z: Item)
    ensures Snaps(codec, Got(y), x, z) <==> Mixture(codec, y, x, z)
  {
    if Snaps(codec, Got(y), x, z) {
      var slot: seq<byte>, pad: seq<byte>, n: nat :| SnapsAt(codec, slot, pad, n, Got(y), x, z);
      var padOld: seq<byte> :| |padOld| == 8 && Holds(codec, slot, y, padOld);
      assert Shows(codec, slot, pad, padOld, n, y, x, z);
    }
    if Mixture(codec, y, x, z) {
      var slot: seq<byte>, pad: seq<byte>, padOld: seq<byte>, n: nat :| Shows(codec, slot, pad, padOld, n, y, x, z);
      assert Bytes(codec, slot, Got(y));
      assert SnapsAt(codec, slot, pad, n, Got(y), x, z);
    }
  }

  /** From a quiet slot only the new item can be read. */
  lemma SnapsOfQuiet(codec: Codec<Item>, view: View<Item>, x: Item, z: Item)
    requires !view.Got? && Packs(codec, x)
    ensures Snaps(codec, view, x, z) <==> z == x
  {
    if Snaps(codec, view, x, z) {
      var slot: seq<byte>, pad: seq<byte>, n: nat :| SnapsAt(codec, slot, pad, n, view, x, z);
      QuietUpdateIsNeverTorn(codec, slot, x, pad, n);
    }
    if z == x {
      var zeros: seq<byte> := seq(SLOT_SIZE, i => 0);
      var n := |Image(codec.pack(x), NO_PAD)| + INT_SIZE;
      CompleteUpdateDecodes(codec, zeros, x, NO_PAD);
      assert SnapsAt(codec, zeros, NO_PAD, n, view, x, z);
    }
  }

  /** The old item and the new one can always be read, and only they when they are the same. */
  lemma EndsAreMixtures(codec: Codec<Item>, y: Item, x: Item)
    requires Packs(codec, y) && Packs(codec, x)
    ensures Mixture(codec, y, x, y) && Mixture(codec, y, x, x)
  {
    var slot := ValidSlot(codec.pack(y));
    var m, b := Image(codec.pack(y), NO_PAD), codec.pack(x);
    assert slot[..INT_SIZE] == ALL_ZEROS && slot[INT_SIZE..INT_SIZE + |m|] == m;
    HeldItemDecodes(codec, slot, y, NO_PAD);
    assert After(slot, b, NO_PAD, 0) == slot;
    assert Shows(codec, slot, NO_PAD, NO_PAD, 0, y, x, y);
    CompleteUpdateDecodes(codec, slot, x, NO_PAD);
    assert Shows(codec, slot, NO_PAD, NO_PAD, |Image(b, NO_PAD)| + INT_SIZE, y, x, x);
  }

  lemma SameItemNeverMixes(codec: Codec<Item>, y: Item, z: Item)
    requires Packs(codec, y) && Mixture(codec, y, y, z)
    ensures z == y
  {
    EqualLengthsMixtureIff(codec, y, y, z);
    var a := codec.pack(y);
    var j: nat :| j <= |a| && codec.unpack(a[..j] + a[j..]) == Some(z);
    assert a[..j] + a[j..] == a;
  }

  /** The machine's slot reads are exactly those of the bytes, for every serialisation that round-trips. */
  lemma SlotReadsAreByteReads(c: Config, codec: Codec<Item>, st: Store, changing: map<Key, Item>, key: Key, z: Item)
    requires forall a, b, i :: c.mixes(a, b, i) <==> Mixture(codec, a, b, i)
    requires key in st.slots && key in changing && Packs(codec, changing[key])
    requires st.slots[key].Got? ==> Packs(codec, st.slots[key].item)
    ensures SlotShows(c, st, changing, key, z) <==> Snaps(codec, st.slots[key], changing[key], z)
  {
    var x := changing[key];
    if st.slots[key].Got? {
      var y := st.slots[key].item;
      SnapsOfValidIffMixture(codec, y, x, z);
      EndsAreMixtures(codec, y, x);
      if y == x && Mixture(codec, y, x, z) {
        SameItemNeverMixes(codec, y, z);
      }
    } else {
      SnapsOfQuiet(codec, st.slots[key], x, z);
    }
  }

  /** And so they are while nobody is writing the slot. */
  lemma RestingReadsAreByteReads(c: Config, codec: Codec<Item>, st: Store, changing: map<Key, Item>, key: Key, z: Item)
    requires key in st.slots && key !in changing && (st.slots[key].Got? ==> Packs(codec, st.slots[key].item))
    ensures SlotShows(c, st, changing, key, z) <==>
            exists slot: seq<byte> :: |slot| == SLOT_SIZE && Bytes(codec, slot, st.slots[key]) && Decode(codec, slot) == Got(z)
  {
    var view := st.slots[key];
    forall slot: seq<byte> | |slot| == SLOT_SIZE && Bytes(codec, slot, view)
      ensures Decode(codec, slot) == Got(z) <==> view == Got(z)
    {
      if view.Got? {
        var pad: seq<byte> :| |pad| == 8 && Holds(codec, slot, view.item, pad);
        HeldItemDecodes(codec, slot, view.item, pad);
      }
    }
    if view.Got? {
      var slot, m := ValidSlot(codec.pack(view.item)), Image(codec.pack(view.item), NO_PAD);
      assert slot[..INT_SIZE] == ALL_ZEROS && slot[INT_SIZE..INT_SIZE + |m|] == m;
      assert Bytes(codec, slot, view);
    }
  }

  // ---- items as msgpack packs them ---------------------------------------------------------------

  /**
   Items with a key, a field and a value of one character each, and two siblings of one character;
   seconds and microseconds have more than two bytes and at most four.
   */
  datatype Small = Small(key: char, field: char, value: char, ts: Timestamp, low: char, high: char)

  predicate IsAscii(ch: char) {
    ch as int < 128
  }

  predicate IsWord(n: int) {
    65536 <= n < 0x1_0000_0000
  }

  predicate ValidSmall(sm: Small) {
    && IsAscii(sm.key) && IsAscii(sm.field) && IsAscii(sm.value) && IsAscii(sm.low) && IsAscii(sm.high)
    && IsWord(sm.ts.sec) && IsWord(sm.ts.usec) && sm.low < sm.high
  }

  function ItemFrom(sm: Small): Item {
    Item([sm.key], map[[sm.field] := [sm.value]], sm.ts, {[sm.low], [sm.high]})
  }

  /** A 16-bit number, and a 32-bit number, most significant byte first. */
  function Half(n: int): (b: seq<byte>)
    requires 0 <= n < 65536
    ensures |b| == 2
  {
    [n / 256, n % 256]
  }

  function Word(n: int): (b: seq<byte>)
    requires 0 <= n < 0x1_0000_0000
    ensures |b| == 4
  {
    Half(n / 65536) + Half(n % 65536)
  }

  function HalfAt(b: seq<byte>, i: nat): int
    requires i + 2 <= |b|
  {
    var high: int, low: int := b[i], b[i + 1];
    high * 256 + low
  }

  function WordAt(b: seq<byte>, i: nat): int
    requires i + 4 <= |b|
  {
    HalfAt(b, i) * 65536 + HalfAt(b, i + 2)
  }

  lemma HalfRoundTrip(b: seq<byte>, i: nat, n: int)
    requires 0 <= n < 65536 && i + 2 <= |b| && b[i..i + 2] == Half(n)
    ensures HalfAt(b, i) == n
  {
    assert b[i] == b[i..i + 2][0] && b[i + 1] == b[i..i + 2][1];
  }

  lemma WordRoundTrip(b: seq<byte>, i: nat, n: int)
    requires 0 <= n < 0x1_0000_0000 && i + 4 <= |b| && b[i..i + 4] == Word(n)
    ensures WordAt(b, i) == n
  {
    assert b[i..i + 2] == b[i..i + 4][..2] == Half(n / 65536);
    assert b[i + 2..i + 4] == b[i..i + 4][2..] == Half(n % 65536);
    HalfRoundTrip(b, i, n / 65536);
    HalfRoundTrip(b, i + 2, n % 65536);
  }

  /** An array of four: the key, a map of one entry, an array of two numbers, an array of two keys. */
  function BodyOf(sm: Small): (b: seq<byte>)
    requires ValidSmall(sm)
    ensures |b| == 25
  {
    [0x94, 0xa1, sm.key as int, 0x81, 0xa1, sm.field as int, 0xc4, 1, sm.value as int]
    + [0x92, 0xce] + Word(sm.ts.sec) + [0xce] + Word(sm.ts.usec)
    + [0x92, 0xa1, sm.low as int, 0xa1, sm.high as int]
  }

  // the formats of msgpack that occur, each for all that it can hold

  function Ascii(s: string): (b: seq<byte>)
    requires forall i :: 0 <= i < |s| ==> IsAscii(s[i])
    ensures |b| == |s| && forall i :: 0 <= i < |s| ==> b[i] == s[i] as int
  {
    if s == [] then []
    else
      assert IsAscii(s[0]);
      var first: byte := s[0] as int;
      [first] + Ascii(s[1..])
  }

  function FixStr(s: string): (b: seq<byte>)
    requires |s| < 32 && forall i :: 0 <= i < |s| ==> IsAscii(s[i])
  {
    [0xa0 + |s|] + Ascii(s)
  }

  function Bin8(s: string): (b: seq<byte>)
    requires |s| < 256 && forall i :: 0 <= i < |s| ==> IsAscii(s[i])
  {
    [0xc4, |s|] + Ascii(s)
  }

  function Uint32(n: int): (b: seq<byte>)
    requires 0 <= n < 0x1_0000_0000
  {
    [0xce] + Word(n)
  }

  function Concat(parts: seq<seq<byte>>): (b: seq<byte>) {
    if parts == [] then [] else parts[0] + Concat(parts[1..])
  }

  function FixArray(elements: seq<seq<byte>>): (b: seq<byte>)
    requires |elements| < 16
  {
    [0x90 + |elements|] + Concat(elements)
  }

  function FixMap(entries: seq<(seq<byte>, seq<byte>)>): (b: seq<byte>)
    requires |entries| < 16
  {
    [0x80 + |entries|] + Concat(seq(|entries|, i requires 0 <= i < |entries| => entries[i].0 + entries[i].1))
  }

  /** The body is put together from these formats, field by field. */
  lemma BodyIsMsgpack(sm: Small)
    requires ValidSmall(sm)
    ensures BodyOf(sm)
         == FixArray([FixStr([sm.key]), FixMap([(FixStr([sm.field]), Bin8([sm.value]))]),
                      FixArray([Uint32(sm.ts.sec), Uint32(sm.ts.usec)]), FixArray([FixStr([sm.low]), FixStr([sm.high])])])
  {
    var key, fields := FixStr([sm.key]), FixMap([(FixStr([sm.field]), Bin8([sm.value]))]);
    var time, siblings := FixArray([Uint32(sm.ts.sec), Uint32(sm.ts.usec)]), FixArray([FixStr([sm.low]), FixStr([sm.high])]);
    assert key == [0xa1, sm.key as int];
    OneEntry(FixStr([sm.field]), Bin8([sm.value]));
    TwoParts(Uint32(sm.ts.sec), Uint32(sm.ts.usec));
    TwoParts(FixStr([sm.low]), FixStr([sm.high]));
    FourParts(key, fields, time, siblings);
  }

  lemma OneEntry(name: seq<byte>, value: seq<byte>)
    ensures FixMap([(name, value)]) == [0x81] + name + value
  {
    var entries := [(name, value)];
    assert seq(|entries|, i requires 0 <= i < |entries| => entries[i].0 + entries[i].1) == [name + value];
    OnePart(name + value);
  }

  lemma OnePart(a: seq<byte>)
    ensures Concat([a]) == a
  {
    assert [a][1..] == [];
  }

  lemma TwoParts(a: seq<byte>, b: seq<byte>)
    ensures Concat([a, b]) == a + b
  {
    assert [a, b][1..] == [b];
    OnePart(b);
  }

  lemma FourParts(a: seq<byte>, b: seq<byte>, c: seq<byte>, d: seq<byte>)
    ensures Concat([a, b, c, d]) == a + b + c + d
  {
    assert [a, b, c, d][1..] == [b, c, d] && [b, c, d][1..] == [c, d];
    TwoParts(c, d);
  }

  /** Words are written most significant byte first: they compare as their numbers do. */
  lemma WordsAscend(m: int, n: int) returns (i: nat)
    requires 0 <= m < n < 0x1_0000_0000
    ensures i < 4 && Word(m)[..i] == Word(n)[..i] && Word(m)[i] < Word(n)[i]
  {
    if m / 65536 < n / 65536 {
      i := HalvesAscend(m / 65536, n / 65536);
      assert Word(m)[..i] == Half(m / 65536)[..i] && Word(n)[..i] == Half(n / 65536)[..i];
    } else {
      i := HalvesAscend(m % 65536, n % 65536);
      assert Word(m)[..2 + i] == Half(m / 65536) + Half(m % 65536)[..i] && Word(n)[..2 + i] == Half(n / 65536) + Half(n % 65536)[..i];
      i := 2 + i;
    }
  }

  lemma HalvesAscend(m: int, n: int) returns (i: nat)
    requires 0 <= m < n < 65536
    ensures i < 2 && Half(m)[..i] == Half(n)[..i] && Half(m)[i] < Half(n)[i]
  {
    i := if m / 256 < n / 256 then 0 else 1;
  }

  /** Where the siblings begin. */
  const SIBLINGS := 20

  predicate HasTags(b: seq<byte>) {
    && |b| == 25 && b[0] == 0x94 && b[1] == 0xa1 && b[3] == 0x81 && b[4] == 0xa1 && b[6] == 0xc4 && b[7] == 1
    && b[9] == 0x92 && b[10] == 0xce && b[15] == 0xce && b[20] == 0x92 && b[21] == 0xa1 && b[23] == 0xa1
  }

  /** What the tags of such a body say, whatever the bytes between them. */
  function Unpack(b: seq<byte>): Option<Item> {
    if HasTags(b) then
      Some(ItemFrom(Small(b[2] as char, b[5] as char, b[8] as char, Timestamp(WordAt(b, 11), WordAt(b, 16)), b[22] as char, b[24] as char)))
    else None
  }

  ghost predicate IsSmall(item: Item) {
    exists sm :: ValidSmall(sm) && ItemFrom(sm) == item
  }

  ghost function Pack(item: Item): (b: seq<byte>) {
    if IsSmall(item) then
      var sm :| ValidSmall(sm) && ItemFrom(sm) == item;
      BodyOf(sm)
    else []
  }

  ghost function MsgpackCodec(): Codec<Item> {
    Codec(Pack, Unpack)
  }

  lemma BodyRoundTrip(sm: Small)
    requires ValidSmall(sm)
    ensures Unpack(BodyOf(sm)) == Some(ItemFrom(sm))
  {
    var b := BodyOf(sm);
    assert b[11..15] == Word(sm.ts.sec) && b[16..20] == Word(sm.ts.usec);
    WordRoundTrip(b, 11, sm.ts.sec);
    WordRoundTrip(b, 16, sm.ts.usec);
  }

  /** The fields of an item can be told apart, so there is only one body for it. */
  lemma OneSmall(a: Small, b: Small)
    requires ValidSmall(a) && ValidSmall(b) && ItemFrom(a) == ItemFrom(b)
    ensures a == b
  {
    var i, j := ItemFrom(a), ItemFrom(b);
    assert i.key[0] == j.key[0];
    assert [a.field] in i.values && [a.field] in j.values;
    assert [a.field][0] == [b.field][0] && i.values[[a.field]][0] == j.values[[b.field]][0];
    assert [a.low] in j.trxKeys && [a.high] in j.trxKeys;
    assert [a.low][0] in {b.low, b.high} && [a.high][0] in {b.low, b.high};
  }

  /** All these items pack and unpack. */
  lemma SmallPacks(sm: Small)
    requires ValidSmall(sm)
    ensures Pack(ItemFrom(sm)) == BodyOf(sm) && Packs(MsgpackCodec(), ItemFrom(sm))
  {
    var item := ItemFrom(sm);
    assert IsSmall(item);
    var other :| ValidSmall(other) && ItemFrom(other) == item && Pack(item) == BodyOf(other);
    OneSmall(other, sm);
    BodyRoundTrip(sm);
  }

  /** A snapshot in which the timestamp has been copied and the siblings have not. */
  lemma CutBeforeSiblings(y: Small, x: Small)
    requires ValidSmall(y) && ValidSmall(x)
    ensures var z := x.(low := y.low, high := y.high);
            Unpack(BodyOf(x)[..SIBLINGS] + BodyOf(y)[SIBLINGS..]) == Some(ItemFrom(z)) && Mixture(MsgpackCodec(), ItemFrom(y), ItemFrom(x), ItemFrom(z))
  {
    var z := x.(low := y.low, high := y.high);
    SmallPacks(y);
    SmallPacks(x);
    assert BodyOf(x)[..SIBLINGS] + BodyOf(y)[SIBLINGS..] == BodyOf(z);
    BodyRoundTrip(z);
    EqualLengthsMixtureIff(MsgpackCodec(), ItemFrom(y), ItemFrom(x), ItemFrom(z));
  }

  // ---- a torn read ---------------------------------------------------------------------------------

  const X: Key := "x"
  const Y: Key := "y"
  const T1 := Timestamp(1400000000, 500000)
  const T2 := Timestamp(1400000001, 500000)

  /** T1 writes `x` and `y`, and T2 writes `x` and `z`; a snapshot shows T2's item with T1's siblings. */
  const OLD_SMALL := Small("x"[0], "f"[0], "a"[0], T1, "x"[0], "y"[0])
  const NEW_SMALL := Small("x"[0], "f"[0], "b"[0], T2, "x"[0], "z"[0])
  const OLD: Item := ItemFrom(OLD_SMALL)
  const NEW: Item := ItemFrom(NEW_SMALL)
  const TORN: Item := ItemFrom(NEW_SMALL.(high := "y"[0]))

  lemma TornIsMixture()
    ensures Mixture(MsgpackCodec(), OLD, NEW, TORN)
  {
    CutBeforeSiblings(OLD_SMALL, NEW_SMALL);
    assert NEW_SMALL.(low := OLD_SMALL.low, high := OLD_SMALL.high) == NEW_SMALL.(high := "y"[0]);
  }

  lemma TheyMeet(c: Config)
    ensures Overwrites(c, X, OLD, NEW) && Y in Others(TORN, X) && Misnames(OLD, NEW, TORN, Y)
  {
    assert "x" in OLD.trxKeys && "x" in NEW.trxKeys && "y" in TORN.trxKeys && "z" in NEW.trxKeys;
    assert OLD.trxKeys == {"x", "y"} && NEW.trxKeys == {"x", "z"} && TORN.trxKeys == {"x", "y"};
  }

  lemma TornIsForged(s: State)
    requires s.writers.Keys == {T1, T2} && s.writers[T2].writes == WritesOf(NEW)
    ensures !Genuine(s, X, TORN)
  {
    assert Y in TORN.trxKeys && Y !in NEW.trxKeys by {
      assert "y"[0] != "x"[0] && "y"[0] != "z"[0];
    }
  }

  lemma HalfSeen()
    ensures !Unfractured(map[X := TORN, Y := EMPTY_ITEM])
  {
    var items := map[X := TORN, Y := EMPTY_ITEM];
    assert items[X] == TORN && items[Y] == EMPTY_ITEM && Y in items[X].trxKeys;
  }

  /**
   On any servers, and with or without exclusive commits, a read of both keys can end up with an item
   that nobody wrote, and with a transaction of which it sees only half.
   */
  lemma TornReadOfBytes(c: Config) returns (s: State)
    requires ValidConfig(c) && forall a, b, i :: c.mixes(a, b, i) <==> Mixture(MsgpackCodec(), a, b, i)
    ensures Reachable(c, s) && 0 in s.readers && s.readers[0].phase == Finished
    ensures s.readers[0].result == map[X := TORN, Y := EMPTY_ITEM]
    ensures !Genuine(s, X, TORN) && !Unfractured(s.readers[0].result)
  {
    TornIsMixture();
    TheyMeet(c);
    assert c.mixes(OLD, NEW, TORN);
    var s0 := OverwritingIsReachable(c, X, OLD, NEW);
    ReachableInv(c, s0);
    NothingUnder(c, s0, X, OLD, NEW, TORN, Y);
    s := SiblingGoesEmpty(c, s0, X, OLD, NEW, TORN, Y, EMPTY_ITEM);
    TornIsForged(s);
    HalfSeen();
  }

  /**
   With exclusive commits, where nothing else can go wrong, such a read misses a write besides: T1 had
   returned before it began, and wrote `y`.
   */
  lemma LostWriteOfBytes(c: Config) returns (s: State)
    requires ValidConfig(c) && c.exclusive && forall a, b, i :: c.mixes(a, b, i) <==> Mixture(MsgpackCodec(), a, b, i)
    ensures Lost(c, s, T1, Y) && s.readers[0].result == map[X := TORN, Y := EMPTY_ITEM]
    ensures !Genuine(s, X, TORN) && !Unfractured(s.readers[0].result)
  {
    TornIsMixture();
    TheyMeet(c);
    assert c.mixes(OLD, NEW, TORN);
    s := HidesSiblingOfOld(c, X, OLD, NEW, TORN, Y);
    TornIsForged(s);
    HalfSeen();
  }
}
