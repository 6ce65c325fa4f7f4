/**
 The bytes of one cache slot: how the server's `Entry` overwrites them and what a one-sided
 reader makes of a snapshot taken at any moment. The payload type and its serialisation are
 parameters, since the program leaves serialisation to a library.
 */
module Slot {

  type byte = x: int | 0 <= x < 256

  datatype Option<+T> = None | Some(value: T)

  datatype Codec<!T> = Codec(pack: T -> seq<byte>, unpack: seq<byte> -> Option<T>)

  /** What a one-sided reader gets out of a slot. */
  datatype View<+T> =
    | Waiting         // an arrival flag is still zero: the reader keeps polling
    | Rejected        // marked invalid, or not decodable: the reader asks the server
    | Got(item: T)
    | Overrun         // the announced body does not fit into the packet

  const SLOT_SIZE := 2560
  const INT_SIZE := 4
  const HEADER_SIZE := 24        // type, padding, body size, arrival flag, padding
  const SIZE_OFFSET := 8         // of `body_size` within the header
  const FLAG_OFFSET := 16        // of `is_arrived` within the header
  const BODY := INT_SIZE + HEADER_SIZE

  const ALL_ONES: seq<byte> := [255, 255, 255, 255]
  const ALL_ZEROS: seq<byte> := [0, 0, 0, 0]

  // ---- integers in memory ---------------------------------------------------------------

  /** A `size_t` as `k` bytes, least significant first. */
  function SizeBytes(n: nat, k: nat): (b: seq<byte>)
    ensures |b| == k
  {
    if k == 0 then [] else [n % 256] + SizeBytes(n / 256, k - 1)
  }

  function SizeOf(b: seq<byte>): nat {
    if b == [] then 0 else b[0] + 256 * SizeOf(b[1..])
  }

  function Pow256(k: nat): nat {
    if k == 0 then 1 else 256 * Pow256(k - 1)
  }

  lemma {:induction false} SizeRoundTrip(n: nat, k: nat)
    requires n < Pow256(k)
    ensures SizeOf(SizeBytes(n, k)) == n
  {
    if k > 0 {
      SizeRoundTrip(n / 256, k - 1);
      assert SizeBytes(n, k)[1..] == SizeBytes(n / 256, k - 1);
    }
  }

  predicate IsZeroWord(mem: seq<byte>, at: nat)
    requires at + 4 <= |mem|
  {
    mem[at] == 0 && mem[at + 1] == 0 && mem[at + 2] == 0 && mem[at + 3] == 0
  }

  // ---- the reader -----------------------------------------------------------------------

  function AnnouncedSize(mem: seq<byte>): nat
    requires |mem| == SLOT_SIZE
  {
    SizeOf(mem[INT_SIZE + SIZE_OFFSET..INT_SIZE + FLAG_OFFSET])
  }

  function Decode<T>(c: Codec<T>, mem: seq<byte>): View<T>
    requires |mem| == SLOT_SIZE
  {
    if IsZeroWord(mem, INT_SIZE + FLAG_OFFSET) then Waiting
    else if !IsZeroWord(mem, 0) then Rejected
    else
      var n := AnnouncedSize(mem);
      if BODY + n + INT_SIZE > |mem| then Overrun
      else if IsZeroWord(mem, BODY + n) then Waiting
      else match c.unpack(mem[BODY..BODY + n])
        case None => Rejected
        case Some(x) => Got(x)
  }

  // ---- the writer -----------------------------------------------------------------------

  /** The message header; `pad` stands for its eight indeterminate padding bytes. */
  function Header(bodySize: nat, pad: seq<byte>): (h: seq<byte>)
    requires |pad| == 8
    ensures |h| == HEADER_SIZE
  {
    [6, 0, 0, 0] + pad[..4] + SizeBytes(bodySize, 8) + ALL_ONES + pad[4..]
  }

  /** The kinds of messages, by their codes. */
  const MESSAGE_TYPES: seq<string> :=
    ["PREPARE", "COMMIT", "PUT", "GET", "GET_WITH_ADDR", "DONE", "RESULT", "RELEASE_LOCKS", "CLOSE"]

  /** A slot holds a message like the reply to a GET, so that readers decode both alike. */
  lemma HeaderNamesResult(bodySize: nat, pad: seq<byte>)
    requires |pad| == 8
    ensures SizeOf(Header(bodySize, pad)[..INT_SIZE]) < |MESSAGE_TYPES|
    ensures MESSAGE_TYPES[SizeOf(Header(bodySize, pad)[..INT_SIZE])] == "RESULT"
  {
    var b := Header(bodySize, pad)[..INT_SIZE];
    assert b == [6, 0, 0, 0] && b[1..] == [0, 0, 0] && b[1..][1..] == [0, 0] && b[1..][1..][1..] == [0];
    assert SizeOf(b[1..][1..][1..]) == 0 && SizeOf(b[1..]) == 0;
  }

  /** Everything an update writes behind the validity word, in order. */
  function Image(body: seq<byte>, pad: seq<byte>): (m: seq<byte>)
    requires |pad| == 8
    ensures |m| == HEADER_SIZE + |body| + INT_SIZE
  {
    Header(|body|, pad) + body + ALL_ONES
  }

  predicate Fits(body: seq<byte>) {
    BODY + |body| + INT_SIZE <= SLOT_SIZE
  }

  /** The serialisation of `x` round-trips, and leaves room for the header and the flags. */
  predicate Packs<T(==)>(c: Codec<T>, x: T) {
    Fits(c.pack(x)) && c.unpack(c.pack(x)) == Some(x)
  }

  /** The slot after the first `n` byte writes of an update: the image, then the validity word. */
  function After(slot: seq<byte>, body: seq<byte>, pad: seq<byte>, n: nat): (r: seq<byte>)
    requires |slot| == SLOT_SIZE && |pad| == 8 && Fits(body)
    requires n <= |Image(body, pad)| + INT_SIZE
    ensures |r| == SLOT_SIZE
  {
    var m := Image(body, pad);
    if n <= |m| then slot[..INT_SIZE] + m[..n] + slot[INT_SIZE + n..]
    else ALL_ZEROS[..n - |m|] + slot[n - |m|..INT_SIZE] + m + slot[INT_SIZE + |m|..]
  }

  function Invalidated(slot: seq<byte>): (r: seq<byte>)
    requires |slot| == SLOT_SIZE
    ensures |r| == SLOT_SIZE
  {
    ALL_ONES + slot[INT_SIZE..]
  }

  predicate Zeroed(slot: seq<byte>) {
    forall i :: 0 <= i < |slot| ==> slot[i] == 0
  }

  /** A slot no reader can mistake for a valid one: fresh from the allocator, or marked. */
  predicate Quiet(slot: seq<byte>)
    requires |slot| == SLOT_SIZE
  {
    !IsZeroWord(slot, 0) || Zeroed(slot)
  }

  // ---- torn updates ---------------------------------------------------------------------

  lemma SliceOfSlice(s: seq<byte>, a: nat, b: nat, i: nat, j: nat)
    requires a <= b <= |s| && i <= j <= b - a
    ensures s[a..b][i..j] == s[a + i..a + j]
  {
    forall k | 0 <= k < j - i
      ensures s[a..b][i..j][k] == s[a + i..a + j][k]
    {
      assert s[a..b][i..j][k] == s[a..b][i + k] == s[a + i + k];
    }
  }

  /** Once the size field is written, a reader that sees it decodes exactly the new body. */
  lemma HeaderAnnounces(mem: seq<byte>, body: seq<byte>, pad: seq<byte>, n: nat)
    requires |mem| == SLOT_SIZE && |pad| == 8 && Fits(body)
    requires FLAG_OFFSET <= n <= |Image(body, pad)|
    requires mem[INT_SIZE..INT_SIZE + n] == Image(body, pad)[..n]
    ensures AnnouncedSize(mem) == |body|
  {
    var m := Image(body, pad);
    SliceOfSlice(mem, INT_SIZE, INT_SIZE + n, SIZE_OFFSET, FLAG_OFFSET);
    SliceOfSlice(m, 0, n, SIZE_OFFSET, FLAG_OFFSET);
    assert m[SIZE_OFFSET..FLAG_OFFSET] == SizeBytes(|body|, 8);
    assert Pow256(8) > 256 * Pow256(7) - 1 && Pow256(7) >= 256;
    SizeRoundTrip(|body|, 8);
  }

  /** A complete, valid slot decodes to what was written. */
  lemma DecodeComplete<T>(c: Codec<T>, mem: seq<byte>, x: T, pad: seq<byte>)
    requires |mem| == SLOT_SIZE && |pad| == 8 && Fits(c.pack(x))
    requires c.unpack(c.pack(x)) == Some(x)
    requires IsZeroWord(mem, 0)
    requires mem[INT_SIZE..BODY + |c.pack(x)| + 1] == Image(c.pack(x), pad)[..HEADER_SIZE + |c.pack(x)| + 1]
    ensures Decode(c, mem) == Got(x)
  {
    var body := c.pack(x);
    var m := Image(body, pad);
    var k := HEADER_SIZE + |body| + 1;
    HeaderAnnounces(mem, body, pad, k);
    assert forall i :: 0 <= i < k ==> mem[INT_SIZE + i] == mem[INT_SIZE..BODY + |body| + 1][i] == m[i];
    assert mem[INT_SIZE + FLAG_OFFSET] == m[FLAG_OFFSET] == 255;
    assert mem[BODY + |body|] == m[HEADER_SIZE + |body|] == 255;
    SliceOfSlice(mem, INT_SIZE, BODY + |body| + 1, HEADER_SIZE, HEADER_SIZE + |body|);
    SliceOfSlice(m, 0, k, HEADER_SIZE, HEADER_SIZE + |body|);
    assert m[HEADER_SIZE..HEADER_SIZE + |body|] == body;
  }

  /** After the last write of an update the slot round-trips, whatever it held before. */
  lemma CompleteUpdateDecodes<T>(c: Codec<T>, slot: seq<byte>, x: T, pad: seq<byte>)
    requires |slot| == SLOT_SIZE && |pad| == 8 && Fits(c.pack(x))
    requires c.unpack(c.pack(x)) == Some(x)
    ensures Decode(c, After(slot, c.pack(x), pad, |Image(c.pack(x), pad)| + INT_SIZE)) == Got(x)
  {
    var m := Image(c.pack(x), pad);
    var k := HEADER_SIZE + |c.pack(x)| + 1;
    var mem := After(slot, c.pack(x), pad, |m| + INT_SIZE);
    assert mem[INT_SIZE..INT_SIZE + |m|] == m;
    assert mem[INT_SIZE..INT_SIZE + k] == m[..k];
    DecodeComplete(c, mem, x, pad);
  }

  /**
   Torn-update safety: from a quiet slot, whatever moment of an update a reader catches, it is
   rejected, still waits, or gets exactly the new item; after the last write it gets the item.
   */
  lemma QuietUpdateIsNeverTorn<T>(c: Codec<T>, slot: seq<byte>, x: T, pad: seq<byte>, n: nat)
    requires |slot| == SLOT_SIZE && |pad| == 8 && Fits(c.pack(x)) && Quiet(slot)
    requires c.unpack(c.pack(x)) == Some(x)
    requires n <= |Image(c.pack(x), pad)| + INT_SIZE
    ensures Decode(c, After(slot, c.pack(x), pad, n)) in {Waiting, Rejected, Got(x)}
    ensures n == |Image(c.pack(x), pad)| + INT_SIZE ==> Decode(c, After(slot, c.pack(x), pad, n)) == Got(x)
  {
    var body := c.pack(x);
    var m := Image(body, pad);
    var mem := After(slot, body, pad, n);
    if IsZeroWord(mem, 0) {
      if n <= |m| {
        assert forall i :: 0 <= i < INT_SIZE ==> mem[i] == slot[i];
        FreshPrefix(c, slot, x, pad, n);
      } else {
        assert mem[INT_SIZE..INT_SIZE + |m|] == m;
        assert mem[INT_SIZE..BODY + |body| + 1] == mem[INT_SIZE..INT_SIZE + |m|][..HEADER_SIZE + |body| + 1];
        DecodeComplete(c, mem, x, pad);
      }
    }
  }

  /** The interesting half: a zeroed slot reads as valid all along, so the flags must protect it. */
  lemma FreshPrefix<T>(c: Codec<T>, slot: seq<byte>, x: T, pad: seq<byte>, n: nat)
    requires |slot| == SLOT_SIZE && |pad| == 8 && Fits(c.pack(x))
    requires Zeroed(slot)
    requires c.unpack(c.pack(x)) == Some(x)
    requires n <= |Image(c.pack(x), pad)|
    ensures Decode(c, After(slot, c.pack(x), pad, n))
         == if n <= HEADER_SIZE + |c.pack(x)| then Waiting else Got(x)
  {
    var body := c.pack(x);
    var m := Image(body, pad);
    var mem := After(slot, body, pad, n);
    assert mem[INT_SIZE..INT_SIZE + n] == m[..n];
    assert forall i :: INT_SIZE + n <= i < |mem| ==> mem[i] == 0;
    if n <= FLAG_OFFSET {
    } else if n <= HEADER_SIZE + |body| {
      HeaderAnnounces(mem, body, pad, n);
    } else {
      assert mem[INT_SIZE..BODY + |body| + 1] == mem[INT_SIZE..INT_SIZE + n][..HEADER_SIZE + |body| + 1];
      DecodeComplete(c, mem, x, pad);
    }
  }

  /** Marking a slot: it is rejected, unless nothing was ever written to it. */
  lemma DecodeInvalidated<T>(c: Codec<T>, slot: seq<byte>)
    requires |slot| == SLOT_SIZE
    ensures Quiet(Invalidated(slot))
    ensures Decode(c, Invalidated(slot))
         == if IsZeroWord(slot, INT_SIZE + FLAG_OFFSET) then Waiting else Rejected
  {
  }

  // ---- updating a slot that is still valid ----------------------------------------------

  /** The slot as a completed update of `x` leaves it. */
  predicate Holds<T>(c: Codec<T>, slot: seq<byte>, x: T, pad: seq<byte>)
    requires |slot| == SLOT_SIZE && |pad| == 8 && Fits(c.pack(x))
  {
    slot[..INT_SIZE] == ALL_ZEROS && slot[INT_SIZE..INT_SIZE + |Image(c.pack(x), pad)|] == Image(c.pack(x), pad)
  }

  lemma HeldItemDecodes<T>(c: Codec<T>, slot: seq<byte>, x: T, pad: seq<byte>)
    requires |slot| == SLOT_SIZE && |pad| == 8 && Fits(c.pack(x)) && c.unpack(c.pack(x)) == Some(x)
    requires Holds(c, slot, x, pad)
    ensures Decode(c, slot) == Got(x) && !Quiet(slot)
  {
    var m, k := Image(c.pack(x), pad), HEADER_SIZE + |c.pack(x)| + 1;
    assert IsZeroWord(slot[..INT_SIZE], 0);
    SliceOfSlice(slot, INT_SIZE, INT_SIZE + |m|, 0, k);
    DecodeComplete(c, slot, x, pad);
    assert slot[INT_SIZE + FLAG_OFFSET] == slot[INT_SIZE..INT_SIZE + |m|][FLAG_OFFSET] == m[FLAG_OFFSET] == 255;
  }
}
