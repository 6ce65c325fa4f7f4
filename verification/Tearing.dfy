/**
 Overwriting a slot that still holds a valid item: what each snapshot in between decodes to, and
 exactly when none of them shows anything but the old and the new item.
 */
module Tearing {
  import opened Slot

  // ---- the two low bytes of a body size ------------------------------------------------------

  const SIX_ZEROS: seq<byte> := [0, 0, 0, 0, 0, 0]

  lemma SmallSize(n: nat)
    requires n < 65536
    ensures SizeBytes(n, 8) == [n % 256, n / 256] + SIX_ZEROS
  {
    assert SizeBytes(n, 8) == [n % 256] + SizeBytes(n / 256, 7);
    assert SizeBytes(n / 256, 7) == [n / 256] + SizeBytes(0, 6);
    ZeroSize(6);
  }

  lemma {:induction false} ZeroSize(k: nat)
    ensures SizeBytes(0, k) == seq(k, i => 0)
  {
    if k > 0 {
      ZeroSize(k - 1);
    }
  }

  lemma {:induction false} SizeOfZeros(k: nat)
    ensures SizeOf(seq(k, i => 0)) == 0
  {
    if k > 0 {
      SizeOfZeros(k - 1);
      assert seq(k, i => 0)[1..] == seq(k - 1, i => 0);
    }
  }

  lemma SizeOfTwo(low: byte, high: byte)
    ensures SizeOf([low, high] + SIX_ZEROS) == low + 256 * high
  {
    var b := [low, high] + SIX_ZEROS;
    assert b[1..] == [high] + SIX_ZEROS && b[1..][1..] == SIX_ZEROS == seq(6, i => 0);
    SizeOfZeros(6);
  }

  /** The size announced after the first of the two bytes has been copied: low byte new, high byte old. */
  function MixedSize(size: nat, sizeOld: nat): nat {
    size % 256 + 256 * (sizeOld / 256)
  }

  lemma SizeWhileCopied(size: nat, sizeOld: nat, k: nat)
    requires size < 65536 && sizeOld < 65536 && k <= 8
    ensures SizeOf(SizeBytes(size, 8)[..k] + SizeBytes(sizeOld, 8)[k..])
         == if k == 0 then sizeOld else if k == 1 then MixedSize(size, sizeOld) else size
  {
    SmallSize(size);
    SmallSize(sizeOld);
    var b := SizeBytes(size, 8)[..k] + SizeBytes(sizeOld, 8)[k..];
    assert b == [if k == 0 then sizeOld % 256 else size % 256, if k <= 1 then sizeOld / 256 else size / 256] + SIX_ZEROS;
    SizeOfTwo(b[0], b[1]);
  }

  // ---- what a reader makes of the bytes behind the header -------------------------------------

  function ViewOfTail<T>(c: Codec<T>, tail: seq<byte>, size: nat): View<T> {
    if size + INT_SIZE > |tail| then Overrun
    else if IsZeroWord(tail, size) then Waiting
    else match c.unpack(tail[..size])
      case None => Rejected
      case Some(x) => Got(x)
  }

  lemma DecodeByTail<T>(c: Codec<T>, mem: seq<byte>)
    requires |mem| == SLOT_SIZE && IsZeroWord(mem, 0) && !IsZeroWord(mem, INT_SIZE + FLAG_OFFSET)
    ensures Decode(c, mem) == ViewOfTail(c, mem[BODY..], AnnouncedSize(mem))
  {
    var n := AnnouncedSize(mem);
    if BODY + n + INT_SIZE <= |mem| {
      assert mem[BODY..][..n] == mem[BODY..BODY + n];
    }
  }

  /** The bytes behind the header once `j` bytes of the new body are there. */
  function Mixed(body: seq<byte>, tail: seq<byte>, j: nat): (r: seq<byte>)
    requires j <= |body| && j <= |tail|
    ensures |r| == |tail|
  {
    body[..j] + tail[j..]
  }

  // ---- a snapshot in the middle ------------------------------------------------------------------

  /** While the header is being copied, the bytes behind it are the old ones. */
  lemma HeaderSnapshot(slot: seq<byte>, body: seq<byte>, pad: seq<byte>, n: nat)
    requires |slot| == SLOT_SIZE && |pad| == 8 && Fits(body) && n <= HEADER_SIZE
    ensures var mem := After(slot, body, pad, n);
            && mem[..INT_SIZE] == slot[..INT_SIZE] && mem[BODY..] == slot[BODY..]
            && mem[INT_SIZE..BODY] == Header(|body|, pad)[..n] + slot[INT_SIZE + n..BODY]
  {
    var m, h := Image(body, pad), Header(|body|, pad);
    assert m[..n] == h[..n];
    assert After(slot, body, pad, n) == slot[..INT_SIZE] + (h[..n] + slot[INT_SIZE + n..BODY]) + slot[BODY..];
  }

  /** While the body is being copied, it grows over the old bytes. */
  lemma BodySnapshot(slot: seq<byte>, body: seq<byte>, pad: seq<byte>, j: nat)
    requires |slot| == SLOT_SIZE && |pad| == 8 && Fits(body) && j <= |body|
    ensures var mem := After(slot, body, pad, HEADER_SIZE + j);
            && mem[..INT_SIZE] == slot[..INT_SIZE] && mem[BODY..] == Mixed(body, slot[BODY..], j)
            && mem[INT_SIZE..BODY] == Header(|body|, pad)
  {
    var m, h := Image(body, pad), Header(|body|, pad);
    assert m[..HEADER_SIZE + j] == h + body[..j];
    assert slot[BODY + j..] == slot[BODY..][j..];
    assert After(slot, body, pad, HEADER_SIZE + j) == slot[..INT_SIZE] + h + (body[..j] + slot[BODY + j..]);
  }

  /** The arrival flag of the header never falls while one header is copied over another. */
  lemma FlagStaysUp(size: nat, pad: seq<byte>, sizeOld: nat, padOld: seq<byte>, n: nat)
    requires |pad| == |padOld| == 8 && n <= HEADER_SIZE
    ensures var h := Header(size, pad)[..n] + Header(sizeOld, padOld)[n..];
            !IsZeroWord(h, FLAG_OFFSET)
            && h[SIZE_OFFSET..FLAG_OFFSET]
               == var k := if n <= 8 then 0 else if n >= 16 then 8 else n - 8; SizeBytes(size, 8)[..k] + SizeBytes(sizeOld, 8)[k..]
  {
    var a, b := Header(size, pad), Header(sizeOld, padOld);
    var h := a[..n] + b[n..];
    assert a[SIZE_OFFSET..FLAG_OFFSET] == SizeBytes(size, 8) && b[SIZE_OFFSET..FLAG_OFFSET] == SizeBytes(sizeOld, 8);
    assert a[FLAG_OFFSET] == b[FLAG_OFFSET] == h[FLAG_OFFSET] == 255;
    var k := if n <= 8 then 0 else if n >= 16 then 8 else n - 8;
    forall i | 0 <= i < 8
      ensures h[SIZE_OFFSET + i] == (SizeBytes(size, 8)[..k] + SizeBytes(sizeOld, 8)[k..])[i]
    {
      assert a[SIZE_OFFSET + i] == a[SIZE_OFFSET..FLAG_OFFSET][i] && b[SIZE_OFFSET + i] == b[SIZE_OFFSET..FLAG_OFFSET][i];
    }
  }

  lemma HeldParts<T>(c: Codec<T>, slot: seq<byte>, y: T, padOld: seq<byte>)
    requires |slot| == SLOT_SIZE && |padOld| == 8 && Fits(c.pack(y)) && Holds(c, slot, y, padOld)
    ensures var a := c.pack(y);
            && IsZeroWord(slot, 0) && slot[INT_SIZE..BODY] == Header(|a|, padOld)
            && slot[BODY..][..|a|] == a && slot[BODY..][|a|..|a| + INT_SIZE] == ALL_ONES
  {
    var a, m := c.pack(y), Image(c.pack(y), padOld);
    assert IsZeroWord(slot[..INT_SIZE], 0);
    SliceOfSlice(slot, INT_SIZE, INT_SIZE + |m|, 0, HEADER_SIZE);
    SliceOfSlice(slot, INT_SIZE, INT_SIZE + |m|, HEADER_SIZE, HEADER_SIZE + |a|);
    SliceOfSlice(slot, INT_SIZE, INT_SIZE + |m|, HEADER_SIZE + |a|, |m|);
    SliceOfSlice(slot, BODY, |slot|, 0, |a|);
    SliceOfSlice(slot, BODY, |slot|, |a|, |a| + INT_SIZE);
    assert m[..HEADER_SIZE] == Header(|a|, padOld) && m[HEADER_SIZE..HEADER_SIZE + |a|] == a;
    assert m[HEADER_SIZE + |a|..|m|] == ALL_ONES;
    assert slot[BODY..|slot|] == slot[BODY..];
  }

  /** What a reader decodes from a snapshot taken while a valid slot is overwritten, moment by moment. */
  function Snapshot<T>(c: Codec<T>, tail: seq<byte>, y: T, x: T, n: nat): View<T>
    requires |tail| == SLOT_SIZE - BODY && Fits(c.pack(x))
  {
    var a, b := c.pack(y), c.pack(x);
    if n <= SIZE_OFFSET then Got(y)
    else if n == SIZE_OFFSET + 1 then ViewOfTail(c, tail, MixedSize(|b|, |a|))
    else if n <= HEADER_SIZE then ViewOfTail(c, tail, |b|)
    else if n <= HEADER_SIZE + |b| then ViewOfTail(c, Mixed(b, tail, n - HEADER_SIZE), |b|)
    else Got(x)
  }

  lemma SnapshotInHeader<T>(c: Codec<T>, slot: seq<byte>, x: T, pad: seq<byte>, y: T, padOld: seq<byte>, n: nat)
    requires |slot| == SLOT_SIZE && |pad| == |padOld| == 8 && Fits(c.pack(x)) && Fits(c.pack(y))
    requires c.unpack(c.pack(y)) == Some(y) && Holds(c, slot, y, padOld) && n <= HEADER_SIZE
    ensures Decode(c, After(slot, c.pack(x), pad, n)) == Snapshot(c, slot[BODY..], y, x, n)
  {
    var a, b, mem := c.pack(y), c.pack(x), After(slot, c.pack(x), pad, n);
    HeldParts(c, slot, y, padOld);
    HeaderSnapshot(slot, b, pad, n);
    assert slot[INT_SIZE + n..BODY] == slot[INT_SIZE..BODY][n..] == Header(|a|, padOld)[n..];
    var h := Header(|b|, pad)[..n] + Header(|a|, padOld)[n..];
    assert mem[INT_SIZE..BODY] == h;
    FlagStaysUp(|b|, pad, |a|, padOld, n);
    ReadsHeader(c, mem, h, slot);
    SizeWhileCopied(|b|, |a|, if n <= 8 then 0 else if n >= 16 then 8 else n - 8);
    OldTail(c, slot[BODY..], y);
  }

  /** A snapshot is decoded by the size field of its header and the bytes behind it. */
  lemma ReadsHeader<T>(c: Codec<T>, mem: seq<byte>, h: seq<byte>, slot: seq<byte>)
    requires |mem| == |slot| == SLOT_SIZE && |h| == HEADER_SIZE && mem[INT_SIZE..BODY] == h && !IsZeroWord(h, FLAG_OFFSET)
    requires mem[..INT_SIZE] == slot[..INT_SIZE] && IsZeroWord(slot, 0)
    ensures Decode(c, mem) == ViewOfTail(c, mem[BODY..], SizeOf(h[SIZE_OFFSET..FLAG_OFFSET]))
  {
    assert IsZeroWord(mem[..INT_SIZE], 0) && IsZeroWord(slot[..INT_SIZE], 0);
    assert forall i :: 0 <= i < HEADER_SIZE ==> h[i] == mem[INT_SIZE + i];
    SliceOfSlice(mem, INT_SIZE, BODY, SIZE_OFFSET, FLAG_OFFSET);
    DecodeByTail(c, mem);
  }

  lemma OldTail<T>(c: Codec<T>, tail: seq<byte>, y: T)
    requires |tail| == SLOT_SIZE - BODY && Fits(c.pack(y)) && c.unpack(c.pack(y)) == Some(y)
    requires tail[..|c.pack(y)|] == c.pack(y) && tail[|c.pack(y)|..|c.pack(y)| + INT_SIZE] == ALL_ONES
    ensures ViewOfTail(c, tail, |c.pack(y)|) == Got(y)
  {
    assert tail[|c.pack(y)|] == tail[|c.pack(y)|..|c.pack(y)| + INT_SIZE][0] == 255;
  }

  lemma SnapshotInBody<T>(c: Codec<T>, slot: seq<byte>, x: T, pad: seq<byte>, y: T, padOld: seq<byte>, j: nat)
    requires |slot| == SLOT_SIZE && |pad| == |padOld| == 8 && Fits(c.pack(x)) && Fits(c.pack(y))
    requires Holds(c, slot, y, padOld) && j <= |c.pack(x)|
    ensures Decode(c, After(slot, c.pack(x), pad, HEADER_SIZE + j)) == ViewOfTail(c, Mixed(c.pack(x), slot[BODY..], j), |c.pack(x)|)
  {
    var b, mem, h := c.pack(x), After(slot, c.pack(x), pad, HEADER_SIZE + j), Header(|c.pack(x)|, pad);
    HeldParts(c, slot, y, padOld);
    BodySnapshot(slot, b, pad, j);
    FlagStaysUp(|b|, pad, |b|, pad, HEADER_SIZE);
    assert h[..HEADER_SIZE] + h[HEADER_SIZE..] == h;
    ReadsHeader(c, mem, h, slot);
    SizeWhileCopied(|b|, |b|, 8);
  }

  lemma SnapshotAfterBody<T>(c: Codec<T>, slot: seq<byte>, x: T, pad: seq<byte>, n: nat)
    requires |slot| == SLOT_SIZE && |pad| == 8 && Fits(c.pack(x)) && c.unpack(c.pack(x)) == Some(x)
    requires slot[..INT_SIZE] == ALL_ZEROS
    requires HEADER_SIZE + |c.pack(x)| < n <= |Image(c.pack(x), pad)| + INT_SIZE
    ensures Decode(c, After(slot, c.pack(x), pad, n)) == Got(x)
  {
    var b, m, mem := c.pack(x), Image(c.pack(x), pad), After(slot, c.pack(x), pad, n);
    var k := HEADER_SIZE + |b| + 1;
    assert mem[INT_SIZE..INT_SIZE + k] == m[..k];
    assert mem[..INT_SIZE] == ALL_ZEROS;
    assert IsZeroWord(mem[..INT_SIZE], 0);
    DecodeComplete(c, mem, x, pad);
  }

  lemma LateSnapshot<T>(c: Codec<T>, tail: seq<byte>, y: T, x: T, n: nat)
    requires |tail| == SLOT_SIZE - BODY && Fits(c.pack(x)) && n > HEADER_SIZE
    ensures var b := c.pack(x);
            Snapshot(c, tail, y, x, n) == if n <= HEADER_SIZE + |b| then ViewOfTail(c, Mixed(b, tail, n - HEADER_SIZE), |b|) else Got(x)
  {
  }

  /** Every snapshot of overwriting a valid slot, from the old bytes, the new body and the codec. */
  lemma SnapshotDuring<T>(c: Codec<T>, slot: seq<byte>, x: T, pad: seq<byte>, y: T, padOld: seq<byte>, n: nat)
    requires |slot| == SLOT_SIZE && |pad| == |padOld| == 8 && Fits(c.pack(x)) && Fits(c.pack(y))
    requires c.unpack(c.pack(x)) == Some(x) && c.unpack(c.pack(y)) == Some(y)
    requires Holds(c, slot, y, padOld) && n <= |Image(c.pack(x), pad)| + INT_SIZE
    ensures Decode(c, After(slot, c.pack(x), pad, n)) == Snapshot(c, slot[BODY..], y, x, n)
  {
    if n <= HEADER_SIZE {
      SnapshotInHeader(c, slot, x, pad, y, padOld, n);
    } else {
      LateSnapshot(c, slot[BODY..], y, x, n);
      if n <= HEADER_SIZE + |c.pack(x)| {
        SnapshotInBody(c, slot, x, pad, y, padOld, n - HEADER_SIZE);
      } else {
        SnapshotAfterBody(c, slot, x, pad, n);
      }
    }
  }

  // ---- exactly when nothing torn can be read ----------------------------------------------------

  /** Polling, asking the server, the intact old item and the new one are all fine. */
  predicate Untorn<T(==)>(v: View<T>, y: T, x: T) {
    v == Waiting || v == Rejected || v == Got(y) || v == Got(x)
  }

  /**
   Overwriting `y` by `x` never shows a reader anything else, if and only if the old bytes read
   under the half-copied size are fine, and so is every body whose first bytes are new and whose
   other bytes are old.
   */
  lemma RewriteIsUntornIff<T>(c: Codec<T>, slot: seq<byte>, x: T, pad: seq<byte>, y: T, padOld: seq<byte>)
    requires |slot| == SLOT_SIZE && |pad| == |padOld| == 8 && Fits(c.pack(x)) && Fits(c.pack(y))
    requires c.unpack(c.pack(x)) == Some(x) && c.unpack(c.pack(y)) == Some(y) && Holds(c, slot, y, padOld)
    ensures (forall n: nat :: n <= |Image(c.pack(x), pad)| + INT_SIZE ==> Untorn(Decode(c, After(slot, c.pack(x), pad, n)), y, x))
            <==> var tail, b := slot[BODY..], c.pack(x);
                 && Untorn(ViewOfTail(c, tail, MixedSize(|b|, |c.pack(y)|)), y, x)
                 && forall j: nat :: j <= |b| ==> Untorn(ViewOfTail(c, Mixed(b, tail, j), |b|), y, x)
  {
    var tail, b := slot[BODY..], c.pack(x);
    assert Mixed(b, tail, 0) == tail;
    forall n: nat | n <= |Image(b, pad)| + INT_SIZE
      ensures Decode(c, After(slot, b, pad, n)) == Snapshot(c, tail, y, x, n)
    {
      SnapshotDuring(c, slot, x, pad, y, padOld, n);
    }
    if forall n: nat :: n <= |Image(b, pad)| + INT_SIZE ==> Untorn(Decode(c, After(slot, b, pad, n)), y, x) {
      assert Untorn(Decode(c, After(slot, b, pad, SIZE_OFFSET + 1)), y, x);
      forall j: nat | j <= |b|
        ensures Untorn(ViewOfTail(c, Mixed(b, tail, j), |b|), y, x)
      {
        assert Untorn(Decode(c, After(slot, b, pad, HEADER_SIZE + j)), y, x);
      }
    }
  }

  predicate UntornBody<T(==)>(c: Codec<T>, body: seq<byte>, y: T, x: T) {
    c.unpack(body) == None || c.unpack(body) == Some(y) || c.unpack(body) == Some(x)
  }

  /** Bodies of one length: the codec must reject every mixture, or take it for one of the two items. */
  lemma EqualLengthsUntornIff<T>(c: Codec<T>, slot: seq<byte>, x: T, pad: seq<byte>, y: T, padOld: seq<byte>)
    requires |slot| == SLOT_SIZE && |pad| == |padOld| == 8 && Fits(c.pack(x)) && |c.pack(y)| == |c.pack(x)|
    requires c.unpack(c.pack(x)) == Some(x) && c.unpack(c.pack(y)) == Some(y) && Holds(c, slot, y, padOld)
    ensures (forall n: nat :: n <= |Image(c.pack(x), pad)| + INT_SIZE ==> Untorn(Decode(c, After(slot, c.pack(x), pad, n)), y, x))
            <==> forall j: nat :: j <= |c.pack(x)| ==> UntornBody(c, c.pack(x)[..j] + c.pack(y)[j..], y, x)
  {
    var a, b, tail := c.pack(y), c.pack(x), slot[BODY..];
    HeldParts(c, slot, y, padOld);
    RewriteIsUntornIff(c, slot, x, pad, y, padOld);
    OldTail(c, tail, y);
    forall j: nat | j <= |b|
      ensures Untorn(ViewOfTail(c, Mixed(b, tail, j), |b|), y, x) <==> UntornBody(c, b[..j] + a[j..], y, x)
    {
      EqualLengthView(c, tail, b, a, j);
    }
  }

  lemma EqualLengthView<T>(c: Codec<T>, tail: seq<byte>, b: seq<byte>, a: seq<byte>, j: nat)
    requires |a| == |b| && |a| + INT_SIZE <= |tail| && j <= |b|
    requires tail[..|a|] == a && tail[|a|..|a| + INT_SIZE] == ALL_ONES
    ensures ViewOfTail(c, Mixed(b, tail, j), |b|)
         == match c.unpack(b[..j] + a[j..]) case None => Rejected case Some(z) => Got(z)
  {
    var mixed := Mixed(b, tail, j);
    assert mixed[|b|] == tail[|a|] == tail[|a|..|a| + INT_SIZE][0] == 255;
    assert mixed[..|b|] == b[..j] + tail[..|a|][j..];
  }

  /**
   A shorter body with the same high size byte: the arrival word is looked for inside the old body,
   so either it is zero there and readers wait, or the mixtures cut off at the new length decide.
   */
  lemma ShorterBodyUntornIff<T>(c: Codec<T>, slot: seq<byte>, x: T, pad: seq<byte>, y: T, padOld: seq<byte>)
    requires |slot| == SLOT_SIZE && |pad| == |padOld| == 8 && Fits(c.pack(y))
    requires |c.pack(x)| < |c.pack(y)| && |c.pack(x)| / 256 == |c.pack(y)| / 256
    requires c.unpack(c.pack(x)) == Some(x) && c.unpack(c.pack(y)) == Some(y) && Holds(c, slot, y, padOld)
    ensures var a, b := c.pack(y), c.pack(x);
            (forall n: nat :: n <= |Image(b, pad)| + INT_SIZE ==> Untorn(Decode(c, After(slot, b, pad, n)), y, x))
            <==> IsZeroWord(a + ALL_ONES, |b|) || forall j: nat :: j <= |b| ==> UntornBody(c, b[..j] + a[j..|b|], y, x)
  {
    var a, b, tail := c.pack(y), c.pack(x), slot[BODY..];
    HeldParts(c, slot, y, padOld);
    RewriteIsUntornIff(c, slot, x, pad, y, padOld);
    assert MixedSize(|b|, |a|) == |b| && Mixed(b, tail, 0) == tail;
    forall j: nat | j <= |b|
      ensures Untorn(ViewOfTail(c, Mixed(b, tail, j), |b|), y, x)
              <==> IsZeroWord(a + ALL_ONES, |b|) || UntornBody(c, b[..j] + a[j..|b|], y, x)
    {
      ShorterBodyView(c, tail, b, a, j);
    }
  }

  lemma ShorterBodyView<T>(c: Codec<T>, tail: seq<byte>, b: seq<byte>, a: seq<byte>, j: nat)
    requires |b| < |a| && |a| + INT_SIZE <= |tail| && j <= |b|
    requires tail[..|a|] == a && tail[|a|..|a| + INT_SIZE] == ALL_ONES
    ensures ViewOfTail(c, Mixed(b, tail, j), |b|)
         == if IsZeroWord(a + ALL_ONES, |b|) then Waiting
            else match c.unpack(b[..j] + a[j..|b|]) case None => Rejected case Some(z) => Got(z)
  {
    var mixed := Mixed(b, tail, j);
    assert tail[..|a| + INT_SIZE] == a + ALL_ONES;
    assert forall i :: |b| <= i < |b| + INT_SIZE ==> mixed[i] == tail[i] == tail[..|a| + INT_SIZE][i];
    assert mixed[..|b|] == b[..j] + tail[..|a|][j..|b|];
  }

  /** A body longer by a word, over a slot never used further out: readers wait until it is complete. */
  lemma LongerBodyIsUntorn<T>(c: Codec<T>, slot: seq<byte>, x: T, pad: seq<byte>, y: T, padOld: seq<byte>, n: nat)
    requires |slot| == SLOT_SIZE && |pad| == |padOld| == 8 && Fits(c.pack(x))
    requires |c.pack(y)| + INT_SIZE <= |c.pack(x)| && |c.pack(x)| / 256 == |c.pack(y)| / 256
    requires c.unpack(c.pack(x)) == Some(x) && c.unpack(c.pack(y)) == Some(y) && Holds(c, slot, y, padOld)
    requires Zeroed(slot[BODY + |c.pack(y)| + INT_SIZE..]) && n <= |Image(c.pack(x), pad)| + INT_SIZE
    ensures Decode(c, After(slot, c.pack(x), pad, n)) in {Waiting, Got(y), Got(x)}
  {
    var b, tail := c.pack(x), slot[BODY..];
    SnapshotDuring(c, slot, x, pad, y, padOld, n);
    assert MixedSize(|b|, |c.pack(y)|) == |b|;
    forall i | |b| <= i < |b| + INT_SIZE
      ensures tail[i] == 0
    {
      assert tail[i] == slot[BODY + |c.pack(y)| + INT_SIZE..][i - |c.pack(y)| - INT_SIZE];
    }
  }

  // ---- what a torn read may return ----------------------------------------------------------------

  /** Some slot that holds `y` reads as `z` at some moment of being overwritten by `x`. */
  ghost predicate Mixture<T(!new)>(c: Codec<T>, y: T, x: T, z: T) {
    exists slot: seq<byte>, pad: seq<byte>, padOld: seq<byte>, n: nat ::
      Shows(c, slot, pad, padOld, n, y, x, z)
  }

  predicate Shows<T(==)>(c: Codec<T>, slot: seq<byte>, pad: seq<byte>, padOld: seq<byte>, n: nat, y: T, x: T, z: T) {
    && |slot| == SLOT_SIZE && |pad| == |padOld| == 8 && Fits(c.pack(x)) && Fits(c.pack(y))
    && Holds(c, slot, y, padOld) && n <= |Image(c.pack(x), pad)| + INT_SIZE
    && Decode(c, After(slot, c.pack(x), pad, n)) == Got(z)
  }

  const NO_PAD: seq<byte> := [0, 0, 0, 0, 0, 0, 0, 0]

  function ValidSlot(body: seq<byte>): (r: seq<byte>)
    requires Fits(body)
    ensures |r| == SLOT_SIZE
  {
    ALL_ZEROS + Image(body, NO_PAD) + seq(SLOT_SIZE - INT_SIZE - |Image(body, NO_PAD)|, i => 0)
  }

  /** For bodies of one length these are exactly the decodable mixtures of a new prefix and an old rest. */
  lemma EqualLengthsMixtureIff<T(!new)>(c: Codec<T>, y: T, x: T, z: T)
    requires Fits(c.pack(x)) && |c.pack(y)| == |c.pack(x)|
    requires c.unpack(c.pack(x)) == Some(x) && c.unpack(c.pack(y)) == Some(y)
    ensures Mixture(c, y, x, z) <==> exists j: nat :: j <= |c.pack(x)| && c.unpack(c.pack(x)[..j] + c.pack(y)[j..]) == Some(z)
  {
    var a, b := c.pack(y), c.pack(x);
    if Mixture(c, y, x, z) {
      var slot: seq<byte>, pad: seq<byte>, padOld: seq<byte>, n: nat :| Shows(c, slot, pad, padOld, n, y, x, z);
      var j := MixturePrefix(c, slot, pad, padOld, n, y, x, z);
    }
    if j: nat :| j <= |b| && c.unpack(b[..j] + a[j..]) == Some(z) {
      var slot := ValidSlot(a);
      var m := Image(a, NO_PAD);
      assert slot[..INT_SIZE] == ALL_ZEROS && slot[INT_SIZE..INT_SIZE + |m|] == m;
      HeldParts(c, slot, y, NO_PAD);
      SnapshotInBody(c, slot, x, NO_PAD, y, NO_PAD, j);
      EqualLengthView(c, slot[BODY..], b, a, j);
      assert Shows(c, slot, NO_PAD, NO_PAD, HEADER_SIZE + j, y, x, z);
    }
  }

  lemma MixturePrefix<T>(c: Codec<T>, slot: seq<byte>, pad: seq<byte>, padOld: seq<byte>, n: nat, y: T, x: T, z: T) returns (j: nat)
    requires Fits(c.pack(x)) && |c.pack(y)| == |c.pack(x)|
    requires c.unpack(c.pack(x)) == Some(x) && c.unpack(c.pack(y)) == Some(y)
    requires Shows(c, slot, pad, padOld, n, y, x, z)
    ensures j <= |c.pack(x)| && c.unpack(c.pack(x)[..j] + c.pack(y)[j..]) == Some(z)
  {
    var a, b, tail := c.pack(y), c.pack(x), slot[BODY..];
    HeldParts(c, slot, y, padOld);
    SnapshotDuring(c, slot, x, pad, y, padOld, n);
    OldTail(c, tail, y);
    j := if n <= HEADER_SIZE then 0 else if n <= HEADER_SIZE + |b| then n - HEADER_SIZE else |b|;
    EqualLengthView(c, tail, b, a, j);
    assert Mixed(b, tail, 0) == tail;
    assert b[..0] + a[0..] == a && b[..|b|] + a[|b|..] == b;
  }
}
