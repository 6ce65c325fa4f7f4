/** A cache slot updated in place: one 2560-byte window of the memory that clients read remotely. */
module Entry {
  import opened Slot

  function Patched(slot: seq<byte>, offset: nat, src: seq<byte>): (r: seq<byte>)
    requires offset + |src| <= |slot|
    ensures |r| == |slot|
  {
    slot[..offset] + src + slot[offset + |src|..]
  }

  /** The slot after each single byte of `src` has been copied to `offset`, in order. */
  function Copying(slot: seq<byte>, offset: nat, src: seq<byte>): (r: seq<seq<byte>>)
    requires offset + |src| <= |slot|
    ensures |r| == |src|
  {
    seq(|src|, i requires 0 <= i < |src| => Patched(slot, offset, src[..i + 1]))
  }

  lemma PatchTwice(slot: seq<byte>, offset: nat, a: seq<byte>, b: seq<byte>)
    requires offset + |a| + |b| <= |slot|
    ensures Patched(Patched(slot, offset, a), offset + |a|, b) == Patched(slot, offset, a + b)
  {
  }

  lemma PatchNext(slot: seq<byte>, offset: nat, src: seq<byte>, i: nat)
    requires offset + |src| <= |slot| && i < |src|
    ensures Patched(slot, offset, src[..i])[offset + i := src[i]] == Patched(slot, offset, src[..i + 1])
  {
  }

  /** Copying two pieces back to back passes through the states of copying them in one go. */
  lemma CopyTwice(slot: seq<byte>, offset: nat, a: seq<byte>, b: seq<byte>)
    requires offset + |a| + |b| <= |slot|
    ensures Copying(slot, offset, a) + Copying(Patched(slot, offset, a), offset + |a|, b)
         == Copying(slot, offset, a + b)
  {
    var l, r := Copying(slot, offset, a) + Copying(Patched(slot, offset, a), offset + |a|, b), Copying(slot, offset, a + b);
    forall i | 0 <= i < |a| + |b|
      ensures l[i] == r[i]
    {
      if i < |a| {
        assert (a + b)[..i + 1] == a[..i + 1];
      } else {
        var k := i - |a|;
        PatchTwice(slot, offset, a, b[..k + 1]);
        assert (a + b)[..i + 1] == a + b[..k + 1];
      }
    }
  }

  /** Every state an update of `slot` passes through. */
  function Updating(slot: seq<byte>, body: seq<byte>, pad: seq<byte>): (r: seq<seq<byte>>)
    requires |slot| == SLOT_SIZE && |pad| == 8 && Fits(body)
    ensures forall i :: 0 <= i < |r| ==> |r[i]| == SLOT_SIZE
  {
    var last := |Image(body, pad)| + INT_SIZE;
    seq(last, i requires 0 <= i < last => After(slot, body, pad, i + 1))
  }

  class Entry {
    const mem: array<byte>
    const base: nat

    /** Every state of the slot since it was carved out: what some remote read might return. */
    ghost var history: seq<seq<byte>>

    constructor (mem: array<byte>, base: nat)
      requires base + SLOT_SIZE <= mem.Length
      ensures this.mem == mem && this.base == base && history == []
    {
      this.mem := mem;
      this.base := base;
      history := [];
    }

    predicate InBounds() {
      base + SLOT_SIZE <= mem.Length
    }

    function Bytes(): (b: seq<byte>)
      requires InBounds()
      reads mem
      ensures |b| == SLOT_SIZE
    {
      mem[base..base + SLOT_SIZE]
    }

    /** Overwrites bytes at an offset; a write that does not fit ends the process. */
    method Write(offset: nat, src: seq<byte>)
      requires InBounds() && offset + |src| <= SLOT_SIZE
      modifies mem, this`history
      ensures mem[..base] == old(mem[..base]) && mem[base + SLOT_SIZE..] == old(mem[base + SLOT_SIZE..])
      ensures Bytes() == Patched(old(Bytes()), offset, src)
      ensures history == old(history) + Copying(old(Bytes()), offset, src)
    {
      ghost var slot := Bytes();
      ghost var steps := Copying(slot, offset, src);
      for i := 0 to |src|
        invariant mem[..base] == old(mem[..base]) && mem[base + SLOT_SIZE..] == old(mem[base + SLOT_SIZE..])
        invariant Bytes() == Patched(slot, offset, src[..i])
        invariant history == old(history) + steps[..i]
      {
        ghost var before := Bytes();
        mem[base + offset + i] := src[i];
        assert Bytes() == before[offset + i := src[i]];
        PatchNext(slot, offset, src, i);
        history := history + [Bytes()];
      }
      assert src[..|src|] == src;
    }

    method Invalidate()
      requires InBounds()
      modifies mem, this`history
      ensures mem[..base] == old(mem[..base]) && mem[base + SLOT_SIZE..] == old(mem[base + SLOT_SIZE..])
      ensures Bytes() == Invalidated(old(Bytes()))
    {
      Write(0, ALL_ONES);
    }

    /** Header, body and arrival flag first; the slot becomes valid with the very last write. */
    method Update<T>(c: Codec<T>, x: T, pad: seq<byte>)
      requires InBounds() && |pad| == 8 && Fits(c.pack(x))
      modifies mem, this`history
      ensures Bytes() == After(old(Bytes()), c.pack(x), pad, |Image(c.pack(x), pad)| + INT_SIZE)
      ensures mem[..base] == old(mem[..base]) && mem[base + SLOT_SIZE..] == old(mem[base + SLOT_SIZE..])
      ensures history == old(history) + Updating(old(Bytes()), c.pack(x), pad)
    {
      var body := c.pack(x);
      ghost var slot := Bytes();
      UpdateInFourWrites(slot, body, pad);
      WriteImage(body, pad);
      ghost var flagged := Bytes();
      Write(0, ALL_ZEROS);
      ghost var h := Header(|body|, pad);
      ghost var s1 := Patched(slot, INT_SIZE, h);
      ghost var s2 := Patched(s1, BODY, body);
      assert history == old(history) + (Copying(slot, INT_SIZE, h) + Copying(s1, BODY, body)
                          + Copying(s2, BODY + |body|, ALL_ONES) + Copying(flagged, 0, ALL_ZEROS));
    }

    /** Everything but the validity word, at running offsets. */
    method WriteImage(body: seq<byte>, pad: seq<byte>)
      requires InBounds() && |pad| == 8 && Fits(body)
      modifies mem, this`history
      ensures var h := Header(|body|, pad);
              var s1 := Patched(old(Bytes()), INT_SIZE, h);
              var s2 := Patched(s1, BODY, body);
              && Bytes() == Patched(s2, BODY + |body|, ALL_ONES)
              && history == old(history) + (Copying(old(Bytes()), INT_SIZE, h) + Copying(s1, BODY, body)
                              + Copying(s2, BODY + |body|, ALL_ONES))
      ensures mem[..base] == old(mem[..base]) && mem[base + SLOT_SIZE..] == old(mem[base + SLOT_SIZE..])
    {
      var offset := INT_SIZE;
      Write(offset, Header(|body|, pad));
      offset := offset + HEADER_SIZE;
      Write(offset, body);
      offset := offset + |body|;
      Write(offset, ALL_ONES);
    }
  }

  /** The four copies of an update, one after the other, are exactly the states of `After`. */
  lemma UpdateInFourWrites(slot: seq<byte>, body: seq<byte>, pad: seq<byte>)
    requires |slot| == SLOT_SIZE && |pad| == 8 && Fits(body)
    ensures var h := Header(|body|, pad);
            var s1 := Patched(slot, INT_SIZE, h);
            var s2 := Patched(s1, BODY, body);
            var s3 := Patched(s2, BODY + |body|, ALL_ONES);
            && Updating(slot, body, pad)
            == Copying(slot, INT_SIZE, h) + Copying(s1, BODY, body) + Copying(s2, BODY + |body|, ALL_ONES) + Copying(s3, 0, ALL_ZEROS)
            && Patched(s3, 0, ALL_ZEROS) == After(slot, body, pad, |Image(body, pad)| + INT_SIZE)
  {
    var h, m := Header(|body|, pad), Image(body, pad);
    PatchTwice(slot, INT_SIZE, h, body);
    PatchTwice(slot, INT_SIZE, h + body, ALL_ONES);
    CopyTwice(slot, INT_SIZE, h, body);
    CopyTwice(slot, INT_SIZE, h + body, ALL_ONES);
    UpdateInTwoWrites(slot, body, pad);
  }

  lemma UpdateInTwoWrites(slot: seq<byte>, body: seq<byte>, pad: seq<byte>)
    requires |slot| == SLOT_SIZE && |pad| == 8 && Fits(body)
    ensures var m := Image(body, pad);
            var s3 := Patched(slot, INT_SIZE, m);
            && Updating(slot, body, pad) == Copying(slot, INT_SIZE, m) + Copying(s3, 0, ALL_ZEROS)
            && Patched(s3, 0, ALL_ZEROS) == After(slot, body, pad, |m| + INT_SIZE)
  {
    var m := Image(body, pad);
    var s3 := Patched(slot, INT_SIZE, m);
    var states, image, flag := Updating(slot, body, pad), Copying(slot, INT_SIZE, m), Copying(s3, 0, ALL_ZEROS);
    forall i | 0 <= i < |m|
      ensures image[i] == states[i]
    {
      assert image[i] == Patched(slot, INT_SIZE, m[..i + 1]);
    }
    forall i | 0 <= i < INT_SIZE
      ensures flag[i] == states[|m| + i]
    {
      FlagWrites(slot, body, pad, i + 1);
    }
    FlagWrites(slot, body, pad, INT_SIZE);
    assert ALL_ZEROS[..INT_SIZE] == ALL_ZEROS;
    assert states == image + flag;
  }

  lemma FlagWrites(slot: seq<byte>, body: seq<byte>, pad: seq<byte>, n: nat)
    requires |slot| == SLOT_SIZE && |pad| == 8 && Fits(body) && 1 <= n <= INT_SIZE
    ensures var m := Image(body, pad);
            Patched(Patched(slot, INT_SIZE, m), 0, ALL_ZEROS[..n]) == After(slot, body, pad, |m| + n)
  {
    var m := Image(body, pad);
    var s3 := Patched(slot, INT_SIZE, m);
    assert s3[n..] == slot[n..INT_SIZE] + m + slot[INT_SIZE + |m|..];
  }

  /** Started from a quiet slot, no state an update passes through can fool a reader. */
  lemma QuietUpdateIsSafe<T>(c: Codec<T>, slot: seq<byte>, x: T, pad: seq<byte>)
    requires |slot| == SLOT_SIZE && |pad| == 8 && Fits(c.pack(x)) && Quiet(slot)
    requires c.unpack(c.pack(x)) == Some(x)
    ensures forall i :: 0 <= i < |Updating(slot, c.pack(x), pad)| ==>
              Decode(c, Updating(slot, c.pack(x), pad)[i]) in {Waiting, Rejected, Got(x)}
  {
    forall i | 0 <= i < |Updating(slot, c.pack(x), pad)|
      ensures Decode(c, Updating(slot, c.pack(x), pad)[i]) in {Waiting, Rejected, Got(x)}
    {
      QuietUpdateIsNeverTorn(c, slot, x, pad, i + 1);
    }
  }
}
