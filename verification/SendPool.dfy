/**
 The ten send buffers of a verbs connection. A buffer is free, held by a caller, posted to the
 adapter, or completed but not yet polled. The adapter completes posted work in order and
 transmits what the buffer holds at that moment.
 */
module SendPool {
  type byte = bv8

  const PACKET_SIZE := 2560
  const WINDOW := 10
  const ALL := multiset{0 as nat, 1, 2, 3, 4, 5, 6, 7, 8, 9}

  function Blank(): (z: seq<byte>)
    ensures |z| == PACKET_SIZE && forall i :: 0 <= i < PACKET_SIZE ==> z[i] == 0
  {
    seq(PACKET_SIZE, _ => 0)
  }

  /** What a message looks like on the wire: its bytes, then zeros up to the packet size. */
  function Packet(msg: seq<byte>): (p: seq<byte>)
    requires |msg| <= PACKET_SIZE
    ensures |p| == PACKET_SIZE && p[..|msg|] == msg && forall i :: |msg| <= i < |p| ==> p[i] == 0
  {
    msg + seq(PACKET_SIZE - |msg|, _ => 0)
  }

  /** `push_back` of a circular buffer: on a full one it overwrites the front. */
  function PushBack(s: seq<nat>, x: nat): seq<nat> {
    if |s| < WINDOW then s + [x] else s[1..] + [x]
  }

  /** It keeps the last ten of all that was pushed. */
  lemma PushBackKeepsTheLast(s: seq<nat>, x: nat)
    requires |s| <= WINDOW
    ensures var r := PushBack(s, x); |r| == (if |s| < WINDOW then |s| + 1 else WINDOW) && r == (s + [x])[|s| + 1 - |r|..]
  {
  }

  // ---- where the buffers are ---------------------------------------------------------------

  function Copies(s: seq<nat>, b: nat): nat {
    multiset(s)[b]
  }

  /** Every buffer is in exactly one place. */
  ghost predicate Partition(free: seq<nat>, held: seq<nat>, completed: seq<nat>, posted: seq<nat>) {
    forall b: nat :: Copies(free, b) + Copies(held, b) + Copies(completed, b) + Copies(posted, b) == if b < WINDOW then 1 else 0
  }

  lemma InIffCopies(s: seq<nat>, b: nat)
    ensures b in s <==> Copies(s, b) > 0
  {
    assert b in s <==> b in multiset(s);
  }

  lemma Apart(free: seq<nat>, held: seq<nat>, completed: seq<nat>, posted: seq<nat>, b: nat)
    requires Partition(free, held, completed, posted)
    ensures b in free || b in held || b in completed || b in posted <==> b < WINDOW
    ensures b in free ==> b !in held && b !in completed && b !in posted
    ensures b in held ==> b !in completed && b !in posted
    ensures b in completed ==> b !in posted
  {
    InIffCopies(free, b);
    InIffCopies(held, b);
    InIffCopies(completed, b);
    InIffCopies(posted, b);
  }

  lemma TwoCopies(s: seq<nat>, i: nat, j: nat)
    requires i < j < |s|
    ensures s[i] == s[j] ==> Copies(s, s[i]) >= 2
  {
    assert s == s[..j] + s[j..];
    InIffCopies(s[..j], s[i]);
    InIffCopies(s[j..], s[j]);
    assert s[..j][i] == s[i] && s[j..][0] == s[j];
  }

  lemma NoRepeats(free: seq<nat>, held: seq<nat>, completed: seq<nat>, posted: seq<nat>, i: nat, j: nat)
    requires Partition(free, held, completed, posted) && i < j < |posted|
    ensures posted[i] != posted[j]
  {
    TwoCopies(posted, i, j);
    assert Copies(posted, posted[i]) <= 1;
  }

  /** The places together hold ten buffers, so the circular buffer never has to overwrite one. */
  lemma TenBuffers(free: seq<nat>, held: seq<nat>, completed: seq<nat>, posted: seq<nat>)
    requires Partition(free, held, completed, posted)
    ensures |free| + |held| + |completed| + |posted| == WINDOW
  {
    var all := multiset(free) + multiset(held) + multiset(completed) + multiset(posted);
    forall b: nat
      ensures all[b] == ALL[b]
    {
      assert all[b] == Copies(free, b) + Copies(held, b) + Copies(completed, b) + Copies(posted, b);
    }
    assert all == ALL && |ALL| == WINDOW;
  }

  /** Cutting a sequence in two, or in three, loses no copy. */
  lemma CopiesOfParts(s: seq<nat>, n: nat, b: nat)
    requires n <= |s|
    ensures Copies(s[..n], b) + Copies(s[n..], b) == Copies(s, b)
  {
    assert s == s[..n] + s[n..];
  }

  lemma Completes(free: seq<nat>, held: seq<nat>, completed: seq<nat>, posted: seq<nat>)
    requires Partition(free, held, completed, posted) && posted != []
    ensures Partition(free, held, completed + [posted[0]], posted[1..])
  {
    forall b: nat
      ensures Copies(completed + [posted[0]], b) + Copies(posted[1..], b) == Copies(completed, b) + Copies(posted, b)
    {
      CopiesOfParts(posted, 1, b);
      CopiesOfSum(completed, posted[..1], b);
      assert posted[..1] == [posted[0]];
    }
  }

  lemma TakesFront(free: seq<nat>, held: seq<nat>, completed: seq<nat>, posted: seq<nat>)
    requires Partition(free, held, completed, posted) && free != []
    ensures Partition(free[1..], held + [free[0]], completed, posted)
  {
    forall b: nat
      ensures Copies(free[1..], b) + Copies(held + [free[0]], b) == Copies(free, b) + Copies(held, b)
    {
      CopiesOfParts(free, 1, b);
      CopiesOfSum(held, free[..1], b);
      assert free[..1] == [free[0]];
    }
  }

  lemma PolledBatch(free: seq<nat>, held: seq<nat>, completed: seq<nat>, posted: seq<nat>, batch: nat)
    requires Partition(free, held, completed, posted) && 1 <= batch <= |completed|
    ensures Partition(completed[1..batch] + free, held + [completed[0]], completed[batch..], posted)
  {
    forall b: nat
      ensures Copies(completed[1..batch] + free, b) + Copies(held + [completed[0]], b) + Copies(completed[batch..], b)
              == Copies(free, b) + Copies(held, b) + Copies(completed, b)
    {
      CopiesOfParts(completed, batch, b);
      CopiesOfParts(completed[..batch], 1, b);
      assert completed[..batch][..1] == [completed[0]] && completed[..batch][1..] == completed[1..batch];
      CopiesOfSum(completed[1..batch], free, b);
      CopiesOfSum(held, [completed[0]], b);
    }
  }

  lemma ThrownAway(free: seq<nat>, held: seq<nat>, completed: seq<nat>, posted: seq<nat>, n: nat)
    requires Partition(free, held, completed, posted) && n <= |completed|
    ensures Partition(free + completed[..n], held, completed[n..], posted)
  {
    forall b: nat
      ensures Copies(free + completed[..n], b) + Copies(completed[n..], b) == Copies(free, b) + Copies(completed, b)
    {
      CopiesOfParts(completed, n, b);
      CopiesOfSum(free, completed[..n], b);
    }
  }

  lemma Posts(free: seq<nat>, held: seq<nat>, completed: seq<nat>, posted: seq<nat>, i: nat)
    requires Partition(free, held, completed, posted) && i < |held|
    ensures Partition(free, held[..i] + held[i + 1..], completed, posted + [held[i]])
  {
    forall b: nat
      ensures Copies(held[..i] + held[i + 1..], b) + Copies(posted + [held[i]], b) == Copies(held, b) + Copies(posted, b)
    {
      CopiesOfParts(held, i, b);
      CopiesOfParts(held[i..], 1, b);
      assert held[i..][..1] == [held[i]] && held[i..][1..] == held[i + 1..];
      CopiesOfSum(held[..i], held[i + 1..], b);
      CopiesOfSum(posted, [held[i]], b);
    }
  }

  lemma CopiesOfSum(s: seq<nat>, t: seq<nat>, b: nat)
    ensures Copies(s + t, b) == Copies(s, b) + Copies(t, b)
  {
  }

  /** Posted buffers hold, in order, the packets that are not on the wire yet. */
  ghost predicate InFlight(mem: seq<seq<byte>>, wire: seq<seq<byte>>, messages: seq<seq<byte>>, posted: seq<nat>) {
    && |messages| == |wire| + |posted| && wire == messages[..|wire|]
    && (forall i :: 0 <= i < |posted| ==> posted[i] < |mem| && mem[posted[i]] == messages[|wire| + i])
  }

  lemma HeadGoesOut(mem: seq<seq<byte>>, wire: seq<seq<byte>>, messages: seq<seq<byte>>, posted: seq<nat>)
    requires InFlight(mem, wire, messages, posted) && posted != []
    ensures mem[posted[0]] == messages[|wire|]
    ensures InFlight(mem, wire + [mem[posted[0]]], messages, posted[1..])
  {
  }

  class SendPool {
    var sendBufs: seq<nat>
    ghost var held: seq<nat>
    /** Buffers that closing polled and threw away; they are in no other place. */
    ghost var lost: seq<nat>
    var posted: seq<nat>
    var completed: seq<nat>
    var mem: seq<seq<byte>>
    /** Packets on the wire, and every packet ever posted. */
    var wire: seq<seq<byte>>
    ghost var messages: seq<seq<byte>>

    ghost predicate Valid()
      reads this
    {
      && |mem| == WINDOW && (forall b :: 0 <= b < WINDOW ==> |mem[b]| == PACKET_SIZE)
      && Partition(sendBufs + lost, held, completed, posted) && InFlight(mem, wire, messages, posted)
    }

    constructor ()
      ensures Valid() && |sendBufs| == WINDOW && held == posted == completed == lost == [] && wire == messages == []
    {
      held, posted, completed, lost, wire, messages := [], [], [], [], [], [];
      mem := seq(WINDOW, _ => Blank());
      sendBufs := [];
      new;
      for i: nat := 0 to WINDOW
        invariant |sendBufs| == i && forall b: nat :: Copies(sendBufs, b) == if b < i then 1 else 0
        invariant held == posted == completed == lost == [] && wire == messages == [] && mem == seq(WINDOW, _ => Blank())
      {
        forall b: nat {
          CopiesOfSum(sendBufs, [i], b);
        }
        sendBufs := PushBack(sendBufs, i);
      }
      assert sendBufs + lost == sendBufs;
    }

    /** The adapter finishes its oldest piece of work. */
    method Complete()
      requires Valid() && posted != []
      modifies this`completed, this`posted, this`wire
      ensures Valid() && sendBufs == old(sendBufs) && held == old(held) && lost == old(lost) && mem == old(mem) && messages == old(messages)
      ensures completed == old(completed) + [old(posted)[0]] && posted == old(posted)[1..]
      ensures wire == old(wire) + [old(messages)[|old(wire)|]]
    {
      Completes(sendBufs + lost, held, completed, posted);
      HeadGoesOut(mem, wire, messages, posted);
      wire := wire + [mem[posted[0]]];
      completed := completed + [posted[0]];
      posted := posted[1..];
    }

    /** The completions one poll yields: the `n` oldest. */
    method Poll(n: nat) returns (wc: seq<nat>)
      requires n <= |completed|
      modifies this`completed
      ensures wc == old(completed)[..n] && completed == old(completed)[n..]
    {
      wc := completed[..n];
      completed := completed[n..];
    }

    /** Waits for a poll that yields `batch` completions; keeps all but the first for the pool. */
    method Refill(batch: nat) returns (buf: nat)
      requires Valid() && sendBufs == [] && 1 <= batch <= |completed| && batch <= WINDOW
      modifies this`sendBufs, this`held, this`completed
      ensures Valid() && buf < WINDOW && buf !in posted && buf !in old(held) && held == old(held) + [buf]
      ensures |sendBufs| == batch - 1 && old(completed) == [buf] + sendBufs + completed
    {
      ghost var c := completed;
      assert sendBufs + lost == lost;
      Apart(lost, held, c, posted, c[0]);
      PolledBatch(lost, held, c, posted, batch);
      var wc := Poll(batch);
      for i := 1 to batch
        invariant sendBufs == wc[1..i] && held == old(held) && completed == c[batch..]
      {
        sendBufs := PushBack(sendBufs, wc[i]);
      }
      assert sendBufs == c[1..batch];
      buf := wc[0];
      held := held + [buf];
      assert c == [buf] + sendBufs + completed;
    }

    method TakeFree() returns (buf: nat)
      requires Valid() && sendBufs != []
      modifies this`sendBufs, this`held
      ensures Valid() && buf < WINDOW && buf !in posted && buf !in old(held) && held == old(held) + [buf]
      ensures old(sendBufs) == [buf] + sendBufs
    {
      Apart(sendBufs + lost, held, completed, posted, sendBufs[0]);
      TakesFront(sendBufs + lost, held, completed, posted);
      assert (sendBufs + lost)[1..] == sendBufs[1..] + lost;
      buf := sendBufs[0];
      sendBufs := sendBufs[1..];
      held := held + [buf];
    }

    /**
     Hands a cleared buffer to the caller: a free one, or else the first that a poll yields.
     It is never a posted one, so nothing in flight is touched.
     */
    method GetSendBuf(batch: nat) returns (buf: nat)
      requires Valid() && (sendBufs == [] ==> 1 <= batch <= |completed| && batch <= WINDOW)
      modifies this`sendBufs, this`held, this`completed, this`mem
      ensures Valid() && buf < WINDOW && buf !in posted && buf !in old(held)
      ensures held == old(held) + [buf] && mem == old(mem)[buf := Blank()]
      ensures old(sendBufs) != [] ==> old(sendBufs) == [buf] + sendBufs && completed == old(completed)
      ensures old(sendBufs) == [] ==> old(completed) == [buf] + sendBufs + completed && |sendBufs| == batch - 1
    {
      if sendBufs == [] {
        buf := Refill(batch);
      } else {
        buf := TakeFree();
      }
      mem := mem[buf := Blank()];
    }

    /** Gives the whole buffer to the adapter; `i` says where the caller keeps it. */
    method PostSend(buf: nat, ghost i: nat)
      requires Valid() && i < |held| && held[i] == buf
      modifies this`held, this`posted, this`messages
      ensures Valid() && buf < WINDOW && held == old(held)[..i] + old(held)[i + 1..]
      ensures posted == old(posted) + [buf] && messages == old(messages) + [mem[buf]]
    {
      Apart(sendBufs + lost, held, completed, posted, buf);
      Posts(sendBufs + lost, held, completed, posted, i);
      held := held[..i] + held[i + 1..];
      posted := posted + [buf];
      messages := messages + [mem[buf]];
    }

    /** Appends to the cleared buffer that was handed out last, and posts it. */
    method FillAndPost(buf: nat, msg: seq<byte>, ghost before: seq<nat>)
      requires Valid() && held == before + [buf] && |msg| <= PACKET_SIZE && buf < |mem| && mem[buf] == Blank()
      modifies this`held, this`posted, this`messages, this`mem
      ensures Valid() && held == before && posted == old(posted) + [buf] && messages == old(messages) + [Packet(msg)]
    {
      assert held[|before|] == buf;
      Apart(sendBufs + lost, held, completed, posted, buf);
      mem := mem[buf := msg + mem[buf][|msg|..]];
      assert mem[buf] == Packet(msg);
      PostSend(buf, |before|);
    }

    /** Sends a header and a body; the process exits (`ok` is false) when they do not fit one packet. */
    method SendMsg(header: seq<byte>, body: seq<byte>, batch: nat) returns (ok: bool)
      requires Valid() && (sendBufs == [] ==> 1 <= batch <= |completed| && batch <= WINDOW)
      modifies this`sendBufs, this`held, this`completed, this`mem, this`posted, this`messages
      ensures ok <==> |header| + |body| <= PACKET_SIZE
      ensures ok ==> Valid() && held == old(held) && messages == old(messages) + [Packet(header + body)]
      ensures ok ==> |posted| == |old(posted)| + 1 && posted[..|posted| - 1] == old(posted)
    {
      ghost var before := held;
      var buf := GetSendBuf(batch);
      ok := |header| + |body| <= PACKET_SIZE;
      if ok {
        FillAndPost(buf, header + body, before);
      }
    }

    /** Polls once more and drops what the poll yields. */
    method ThrowAway(n: nat) returns (wc: seq<nat>)
      requires Valid() && n <= |completed|
      modifies this`completed, this`lost
      ensures Valid() && wc == old(completed)[..n] && completed == old(completed)[n..] && lost == old(lost) + wc
    {
      ThrownAway(sendBufs + lost, held, completed, posted, n);
      assert sendBufs + lost + completed[..n] == sendBufs + (lost + completed[..n]);
      wc := Poll(n);
      lost := lost + wc;
    }

    /** Waits for one completion, and drops it. */
    method AwaitOne() returns (done: nat)
      requires Valid() && completed + posted != []
      modifies this`completed, this`posted, this`wire, this`lost
      ensures Valid() && done == (old(completed) + old(posted))[0] && lost == old(lost) + [done]
    {
      if completed == [] {
        Complete();
      }
      var wc := ThrowAway(1);
      done := wc[0];
    }

    /** Some more work finishes, in order. */
    method CompleteSome(n: nat)
      requires Valid() && n <= |posted|
      modifies this`completed, this`posted, this`wire
      ensures Valid() && completed + posted == old(completed + posted) && |posted| == |old(posted)| - n
    {
      for i := 0 to n
        invariant Valid() && |posted| == |old(posted)| - i && completed + posted == old(completed + posted)
      {
        ghost var c, p := completed, posted;
        Complete();
        assert c + [p[0]] + p[1..] == c + p;
      }
    }

    /**
     Closing polls without waiting (`drop` completions, `arrive` of the posted ones having finished
     by then), posts the close packet, and waits for one completion. That completion is the close
     packet's own exactly when the polls took everything that was outstanding; and what the last
     two polls yield never returns to the pool.
     */
    method SendClose(header: seq<byte>, batch: nat, arrive: nat, drop: nat) returns (buf: nat, confirmed: nat)
      requires Valid() && |header| <= PACKET_SIZE && (sendBufs == [] ==> 1 <= batch <= |completed| && batch <= WINDOW)
      requires arrive <= |posted| && drop <= WINDOW && drop + (if sendBufs == [] then batch else 0) <= |completed| + arrive
      modifies this
      ensures Valid() && held == old(held) && messages == old(messages) + [Packet(header)]
      ensures |lost| == |old(lost)| + drop + 1
      ensures confirmed == buf <==>
                drop + (if old(sendBufs) == [] then batch else 0) == |old(completed)| + |old(posted)|
    {
      ghost var before := held;
      buf := GetSendBuf(batch);
      CompleteSome(arrive);
      var dropped := ThrowAway(drop);
      assert held[|before|] == buf;
      Apart(sendBufs + lost, held, completed, posted, buf);
      FillAndPost(buf, header, before);
      confirmed := AwaitOne();
    }
  }
}
