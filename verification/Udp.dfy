/** The session layer as the program runs it: one shared segment buffer, a send loop and a receive loop. */
module Udp {
  import opened Bytes
  import opened Sequences
  import opened Serial
  import opened Kcp
  import opened Channel
  import opened Connection
  import opened ByteRuns
  import opened SegmentLists
  import opened ControlBlock
  import opened Session
  import Wire

  // ---------------------------------------------------------------- the two loops, on values

  /** Sending messages one after another, whatever ikcp_send answers; the last answer counts. */
  function SendAll(k: Kcb, ms: seq<seq<byte>>): (Kcb, int)
    requires k.cfg.mss >= 1
    decreases |ms|
  {
    if ms == [] then (k, 0)
    else
      var (k1, code) := Kcp.Send(k, ms[0]);
      if |ms| == 1 then (k1, code) else SendAll(k1, ms[1..])
  }

  /** The answer of a write is that to its last message: 0, or -2 if that is longer than 127 pieces. */
  lemma {:induction false} SendAllAnswers(k: Kcb, ms: seq<seq<byte>>)
    requires k.cfg.mss >= 1 && ms != []
    ensures SendAll(k, ms).1 == if |ms[|ms| - 1]| <= 127 * k.cfg.mss then 0 else -2
    decreases |ms|
  {
    SendExactly(k, ms[0]);
    if |ms| > 1 {
      hide Kcp.Send;
      SendAllAnswers(Kcp.Send(k, ms[0]).0, ms[1..]);
    }
  }

  /** Everything the receive loop takes. */
  function Drained(w: Width, k: Kcb): (Kcb, seq<seq<byte>>)
    decreases |k.rcv.queue| + |k.rcv.buf|
  {
    var (k1, r) := Recv(w, k, MTU);
    if r.code >= 0 then
      RecvShrinks(w, k);
      var (k2, ms) := Drained(w, k1);
      (k2, [r.data] + ms)
    else (k, [])
  }

  // ---------------------------------------------------------------- and as events

  /** The send loop is the events of a write. */
  lemma {:induction false} SendAllIsSends(x: End32, wire: seq<seq<byte>>, ms: seq<seq<byte>>)
    requires x.kcb.cfg.mss >= 1
    ensures Steps32(x, wire, Sends(ms)).kcb == SendAll(x.kcb, ms).0
    decreases |ms|
  {
    if ms != [] {
      assert Sends(ms)[1..] == Sends(ms[1..]);
      SendAllIsSends(StepEnd32(x, wire, SendMsg(ms[0])), wire, ms[1..]);
    }
  }

  lemma RecvFails(k: Kcb)
    requires Recv(Bits32, k, MTU).1.code < 0
    ensures Recv(Bits32, k, MTU).0 == k
  {
  }

  /** The receive loop is the events of draining. */
  lemma {:induction false} DrainedIsDrain(x: End32, wire: seq<seq<byte>>)
    requires x.kcb.cfg.mss >= 1
    ensures var (k, ms) := Drained(Bits32, x.kcb);
      Steps32(x, wire, Drain(Bits32, x.kcb)) == x.(kcb := k, got := x.got + ms)
    decreases |x.kcb.rcv.queue| + |x.kcb.rcv.buf|
  {
    hide Recv;
    var (k1, r) := Recv(Bits32, x.kcb, MTU);
    var x1 := StepEnd32(x, wire, RecvMsg(MTU));
    if r.code >= 0 {
      RecvShrinks(Bits32, x.kcb);
      DrainedIsDrain(x1, wire);
      assert Drain(Bits32, x.kcb)[1..] == Drain(Bits32, k1);
      ConcatAssoc(x.got, [r.data], Drained(Bits32, k1).1);
    } else {
      RecvFails(x.kcb);
      assert Drain(Bits32, x.kcb)[1..] == [];
      assert x.got + [] == x.got;
    }
  }

  // ---------------------------------------------------------------- the object

  /** What the session callback is given for the messages received; an empty one is passed over. */
  function Handed(ms: seq<seq<byte>>): seq<Delivery> {
    if ms == [] then [] else (if ms[0] != [] then [Parse(ms[0])] else []) + Handed(ms[1..])
  }

  class Udp {
    const kcp: ControlBlock
    const segment: array<byte>
    var delivered: seq<Delivery>

    ghost predicate Valid()
      reads this, kcp, kcp.ackList, kcp.lists, kcp.lists.Repr
    {
      && kcp.Ready() && segment.Length == MTU
      && segment as object != kcp.ackList as object && segment != kcp.buffer
      && segment !in kcp.lists.Repr && this !in kcp.lists.Repr
    }

    constructor (cfg: Cfg)
      requires ValidCfg(cfg)
      ensures Valid() && kcp.State() == Init(cfg) && kcp.output == [] && delivered == []
      ensures fresh(kcp) && fresh(segment) && fresh(kcp.ackList) && fresh(kcp.buffer)
      ensures fresh(kcp.lists) && fresh(kcp.lists.Repr)
    {
      hide Segments.Valid, Init;
      kcp := new ControlBlock(cfg);
      segment := new byte[MTU];
      delivered := [];
    }

    /** Fills in the size field and the data of the segment buffer, and sends it. */
    method SendSegment(sid: int, data: seq<byte>) returns (code: int)
      requires Valid() && |data| <= MAX_PAYLOAD && segment[..4] == ToLE(U32(sid), 4)
      modifies segment, kcp.lists.Repr
      ensures Valid() && segment[..4] == ToLE(U32(sid), 4) && fresh(kcp.lists.Repr - old(kcp.lists.Repr))
      ensures (kcp.State(), code) == Kcp.Send(old(kcp.State()), Frame(sid, data))
    {
      hide Segments.Valid, Kcp.Send, ToLE;
      PutField(segment, 4, |data|, 4);
      PutData(segment, SESSION_HEADER_SIZE, data);
      assert segment[..|data| + SESSION_HEADER_SIZE] == Frame(sid, data);
      assert segment[..4] == Frame(sid, data)[..4];
      code := kcp.Send(segment[..|data| + SESSION_HEADER_SIZE]);
    }

    /** udp::send. */
    method Send(sid: int, buffer: seq<byte>) returns (code: int)
      requires Valid()
      modifies segment, kcp.lists.Repr
      ensures Valid() && fresh(kcp.lists.Repr - old(kcp.lists.Repr))
      ensures (kcp.State(), code) == SendAll(old(kcp.State()), Split(sid, buffer))
    {
      hide Segments.Layout, Kcp.Send, ToLE, Frame;
      PutField(segment, 0, U32(sid), 4);
      assert segment[..0] == [];
      var rest := buffer;
      while |rest| > MAX_PAYLOAD
        invariant Valid() && segment[..4] == ToLE(U32(sid), 4) && fresh(kcp.lists.Repr - old(kcp.lists.Repr))
        invariant SendAll(kcp.State(), Split(sid, rest)) == SendAll(old(kcp.State()), Split(sid, buffer))
        decreases |rest|
      {
        var ignored := SendSegment(sid, rest[..MAX_PAYLOAD]);
        rest := rest[MAX_PAYLOAD..];
      }
      code := SendSegment(sid, rest);
    }

    /** Passes the message in the segment buffer to the session callback, which here records it. */
    method Hand(size: nat)
      requires size <= segment.Length
      modifies this`delivered
      ensures delivered == old(delivered) + Handed([segment[..size]])
    {
      ghost var m := segment[..size];
      assert Handed([m]) == (if m != [] then [Parse(m)] else []) + Handed([]);
      if size > 0 {
        delivered := delivered + [Parse(segment[..size])];
      }
    }

    /** One turn of the receive loop of udp::on_read. */
    method Take() returns (size: int)
      requires Valid()
      modifies this`delivered, segment, kcp, kcp.lists.Repr
      ensures Valid() && kcp.lists.Repr == old(kcp.lists.Repr)
      ensures var (k, r) := Recv(Bits32, old(kcp.State()), MTU);
        kcp.State() == k && size == r.code && delivered == old(delivered) + if size >= 0 then Handed([r.data]) else []
      ensures kcp.output == old(kcp.output) && kcp.buffer == old(kcp.buffer) && kcp.ackList == old(kcp.ackList)
    {
      hide Segments.Layout, Recv, Parse;
      RecvSize(kcp.State());
      var message;
      size, message := kcp.Recv(MTU);
      if size >= 0 {
        PutData(segment, 0, message);
        assert segment[..0] + message == message;
        Hand(size);
      } else {
        assert delivered + [] == delivered;
      }
    }

    /** The receive loop of udp::on_read. */
    method Drain()
      requires Valid()
      modifies this`delivered, segment, kcp, kcp.lists.Repr
      ensures Valid() && kcp.lists.Repr == old(kcp.lists.Repr)
      ensures var (k, ms) := Drained(Bits32, old(kcp.State()));
        kcp.State() == k && delivered == old(delivered) + Handed(ms)
      ensures kcp.output == old(kcp.output) && kcp.buffer == old(kcp.buffer) && kcp.ackList == old(kcp.ackList)
    {
      hide Segments.Layout, ControlBlock.State, Recv, Parse, Handed;
      ghost var all := Drained(Bits32, kcp.State());
      ghost var k := kcp.State();
      var size := 0;
      while size >= 0
        invariant Valid() && kcp.lists.Repr == old(kcp.lists.Repr)
        invariant kcp.output == old(kcp.output) && kcp.buffer == old(kcp.buffer) && kcp.ackList == old(kcp.ackList)
        invariant kcp.State() == k
        invariant size >= 0 ==> Drained(Bits32, k).0 == all.0
        invariant size >= 0 ==> delivered + Handed(Drained(Bits32, k).1) == old(delivered) + Handed(all.1)
        invariant size < 0 ==> k == all.0 && delivered == old(delivered) + Handed(all.1)
        decreases size >= 0, |k.rcv.queue| + |k.rcv.buf|
      {
        DrainedStep(k, delivered);
        size := Take();
        k := Recv(Bits32, k, MTU).0;
      }
    }

    /** udp::on_read. */
    method OnRead(data: seq<byte>)
      requires Valid()
      modifies this`delivered, segment, kcp, kcp.ackList, kcp.lists.Repr
      ensures Valid() && fresh(kcp.lists.Repr - old(kcp.lists.Repr))
      ensures var (k, ms) := Drained(Bits32, Wire.Input(old(kcp.State()), data).0);
        kcp.State() == k && delivered == old(delivered) + Handed(ms)
      ensures kcp.output == old(kcp.output) && kcp.buffer == old(kcp.buffer)
      ensures kcp.ackList == old(kcp.ackList) || fresh(kcp.ackList)
    {
      hide Segments.Layout, Drained, Handed, Wire.Input;
      var ignored := kcp.Input(data);
      Drain();
    }
  }

  /** What one receive takes comes first among what the loop takes. */
  lemma DrainedStep(k: Kcb, before: seq<Delivery>)
    ensures var (k1, r) := Recv(Bits32, k, MTU); var (k2, ms) := Drained(Bits32, k);
      if r.code >= 0 then
        && |k1.rcv.queue| + |k1.rcv.buf| < |k.rcv.queue| + |k.rcv.buf|
        && k2 == Drained(Bits32, k1).0
        && before + Handed(ms) == before + Handed([r.data]) + Handed(Drained(Bits32, k1).1)
      else k1 == k2 == k && before + Handed(ms) == before + []
  {
    hide Recv, Handed;
    var (k1, r) := Recv(Bits32, k, MTU);
    if r.code >= 0 {
      RecvShrinks(Bits32, k);
      HandedMore(r.data, Drained(Bits32, k1).1);
      ConcatAssoc(before, Handed([r.data]), Handed(Drained(Bits32, k1).1));
    } else {
      RecvFails(k);
      HandedNone();
    }
  }

  lemma HandedNone()
    ensures Handed([]) == []
  {
  }

  lemma RecvSize(k: Kcb)
    ensures var r := Recv(Bits32, k, MTU).1; r.code >= 0 ==> r.code == |r.data| <= MTU
  {
    var q := k.rcv.queue;
    if q != [] && q[0].frg == 0 {
      assert q[..1][1..] == [];
      assert Joined(q[..1]) == q[0].data + Joined([]);
    }
  }

  lemma HandedMore(m: seq<byte>, ms: seq<seq<byte>>)
    ensures Handed([m] + ms) == Handed([m]) + Handed(ms)
  {
    assert ([m] + ms)[1..] == ms;
    assert Handed([m]) == (if m != [] then [Parse(m)] else []) + Handed([]);
  }
}
