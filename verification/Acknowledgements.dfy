/** Conservation of acknowledgements: each one that a data segment calls for goes out exactly once, in order. */
module Acknowledgements {
  import opened Bytes
  import opened Sequences
  import opened Serial
  import opened Kcp
  import opened Buffers
  import opened Wire
  import opened Connection
  import opened ByteRuns

  /** The acknowledgements among segments sent, as pairs of number and time stamp. */
  function AcksIn(ps: seq<Packet>): seq<(int, int)> {
    if ps == [] then [] else AckOf(ps[0]) + AcksIn(ps[1..])
  }

  function AckOf(p: Packet): seq<(int, int)> {
    if p.cmd == IKCP_CMD_ACK then [(p.sn, p.ts)] else []
  }

  lemma {:induction false} AcksInConcat(a: seq<Packet>, b: seq<Packet>)
    ensures AcksIn(a + b) == AcksIn(a) + AcksIn(b)
  {
    if a == [] {
      assert a + b == b;
    } else {
      hide AckOf;
      AcksInConcat(a[1..], b);
      assert (a + b)[1..] == a[1..] + b;
      ConcatAssoc(AckOf(a[0]), AcksIn(a[1..]), AcksIn(b));
    }
  }

  lemma {:induction false} NoAcksIn(ps: seq<Packet>)
    requires forall p :: p in ps ==> p.cmd != IKCP_CMD_ACK
    ensures AcksIn(ps) == []
  {
    if ps != [] {
      NoAcksIn(ps[1..]);
    }
  }

  lemma {:induction false} AcksOfAckPackets(k: Kcb, acks: seq<(int, int)>)
    ensures AcksIn(AckPackets(k, acks)) == acks
  {
    if acks != [] {
      AcksOfAckPackets(k, acks[1..]);
    }
  }

  /** A flush sends exactly the pending acknowledgements, in the order they were pushed, and keeps none. */
  lemma FlushSendsAcks(w: Width, k: Kcb)
    ensures AcksIn(Flush(w, k).1) + Flush(w, k).0.rcv.acks == k.rcv.acks
    ensures k.clock.updated ==> Flush(w, k).0.rcv.acks == []
  {
    if k.clock.updated {
      var probe := ProbeWindow(k.probe, k.cong.rmtWnd, k.clock.current);
      var data := FlushBuf(k, FillWindow(w, k, k.snd, SendWindow(k)).buf);
      FlushBufPackets(k, FillWindow(w, k, k.snd, SendWindow(k)).buf);
      AcksOfAckPackets(k, k.rcv.acks);
      NoAcksIn(data.ps);
      NoAcksIn(ProbePackets(k, probe, LastAck(k.rcv.acks)));
      AcksInConcat(AckPackets(k, k.rcv.acks), ProbePackets(k, probe, LastAck(k.rcv.acks)));
      AcksInConcat(ControlPackets(k, probe), data.ps);
      assert k.rcv.acks + [] == k.rcv.acks;
    }
  }

  // ---------------------------------------------------------------- what is owed

  /** The acknowledgement one segment calls for: data before the end of the receive window, old or new. */
  function Owed(w: Width, k: Kcb, p: Packet): seq<(int, int)> {
    if p.cmd == IKCP_CMD_PUSH && SnDiff(w, p.sn, Wrap(w, k.rcv.nxt + k.cfg.rcvWnd)) < 0 then [(p.sn, p.ts)] else []
  }

  /** The segments that ikcp_input takes from the bytes `b`, up to the end or the first bad header. */
  function Segments(conv: int, b: seq<byte>): seq<Packet>
    decreases |b|
  {
    if |b| < IKCP_OVERHEAD then []
    else
      var (h, len) := DecodeHeader(b);
      var body := b[IKCP_OVERHEAD..];
      if h.conv != conv || |body| < len || I32(len) < 0 || !KnownCmd(h.cmd) then []
      else [h.(data := body[..len])] + Segments(conv, body[len..])
  }

  function OwedAll(st: InputState, ps: seq<Packet>): seq<(int, int)>
    decreases |ps|
  {
    if ps == [] then []
    else Owed(Bits32, st.k, ps[0])
         + OwedAll(InputState(InputPacket(Bits32, st.k, ps[0]), InputAck(Bits32, st.ack, ps[0])), ps[1..])
  }

  lemma InputPacketOwes(w: Width, k: Kcb, p: Packet)
    ensures InputPacket(w, k, p).rcv.acks == k.rcv.acks + Owed(w, k, p)
  {
    var acked := k.rcv.(acks := k.rcv.acks + [(p.sn, p.ts)]);
    MoveReadyKeepsAcks(w, acked.(buf := InsertSeg(w, acked.buf, p)), k.cfg.rcvWnd);
  }

  lemma {:induction false} InputLoopOwes(st: InputState, b: seq<byte>, prevUna: int)
    requires st.k.cfg.mss >= 1
    ensures InputLoop(st, b, prevUna).0.rcv.acks == st.k.rcv.acks + OwedAll(st, Segments(st.k.cfg.conv, b))
    decreases |b|
  {
    hide InputPacket, DecodeHeader, Owed;
    if |b| >= IKCP_OVERHEAD {
      var (h, len) := DecodeHeader(b);
      var body := b[IKCP_OVERHEAD..];
      if h.conv == st.k.cfg.conv && len <= |body| && I32(len) >= 0 && KnownCmd(h.cmd) {
        var p := h.(data := body[..len]);
        var st1 := InputState(InputPacket(Bits32, st.k, p), InputAck(Bits32, st.ack, p));
        InputPacketKeepsCfg(st.k, p);
        InputPacketOwes(Bits32, st.k, p);
        InputLoopOwes(st1, body[len..], prevUna);
        ConcatAssoc(st.k.rcv.acks, Owed(Bits32, st.k, p), OwedAll(st1, Segments(st1.k.cfg.conv, body[len..])));
      }
    }
  }

  lemma InputPacketKeepsCfg(k: Kcb, p: Packet)
    ensures InputPacket(Bits32, k, p).cfg == k.cfg
  {
  }

  /** What an action makes the endpoint owe. */
  function OwedBy(x: End32, wire: seq<seq<byte>>, a: Action): seq<(int, int)> {
    if a.Deliver? && a.i < |wire| then OwedAll(InputState(x.kcb, NoAck), Segments(x.kcb.cfg.conv, wire[a.i])) else []
  }

  /** Everything the endpoint on `side` has come to owe, oldest first. */
  function Debt(ca: Cfg, cb: Cfg, es: seq<Event>, side: Side): seq<(int, int)>
    requires Compatible(ca, cb)
  {
    if es == [] then []
    else
      var front, e := es[..|es| - 1], es[|es| - 1];
      var n := Run32(Start32(ca, cb), front);
      Debt(ca, cb, front, side)
      + if e.side == side then OwedBy(EndOf(n, side), EndOf(n, Other(side)).out, e.action) else []
  }

  /** What has gone out in the datagrams `ds`, followed by what is still pending. */
  function Paid(ds: seq<seq<Packet>>, k: Kcb): seq<(int, int)> {
    AcksIn(Flatten(ds)) + k.rcv.acks
  }

  lemma NothingIn()
    ensures AcksIn([]) == []
  {
  }

  lemma FlushPays(ds: seq<seq<Packet>>, mtu: int, ps: seq<Packet>, pending: seq<(int, int)>, left: seq<(int, int)>)
    requires AcksIn(ps) + left == pending
    ensures AcksIn(Flatten(ds + Pack(mtu, [], ps))) + left == AcksIn(Flatten(ds)) + pending
  {
    hide AcksIn, Flatten, Pack;
    PackFlattens(mtu, [], ps);
    assert [] + ps == ps;
    FlattenConcat(ds, Pack(mtu, [], ps));
    AcksInConcat(Flatten(ds), ps);
    ConcatAssoc(AcksIn(Flatten(ds)), AcksIn(ps), left);
  }

  /** Across any action: what is flushed and left pending is what was pending and what the action made owing. */
  lemma StepOwes(x: End32, wire: seq<seq<byte>>, a: Action)
    requires x.kcb.cfg.mss >= 1
    ensures AcksIn(FlushedBy(x, a)) + StepEnd32(x, wire, a).kcb.rcv.acks == x.kcb.rcv.acks + OwedBy(x, wire, a)
  {
    hide AcksIn, OwedAll, Flush, MoveReady, InputLoop, Segments;
    NothingIn();
    match a
    case SendMsg(msg) =>
    case RecvMsg(maxLen) =>
      var r := x.kcb.rcv;
      MoveReadyKeepsAcks(Bits32, r, x.kcb.cfg.rcvWnd);
      MoveReadyKeepsAcks(Bits32, r.(queue := r.queue[MsgNodes(r.queue)..]), x.kcb.cfg.rcvWnd);
    case Deliver(i) =>
      if i < |wire| {
        InputLoopOwes(InputState(x.kcb, NoAck), wire[i], x.kcb.snd.una);
        ShortInput(x.kcb, wire[i]);
      }
    case FlushNow => FlushSendsAcks(Bits32, x.kcb);
    case UpdateAt(current) => FlushSendsAcks(Bits32, Flushing(x, a));
  }

  lemma ShortInput(k: Kcb, b: seq<byte>)
    ensures |b| < IKCP_OVERHEAD ==> OwedAll(InputState(k, NoAck), Segments(k.cfg.conv, b)) == []
  {
  }

  /** In every run of the program the acknowledgements on the wire followed by those pending are exactly the ones that
      data segments called for: none is dropped, repeated or out of order. */
  lemma {:induction false} AcksGoOutOnce(ca: Cfg, cb: Cfg, es: seq<Event>, side: Side)
    requires Compatible(ca, cb)
    ensures Paid(Packed(ca, cb, es, side), EndOf(Run32(Start32(ca, cb), es), side).kcb) == Debt(ca, cb, es, side)
  {
    if es != [] {
      hide AcksIn, Flatten, StepEnd32, OwedBy, FlushedBy, Pack;
      var front, e := es[..|es| - 1], es[|es| - 1];
      AcksGoOutOnce(ca, cb, front, side);
      if e.side == side {
        var n := Run32(Start32(ca, cb), front);
        var x, wire, ds := EndOf(n, side), EndOf(n, Other(side)).out, Packed(ca, cb, front, side);
        var x', owed := StepEnd32(x, wire, e.action), OwedBy(x, wire, e.action);
        StepOwes(x, wire, e.action);
        FlushPays(ds, x.kcb.cfg.mtu, FlushedBy(x, e.action), x.kcb.rcv.acks + owed, x'.kcb.rcv.acks);
        ConcatAssoc(AcksIn(Flatten(ds)), x.kcb.rcv.acks, owed);
      } else {
        assert Packed(ca, cb, es, side) == Packed(ca, cb, front, side);
        assert Debt(ca, cb, es, side) == Debt(ca, cb, front, side);
      }
    } else {
      NothingIn();
    }
  }
}
