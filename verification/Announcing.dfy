/** Announcing the receive window: when the peer is told of it unasked or asked, and that it is told once. */
module Announcing {
  import opened Bytes
  import opened Serial
  import opened Kcp
  import opened Wire
  import opened Connection
  import opened ByteRuns
  import opened Acknowledgements
  import opened ProbeRuns
  import opened Receiving

  /** One of the segments asks for the window. */
  predicate Asked(ps: seq<Packet>) {
    exists p :: p in ps && p.cmd == IKCP_CMD_WASK
  }

  lemma AskedMore(p: Packet, ps: seq<Packet>)
    ensures Asked([p] + ps) <==> p.cmd == IKCP_CMD_WASK || Asked(ps)
  {
    var all := [p] + ps;
    assert p in all && forall q :: q in all <==> q == p || q in ps;
  }

  lemma FinishAsksNothing(st: InputState, prevUna: int)
    requires st.k.cfg.mss >= 1
    ensures FinishInput(Bits32, st, prevUna).probe == st.k.probe
  {
    hide GrowCwnd, ParseFastack;
  }

  lemma PacketAsks(k: Kcb, p: Packet)
    ensures var k' := InputPacket(Bits32, k, p);
      k'.probe.askTell == (k.probe.askTell || p.cmd == IKCP_CMD_WASK) && k'.cfg == k.cfg
  {
    hide ApplyUna, ApplyAck, InputPush, SampleRtt;
  }

  lemma {:induction false} InputAsks(st: InputState, b: seq<byte>, prevUna: int)
    requires st.k.cfg.mss >= 1
    ensures InputLoop(st, b, prevUna).0.probe.askTell == (st.k.probe.askTell || Asked(Segments(st.k.cfg.conv, b)))
    decreases |b|
  {
    hide InputPacket, DecodeHeader, FinishInput, Asked;
    if |b| < IKCP_OVERHEAD {
      FinishAsksNothing(st, prevUna);
      NothingAsked();
    } else {
      var (h, len) := DecodeHeader(b);
      var body := b[IKCP_OVERHEAD..];
      if h.conv == st.k.cfg.conv && len <= |body| && I32(len) >= 0 && KnownCmd(h.cmd) {
        var p := h.(data := body[..len]);
        PacketAsks(st.k, p);
        AskedMore(p, Segments(st.k.cfg.conv, body[len..]));
        InputAsks(InputState(InputPacket(Bits32, st.k, p), InputAck(Bits32, st.ack, p)), body[len..], prevUna);
      } else {
        NothingAsked();
      }
    }
  }

  lemma NothingAsked()
    ensures !Asked([])
  {
  }

  /** What an action gives reason to tell the peer: a question in a datagram, or a receive that makes room in a full
      queue. */
  predicate GivesReason(x: End32, wire: seq<seq<byte>>, a: Action)
    requires x.kcb.cfg.mss >= 1
  {
    match a
    case Deliver(i) => i < |wire| && Asked(Segments(x.kcb.cfg.conv, wire[i]))
    case RecvMsg(maxLen) =>
      && Recv(Bits32, x.kcb, maxLen).1.code >= 0
      && |x.kcb.rcv.queue| >= x.kcb.cfg.rcvWnd && |StepEnd32(x, wire, a).kcb.rcv.queue| < x.kcb.cfg.rcvWnd
    case _ => false
  }

  lemma ShortAsks(conv: int, b: seq<byte>)
    ensures |b| < IKCP_OVERHEAD ==> !Asked(Segments(conv, b))
  {
  }

  /** Across any action of the program, in any state: a flush puts out one announcement if there was a reason since
      the last one, and none otherwise; nothing else puts one out, and a reason is kept until then. */
  lemma StepAnnounces(x: End32, wire: seq<seq<byte>>, a: Action)
    requires x.kcb.cfg.mss >= 1
    ensures var pending := StepEnd32(x, wire, a).kcb.probe.askTell;
      if Flushes(x.kcb, a) then
        !pending && CountOf(IKCP_CMD_WINS, FlushedBy(x, a)) == if x.kcb.probe.askTell then 1 else 0
      else
        pending == (x.kcb.probe.askTell || GivesReason(x, wire, a)) && FlushedBy(x, a) == []
  {
    hide InputLoop, Segments, Flush, MoveReady, Tick, Fragments, Asked, CountOf, Recv, Pack;
    match a
    case SendMsg(msg) =>
    case RecvMsg(maxLen) => RecvAnnounces(Bits32, x.kcb, maxLen);
    case Deliver(i) =>
      if i < |wire| {
        InputAsks(InputState(x.kcb, NoAck), wire[i], x.kcb.snd.una);
        ShortAsks(x.kcb.cfg.conv, wire[i]);
      }
    case FlushNow =>
      if x.kcb.clock.updated {
        FlushTellsOnce(Bits32, x.kcb);
      } else {
        IdleFlush(x.kcb);
      }
    case UpdateAt(current) =>
      TickUpdates(x, a);
      if Flushes(x.kcb, a) {
        FlushTellsOnce(Bits32, Flushing(x, a));
      }
  }

  lemma IdleFlush(k: Kcb)
    ensures !k.clock.updated ==> Flush(Bits32, k) == (k, [])
  {
  }
}
