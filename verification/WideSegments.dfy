/** A run in which the congestion window and its byte count come apart: two segments, of a size no datagram has, and
    their acknowledgements. */
module WideSegments {
  import opened Serial
  import opened Kcp
  import opened Wire
  import opened Connection
  import opened Congestion

  const MSS: int := TWO31 - 25

  const WIDE: Cfg := Cfg(0, TWO31 - 1, MSS, 128, 128, 100, true, 30, 0, 5, true, 20)

  const LATE: Clock := Clock(0, 100, true)

  const IDLE: Probe := Probe(false, false, 0, 0)

  function Sent(sn: int): SndSeg {
    SndSeg(0, [], 128, 0, sn, 0, 200, 200, 0, 1)
  }

  function Push(sn: int): Packet {
    Packet(0, IKCP_CMD_PUSH, 0, 128, 0, sn, 0, [])
  }

  function Ack(sn: int): Packet {
    Packet(0, IKCP_CMD_ACK, 0, 127 - sn, 0, sn, sn + 1, [])
  }

  /** The sender with the first `n` segments out and `queue` waiting. */
  function Sender(buf: seq<SndSeg>, queue: seq<Frag>, clock: Clock, cong: Cong): Kcb {
    Kcb(WIDE, Snd(0, |buf|, queue, buf), Rcv(0, [], [], []), cong, Rtt(0, 0, 200), IDLE, clock, false, 0)
  }

  function Receiver(queue: seq<Frag>, acks: seq<(int, int)>, clock: Clock, cong: Cong): Kcb {
    Kcb(WIDE, Snd(0, 0, [], []), Rcv(|queue|, [], queue, acks), cong, Rtt(0, 0, 200), IDLE, clock, false, 0)
  }

  const ONE: Cong := Cong(128, 1, MSS, 2)

  const E: Frag := Frag(0, [])

  lemma TimesAre()
    ensures TimeDiff(0, 0) == 0 && TimeDiff(0, 100) == -100 && TimeDiff(0, 200) == -200
    ensures U32(100) == 100 && U32(200) == 200 && U32(1) == 1
  {
  }

  lemma SendOne(k: Kcb)
    requires k.cfg == WIDE
    ensures Send(k, []) == (k.(snd := k.snd.(queue := k.snd.queue + [E])), 0)
  {
    assert FragCount(0, MSS) == 1;
    assert Fragments([], MSS, 0) == [];
    assert Fragments([], MSS, 1) == [E];
  }

  function Unsent(sn: int): SndSeg {
    SndSeg(0, [], 128, 0, sn, 0, 0, 200, 0, 0)
  }

  predicate AtZero(k: Kcb) {
    k.cfg == WIDE && k.clock.current == 0 && k.rtt.rto == 200 && k.rcv.queue == [] && k.rcv.nxt == 0
  }

  /** The one segment waiting is numbered. */
  lemma NumbersOne(k: Kcb)
    requires AtZero(k) && k.snd.una == 0 && k.snd.queue == [E] && 0 <= k.snd.nxt < 100 && k.cong.rmtWnd == 128
    ensures SendWindow(k) == 128
    ensures FillWindow(Unbounded, k, k.snd, 128) == Snd(0, k.snd.nxt + 1, [], k.snd.buf + [Unsent(k.snd.nxt)])
  {
    var s := NumberOne(Unbounded, k, k.snd);
    assert [E][1..] == [];
    assert s == Snd(0, k.snd.nxt + 1, [], k.snd.buf + [Unsent(k.snd.nxt)]);
    assert FillWindow(Unbounded, k, s, 128) == s;
  }

  /** It is sent. */
  lemma SendsOne(k: Kcb, sn: int)
    requires AtZero(k)
    ensures FlushOne(k, Unsent(sn)) == FlushOut([Sent(sn)], [Push(sn)], false, false, false, 0)
  {
    TimesAre();
    hide U32, TimeDiff;
  }

  /** One that was sent just now is not sent again. */
  lemma KeepsOne(k: Kcb, sn: int)
    requires AtZero(k)
    ensures FlushOne(k, Sent(sn)) == FlushOut([Sent(sn)], [], false, false, false, 0)
  {
    TimesAre();
    hide U32, TimeDiff;
  }

  lemma OneDatagram(p: Packet)
    requires p.data == []
    ensures Pack(WIDE.mtu, [], [p]) == [[p]]
  {
    SizeOfOne(p);
    assert [p][1..] == [] && [] + [p] == [p];
  }

  lemma Quiet(k: Kcb)
    requires k.rcv.acks == [] && k.probe == IDLE && k.cong.rmtWnd == 128
    ensures ProbeWindow(k.probe, k.cong.rmtWnd, k.clock.current) == IDLE && ControlPackets(k, IDLE) == []
  {
  }

  lemma FlushesFirst(k: Kcb)
    requires k == Sender([], [E], LATE, Cong(128, 0, 0, 2))
    ensures Flush(Unbounded, k) == (Sender([Sent(0)], [], LATE, ONE), [Push(0)])
  {
    Quiet(k);
    NumbersOne(k);
    SendsOne(k, 0);
    hide FlushOne, FillWindow, ControlPackets, ProbeWindow, SendWindow, FlushBuf;
    FlushBufOne(k, Unsent(0));
    assert [] + [Unsent(0)] == [Unsent(0)] && [] + [Push(0)] == [Push(0)];
  }

  lemma FlushBufOne(k: Kcb, s: SndSeg)
    ensures FlushBuf(k, [s]) == FlushOne(k, s)
  {
    hide FlushOne;
    var one := FlushOne(k, s);
    assert [s][1..] == [];
    assert one.buf + [] == one.buf && one.ps + [] == one.ps;
    assert Join(one, NOTHING) == one;
  }

  lemma FlushBufTwo(k: Kcb, s: SndSeg, t: SndSeg)
    ensures FlushBuf(k, [s, t]) == Join(FlushOne(k, s), FlushOne(k, t))
  {
    hide FlushOne;
    assert [s, t][1..] == [t];
    FlushBufOne(k, t);
  }

  lemma FlushesSecond(k: Kcb)
    requires k == Sender([Sent(0)], [E], LATE, ONE)
    ensures Flush(Unbounded, k) == (Sender([Sent(0), Sent(1)], [], LATE, ONE), [Push(1)])
  {
    Quiet(k);
    NumbersOne(k);
    KeepsOne(k, 0);
    SendsOne(k, 1);
    hide FlushOne, FillWindow, ControlPackets, ProbeWindow, SendWindow, FlushBuf, Sent, Unsent, Push;
    FlushBufTwo(k, Sent(0), Unsent(1));
    assert [Sent(0)] + [Unsent(1)] == [Sent(0), Unsent(1)];
    assert [] + ([] + [Push(1)]) == [Push(1)] && [Sent(0)] + [Sent(1)] == [Sent(0), Sent(1)];
  }

  // ---------------------------------------------------------------- the sender sends two segments

  lemma SendStep(x: End, wire: seq<seq<Packet>>, buf: seq<SndSeg>, clock: Clock, cong: Cong)
    requires x.kcb == Sender(buf, [], clock, cong)
    ensures StepEnd(x, wire, SendMsg([])) == x.(kcb := Sender(buf, [E], clock, cong), sent := x.sent + [[]])
  {
    SendOne(x.kcb);
    hide Send;
    assert [] + [E] == [E];
  }

  lemma FlushStep(x: End, wire: seq<seq<Packet>>, k: Kcb, p: Packet)
    requires x.kcb.cfg == WIDE && Flush(Unbounded, x.kcb) == (k, [p]) && p.data == [] && k.cfg == WIDE
    ensures StepEnd(x, wire, FlushNow) == x.(kcb := k, out := x.out + [[p]])
  {
    hide Flush, Pack;
    OneDatagram(p);
  }

  lemma FirstTick()
    ensures U32(0) == 0 && Tick(Clock(0, 100, false), 100, 0) == (LATE, true)
  {
    TimesAre();
    hide TimeDiff, U32;
  }

  /** The first call of ikcp_update, at time 0. */
  lemma UpdateStep(x: End, wire: seq<seq<Packet>>, k: Kcb, p: Packet)
    requires x.kcb.cfg == WIDE && x.kcb.clock == Clock(0, 100, false)
    requires Flush(Unbounded, x.kcb.(clock := LATE)) == (k, [p]) && p.data == [] && k.cfg == WIDE
    ensures StepEnd(x, wire, UpdateAt(0)) == x.(kcb := k, out := x.out + [[p]])
  {
    hide Flush, Pack, Tick, U32, TimeDiff;
    FirstTick();
    OneDatagram(p);
  }

  const PACKETS: seq<seq<Packet>> := [[Push(0)], [Push(1)]]

  const SENDER: End := End(Sender([Sent(0), Sent(1)], [], LATE, ONE), [[], []], [], PACKETS)

  /** Four actions of a fresh end. */
  function Four(wire: seq<seq<Packet>>, a: seq<Action>): End
    requires |a| == 4
  {
    StepEnd(StepEnd(StepEnd(StepEnd(Fresh(WIDE), wire, a[0]), wire, a[1]), wire, a[2]), wire, a[3])
  }

  const SENDS: seq<Action> := [SendMsg([]), UpdateAt(0), SendMsg([]), FlushNow]

  lemma Sends(wire: seq<seq<Packet>>)
    ensures Four(wire, SENDS) == SENDER
  {
    var x0 := Fresh(WIDE);
    var cold, zero := Clock(0, 100, false), Cong(128, 0, 0, 2);
    assert x0.kcb == Sender([], [], cold, zero);
    SendStep(x0, wire, [], cold, zero);
    FlushesFirst(Sender([], [E], LATE, zero));
    hide StepEnd, Flush, Init;
    var x1 := End(Sender([], [E], cold, zero), [] + [[]], [], []);
    UpdateStep(x1, wire, Sender([Sent(0)], [], LATE, ONE), Push(0));
    var x2 := End(Sender([Sent(0)], [], LATE, ONE), [] + [[]], [], [] + [[Push(0)]]);
    SendStep(x2, wire, [Sent(0)], LATE, ONE);
    FlushesSecond(Sender([Sent(0)], [E], LATE, ONE));
    var x3 := x2.(kcb := Sender([Sent(0)], [E], LATE, ONE), sent := x2.sent + [[]]);
    FlushStep(x3, wire, Sender([Sent(0), Sent(1)], [], LATE, ONE), Push(1));
  }

  // ---------------------------------------------------------------- the receiver acknowledges each by itself

  lemma Delivers(k: Kcb, q: seq<Frag>, clock: Clock, c: Cong)
    requires k == Receiver(q, [], clock, c) && c.rmtWnd == 128 && |q| < 100
    ensures InputDatagram(Unbounded, k, [Push(|q|)]) == Receiver(q + [E], [(|q|, 0)], clock, c)
  {
    var p := Push(|q|);
    assert InsertSeg(Unbounded, [], p) == [p];
    var r := Rcv(|q|, [p], q, [(|q|, 0)]);
    var r' := Rcv(|q| + 1, [], q + [E], [(|q|, 0)]);
    assert [p][1..] == [];
    assert MoveReady(Unbounded, r, 128) == MoveReady(Unbounded, r', 128) == r';
    hide MoveReady, InsertSeg;
    assert [] + [(|q|, 0)] == [(|q|, 0)];
    assert InputPush(Unbounded, k.rcv, 128, p) == r';
    assert [p][1..] == [];
    var k' := InputPacket(Unbounded, k, p);
    assert k' == Receiver(q + [E], [(|q|, 0)], clock, c);
    assert InputPackets(Unbounded, InputState(k, NoAck), [p]) == InputPackets(Unbounded, InputState(k', NoAck), []);
  }

  lemma Acknowledges(k: Kcb, q: seq<Frag>, c: Cong)
    requires q != [] && |q| < 100 && k == Receiver(q, [(|q| - 1, 0)], LATE, c)
    requires c == ONE || c == Cong(128, 0, 0, 2)
    ensures Flush(Unbounded, k) == (Receiver(q, [], LATE, ONE), [Ack(|q| - 1)])
  {
    var sn := |q| - 1;
    assert AckPackets(k, [(sn, 0)]) == [Control(k, IKCP_CMD_ACK, (sn, 0))];
    assert Control(k, IKCP_CMD_ACK, (sn, 0)) == Ack(sn);
    assert ProbeWindow(k.probe, k.cong.rmtWnd, k.clock.current) == IDLE;
    assert ControlPackets(k, IDLE) == [Ack(sn)];
    assert FillWindow(Unbounded, k, k.snd, SendWindow(k)) == k.snd;
    assert FlushBuf(k, []) == NOTHING;
    hide ControlPackets, FillWindow, FlushBuf, ProbeWindow, SendWindow;
    assert [Ack(sn)] + [] == [Ack(sn)];
  }

  const ACKS: seq<seq<Packet>> := [[Ack(0)], [Ack(1)]]

  const ANSWERS: seq<Action> := [Deliver(0), UpdateAt(0), Deliver(1), FlushNow]

  lemma Answers() returns (y: End)
    ensures y.out == ACKS && y == Four(PACKETS, ANSWERS)
  {
    var cold, zero := Clock(0, 100, false), Cong(128, 0, 0, 2);
    var y0 := Fresh(WIDE);
    assert y0.kcb == Receiver([], [], cold, zero);
    Delivers(y0.kcb, [], cold, zero);
    var y1 := y0.(kcb := Receiver([E], [(0, 0)], cold, zero));
    assert [] + [E] == [E] && [E] + [E] == [E, E];
    assert StepEnd(y0, PACKETS, Deliver(0)) == y1;
    var k2 := Receiver([E], [], LATE, ONE);
    Acknowledges(Receiver([E], [(0, 0)], LATE, zero), [E], zero);
    UpdateStep(y1, PACKETS, k2, Ack(0));
    var y2 := y1.(kcb := k2, out := y1.out + [[Ack(0)]]);
    Delivers(k2, [E], LATE, ONE);
    var k3 := Receiver([E, E], [(1, 0)], LATE, ONE);
    var y3 := y2.(kcb := k3);
    assert StepEnd(y2, PACKETS, Deliver(1)) == y3;
    Acknowledges(k3, [E, E], ONE);
    hide StepEnd, Flush, InputDatagram;
    FlushStep(y3, PACKETS, Receiver([E, E], [], LATE, ONE), Ack(1));
    y := StepEnd(y3, PACKETS, FlushNow);
  }

  // ---------------------------------------------------------------- the acknowledgements come in

  /** The first doubles the window: slow start. */
  lemma FirstAck(k: Kcb)
    requires k == Sender([Sent(0), Sent(1)], [], LATE, ONE)
    ensures var k' := InputDatagram(Unbounded, k, [Ack(0)]);
      k'.cfg == WIDE && k'.snd == Snd(1, 2, [], [Sent(1)]) && k'.cong == Cong(127, 2, 2 * MSS, 2)
  {
    var p := Ack(0);
    assert [Sent(0), Sent(1)][1..] == [Sent(1)] && [p][1..] == [];
    assert DropBelow(Unbounded, k.snd.buf, 1) == [Sent(1)];
    hide DropBelow, UpdateAck;
    var k1 := InputPacket(Unbounded, k, p);
    assert k1.snd == Snd(1, 2, [], [Sent(1)]) && k1.cong == Cong(127, 1, MSS, 2);
    assert InputPackets(Unbounded, InputState(k, NoAck), [p]) == InputState(k1, MaxAck(0));
    hide InputPackets, InputPacket;
    assert U32(2) == 2 && U32(2 * MSS) == 2 * MSS;
  }

  /** The second is congestion avoidance, and wraps. */
  lemma SecondAck(k: Kcb)
    requires k.cfg == WIDE && k.snd == Snd(1, 2, [], [Sent(1)]) && k.cong == Cong(127, 2, 2 * MSS, 2)
    ensures var c := InputDatagram(Unbounded, k, [Ack(1)]).cong; !((c.cwnd - 1) * MSS < c.incr)
  {
    var p := Ack(1);
    assert [Sent(1)][1..] == [] && [p][1..] == [];
    assert DropBelow(Unbounded, k.snd.buf, 2) == [];
    hide DropBelow, UpdateAck;
    var k1 := InputPacket(Unbounded, k, p);
    assert k1.snd == Snd(2, 2, [], []) && k1.cong == Cong(126, 2, 2 * MSS, 2);
    assert InputPackets(Unbounded, InputState(k, NoAck), [p]) == InputState(k1, MaxAck(1));
    hide InputPackets, InputPacket, GrowCwnd;
    WideSegmentsWrap();
    assert InputDatagram(Unbounded, k, [p]).cong == GrowCwnd(k1.cong, MSS);
  }

  // ---------------------------------------------------------------- the run

  lemma OnSide(n: Net, es: seq<Event>, side: Side, a: Action, b: Action) returns (es': seq<Event>)
    requires n.a.kcb.cfg.mss >= 1 && n.b.kcb.cfg.mss >= 1
    ensures es' == es + [Event(side, a), Event(side, b)]
    ensures var m := Run(n, es); var x, wire := At(m, side), At(m, Other(side)).out;
      && At(Run(n, es'), side) == StepEnd(StepEnd(x, wire, a), wire, b)
      && At(Run(n, es'), Other(side)) == At(m, Other(side))
  {
    es' := es + [Event(side, a), Event(side, b)];
    assert es'[..|es'| - 1] == es + [Event(side, a)];
    assert es'[..|es'| - 1][..|es|] == es;
  }

  /** In a run between two ends with segments of almost 2^31 bytes, the window and its byte count come apart. */
  lemma WideRunBreaks() returns (es: seq<Event>)
    ensures Compatible(WIDE, WIDE) && !CongOk(Run(Start(WIDE, WIDE), es).a.kcb.cong, WIDE)
  {
    hide StepEnd, Run, InputDatagram;
    var n := Start(WIDE, WIDE);
    RunNothing(n);
    Sends([]);
    es := OnSide(n, [], A, SENDS[0], SENDS[1]);
    es := OnSide(n, es, A, SENDS[2], SENDS[3]);
    var y := Answers();
    es := OnSide(n, es, B, ANSWERS[0], ANSWERS[1]);
    es := OnSide(n, es, B, ANSWERS[2], ANSWERS[3]);
    es := OnSide(n, es, A, Deliver(0), Deliver(1));
    FirstAck(SENDER.kcb);
    SecondAck(InputDatagram(Unbounded, SENDER.kcb, [Ack(0)]));
    AcksIn(SENDER, y);
  }

  lemma RunNothing(n: Net)
    requires n.a.kcb.cfg.mss >= 1 && n.b.kcb.cfg.mss >= 1
    ensures Run(n, []) == n
  {
  }

  lemma AcksIn(x: End, y: End)
    requires x.kcb.cfg == WIDE && y.out == ACKS && InputDatagram(Unbounded, x.kcb, [Ack(0)]).cfg == WIDE
    ensures StepEnd(StepEnd(x, y.out, Deliver(0)), y.out, Deliver(1)).kcb
            == InputDatagram(Unbounded, InputDatagram(Unbounded, x.kcb, [Ack(0)]), [Ack(1)])
  {
    hide InputDatagram;
  }
}
