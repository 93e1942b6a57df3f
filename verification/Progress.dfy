/** From any reachable state the transport can move: the user can drain a full receive queue, and with room in
    it the oldest outstanding segment can be delivered and acknowledged. */
module Progress {
  import opened Bytes
  import opened Sequences
  import opened Serial
  import opened Kcp
  import opened Buffers
  import opened Wire
  import opened Channel
  import opened Connection

  /** The fragment numbered `sn` is in one of x's datagrams. */
  predicate OnWire(x: End, sn: int) {
    exists i, j :: 0 <= i < |x.out| && 0 <= j < |x.out[i]| && x.out[i][j].cmd == IKCP_CMD_PUSH && x.out[i][j].sn == sn
  }

  ghost predicate AllSent(x: End) {
    forall sn :: 0 <= sn < x.kcb.snd.nxt ==> OnWire(x, sn)
  }

  lemma {:induction false} FillWindowAdds(k: Kcb, s: Snd, cwnd: int)
    ensures var s' := FillWindow(Unbounded, k, s, cwnd);
      && s.nxt <= s'.nxt && |s'.buf| == |s.buf| + (s'.nxt - s.nxt)
      && forall i :: |s.buf| <= i < |s'.buf| ==> s'.buf[i].sn == s.nxt + (i - |s.buf|) && s'.buf[i].xmit == 0
    ensures s.buf <= FillWindow(Unbounded, k, s, cwnd).buf
    decreases |s.queue|
  {
    if s.nxt < s.una + cwnd && s.queue != [] {
      var s1 := NumberOne(Unbounded, k, s);
      FillWindowAdds(k, s1, cwnd);
      assert FillWindow(Unbounded, k, s, cwnd).buf[|s.buf|] == s1.buf[|s.buf|];
    }
  }

  /** A segment never transmitted before is transmitted. */
  lemma {:induction false} FlushBufSendsNew(k: Kcb, buf: seq<SndSeg>, i: nat)
    requires i < |buf| && buf[i].xmit == 0
    ensures exists p :: p in FlushBuf(k, buf).ps && p.cmd == IKCP_CMD_PUSH && p.sn == buf[i].sn
  {
    if i == 0 {
      var p := PushPacket(k.cfg.conv, Transmit(k, buf[0]));
      assert FlushBuf(k, buf).ps[0] == p;
    } else {
      FlushBufSendsNew(k, buf[1..], i - 1);
      var p :| p in FlushBuf(k, buf[1..]).ps && p.cmd == IKCP_CMD_PUSH && p.sn == buf[i].sn;
      assert p in FlushBuf(k, buf).ps;
    }
  }

  lemma {:induction false} FlattenIndex(ds: seq<seq<Packet>>, p: Packet) returns (i: nat, j: nat)
    requires p in Flatten(ds)
    ensures i < |ds| && j < |ds[i]| && ds[i][j] == p
  {
    if p in ds[0] {
      i := 0;
      j :| 0 <= j < |ds[0]| && ds[0][j] == p;
    } else {
      i, j := FlattenIndex(ds[1..], p);
      i := i + 1;
    }
  }

  /** Every packet of a flush is in one of the datagrams it adds. */
  lemma EmittedHas(x: End, k: Kcb, ps: seq<Packet>, p: Packet) returns (i: nat, j: nat)
    requires p in ps
    ensures var x' := Emitted(x, k, ps); |x.out| <= i < |x'.out| && j < |x'.out[i]| && x'.out[i][j] == p
  {
    var ds := Pack(x.kcb.cfg.mtu, [], ps);
    PackFlattens(x.kcb.cfg.mtu, [], ps);
    assert [] + ps == ps;
    i, j := FlattenIndex(ds, p);
    i := |x.out| + i;
  }

  lemma EmittedKeepsWire(x: End, k: Kcb, ps: seq<Packet>, sn: int)
    requires OnWire(x, sn)
    ensures OnWire(Emitted(x, k, ps), sn)
  {
    var i, j :| 0 <= i < |x.out| && 0 <= j < |x.out[i]| && x.out[i][j].cmd == IKCP_CMD_PUSH && x.out[i][j].sn == sn;
    assert Emitted(x, k, ps).out[i] == x.out[i];
  }

  lemma FlushSendsAll(x: End, k: Kcb)
    requires AllSent(x) && k.snd == x.kcb.snd
    ensures AllSent(Emitted(x, Flush(Unbounded, k).0, Flush(Unbounded, k).1))
  {
    var (k', ps) := Flush(Unbounded, k);
    var x' := Emitted(x, k', ps);
    forall sn | 0 <= sn < k'.snd.nxt ensures OnWire(x', sn) {
      if sn < x.kcb.snd.nxt {
        EmittedKeepsWire(x, k', ps, sn);
      } else {
        var s := FillWindow(Unbounded, k, k.snd, SendWindow(k));
        FillWindowAdds(k, k.snd, SendWindow(k));
        FlushBufSendsNew(k, s.buf, |k.snd.buf| + (sn - k.snd.nxt));
        var p :| p in FlushBuf(k, s.buf).ps && p.cmd == IKCP_CMD_PUSH && p.sn == sn;
        var i, j := EmittedHas(x, k', ps, p);
      }
    }
  }

  lemma AllSentFrame(x: End, x': End)
    requires AllSent(x) && x'.out == x.out && x'.kcb.snd.nxt == x.kcb.snd.nxt
    ensures AllSent(x')
  {
    forall sn | 0 <= sn < x'.kcb.snd.nxt ensures OnWire(x', sn) {
      assert OnWire(x, sn);
    }
  }

  lemma {:induction false} InputKeepsNxt(w: Width, st: InputState, ps: seq<Packet>)
    ensures InputPackets(w, st, ps).k.snd.nxt == st.k.snd.nxt
    decreases |ps|
  {
    if ps != [] {
      InputKeepsNxt(w, InputState(InputPacket(w, st.k, ps[0]), InputAck(w, st.ack, ps[0])), ps[1..]);
    }
  }

  lemma SendKeepsNxt(k: Kcb, msg: seq<byte>)
    requires k.cfg.mss >= 1
    ensures Send(k, msg).0.snd.nxt == k.snd.nxt
  {
  }

  lemma RecvKeepsSnd(k: Kcb, maxLen: int)
    ensures Recv(Unbounded, k, maxLen).0.snd == k.snd
  {
  }

  lemma StepSendsAll(x: End, wire: seq<seq<Packet>>, a: Action)
    requires x.kcb.cfg.mss >= 1 && AllSent(x)
    ensures AllSent(StepEnd(x, wire, a))
  {
    hide AllSent, Flush, InputPackets, Recv, Send;
    match a
    case SendMsg(msg) =>
      SendKeepsNxt(x.kcb, msg);
      AllSentFrame(x, StepEnd(x, wire, a));
    case RecvMsg(maxLen) =>
      RecvKeepsSnd(x.kcb, maxLen);
      AllSentFrame(x, StepEnd(x, wire, a));
    case Deliver(i) =>
      if i < |wire| {
        InputKeepsCfg(Unbounded, InputState(x.kcb, NoAck), wire[i]);
        InputKeepsNxt(Unbounded, InputState(x.kcb, NoAck), wire[i]);
      }
      AllSentFrame(x, StepEnd(x, wire, a));
    case FlushNow => FlushSendsAll(x, x.kcb);
    case UpdateAt(current) =>
      var (clock, due) := Tick(x.kcb.clock, x.kcb.cfg.interval, U32(current));
      var k := x.kcb.(clock := clock);
      if due {
        FlushSendsAll(x, k);
      } else {
        assert Pack(x.kcb.cfg.mtu, [], []) == [];
        AllSentFrame(x, Emitted(x, k, []));
      }
  }

  lemma {:induction false} RunSendsAll(ca: Cfg, cb: Cfg, es: seq<Event>)
    requires Compatible(ca, cb)
    ensures var n := Run(Start(ca, cb), es); AllSent(n.a) && AllSent(n.b)
  {
    if es != [] {
      RunSendsAll(ca, cb, es[..|es| - 1]);
      var n, e := Run(Start(ca, cb), es[..|es| - 1]), es[|es| - 1];
      if e.side.A? {
        StepSendsAll(n.a, n.b.out, e.action);
      } else {
        StepSendsAll(n.b, n.a.out, e.action);
      }
    }
  }

  // ---------------------------------------------------------------- one round trip

  predicate Acks(r: Rcv, sn: int) {
    exists i :: 0 <= i < |r.acks| && r.acks[i].0 == sn
  }

  lemma InputPacketAcks(k: Kcb, p: Packet, sn: int)
    ensures Acks(k.rcv, sn) ==> Acks(InputPacket(Unbounded, k, p).rcv, sn)
    ensures p.cmd == IKCP_CMD_PUSH && p.sn == sn && sn < k.rcv.nxt + k.cfg.rcvWnd ==>
      Acks(InputPacket(Unbounded, k, p).rcv, sn)
  {
    var acked := k.rcv.(acks := k.rcv.acks + [(p.sn, p.ts)]);
    MoveReadyKeepsAcks(Unbounded, acked.(buf := InsertSeg(Unbounded, acked.buf, p)), k.cfg.rcvWnd);
    assert acked.acks[|k.rcv.acks|].0 == p.sn;
    if Acks(k.rcv, sn) {
      var i :| 0 <= i < |k.rcv.acks| && k.rcv.acks[i].0 == sn;
      assert acked.acks[i].0 == sn;
    }
  }

  /** A data segment at or before the window of the receiver is acknowledged, wherever it is in the datagram. */
  lemma {:induction false} InputPacketsAck(st: InputState, fx: seq<Frag>, takenX: int, y: Kcb, fy: seq<Frag>,
                                           takenY: int, ps: seq<Packet>, sn: int)
    requires Both(st.k, fx, takenX, y, fy, takenY)
    requires forall j :: 0 <= j < |ps| ==> FromPeer(ps[j], y, fy)
    requires sn < st.k.rcv.nxt + st.k.cfg.rcvWnd
    requires Acks(st.k.rcv, sn) || exists j :: 0 <= j < |ps| && ps[j].cmd == IKCP_CMD_PUSH && ps[j].sn == sn
    ensures Acks(InputPackets(Unbounded, st, ps).k.rcv, sn)
    decreases |ps|
  {
    if ps != [] {
      var st1 := InputState(InputPacket(Unbounded, st.k, ps[0]), InputAck(Unbounded, st.ack, ps[0]));
      var rest := ps[1..];
      InputPacketKeeps(st.k, fx, takenX, y, fy, takenY, ps[0]);
      InputPacketAcks(st.k, ps[0], sn);
      if !Acks(st1.k.rcv, sn) {
        var j :| 0 <= j < |ps| && ps[j].cmd == IKCP_CMD_PUSH && ps[j].sn == sn;
        assert rest[j - 1] == ps[j];
      }
      assert forall j :: 0 <= j < |rest| ==> rest[j] == ps[j + 1];
      InputPacketsAck(st1, fx, takenX, y, fy, takenY, rest, sn);
    }
  }

  lemma DeliverAcks(x: End, y: End, i: nat, j: nat)
    requires ValidCfg(x.kcb.cfg) && ValidCfg(y.kcb.cfg) && Flow(x, y) && Flow(y, x)
    requires i < |y.out| && j < |y.out[i]| && y.out[i][j].cmd == IKCP_CMD_PUSH
    requires y.out[i][j].sn < x.kcb.rcv.nxt + x.kcb.cfg.rcvWnd
    ensures Acks(StepEnd(x, y.out, Deliver(i)).kcb.rcv, y.out[i][j].sn)
    ensures StepEnd(x, y.out, Deliver(i)).kcb.clock == x.kcb.clock
  {
    forall j | 0 <= j < |y.out[i]| ensures FromPeer(y.out[i][j], y.kcb, Accepted(y)) {
      assert AckOk(y.out[i][j], y.kcb.rcv) && PushOk(y.out[i][j], Accepted(y), y.kcb.snd.nxt);
    }
    InputPacketsAck(InputState(x.kcb, NoAck), Accepted(x), Taken(x, y), y.kcb, Accepted(y), Taken(y, x), y.out[i],
                    y.out[i][j].sn);
    InputKeepsCfg(Unbounded, InputState(x.kcb, NoAck), y.out[i]);
    InputKeepsClock(InputState(x.kcb, NoAck), y.out[i]);
  }

  lemma {:induction false} InputKeepsClock(st: InputState, ps: seq<Packet>)
    ensures InputPackets(Unbounded, st, ps).k.clock == st.k.clock
    decreases |ps|
  {
    if ps != [] {
      InputKeepsClock(InputState(InputPacket(Unbounded, st.k, ps[0]), InputAck(Unbounded, st.ack, ps[0])), ps[1..]);
    }
  }

  /** A flush turns every pending acknowledgement into an ack segment on the wire. */
  lemma FlushSendsAck(x: End, wire: seq<seq<Packet>>, sn: int) returns (i: nat, j: nat)
    requires x.kcb.cfg.mss >= 1 && x.kcb.clock.updated && Acks(x.kcb.rcv, sn)
    ensures var x' := StepEnd(x, wire, FlushNow);
      i < |x'.out| && j < |x'.out[i]| && x'.out[i][j].cmd == IKCP_CMD_ACK && x'.out[i][j].sn == sn
  {
    var k := x.kcb;
    var n :| 0 <= n < |k.rcv.acks| && k.rcv.acks[n].0 == sn;
    var acks := AckPackets(k, k.rcv.acks);
    var (k', ps) := Flush(Unbounded, k);
    assert acks[n] == Control(k, IKCP_CMD_ACK, k.rcv.acks[n]);
    assert ps[n] == acks[n];
    i, j := EmittedHas(x, k', ps, ps[n]);
  }

  /** An ack for the oldest outstanding segment moves the unacknowledged edge. */
  lemma AckAdvances(k: Kcb, fx: seq<Frag>, takenX: int, y: Kcb, fy: seq<Frag>, takenY: int, p: Packet, una: int)
    requires Both(k, fx, takenX, y, fy, takenY) && FromPeer(p, y, fy)
    requires p.cmd == IKCP_CMD_ACK && p.sn == una && una <= k.snd.una && una < k.snd.nxt
    ensures una < InputPacket(Unbounded, k, p).snd.una
  {
    ApplyUnaKeeps(k.snd, fx, k.cfg.sndWnd, y.rcv, p.una);
    var s := ApplyUna(Unbounded, k.snd, p.una);
    if s.una == una {
      assert s.buf[0].sn == una;
      ApplyAckKeeps(s, fx, k.cfg.sndWnd, y.rcv, una);
      assert RemoveAck(Unbounded, s.buf, una) == s.buf[1..];
    } else {
      ApplyAckKeeps(s, fx, k.cfg.sndWnd, y.rcv, una);
    }
  }

  lemma {:induction false} AcksAdvance(st: InputState, fx: seq<Frag>, takenX: int, y: Kcb, fy: seq<Frag>,
                                       takenY: int, ps: seq<Packet>, una: int)
    requires Both(st.k, fx, takenX, y, fy, takenY)
    requires forall j :: 0 <= j < |ps| ==> FromPeer(ps[j], y, fy)
    requires una <= st.k.snd.una && una < st.k.snd.nxt
    requires una < st.k.snd.una || exists j :: 0 <= j < |ps| && ps[j].cmd == IKCP_CMD_ACK && ps[j].sn == una
    ensures una < InputPackets(Unbounded, st, ps).k.snd.una
    decreases |ps|
  {
    if ps != [] {
      var st1 := InputState(InputPacket(Unbounded, st.k, ps[0]), InputAck(Unbounded, st.ack, ps[0]));
      var rest := ps[1..];
      InputPacketKeeps(st.k, fx, takenX, y, fy, takenY, ps[0]);
      if ps[0].cmd == IKCP_CMD_ACK && ps[0].sn == una {
        AckAdvances(st.k, fx, takenX, y, fy, takenY, ps[0], una);
      } else if una == st.k.snd.una {
        var j :| 0 <= j < |ps| && ps[j].cmd == IKCP_CMD_ACK && ps[j].sn == una;
        assert rest[j - 1] == ps[j];
      }
      assert forall j :: 0 <= j < |rest| ==> rest[j] == ps[j + 1];
      AcksAdvance(st1, fx, takenX, y, fy, takenY, rest, una);
    }
  }

  lemma DeliverAdvances(x: End, y: End, i: nat, j: nat)
    requires ValidCfg(x.kcb.cfg) && ValidCfg(y.kcb.cfg) && Flow(x, y) && Flow(y, x)
    requires i < |y.out| && j < |y.out[i]| && y.out[i][j].cmd == IKCP_CMD_ACK
    requires y.out[i][j].sn == x.kcb.snd.una < x.kcb.snd.nxt
    ensures x.kcb.snd.una < StepEnd(x, y.out, Deliver(i)).kcb.snd.una
  {
    forall j | 0 <= j < |y.out[i]| ensures FromPeer(y.out[i][j], y.kcb, Accepted(y)) {
      assert AckOk(y.out[i][j], y.kcb.rcv) && PushOk(y.out[i][j], Accepted(y), y.kcb.snd.nxt);
    }
    AcksAdvance(InputState(x.kcb, NoAck), Accepted(x), Taken(x, y), y.kcb, Accepted(y), Taken(y, x), y.out[i],
                x.kcb.snd.una);
    InputKeepsCfg(Unbounded, InputState(x.kcb, NoAck), y.out[i]);
  }

  /** Delivering x's datagram `i` to y, flushing y, and delivering y's datagram `j` to x: what becomes of x. */
  function RoundTrip(x: End, y: End, i: nat, j: nat): End
    requires x.kcb.cfg.mss >= 1 && y.kcb.cfg.mss >= 1
  {
    var y' := StepEnd(StepEnd(y, x.out, Deliver(i)), x.out, FlushNow);
    StepEnd(x, y'.out, Deliver(j))
  }

  /** Some datagram of x makes y owe an ack for x's oldest outstanding segment. */
  lemma OldestIsAcked(x: End, y: End) returns (i: nat)
    requires ValidCfg(x.kcb.cfg) && ValidCfg(y.kcb.cfg) && Flow(x, y) && Flow(y, x) && AllSent(x)
    requires x.kcb.snd.una < x.kcb.snd.nxt && |y.kcb.rcv.queue| < y.kcb.cfg.rcvWnd
    ensures i < |x.out|
    ensures var y1 := StepEnd(y, x.out, Deliver(i));
      Acks(y1.kcb.rcv, x.kcb.snd.una) && y1.kcb.clock == y.kcb.clock
  {
    var una := x.kcb.snd.una;
    Windows(x.kcb.snd, x.kcb.cfg.sndWnd, y.kcb.rcv, y.kcb.cfg.rcvWnd, Accepted(x), Taken(x, y));
    assert OnWire(x, una);
    var i', j' :| 0 <= i' < |x.out| && 0 <= j' < |x.out[i']| && x.out[i'][j'].cmd == IKCP_CMD_PUSH
                  && x.out[i'][j'].sn == una;
    i := i';
    DeliverAcks(y, x, i, j');
  }

  lemma RoundTripAdvances(x: End, y: End) returns (i: nat, j: nat)
    requires ValidCfg(x.kcb.cfg) && ValidCfg(y.kcb.cfg) && Flow(x, y) && Flow(y, x) && AllSent(x)
    requires x.kcb.snd.una < x.kcb.snd.nxt
    requires |y.kcb.rcv.queue| < y.kcb.cfg.rcvWnd && y.kcb.clock.updated
    ensures i < |x.out|
    ensures x.kcb.snd.una < RoundTrip(x, y, i, j).kcb.snd.una
  {
    i := OldestIsAcked(x, y);
    FlowStep(y, x, Deliver(i));
    var y1 := StepEnd(y, x.out, Deliver(i));
    var m: nat;
    j, m := FlushSendsAck(y1, x.out, x.kcb.snd.una);
    FlowStep(y1, x, FlushNow);
    DeliverAdvances(x, StepEnd(y1, x.out, FlushNow), j, m);
  }

  /** In every reachable state with data outstanding on either side, either the receiver's user has a message to take,
      or the exchange of one data and one ack datagram strictly advances the sender's unacknowledged edge. */
  lemma NoDeadlock(ca: Cfg, cb: Cfg, es: seq<Event>, side: Side) returns (i: nat, j: nat)
    requires Compatible(ca, cb)
    ensures var n := Run(Start(ca, cb), es); var x, y := At(n, side), At(n, Other(side));
      x.kcb.snd.una < x.kcb.snd.nxt && y.kcb.clock.updated ==>
      || PeekSize(y.kcb.rcv.queue) >= 0
      || (i < |x.out| && x.kcb.snd.una < RoundTrip(x, y, i, j).kcb.snd.una)
  {
    var n := Run(Start(ca, cb), es);
    var x, y := At(n, side), At(n, Other(side));
    RunInv(ca, cb, es);
    RunSendsAll(ca, cb, es);
    i, j := 0, 0;
    if |y.kcb.rcv.queue| >= y.kcb.cfg.rcvWnd {
      FullQueueHasMessage(x, y);
    } else if x.kcb.snd.una < x.kcb.snd.nxt && y.kcb.clock.updated {
      i, j := RoundTripAdvances(x, y);
    }
  }

  /** The sender's edge and the windows, in every run and either direction. */
  lemma WindowsHold(ca: Cfg, cb: Cfg, es: seq<Event>, side: Side)
    requires Compatible(ca, cb)
    ensures var n := Run(Start(ca, cb), es); var x, y := At(n, side).kcb, At(n, Other(side)).kcb;
      && y.rcv.nxt <= x.snd.nxt <= y.rcv.nxt + y.cfg.rcvWnd + x.cfg.sndWnd
      && x.snd.nxt <= x.snd.una + x.cfg.sndWnd
      && (|y.rcv.queue| < y.cfg.rcvWnd ==> x.snd.una <= y.rcv.nxt)
  {
    RunInv(ca, cb, es);
    var n := Run(Start(ca, cb), es);
    var x, y := At(n, side), At(n, Other(side));
    Windows(x.kcb.snd, x.kcb.cfg.sndWnd, y.kcb.rcv, y.kcb.cfg.rcvWnd, Accepted(x), Taken(x, y));
  }
}
