/** The program with wrapping 32-bit sequence numbers, exchanging bytes, goes through the same runs as the one
    with unbounded numbers, as long as no number on the wire lags half the ring behind. */
module Refinement {
  import opened Bytes
  import opened Serial
  import opened Kcp
  import opened Buffers
  import opened Wire
  import opened Channel
  import opened Connection
  import opened Wrapping
  import opened ByteRuns

  // ---------------------------------------------------------------- what fits the wire

  predicate FragsFit(f: seq<Frag>, mss: int) {
    forall i :: 0 <= i < |f| ==> 0 <= f[i].frg < IKCP_WND_RCV && |f[i].data| <= mss
  }

  predicate PacketFits(p: Packet, cfg: Cfg) {
    && p.conv == cfg.conv && KnownCmd(p.cmd) && 0 <= p.frg < IKCP_WND_RCV && 0 <= p.wnd < 0x1_0000
    && 0 <= p.ts < TWO32 && |p.data| <= cfg.mss
  }

  predicate Tidy(k: Kcb) {
    && 0 <= k.clock.current < TWO32
    && (forall i :: 0 <= i < |k.rcv.acks| ==> 0 <= k.rcv.acks[i].1 < TWO32)
    && 0 <= k.cong.cwnd && 0 <= k.cong.rmtWnd
  }

  predicate OutFits(x: End) {
    && (forall i :: 0 <= i < |x.out| ==> x.out[i] != [] && Size(x.out[i]) <= x.kcb.cfg.mtu)
    && (forall i, j :: 0 <= i < |x.out| && 0 <= j < |x.out[i]| ==> PacketFits(x.out[i][j], x.kcb.cfg))
  }

  predicate EndFits(x: End) {
    Tidy(x.kcb) && OutFits(x)
  }

  lemma {:induction false} StreamFits(mss: int, ms: seq<seq<byte>>)
    requires mss >= 1
    requires forall i :: 0 <= i < |ms| ==> FragCount(|ms[i]|, mss) < IKCP_WND_RCV
    ensures FragsFit(Stream(mss, ms), mss)
  {
    if ms != [] {
      StreamFits(mss, ms[..|ms| - 1]);
      CutShape(mss, ms[|ms| - 1]);
    }
  }

  lemma InputPacketTidy(k: Kcb, p: Packet)
    requires Tidy(k) && 0 <= p.wnd && 0 <= p.ts < TWO32
    ensures Tidy(InputPacket(Unbounded, k, p))
  {
    var r := k.rcv.(acks := k.rcv.acks + [(p.sn, p.ts)]);
    MoveReadyKeepsAcks(Unbounded, r.(buf := InsertSeg(Unbounded, r.buf, p)), k.cfg.rcvWnd);
  }

  lemma {:induction false} InputPacketsTidy(st: InputState, ps: seq<Packet>)
    requires Tidy(st.k)
    requires forall j :: 0 <= j < |ps| ==> 0 <= ps[j].wnd && 0 <= ps[j].ts < TWO32
    ensures Tidy(InputPackets(Unbounded, st, ps).k)
    decreases |ps|
  {
    if ps != [] {
      InputPacketTidy(st.k, ps[0]);
      InputPacketsTidy(InputState(InputPacket(Unbounded, st.k, ps[0]), InputAck(Unbounded, st.ack, ps[0])), ps[1..]);
    }
  }

  lemma GrowCwndTidy(c: Cong, mss: int)
    requires mss >= 1 && 0 <= c.cwnd && 0 <= c.rmtWnd
    ensures 0 <= GrowCwnd(c, mss).cwnd && GrowCwnd(c, mss).rmtWnd == c.rmtWnd
  {
  }

  lemma FinishTidy(st: InputState, prevUna: int)
    requires st.k.cfg.mss >= 1 && Tidy(st.k)
    ensures Tidy(FinishInput(Unbounded, st, prevUna))
  {
    GrowCwndTidy(st.k.cong, st.k.cfg.mss);
  }

  lemma InputDatagramTidy(k: Kcb, ps: seq<Packet>)
    requires k.cfg.mss >= 1 && Tidy(k)
    requires forall j :: 0 <= j < |ps| ==> 0 <= ps[j].wnd && 0 <= ps[j].ts < TWO32
    ensures Tidy(InputDatagram(Unbounded, k, ps))
  {
    InputKeepsCfg(Unbounded, InputState(k, NoAck), ps);
    InputPacketsTidy(InputState(k, NoAck), ps);
    FinishTidy(InputPackets(Unbounded, InputState(k, NoAck), ps), k.snd.una);
  }

  lemma ControlFits(k: Kcb, probe: Probe)
    requires ValidCfg(k.cfg) && Tidy(k) && |k.rcv.queue| <= k.cfg.rcvWnd
    ensures forall p :: p in ControlPackets(k, probe) ==> PacketFits(p, k.cfg)
  {
    var acks := AckPackets(k, k.rcv.acks);
    forall p | p in acks ensures PacketFits(p, k.cfg) {
      var i :| 0 <= i < |acks| && acks[i] == p;
      assert acks[i] == Control(k, IKCP_CMD_ACK, k.rcv.acks[i]);
    }
    assert 0 <= LastAck(k.rcv.acks).1 < TWO32;
  }

  lemma DataFits(k: Kcb, s: Snd, f: seq<Frag>)
    requires ValidCfg(k.cfg) && Tidy(k) && |k.rcv.queue| <= k.cfg.rcvWnd
    requires SndOk(s, f, k.cfg.sndWnd) && FragsFit(f, k.cfg.mss)
    ensures forall p :: p in FlushBuf(k, s.buf).ps ==> PacketFits(p, k.cfg)
  {
    FlushBufPackets(k, s.buf);
    forall p | p in FlushBuf(k, s.buf).ps ensures PacketFits(p, k.cfg) {
      var i :| 0 <= i < |s.buf| && p.sn == s.buf[i].sn && p.frg == s.buf[i].frg && p.data == s.buf[i].data;
      assert Frag(s.buf[i].frg, s.buf[i].data) == f[s.buf[i].sn];
    }
  }

  lemma FlushFits(k: Kcb, f: seq<Frag>)
    requires ValidCfg(k.cfg) && Tidy(k) && SndOk(k.snd, f, k.cfg.sndWnd) && FragsFit(f, k.cfg.mss)
    requires |k.rcv.queue| <= k.cfg.rcvWnd
    ensures Tidy(Flush(Unbounded, k).0)
    ensures forall p :: p in Flush(Unbounded, k).1 ==> PacketFits(p, k.cfg)
  {
    if k.clock.updated {
      var r := Rcv(k.snd.nxt, [], [], []);
      assert NoLoss(k.snd, r);
      FillWindowKeeps(k, k.snd, f, k.cfg.sndWnd, SendWindow(k), r);
      DataFits(k, FillWindow(Unbounded, k, k.snd, SendWindow(k)), f);
      ControlFits(k, ProbeWindow(k.probe, k.cong.rmtWnd, k.clock.current));
    }
  }

  lemma EmitFits(x: End, k: Kcb, ps: seq<Packet>)
    requires ValidCfg(x.kcb.cfg) && EndFits(x) && Tidy(k) && k.cfg == x.kcb.cfg
    requires forall p :: p in ps ==> PacketFits(p, k.cfg)
    ensures EndFits(Emitted(x, k, ps))
  {
    var ds := Pack(k.cfg.mtu, [], ps);
    PackFits(k.cfg.mtu, [], ps);
    PackMembers(k.cfg.mtu, ps);
    var x' := Emitted(x, k, ps);
    forall i | 0 <= i < |x'.out| ensures x'.out[i] != [] && Size(x'.out[i]) <= k.cfg.mtu {
      assert i >= |x.out| ==> x'.out[i] in ds;
    }
    forall i, j | 0 <= i < |x'.out| && 0 <= j < |x'.out[i]| ensures PacketFits(x'.out[i][j], k.cfg) {
      if i < |x.out| {
        assert PacketFits(x.out[i][j], k.cfg);
      } else {
        assert x'.out[i] in ds && x'.out[i][j] in x'.out[i];
      }
    }
  }

  lemma SendFits(x: End, y: End)
    requires ValidCfg(x.kcb.cfg) && Flow(x, y)
    ensures FragsFit(Accepted(x), x.kcb.cfg.mss)
  {
    forall i | 0 <= i < |x.sent| ensures FragCount(|x.sent[i]|, x.kcb.cfg.mss) < IKCP_WND_RCV {
      assert Accepts(x.kcb.cfg, x.sent[i]);
    }
    StreamFits(x.kcb.cfg.mss, x.sent);
  }

  lemma FlushEmitFits(x: End, y: End, k: Kcb)
    requires ValidCfg(x.kcb.cfg) && ValidCfg(y.kcb.cfg) && Flow(x, y) && Flow(y, x) && EndFits(x)
    requires Tidy(k) && k.cfg == x.kcb.cfg && k.snd == x.kcb.snd && k.rcv == x.kcb.rcv
    ensures EndFits(Emitted(x, Flush(Unbounded, k).0, Flush(Unbounded, k).1))
  {
    SendFits(x, y);
    FlushFits(k, Accepted(x));
    FlushKeepsSnd(k, Accepted(x), y.kcb.rcv);
    EmitFits(x, Flush(Unbounded, k).0, Flush(Unbounded, k).1);
  }

  lemma RecvFits(x: End, y: End, maxLen: int)
    requires x.kcb.cfg.mss >= 1 && EndFits(x)
    ensures EndFits(StepEnd(x, y.out, RecvMsg(maxLen)))
  {
    var r := x.kcb.rcv;
    MoveReadyKeepsAcks(Unbounded, r, x.kcb.cfg.rcvWnd);
    MoveReadyKeepsAcks(Unbounded, r.(queue := r.queue[MsgNodes(r.queue)..]), x.kcb.cfg.rcvWnd);
  }

  lemma DeliverFits(x: End, y: End, i: nat)
    requires x.kcb.cfg.mss >= 1 && EndFits(x) && EndFits(y)
    ensures EndFits(StepEnd(x, y.out, Deliver(i)))
  {
    if i < |y.out| {
      assert forall j :: 0 <= j < |y.out[i]| ==> PacketFits(y.out[i][j], y.kcb.cfg);
      InputDatagramTidy(x.kcb, y.out[i]);
    }
  }

  lemma StepFits(x: End, y: End, a: Action)
    requires ValidCfg(x.kcb.cfg) && ValidCfg(y.kcb.cfg) && Flow(x, y) && Flow(y, x)
    requires EndFits(x) && EndFits(y)
    ensures EndFits(StepEnd(x, y.out, a))
  {
    match a
    case SendMsg(msg) =>
    case RecvMsg(maxLen) => RecvFits(x, y, maxLen);
    case Deliver(i) => DeliverFits(x, y, i);
    case FlushNow => FlushEmitFits(x, y, x.kcb);
    case UpdateAt(current) =>
      var (clock, due) := Tick(x.kcb.clock, x.kcb.cfg.interval, U32(current));
      var k := x.kcb.(clock := clock);
      if due {
        FlushEmitFits(x, y, k);
      } else {
        EmitFits(x, k, []);
      }
  }

  // ---------------------------------------------------------------- lateness

  /** How far the numbers `p` carries lag behind the fragments numbered so far in their direction: less than
      half the ring, counting the receive window for data. */
  predicate Timely(p: Packet, x: Kcb, y: Kcb) {
    && x.snd.nxt - p.una <= TWO31
    && (p.cmd == IKCP_CMD_ACK ==> x.snd.nxt - p.sn <= TWO31)
    && (p.cmd == IKCP_CMD_PUSH ==> y.snd.nxt - p.sn <= TWO31 - x.cfg.rcvWnd)
  }

  predicate TimelyAction(x: End, y: End, a: Action) {
    a.Deliver? && a.i < |y.out| ==> forall j :: 0 <= j < |y.out[a.i]| ==> Timely(y.out[a.i][j], x.kcb, y.kcb)
  }

  predicate TimelyRun(ca: Cfg, cb: Cfg, es: seq<Event>)
    requires Compatible(ca, cb)
  {
    es == [] ||
    var n, e := Run(Start(ca, cb), es[..|es| - 1]), es[|es| - 1];
    && TimelyRun(ca, cb, es[..|es| - 1])
    && if e.side.A? then TimelyAction(n.a, n.b, e.action) else TimelyAction(n.b, n.a, e.action)
  }

  /** Why numbers must not be half the ring late: an acknowledgement a whole ring old is taken for one of the
      oldest outstanding segment. The datagram that carries it need not be old: it may answer a late duplicate. */
  lemma AncientAckIsTaken(s: Snd, sn: int)
    requires 0 <= sn && s.una == sn + TWO32 && s.una < s.nxt <= s.una + 0x1_0000
    requires s.buf != [] && s.buf[0].sn == s.una
    ensures ParseAck(Unbounded, s, sn) == s
    ensures ParseAck(Bits32, WrapSnd(s), U32(sn)).buf == WrapSnd(s).buf[1..]
  {
    I32Congruent(sn, 1);
    assert U32(s.una) == U32(sn);
    SnDiffWraps(s.una, s.nxt);
    SnDiffWraps(s.una, s.una);
    assert WrapSnd(s).buf[0].sn == U32(sn);
  }

  // ---------------------------------------------------------------- steps agree

  function WrapDatagrams(ds: seq<seq<Packet>>): (r: seq<seq<Packet>>)
    ensures |r| == |ds| && forall i :: 0 <= i < |ds| ==> r[i] == WrapPackets(ds[i])
  {
    seq(|ds|, i requires 0 <= i < |ds| => WrapPackets(ds[i]))
  }

  function WrapEnd(x: End): End32 {
    End32(WrapKcb(x.kcb), x.sent, x.got, EncodeEach(WrapDatagrams(x.out)))
  }

  function WrapNet(n: Net): Net32 {
    Net32(WrapEnd(n.a), WrapEnd(n.b))
  }

  lemma {:induction false} SizeWraps(ps: seq<Packet>)
    ensures Size(WrapPackets(ps)) == Size(ps)
  {
    if ps != [] {
      SizeWraps(ps[..|ps| - 1]);
      assert WrapPackets(ps)[..|ps| - 1] == WrapPackets(ps[..|ps| - 1]);
    }
  }

  lemma WrapDatagramsConcat(a: seq<seq<Packet>>, b: seq<seq<Packet>>)
    ensures WrapDatagrams(a + b) == WrapDatagrams(a) + WrapDatagrams(b)
    ensures EncodeEach(a + b) == EncodeEach(a) + EncodeEach(b)
  {
  }

  lemma {:induction false} PackWraps(mtu: int, cur: seq<Packet>, ps: seq<Packet>)
    ensures Pack(mtu, WrapPackets(cur), WrapPackets(ps)) == WrapDatagrams(Pack(mtu, cur, ps))
    decreases |ps|
  {
    assert WrapDatagrams(Emit(cur)) == Emit(WrapPackets(cur));
    if ps != [] {
      SizeWraps(cur);
      assert WrapPackets(ps)[1..] == WrapPackets(ps[1..]);
      if Size(cur) + PacketSize(ps[0]) > mtu {
        PackWraps(mtu, [ps[0]], ps[1..]);
        assert WrapPackets([ps[0]]) == [WrapPacket(ps[0])];
        WrapDatagramsConcat(Emit(cur), Pack(mtu, [ps[0]], ps[1..]));
      } else {
        PackWraps(mtu, cur + [ps[0]], ps[1..]);
        assert WrapPackets(cur + [ps[0]]) == WrapPackets(cur) + [WrapPacket(ps[0])];
      }
    }
  }

  lemma EmittedWraps(x: End, k: Kcb, ps: seq<Packet>)
    ensures Emitted32(WrapEnd(x), WrapKcb(k), WrapPackets(ps)) == WrapEnd(Emitted(x, k, ps))
  {
    PackWraps(x.kcb.cfg.mtu, [], ps);
    assert WrapPackets([]) == [];
    WrapDatagramsConcat(x.out, Pack(x.kcb.cfg.mtu, [], ps));
    WrapDatagramsConcat(WrapDatagrams(x.out), WrapDatagrams(Pack(x.kcb.cfg.mtu, [], ps)));
  }

  /** In a reachable state a timely packet from the peer is near the block it reaches. */
  lemma TimelyIsNear(k: Kcb, fx: seq<Frag>, takenX: int, y: Kcb, fy: seq<Frag>, takenY: int, p: Packet)
    requires ValidCfg(k.cfg) && ValidCfg(y.cfg)
    requires Both(k, fx, takenX, y, fy, takenY) && FromPeer(p, y, fy) && Timely(p, k, y)
    ensures KcbNear(k) && PacketNear(k, p) && SndSorted(k.snd.buf)
  {
    Windows(y.snd, y.cfg.sndWnd, k.rcv, k.cfg.rcvWnd, fy, takenY);
  }

  lemma {:induction false} InputPacketsWrap(st: InputState, fx: seq<Frag>, takenX: int, y: Kcb, fy: seq<Frag>,
                                            takenY: int, ps: seq<Packet>)
    requires ValidCfg(st.k.cfg) && ValidCfg(y.cfg)
    requires Both(st.k, fx, takenX, y, fy, takenY) && MaxNear(st.k, st.ack)
    requires forall j :: 0 <= j < |ps| ==> FromPeer(ps[j], y, fy) && Timely(ps[j], st.k, y)
    ensures var r := InputPackets(Unbounded, st, ps);
      && InputPackets(Bits32, InputState(WrapKcb(st.k), WrapMax(st.ack)), WrapPackets(ps))
         == InputState(WrapKcb(r.k), WrapMax(r.ack))
      && MaxNear(r.k, r.ack)
    decreases |ps|
  {
    if ps != [] {
      var p := ps[0];
      TimelyIsNear(st.k, fx, takenX, y, fy, takenY, p);
      InputPacketKeeps(st.k, fx, takenX, y, fy, takenY, p);
      InputPacketWraps(st.k, p);
      InputAckWraps(st.k, st.ack, p);
      var st1 := InputState(InputPacket(Unbounded, st.k, p), InputAck(Unbounded, st.ack, p));
      var rest := ps[1..];
      forall j | 0 <= j < |rest| ensures FromPeer(rest[j], y, fy) && Timely(rest[j], st1.k, y) {
        assert rest[j] == ps[j + 1];
      }
      InputPacketsWrap(st1, fx, takenX, y, fy, takenY, rest);
      assert WrapPackets(ps)[1..] == WrapPackets(rest);
    }
  }

  lemma InputDatagramWraps(k: Kcb, fx: seq<Frag>, takenX: int, y: Kcb, fy: seq<Frag>, takenY: int, ps: seq<Packet>)
    requires ValidCfg(k.cfg) && ValidCfg(y.cfg)
    requires Both(k, fx, takenX, y, fy, takenY)
    requires forall j :: 0 <= j < |ps| ==> FromPeer(ps[j], y, fy) && Timely(ps[j], k, y)
    ensures InputDatagram(Bits32, WrapKcb(k), WrapPackets(ps)) == WrapKcb(InputDatagram(Unbounded, k, ps))
  {
    InputPacketsWrap(InputState(k, NoAck), fx, takenX, y, fy, takenY, ps);
    InputPacketsKeep(InputState(k, NoAck), fx, takenX, y, fy, takenY, ps);
    FinishInputWraps(InputPackets(Unbounded, InputState(k, NoAck), ps), k.snd.una);
  }

  lemma DatagramAcceptable(y: End, i: nat, conv: int)
    requires ValidCfg(y.kcb.cfg) && conv == y.kcb.cfg.conv && OutFits(y) && i < |y.out|
    ensures forall p :: p in WrapPackets(y.out[i]) ==> Acceptable(p, conv)
  {
    var bits := WrapPackets(y.out[i]);
    forall p | p in bits ensures Acceptable(p, conv) {
      var j :| 0 <= j < |bits| && bits[j] == p;
      assert p == WrapPacket(y.out[i][j]) && PacketFits(y.out[i][j], y.kcb.cfg);
    }
  }

  lemma InputWraps(x: End, y: End, i: nat)
    requires ValidCfg(x.kcb.cfg) && ValidCfg(y.kcb.cfg) && x.kcb.cfg.conv == y.kcb.cfg.conv
    requires Flow(x, y) && Flow(y, x) && OutFits(y) && TimelyAction(x, y, Deliver(i)) && i < |y.out|
    ensures Input(WrapKcb(x.kcb), EncodeAll(WrapPackets(y.out[i]))).0
            == WrapKcb(InputDatagram(Unbounded, x.kcb, y.out[i]))
  {
    var ps := y.out[i];
    forall j | 0 <= j < |ps| ensures FromPeer(ps[j], y.kcb, Accepted(y)) && Timely(ps[j], x.kcb, y.kcb) {
      assert AckOk(y.out[i][j], y.kcb.rcv) && PushOk(y.out[i][j], Accepted(y), y.kcb.snd.nxt);
    }
    InputDatagramWraps(x.kcb, Accepted(x), Taken(x, y), y.kcb, Accepted(y), Taken(y, x), ps);
    DatagramAcceptable(y, i, x.kcb.cfg.conv);
    InputOfEncoded(WrapKcb(x.kcb), WrapPackets(ps));
  }

  lemma DeliverWraps(x: End, y: End, i: nat)
    requires ValidCfg(x.kcb.cfg) && ValidCfg(y.kcb.cfg) && x.kcb.cfg.conv == y.kcb.cfg.conv
    requires Flow(x, y) && Flow(y, x) && OutFits(y) && TimelyAction(x, y, Deliver(i))
    ensures StepEnd32(WrapEnd(x), WrapEnd(y).out, Deliver(i)) == WrapEnd(StepEnd(x, y.out, Deliver(i)))
  {
    hide InputDatagram, Input, WrapKcb, EncodeAll, Timely, Flow;
    if i < |y.out| {
      InputWraps(x, y, i);
      assert WrapEnd(y).out[i] == EncodeAll(WrapPackets(y.out[i]));
    }
  }

  lemma FlushStepWraps(x: End, y: End, k: Kcb)
    requires ValidCfg(x.kcb.cfg) && Flow(x, y) && Tidy(k)
    requires k.cfg == x.kcb.cfg && k.snd == x.kcb.snd && k.rcv == x.kcb.rcv
    ensures var (k', ps) := Flush(Unbounded, k); var (k32, ps32) := Flush(Bits32, WrapKcb(k));
      Emitted32(WrapEnd(x), k32, ps32) == WrapEnd(Emitted(x, k', ps))
  {
    FlushWraps(k);
    EmittedWraps(x, Flush(Unbounded, k).0, Flush(Unbounded, k).1);
  }

  lemma UpdateStepWraps(x: End, y: End, current: int)
    requires ValidCfg(x.kcb.cfg) && Flow(x, y) && EndFits(x)
    ensures StepEnd32(WrapEnd(x), WrapEnd(y).out, UpdateAt(current)) == WrapEnd(StepEnd(x, y.out, UpdateAt(current)))
  {
    var (clock, due) := Tick(x.kcb.clock, x.kcb.cfg.interval, U32(current));
    var k := x.kcb.(clock := clock);
    assert WrapKcb(k) == WrapKcb(x.kcb).(clock := clock);
    if due {
      FlushStepWraps(x, y, k);
    } else {
      EmittedWraps(x, k, []);
      assert WrapPackets([]) == [];
    }
  }

  lemma RecvStepWraps(x: End, y: End, maxLen: int)
    requires ValidCfg(x.kcb.cfg) && ValidCfg(y.kcb.cfg) && Flow(y, x)
    ensures StepEnd32(WrapEnd(x), WrapEnd(y).out, RecvMsg(maxLen)) == WrapEnd(StepEnd(x, y.out, RecvMsg(maxLen)))
  {
    RecvWraps(x.kcb, maxLen);
  }

  lemma StepWraps(x: End, y: End, a: Action)
    requires ValidCfg(x.kcb.cfg) && ValidCfg(y.kcb.cfg) && x.kcb.cfg.conv == y.kcb.cfg.conv
    requires Flow(x, y) && Flow(y, x) && EndFits(x) && EndFits(y) && TimelyAction(x, y, a)
    ensures StepEnd32(WrapEnd(x), WrapEnd(y).out, a) == WrapEnd(StepEnd(x, y.out, a))
  {
    match a
    case SendMsg(msg) => SendWraps(x.kcb, msg);
    case RecvMsg(maxLen) => RecvStepWraps(x, y, maxLen);
    case Deliver(i) => DeliverWraps(x, y, i);
    case FlushNow => FlushStepWraps(x, y, x.kcb);
    case UpdateAt(current) => UpdateStepWraps(x, y, current);
  }

  // ---------------------------------------------------------------- every run

  lemma {:induction false} RunFits(ca: Cfg, cb: Cfg, es: seq<Event>)
    requires Compatible(ca, cb)
    ensures var n := Run(Start(ca, cb), es); EndFits(n.a) && EndFits(n.b)
  {
    if es != [] {
      var front := es[..|es| - 1];
      RunFits(ca, cb, front);
      RunInv(ca, cb, front);
      var n, e := Run(Start(ca, cb), front), es[|es| - 1];
      if e.side.A? {
        StepFits(n.a, n.b, e.action);
      } else {
        StepFits(n.b, n.a, e.action);
      }
    }
  }

  /** Every timely run of the 32-bit program is the wrapped image of the same run of the unbounded one. */
  lemma {:induction false} Refines(ca: Cfg, cb: Cfg, es: seq<Event>)
    requires Compatible(ca, cb) && TimelyRun(ca, cb, es)
    ensures Run32(Start32(ca, cb), es) == WrapNet(Run(Start(ca, cb), es))
  {
    if es == [] {
      assert WrapSegs([]) == [] && WrapPackets([]) == [] && WrapAcks([]) == [];
      assert EncodeEach(WrapDatagrams([])) == [];
    } else {
      var front := es[..|es| - 1];
      Refines(ca, cb, front);
      RunFits(ca, cb, front);
      RunInv(ca, cb, front);
      var n, e := Run(Start(ca, cb), front), es[|es| - 1];
      if e.side.A? {
        StepWraps(n.a, n.b, e.action);
      } else {
        StepWraps(n.b, n.a, e.action);
      }
    }
  }

  /** The promise of the transport, for the program as it is: over bytes, with wrapping numbers. */
  lemma DeliveryIsPrefix32(ca: Cfg, cb: Cfg, es: seq<Event>)
    requires Compatible(ca, cb) && TimelyRun(ca, cb, es)
    ensures var n := Run32(Start32(ca, cb), es); n.b.got <= n.a.sent && n.a.got <= n.b.sent
  {
    Refines(ca, cb, es);
    DeliveryIsPrefix(ca, cb, es);
  }
}
