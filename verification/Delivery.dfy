/** The transport can always finish: from every reachable state there is a way to go on, losing nothing but what was
    already on the network, after which both users have received everything sent to them. */
module Delivery {
  import opened Serial
  import opened Kcp
  import opened Buffers
  import opened Wire
  import opened Channel
  import opened Connection
  import opened Progress
  import opened ByteRuns
  import opened Refinement
  import opened Acknowledgements
  import opened Probing

  // ---------------------------------------------------------------- going on

  /** An event that sends no new message and delivers nothing late. */
  predicate Good(n: Net, e: Event) {
    !e.action.SendMsg? && TimelyAction(At(n, e.side), At(n, Other(e.side)), e.action)
  }

  predicate GoodRun(n: Net, es: seq<Event>)
    requires n.a.kcb.cfg.mss >= 1 && n.b.kcb.cfg.mss >= 1
  {
    es == [] || (GoodRun(n, es[..|es| - 1]) && Good(Run(n, es[..|es| - 1]), es[|es| - 1]))
  }

  ghost predicate Reach(n: Net, n': Net)
    requires n.a.kcb.cfg.mss >= 1 && n.b.kcb.cfg.mss >= 1
  {
    exists es :: GoodRun(n, es) && n' == Run(n, es)
  }

  lemma ReachSelf(n: Net)
    requires n.a.kcb.cfg.mss >= 1 && n.b.kcb.cfg.mss >= 1
    ensures Reach(n, n)
  {
    assert GoodRun(n, []) && Run(n, []) == n;
  }

  lemma ReachMore(n: Net, n': Net, e: Event)
    requires n.a.kcb.cfg.mss >= 1 && n.b.kcb.cfg.mss >= 1
    requires Reach(n, n') && Good(n', e)
    ensures n'.a.kcb.cfg == n.a.kcb.cfg && n'.b.kcb.cfg == n.b.kcb.cfg && Reach(n, Step(n', e))
  {
    var es :| GoodRun(n, es) && n' == Run(n, es);
    assert (es + [e])[..|es + [e]| - 1] == es;
    assert GoodRun(n, es + [e]) && Run(n, es + [e]) == Step(n', e);
  }

  lemma {:induction false} GoodRunConcat(n: Net, a: seq<Event>, b: seq<Event>)
    requires n.a.kcb.cfg.mss >= 1 && n.b.kcb.cfg.mss >= 1
    requires GoodRun(n, a) && GoodRun(Run(n, a), b)
    ensures GoodRun(n, a + b)
  {
    hide Run, Good, StepEnd;
    if b == [] {
      assert a + b == a;
    } else {
      var front := b[..|b| - 1];
      GoodRunConcat(n, a, front);
      RunConcat(n, a, front);
      assert (a + b)[..|a + b| - 1] == a + front;
    }
  }

  lemma ReachTrans(n: Net, n1: Net, n2: Net)
    requires n.a.kcb.cfg.mss >= 1 && n.b.kcb.cfg.mss >= 1 && n1.a.kcb.cfg.mss >= 1 && n1.b.kcb.cfg.mss >= 1
    requires Reach(n, n1) && Reach(n1, n2)
    ensures Reach(n, n2)
  {
    var a :| GoodRun(n, a) && n1 == Run(n, a);
    var b :| GoodRun(n1, b) && n2 == Run(n1, b);
    GoodRunConcat(n, a, b);
    RunConcat(n, a, b);
  }

  // ---------------------------------------------------------------- what never goes back

  predicate LaterEnd(x: End, x': End) {
    && x'.kcb.cfg == x.kcb.cfg && x'.sent == x.sent && x.got <= x'.got
    && x.kcb.snd.una <= x'.kcb.snd.una && x.kcb.snd.nxt <= x'.kcb.snd.nxt
  }

  predicate Later(n: Net, n': Net) {
    LaterEnd(n.a, n'.a) && LaterEnd(n.b, n'.b)
  }

  lemma {:induction false} FillWindowKeepsUna(w: Width, k: Kcb, s: Snd, cwnd: int)
    ensures FillWindow(w, k, s, cwnd).una == s.una
    decreases |s.queue|
  {
    if SnDiff(w, s.nxt, Wrap(w, s.una + cwnd)) < 0 && s.queue != [] {
      FillWindowKeepsUna(w, k, NumberOne(w, k, s), cwnd);
    }
  }

  lemma DeliverIsLater(x: End, y: End, i: nat)
    requires ValidCfg(x.kcb.cfg) && ValidCfg(y.kcb.cfg) && Flow(x, y) && Flow(y, x)
    ensures LaterEnd(x, StepEnd(x, y.out, Deliver(i)))
  {
    FlowDeliver(x, y, i);
    if i < |y.out| {
      hide Flow, InputPackets;
      InputKeepsNxt(Unbounded, InputState(x.kcb, NoAck), y.out[i]);
    }
  }

  lemma RecvIsLater(x: End, wire: seq<seq<Packet>>, maxLen: int)
    requires x.kcb.cfg.mss >= 1
    ensures LaterEnd(x, StepEnd(x, wire, RecvMsg(maxLen)))
  {
  }

  lemma StepIsLater(x: End, y: End, a: Action)
    requires ValidCfg(x.kcb.cfg) && ValidCfg(y.kcb.cfg) && Flow(x, y) && Flow(y, x) && !a.SendMsg?
    ensures LaterEnd(x, StepEnd(x, y.out, a))
  {
    hide Flow, LaterEnd, Flush, InputDatagram, Recv;
    match a
    case RecvMsg(maxLen) => RecvIsLater(x, y.out, maxLen);
    case Deliver(i) => DeliverIsLater(x, y, i);
    case FlushNow => FlushIsLater(x, x.kcb);
    case UpdateAt(current) =>
      var k := x.kcb.(clock := Tick(x.kcb.clock, x.kcb.cfg.interval, U32(current)).0);
      FlushIsLater(x, k);
      ClockIsLater(x, k);
  }

  lemma ClockIsLater(x: End, k: Kcb)
    requires k == x.kcb.(clock := k.clock)
    ensures LaterEnd(x, Emitted(x, k, []))
  {
  }

  lemma FlushIsLater(x: End, k: Kcb)
    requires k.snd == x.kcb.snd && k.cfg == x.kcb.cfg
    ensures LaterEnd(x, Emitted(x, Flush(Unbounded, k).0, Flush(Unbounded, k).1))
  {
    if k.clock.updated {
      FillWindowKeepsUna(Unbounded, k, k.snd, SendWindow(k));
      FillWindowAdds(k, k.snd, SendWindow(k));
    }
  }

  lemma InvCfg(n: Net)
    requires Inv(n)
    ensures ValidCfg(n.a.kcb.cfg) && ValidCfg(n.b.kcb.cfg)
  {
  }

  lemma StepKeepsInv(n: Net, e: Event)
    requires Inv(n) && Good(n, e)
    ensures Inv(Step(n, e)) && Later(n, Step(n, e))
  {
    hide Flow, StepEnd, TimelyAction;
    var x, y := At(n, e.side), At(n, Other(e.side));
    FlowStep(x, y, e.action);
    StepIsLater(x, y, e.action);
  }

  lemma LaterSelf(n: Net)
    ensures Later(n, n)
  {
  }

  lemma LaterTrans(n: Net, n1: Net, n2: Net)
    requires Later(n, n1) && Later(n1, n2)
    ensures Later(n, n2)
  {
  }

  lemma {:induction false} RunIsLater(n: Net, es: seq<Event>)
    requires Inv(n) && GoodRun(n, es)
    ensures Inv(Run(n, es)) && Later(n, Run(n, es))
  {
    hide Inv, Good, Step, Later;
    InvCfg(n);
    if es == [] {
      LaterSelf(n);
    } else {
      var n1, e := Run(n, es[..|es| - 1]), es[|es| - 1];
      RunIsLater(n, es[..|es| - 1]);
      StepKeepsInv(n1, e);
      LaterTrans(n, n1, Step(n1, e));
    }
  }

  lemma ReachIsLater(n: Net, n': Net)
    requires Inv(n) && Reach(n, n')
    ensures Inv(n') && Later(n, n')
  {
    var es :| GoodRun(n, es) && n' == Run(n, es);
    RunIsLater(n, es);
  }

  // ---------------------------------------------------------------- a flush at a time of choice

  /** Setting the clock of `side` to `t` and flushing, in one call of ikcp_update or with ikcp_flush after it. */
  lemma FlushAt(n: Net, side: Side, t: int) returns (n': Net, k: Kcb)
    requires Inv(n)
    ensures Reach(n, n') && Inv(n') && Later(n, n')
    ensures var x := At(n, side);
      && k == x.kcb.(clock := k.clock) && k.clock.updated && k.clock.current == U32(t)
      && At(n', side) == Emitted(x, Flush(Unbounded, k).0, Flush(Unbounded, k).1)
      && At(n', Other(side)) == At(n, Other(side))
  {
    hide Flush, Inv, Flow, Later, Reach, Pack, StepEnd;
    var x := At(n, side);
    k := x.kcb.(clock := Tick(x.kcb.clock, x.kcb.cfg.interval, U32(t)).0);
    InvCfg(n);
    n' := Step(n, Event(side, UpdateAt(t)));
    ReachSelf(n);
    ReachMore(n, n, Event(side, UpdateAt(t)));
    UpdateStep(x, At(n, Other(side)).out, t);
    if !Tick(x.kcb.clock, x.kcb.cfg.interval, U32(t)).1 {
      ReachMore(n, n', Event(side, FlushNow));
      FlushStep(x.(kcb := k), At(n, Other(side)).out);
      n' := Step(n', Event(side, FlushNow));
    }
    ReachIsLater(n, n');
  }

  lemma UpdateStep(x: End, wire: seq<seq<Packet>>, t: int)
    requires x.kcb.cfg.mss >= 1
    ensures var (clock, due) := Tick(x.kcb.clock, x.kcb.cfg.interval, U32(t)); var k := x.kcb.(clock := clock);
      && clock.updated && clock.current == U32(t)
      && StepEnd(x, wire, UpdateAt(t))
         == if due then Emitted(x, Flush(Unbounded, k).0, Flush(Unbounded, k).1) else x.(kcb := k)
  {
    assert Pack(x.kcb.cfg.mtu, [], []) == [] && x.out + [] == x.out;
  }

  lemma FlushStep(x: End, wire: seq<seq<Packet>>)
    requires x.kcb.cfg.mss >= 1
    ensures StepEnd(x, wire, FlushNow) == Emitted(x, Flush(Unbounded, x.kcb).0, Flush(Unbounded, x.kcb).1)
  {
  }

  /** Every number pending acknowledgement is `low` or more. */
  predicate AcksFrom(r: Rcv, low: int) {
    forall i :: 0 <= i < |r.acks| ==> low <= r.acks[i].0
  }

  /** ... which is recent, when `nxt` is the next number of the other side. */
  predicate FreshAcks(r: Rcv, nxt: int) {
    AcksFrom(r, nxt - 0x1_0000)
  }

  lemma RecentAreFresh(r: Rcv, low: int, nxt: int)
    requires AcksFrom(r, low) && nxt <= low + 0x1_0000
    ensures FreshAcks(r, nxt)
  {
  }

  /** What a flush with recent acknowledgements puts out is not late. */
  lemma FlushIsTimely(x: End, y: End, k: Kcb, p: Packet)
    requires ValidCfg(x.kcb.cfg) && ValidCfg(y.kcb.cfg) && Flow(x, y) && Flow(y, x)
    requires k == x.kcb.(clock := k.clock) && FreshAcks(k.rcv, y.kcb.snd.nxt) && p in Flush(Unbounded, k).1
    ensures Timely(p, y.kcb, Flush(Unbounded, k).0)
    ensures p.cmd == IKCP_CMD_PUSH ==> x.kcb.snd.una <= p.sn
    ensures p.wnd == WndUnused(k)
  {
    FlushKeepsSnd(k, Accepted(x), y.kcb.rcv);
    Windows(y.kcb.snd, y.kcb.cfg.sndWnd, x.kcb.rcv, x.kcb.cfg.rcvWnd, Accepted(y), Taken(y, x));
    FlushNumbersFrom(k, Accepted(x), y.kcb.rcv, p);
    FlushKeepsUna(k);
    hide Flow, Dir, Flush;
  }

  /** What the segments of a flush carry. */
  lemma FlushNumbersFrom(k: Kcb, f: seq<Frag>, r: Rcv, p: Packet)
    requires k.cfg.sndWnd >= 1 && SndOk(k.snd, f, k.cfg.sndWnd) && NoLoss(k.snd, r) && p in Flush(Unbounded, k).1
    ensures p.una == k.rcv.nxt && p.wnd == WndUnused(k)
    ensures p.cmd == IKCP_CMD_PUSH ==> k.snd.una <= p.sn
    ensures p.cmd == IKCP_CMD_ACK ==> exists i :: 0 <= i < |k.rcv.acks| && k.rcv.acks[i].0 == p.sn
  {
    FillWindowKeeps(k, k.snd, f, k.cfg.sndWnd, SendWindow(k), r);
    FillWindowKeepsUna(Unbounded, k, k.snd, SendWindow(k));
    FlushBufPackets(k, FillWindow(Unbounded, k, k.snd, SendWindow(k)).buf);
    hide NoLoss;
    var acks := AckPackets(k, k.rcv.acks);
    if p in acks {
      var i :| 0 <= i < |acks| && acks[i] == p;
      assert acks[i] == Control(k, IKCP_CMD_ACK, k.rcv.acks[i]);
    }
  }

  lemma FlushKeepsUna(k: Kcb)
    ensures Flush(Unbounded, k).0.snd.una == k.snd.una && Flush(Unbounded, k).0.cfg == k.cfg
  {
    FillWindowKeepsUna(Unbounded, k, k.snd, SendWindow(k));
  }

  /** Delivering a datagram of that flush to the other side. */
  lemma DeliverNew(n: Net, side: Side, x: End, k: Kcb, i: nat) returns (n': Net)
    requires Inv(n) && ValidCfg(x.kcb.cfg) && Flow(x, At(n, Other(side))) && Flow(At(n, Other(side)), x)
    requires k == x.kcb.(clock := k.clock) && FreshAcks(k.rcv, At(n, Other(side)).kcb.snd.nxt)
    requires At(n, side) == Emitted(x, Flush(Unbounded, k).0, Flush(Unbounded, k).1)
    requires |x.out| <= i < |At(n, side).out|
    ensures Reach(n, n') && Inv(n') && Later(n, n')
    ensures At(n', side) == At(n, side)
    ensures At(n', Other(side)) == StepEnd(At(n, Other(side)), At(n, side).out, Deliver(i))
    ensures At(n, side).out[i] != []
    ensures forall p :: p in At(n, side).out[i] ==> p.wnd == WndUnused(k)
    ensures forall p :: p in At(n, side).out[i] && p.cmd == IKCP_CMD_PUSH ==> x.kcb.snd.una <= p.sn
  {
    hide Inv, Later, Reach, StepEnd, Flush, Pack, InputDatagram;
    var x', y := At(n, side), At(n, Other(side));
    InvCfg(n);
    NewIsTimely(x, y, k, i);
    var e := Event(Other(side), Deliver(i));
    ReachSelf(n);
    ReachMore(n, n, e);
    n' := Step(n, e);
    ReachIsLater(n, n');
  }

  lemma NewIsTimely(x: End, y: End, k: Kcb, i: nat)
    requires ValidCfg(x.kcb.cfg) && ValidCfg(y.kcb.cfg) && Flow(x, y) && Flow(y, x)
    requires k == x.kcb.(clock := k.clock) && FreshAcks(k.rcv, y.kcb.snd.nxt)
    requires |x.out| <= i < |Emitted(x, Flush(Unbounded, k).0, Flush(Unbounded, k).1).out|
    ensures var x' := Emitted(x, Flush(Unbounded, k).0, Flush(Unbounded, k).1);
      && x'.out[i] != []
      && forall p :: p in x'.out[i] ==>
        && Timely(p, y.kcb, x'.kcb) && p.wnd == WndUnused(k)
        && (p.cmd == IKCP_CMD_PUSH ==> x.kcb.snd.una <= p.sn)
  {
    var (k', ps) := Flush(Unbounded, k);
    hide Flow, Flush, Timely;
    var x' := Emitted(x, k', ps);
    var ds := Pack(x.kcb.cfg.mtu, [], ps);
    PackMembers(x.kcb.cfg.mtu, ps);
    PackNonempty(x.kcb.cfg.mtu, [], ps);
    assert x'.out[i] == ds[i - |x.out|] && ds[i - |x.out|] in ds;
    forall p | p in x'.out[i]
      ensures Timely(p, y.kcb, k') && p.wnd == WndUnused(k) && (p.cmd == IKCP_CMD_PUSH ==> x.kcb.snd.una <= p.sn)
    {
      FlushIsTimely(x, y, k, p);
    }
  }

  lemma {:induction false} PackNonempty(mtu: int, cur: seq<Packet>, ps: seq<Packet>)
    ensures forall d :: d in Pack(mtu, cur, ps) ==> d != []
    decreases |ps|
  {
    if ps != [] {
      PackNonempty(mtu, [ps[0]], ps[1..]);
      PackNonempty(mtu, cur + [ps[0]], ps[1..]);
    }
  }

  // ---------------------------------------------------------------- what a datagram does

  lemma {:induction false} AcksStayFrom(st: InputState, ps: seq<Packet>, low: int)
    requires AcksFrom(st.k.rcv, low)
    requires forall p :: p in ps && p.cmd == IKCP_CMD_PUSH ==> low <= p.sn
    ensures AcksFrom(InputPackets(Unbounded, st, ps).k.rcv, low)
    decreases |ps|
  {
    if ps != [] {
      InputPacketOwes(Unbounded, st.k, ps[0]);
      assert ps[0] in ps;
      AcksStayFrom(InputState(InputPacket(Unbounded, st.k, ps[0]), InputAck(Unbounded, st.ack, ps[0])), ps[1..], low);
    }
  }

  /** A question is remembered; the window is the one last advertised. */
  lemma {:induction false} InputNotes(st: InputState, ps: seq<Packet>, wnd: int)
    requires forall p :: p in ps ==> p.wnd == wnd
    ensures var k := InputPackets(Unbounded, st, ps).k;
      && k.cong == (if ps == [] then st.k.cong else st.k.cong.(rmtWnd := wnd))
      && (st.k.probe.askTell || (exists p :: p in ps && p.cmd == IKCP_CMD_WASK) ==> k.probe.askTell)
    decreases |ps|
  {
    if ps != [] {
      assert ps[0] in ps;
      InputNotes(InputState(InputPacket(Unbounded, st.k, ps[0]), InputAck(Unbounded, st.ack, ps[0])), ps[1..], wnd);
    }
  }

  // ---------------------------------------------------------------- the oldest segment is sent again and acknowledged

  lemma SameTime(t: int)
    ensures TimeDiff(U32(t), t) == 0
  {
    var k := U32Split(t);
    I32Congruent(0, -k);
    assert U32(t) - t == 0 + (-k) * TWO32;
  }

  /** When its resend time has come, or it was never sent, the oldest segment goes out. */
  lemma HeadGoesOut(k: Kcb) returns (p: Packet)
    requires k.clock.updated && k.snd.buf != [] && k.clock.current == U32(k.snd.buf[0].resendts)
    ensures p in Flush(Unbounded, k).1 && p.cmd == IKCP_CMD_PUSH && p.sn == k.snd.buf[0].sn
  {
    var s := FillWindow(Unbounded, k, k.snd, SendWindow(k));
    FillWindowAdds(k, k.snd, SendWindow(k));
    assert s.buf[0] == k.snd.buf[0];
    SameTime(s.buf[0].resendts);
    p := PushPacket(k.cfg.conv, Transmit(k, s.buf[0]));
    assert FlushBuf(k, s.buf).ps[0] == p;
  }

  /** Delivering a datagram keeps what is pending recent, if nothing was pending before. */
  lemma DeliverKeepsFresh(x: End, y: End, i: nat, low: int)
    requires y.kcb.cfg.mss >= 1 && i < |x.out| && y.kcb.rcv.acks == []
    requires forall p :: p in x.out[i] && p.cmd == IKCP_CMD_PUSH ==> low <= p.sn
    ensures AcksFrom(StepEnd(y, x.out, Deliver(i)).kcb.rcv, low)
  {
    AcksStayFrom(InputState(y.kcb, NoAck), x.out[i], low);
    InputKeepsCfg(Unbounded, InputState(y.kcb, NoAck), x.out[i]);
  }

  lemma OtherTwice(side: Side)
    ensures Other(Other(side)) == side
  {
  }

  lemma InvBoth(n: Net, side: Side)
    requires Inv(n)
    ensures var x, y := At(n, side), At(n, Other(side));
      && ValidCfg(x.kcb.cfg) && ValidCfg(y.kcb.cfg) && Flow(x, y) && Flow(y, x)
      && x.kcb.snd.nxt <= x.kcb.snd.una + 0xffff
      && (x.kcb.snd.una < x.kcb.snd.nxt ==> x.kcb.snd.buf != [] && x.kcb.snd.buf[0].sn == x.kcb.snd.una)
      && (|y.kcb.rcv.queue| < y.kcb.cfg.rcvWnd ==> x.kcb.snd.una <= y.kcb.rcv.nxt)
  {
    var x, y := At(n, side), At(n, Other(side));
    Windows(x.kcb.snd, x.kcb.cfg.sndWnd, y.kcb.rcv, y.kcb.cfg.rcvWnd, Accepted(x), Taken(x, y));
  }

  /** The oldest segment is sent once more, and arrives. */
  lemma HeadArrives(n: Net, side: Side) returns (n': Net)
    requires Inv(n) && At(n, side).kcb.snd.una < At(n, side).kcb.snd.nxt
    requires At(n, side).kcb.rcv.acks == [] && At(n, Other(side)).kcb.rcv.acks == []
    requires |At(n, Other(side)).kcb.rcv.queue| < At(n, Other(side)).kcb.cfg.rcvWnd
    ensures Reach(n, n') && Inv(n') && Later(n, n')
    ensures var una := At(n, side).kcb.snd.una;
      && At(n', side).kcb.snd.una == una
      && Acks(At(n', Other(side)).kcb.rcv, una) && AcksFrom(At(n', Other(side)).kcb.rcv, una)
  {
    hide Flush, StepEnd, Reach, Inv, Flow;
    var x, y := At(n, side), At(n, Other(side));
    InvBoth(n, side);
    var n1, k := FlushAt(n, side, x.kcb.snd.buf[0].resendts);
    var p := HeadGoesOut(k);
    var i, j := EmittedHas(x, Flush(Unbounded, k).0, Flush(Unbounded, k).1, p);
    FlushKeepsUna(k);
    InvBoth(n1, side);
    n' := DeliverNew(n1, side, x, k, i);
    DeliverAcks(y, At(n1, side), i, j);
    DeliverKeepsFresh(At(n1, side), y, i, x.kcb.snd.una);
    ReachTrans(n, n1, n');
    ReachIsLater(n, n');
  }

  /** Its acknowledgement goes out, and arrives. */
  lemma AnswerArrives(n: Net, side: Side) returns (n': Net)
    requires Inv(n) && At(n, side).kcb.snd.una < At(n, side).kcb.snd.nxt
    requires Acks(At(n, Other(side)).kcb.rcv, At(n, side).kcb.snd.una)
    requires AcksFrom(At(n, Other(side)).kcb.rcv, At(n, side).kcb.snd.una)
    ensures Reach(n, n') && Inv(n') && Later(n, n')
    ensures At(n, side).kcb.snd.una < At(n', side).kcb.snd.una
  {
    hide Flush, StepEnd, Reach, Inv, Flow, AcksFrom, FreshAcks, Emitted, Later, At, Other, Pack, InputDatagram;
    var x, y := At(n, side), At(n, Other(side));
    var una := x.kcb.snd.una;
    InvBoth(n, side);
    RecentAreFresh(y.kcb.rcv, x.kcb.snd.una, x.kcb.snd.nxt);
    OtherTwice(side);
    var n1, k := FlushAt(n, Other(side), y.kcb.clock.current);
    var p := AckGoesOut(k, una);
    var i, j := EmittedHas(y, Flush(Unbounded, k).0, Flush(Unbounded, k).1, p);
    InvBoth(n1, side);
    n' := DeliverNew(n1, Other(side), y, k, i);
    DeliverAdvances(x, At(n1, Other(side)), i, j);
    InvCfg(n);
    InvCfg(n1);
    ReachTrans(n, n1, n');
    ReachIsLater(n, n');
  }

  /** Sending the oldest segment once more, and delivering it and the ack that answers it, moves the unacknowledged
      edge. */
  lemma Acked(n: Net, side: Side) returns (n': Net)
    requires Inv(n) && At(n, side).kcb.snd.una < At(n, side).kcb.snd.nxt
    requires At(n, side).kcb.rcv.acks == [] && At(n, Other(side)).kcb.rcv.acks == []
    requires |At(n, Other(side)).kcb.rcv.queue| < At(n, Other(side)).kcb.cfg.rcvWnd
    ensures Reach(n, n') && Inv(n') && Later(n, n')
    ensures At(n, side).kcb.snd.una < At(n', side).kcb.snd.una
  {
    hide Inv, Reach;
    InvBoth(n, side);
    var n1 := HeadArrives(n, side);
    n' := AnswerArrives(n1, side);
    ReachTrans(n, n1, n');
    ReachIsLater(n, n');
  }

  lemma AckGoesOut(k: Kcb, sn: int) returns (p: Packet)
    requires k.clock.updated && Acks(k.rcv, sn)
    ensures p in Flush(Unbounded, k).1 && p.cmd == IKCP_CMD_ACK && p.sn == sn
  {
    var m :| 0 <= m < |k.rcv.acks| && k.rcv.acks[m].0 == sn;
    p := AckPackets(k, k.rcv.acks)[m];
    assert Flush(Unbounded, k).1[m] == p;
  }

  // ---------------------------------------------------------------- a closed window is opened again

  /** The invariant, with header fields that fit. */
  ghost predicate Fine(n: Net) {
    Inv(n) && EndFits(n.a) && EndFits(n.b)
  }

  lemma {:induction false} RunIsFine(n: Net, es: seq<Event>)
    requires Fine(n) && GoodRun(n, es)
    ensures Fine(Run(n, es))
  {
    hide Flow, EndFits, StepEnd, Good, Later;
    if es != [] {
      var front, e := es[..|es| - 1], es[|es| - 1];
      RunIsFine(n, front);
      var n1 := Run(n, front);
      InvBoth(n1, e.side);
      StepKeepsInv(n1, e);
      StepFits(At(n1, e.side), At(n1, Other(e.side)), e.action);
    }
  }

  lemma ReachIsFine(n: Net, n': Net)
    requires Fine(n) && Reach(n, n')
    ensures Fine(n') && Later(n, n')
  {
    var es :| GoodRun(n, es) && n' == Run(n, es);
    RunIsFine(n, es);
    ReachIsLater(n, n');
  }

  /** With nothing outstanding, a receiver with room has everything numbered so far, and its queue cannot grow. */
  lemma CaughtUp(n: Net, n': Net, side: Side)
    requires Inv(n) && Inv(n') && At(n, side).kcb.snd.una == At(n, side).kcb.snd.nxt == At(n', side).kcb.snd.nxt
    requires At(n', side).sent == At(n, side).sent && At(n', side).kcb.cfg == At(n, side).kcb.cfg
    requires At(n', Other(side)).got == At(n, Other(side)).got
    requires |At(n, Other(side)).kcb.rcv.queue| < At(n, Other(side)).kcb.cfg.rcvWnd
    ensures |At(n', Other(side)).kcb.rcv.queue| <= |At(n, Other(side)).kcb.rcv.queue|
  {
    InvBoth(n, side);
    InvBoth(n', side);
    QueueIs(At(n, side), At(n, Other(side)));
    QueueIs(At(n', side), At(n', Other(side)));
    hide Inv, Flow, Stream;
    assert Taken(At(n', side), At(n', Other(side))) == Taken(At(n, side), At(n, Other(side)));
  }

  lemma QueueIs(x: End, y: End)
    requires x.kcb.cfg.mss >= 1 && Flow(x, y)
    ensures |y.kcb.rcv.queue| == y.kcb.rcv.nxt - Taken(x, y) && y.kcb.rcv.nxt <= x.kcb.snd.nxt
  {
  }

  /** After a flush the window is at least 1, no ack is pending, and a question is scheduled if the peer has no room.
      */
  lemma FlushPrepares(k: Kcb)
    requires k.clock.updated
    ensures var k' := Flush(Unbounded, k).0;
      && k'.cong.cwnd >= 1 && k'.cong.rmtWnd == k.cong.rmtWnd && k'.rcv == k.rcv.(acks := [])
      && (k.cong.rmtWnd == 0 ==> k'.probe.wait != 0)
  {
  }

  lemma SendsNothing(k: Kcb)
    requires k.cong.rmtWnd == 0 && k.cong.cwnd >= 0 && k.cfg.sndWnd >= 0 && k.snd.una == k.snd.nxt
    ensures Flush(Unbounded, k).0.snd.nxt == k.snd.nxt
  {
  }

  /** A peer without room is asked for some, and the question arrives. */
  lemma AskArrives(n: Net, side: Side) returns (n': Net)
    requires Inv(n) && At(n, side).kcb.snd.una == At(n, side).kcb.snd.nxt
    requires At(n, side).kcb.rcv.acks == [] && At(n, Other(side)).kcb.rcv.acks == []
    requires |At(n, Other(side)).kcb.rcv.queue| < At(n, Other(side)).kcb.cfg.rcvWnd
    requires At(n, side).kcb.cong.rmtWnd == 0 && At(n, side).kcb.cong.cwnd >= 1 && At(n, side).kcb.probe.wait != 0
    ensures Reach(n, n') && Inv(n') && Later(n, n')
    ensures var x, x', y' := At(n, side).kcb, At(n', side).kcb, At(n', Other(side)).kcb;
      && x'.snd.una == x'.snd.nxt == x.snd.nxt && x'.cong.cwnd >= 1
      && y'.probe.askTell && AcksFrom(y'.rcv, x.snd.una) && |y'.rcv.queue| < y'.cfg.rcvWnd
  {
    hide Flush, StepEnd, Reach, Inv, Flow, InputDatagram;
    var x, y := At(n, side), At(n, Other(side));
    InvBoth(n, side);
    var n1, k := FlushAt(n, side, x.kcb.probe.ts);
    FlushAsks(Unbounded, k);
    SameTime(x.kcb.probe.ts);
    var ps := Flush(Unbounded, k).1;
    var p :| p in ps && p.cmd == IKCP_CMD_WASK;
    var i, j := EmittedHas(x, Flush(Unbounded, k).0, ps, p);
    FlushKeepsUna(k);
    FlushPrepares(k);
    SendsNothing(k);
    InvBoth(n1, side);
    n' := DeliverNew(n1, side, x, k, i);
    assert p in At(n1, side).out[i];
    DeliverNotes(At(n1, side), y, i, WndUnused(k));
    DeliverKeepsFresh(At(n1, side), y, i, x.kcb.snd.una);
    CaughtUp(n, n', side);
    ReachTrans(n, n1, n');
    ReachIsLater(n, n');
  }

  lemma DeliverNotes(x: End, y: End, i: nat, wnd: int)
    requires y.kcb.cfg.mss >= 1 && i < |x.out|
    requires forall p :: p in x.out[i] ==> p.wnd == wnd
    ensures var y' := StepEnd(y, x.out, Deliver(i));
      && y'.got == y.got
      && ((exists p :: p in x.out[i] && p.cmd == IKCP_CMD_WASK) ==> y'.kcb.probe.askTell)
      && (x.out[i] != [] && y'.kcb.snd.una <= y.kcb.snd.una ==> y'.kcb.cong == y.kcb.cong.(rmtWnd := wnd))
  {
    InputNotes(InputState(y.kcb, NoAck), x.out[i], wnd);
    InputKeepsCfg(Unbounded, InputState(y.kcb, NoAck), x.out[i]);
  }

  lemma TellGoesOut(k: Kcb) returns (p: Packet)
    requires k.clock.updated && k.probe.askTell
    ensures p in Flush(Unbounded, k).1
  {
    var probe, last := ProbeWindow(k.probe, k.cong.rmtWnd, k.clock.current), LastAck(k.rcv.acks);
    p := Control(k, IKCP_CMD_WINS, last);
    var ps := ProbePackets(k, probe, last);
    assert ps[|ps| - 1] == p;
    assert p in ControlPackets(k, probe);
  }

  /** A datagram with the window of y, just put out, arrives at x, which has nothing outstanding. */
  lemma WindowArrives(n: Net, side: Side, y: End, k: Kcb, i: nat) returns (n': Net)
    requires Inv(n) && At(n, side).kcb.snd.una == At(n, side).kcb.snd.nxt
    requires ValidCfg(y.kcb.cfg) && Flow(y, At(n, side)) && Flow(At(n, side), y)
    requires k == y.kcb.(clock := k.clock) && FreshAcks(k.rcv, At(n, side).kcb.snd.nxt)
    requires At(n, Other(side)) == Emitted(y, Flush(Unbounded, k).0, Flush(Unbounded, k).1)
    requires |y.out| <= i < |At(n, Other(side)).out|
    ensures Reach(n, n') && Inv(n') && Later(n, n')
    ensures var x, x' := At(n, side).kcb, At(n', side).kcb;
      x'.snd.una == x'.snd.nxt == x.snd.nxt && x'.cong == x.cong.(rmtWnd := WndUnused(k))
  {
    hide Flush, StepEnd, Reach, Inv, Flow, FreshAcks, Emitted, Later, WndUnused;
    OtherTwice(side);
    n' := DeliverNew(n, Other(side), y, k, i);
    InvBoth(n, side);
    DeliverTells(At(n, side), At(n, Other(side)), i, WndUnused(k));
  }

  /** The answer goes out in datagram `i`. */
  lemma TellLeaves(n: Net, side: Side) returns (n': Net, k: Kcb, i: nat)
    requires Inv(n) && At(n, side).kcb.probe.askTell
    ensures Reach(n, n') && Inv(n') && Later(n, n')
    ensures var y := At(n, side);
      && k == y.kcb.(clock := k.clock)
      && At(n', side) == Emitted(y, Flush(Unbounded, k).0, Flush(Unbounded, k).1)
      && At(n', Other(side)) == At(n, Other(side))
      && |y.out| <= i < |At(n', side).out|
  {
    hide Flush, Reach, Inv, Emitted, Later, At, Other;
    n', k := FlushAt(n, side, At(n, side).kcb.clock.current);
    var p := TellGoesOut(k);
    var j;
    i, j := EmittedHas(At(n, side), Flush(Unbounded, k).0, Flush(Unbounded, k).1, p);
  }

  /** And arrives: the peer has room. */
  lemma TellArrives(n: Net, side: Side) returns (n': Net)
    requires Inv(n) && At(n, side).kcb.snd.una == At(n, side).kcb.snd.nxt && At(n, side).kcb.cong.cwnd >= 1
    requires At(n, Other(side)).kcb.probe.askTell
    requires AcksFrom(At(n, Other(side)).kcb.rcv, At(n, side).kcb.snd.una)
    requires |At(n, Other(side)).kcb.rcv.queue| < At(n, Other(side)).kcb.cfg.rcvWnd
    ensures Reach(n, n') && Inv(n') && Later(n, n')
    ensures var x, x' := At(n, side).kcb, At(n', side).kcb;
      x'.snd.una == x'.snd.nxt == x.snd.nxt && x'.cong.cwnd >= 1 && x'.cong.rmtWnd >= 1
  {
    hide Flush, Reach, Inv, Flow, AcksFrom, FreshAcks, Emitted, Later, At, Other;
    var x, y := At(n, side), At(n, Other(side));
    InvBoth(n, side);
    RecentAreFresh(y.kcb.rcv, x.kcb.snd.una, x.kcb.snd.nxt);
    OtherTwice(side);
    var n1, k, i := TellLeaves(n, Other(side));
    n' := WindowArrives(n1, side, y, k, i);
    assert WndUnused(k) >= 1;
    InvCfg(n);
    InvCfg(n1);
    ReachTrans(n, n1, n');
    ReachIsLater(n, n');
  }

  /** With nothing outstanding, all a datagram changes of the congestion state is the window of the peer. */
  lemma DeliverTells(x: End, y: End, i: nat, wnd: int)
    requires ValidCfg(x.kcb.cfg) && ValidCfg(y.kcb.cfg) && Flow(x, y) && Flow(y, x)
    requires x.kcb.snd.una == x.kcb.snd.nxt
    requires i < |y.out| && y.out[i] != [] && forall p :: p in y.out[i] ==> p.wnd == wnd
    ensures var x' := StepEnd(x, y.out, Deliver(i)).kcb;
      x'.snd.una == x'.snd.nxt == x.kcb.snd.nxt && x'.cong == x.kcb.cong.(rmtWnd := wnd)
  {
    FlowDeliver(x, y, i);
    DeliverKeepsNxt(y, x, i);
    DeliverNotes(y, x, i, wnd);
    hide StepEnd;
  }

  lemma DeliverKeepsNxt(x: End, y: End, i: nat)
    requires y.kcb.cfg.mss >= 1
    ensures StepEnd(y, x.out, Deliver(i)).kcb.snd.nxt == y.kcb.snd.nxt
  {
    if i < |x.out| {
      InputKeepsNxt(Unbounded, InputState(y.kcb, NoAck), x.out[i]);
    }
  }

  lemma UnaWithin(n: Net, side: Side)
    requires Inv(n)
    ensures At(n, side).kcb.snd.una <= At(n, side).kcb.snd.nxt
  {
  }

  /** With the peer's room known, the next fragment is numbered. */
  lemma Numbered(n: Net, side: Side) returns (n': Net)
    requires Inv(n) && At(n, side).kcb.snd.una == At(n, side).kcb.snd.nxt && At(n, side).kcb.snd.queue != []
    requires At(n, side).kcb.cong.rmtWnd >= 1 && At(n, side).kcb.cong.cwnd >= 1
    ensures Reach(n, n') && Inv(n') && Later(n, n')
    ensures At(n, side).kcb.snd.nxt < At(n', side).kcb.snd.nxt
  {
    InvBoth(n, side);
    hide Flush, Inv, Flow, Reach;
    var k;
    n', k := FlushAt(n, side, At(n, side).kcb.clock.current);
    FlushNumbers(k);
  }

  lemma FlushNumbers(k: Kcb)
    requires k.clock.updated && k.snd.una == k.snd.nxt && k.snd.queue != []
    requires k.cfg.sndWnd >= 1 && k.cong.rmtWnd >= 1 && k.cong.cwnd >= 1
    ensures k.snd.nxt < Flush(Unbounded, k).0.snd.nxt
  {
    FillWindowAdds(k, NumberOne(Unbounded, k, k.snd), SendWindow(k));
  }

  /** From a state with nothing outstanding, fragments waiting, and room at the receiver, whose window may have been
      seen closed: asking for the window, if need be, and hearing of it, the next fragment is numbered. */
  lemma Reopened(n: Net, side: Side) returns (n': Net)
    requires Fine(n) && At(n, side).kcb.snd.una == At(n, side).kcb.snd.nxt && At(n, side).kcb.snd.queue != []
    requires At(n, side).kcb.rcv.acks == [] && At(n, Other(side)).kcb.rcv.acks == []
    requires |At(n, Other(side)).kcb.rcv.queue| < At(n, Other(side)).kcb.cfg.rcvWnd
    requires At(n, side).kcb.cong.cwnd >= 1
    requires At(n, side).kcb.cong.rmtWnd == 0 ==> At(n, side).kcb.probe.wait != 0
    ensures Reach(n, n') && Inv(n') && Later(n, n')
    ensures At(n, side).kcb.snd.nxt < At(n', side).kcb.snd.nxt
  {
    if At(n, side).kcb.cong.rmtWnd != 0 {
      n' := Numbered(n, side);
    } else {
      hide Reach;
      var n1 := AskArrives(n, side);
      var n2 := TellArrives(n1, side);
      SameQueue(n, n2, side);
      n' := Numbered(n2, side);
      ReachTrans(n, n1, n2);
      ReachTrans(n, n2, n');
      ReachIsLater(n, n');
    }
  }

  lemma SameQueue(n: Net, n': Net, side: Side)
    requires Inv(n) && Inv(n') && At(n', side).sent == At(n, side).sent && At(n', side).kcb.cfg == At(n, side).kcb.cfg
    requires At(n', side).kcb.snd.nxt == At(n, side).kcb.snd.nxt
    ensures At(n', side).kcb.snd.queue == At(n, side).kcb.snd.queue
  {
  }

  // ---------------------------------------------------------------- everything arrives

  /** Both sides flush, which sends what acks are pending; those datagrams may be lost. */
  lemma Prepared(n: Net, side: Side) returns (n': Net)
    requires Fine(n)
    ensures Reach(n, n') && Fine(n') && Later(n, n')
    ensures var x', y' := At(n', side).kcb, At(n', Other(side)).kcb;
      && x'.rcv.acks == [] && y'.rcv.acks == [] && x'.cong.cwnd >= 1
      && (x'.cong.rmtWnd == 0 ==> x'.probe.wait != 0)
      && y'.rcv.queue == At(n, Other(side)).kcb.rcv.queue
  {
    hide Flush, Reach, Flow;
    var n1, k := FlushAt(n, side, At(n, side).kcb.clock.current);
    FlushPrepares(k);
    var k1;
    n', k1 := FlushAt(n1, Other(side), At(n1, Other(side)).kcb.clock.current);
    FlushPrepares(k1);
    ReachTrans(n, n1, n');
    ReachIsFine(n, n');
  }

  function Edges(x: End): int {
    x.kcb.snd.una + x.kcb.snd.nxt
  }

  /** As long as x has fragments that are not acknowledged and y has room, x gets further. */
  lemma GetsFurther(n: Net, side: Side) returns (n': Net)
    requires Fine(n)
    requires At(n, side).kcb.snd.una < At(n, side).kcb.snd.nxt || At(n, side).kcb.snd.queue != []
    requires |At(n, Other(side)).kcb.rcv.queue| < At(n, Other(side)).kcb.cfg.rcvWnd
    ensures Reach(n, n') && Fine(n') && Later(n, n')
    ensures Edges(At(n, side)) < Edges(At(n', side))
  {
    hide Reach, Inv;
    InvBoth(n, side);
    var n1 := Prepared(n, side);
    if Edges(At(n, side)) < Edges(At(n1, side)) {
      n' := n1;
    } else {
      if At(n1, side).kcb.snd.una < At(n1, side).kcb.snd.nxt {
        n' := Acked(n1, side);
      } else {
        UnaWithin(n1, side);
        SameQueue(n, n1, side);
        n' := Reopened(n1, side);
      }
      ReachTrans(n, n1, n');
      ReachIsFine(n, n');
    }
  }

  /** The user on the other side takes the next message. */
  lemma TakesOne(n: Net, side: Side) returns (n': Net)
    requires Fine(n) && PeekSize(At(n, Other(side)).kcb.rcv.queue) >= 0
    ensures Reach(n, n') && Fine(n') && Later(n, n')
    ensures |At(n', Other(side)).got| == |At(n, Other(side)).got| + 1
  {
    hide Flow, Reach, Inv, EndFits, StepEnd, PeekSize;
    InvCfg(n);
    var y := At(n, Other(side));
    var e := Event(Other(side), RecvMsg(PeekSize(y.kcb.rcv.queue)));
    n' := Step(n, e);
    RecvTakes(y, At(n, side).out);
    ReachSelf(n);
    ReachMore(n, n, e);
    ReachIsFine(n, n');
  }

  lemma RecvTakes(y: End, wire: seq<seq<Packet>>)
    requires y.kcb.cfg.mss >= 1 && PeekSize(y.kcb.rcv.queue) >= 0
    ensures |StepEnd(y, wire, RecvMsg(PeekSize(y.kcb.rcv.queue))).got| == |y.got| + 1
  {
  }

  lemma GotIsSent(n: Net, side: Side)
    requires Inv(n)
    ensures |At(n, Other(side)).got| <= |At(n, side).sent|
  {
  }

  /** The user on the other side takes every complete message there is. */
  lemma Drained(n: Net, side: Side) returns (n': Net)
    requires Fine(n)
    ensures Reach(n, n') && Fine(n') && Later(n, n')
    ensures PeekSize(At(n', Other(side)).kcb.rcv.queue) < 0
    decreases |At(n, side).sent| - |At(n, Other(side)).got|
  {
    hide Reach, Inv, EndFits, PeekSize;
    InvBoth(n, side);
    if PeekSize(At(n, Other(side)).kcb.rcv.queue) < 0 {
      ReachSelf(n);
      ReachIsFine(n, n);
      n' := n;
    } else {
      var n1 := TakesOne(n, side);
      GotIsSent(n1, side);
      n' := Drained(n1, side);
      ReachTrans(n, n1, n');
      ReachIsFine(n, n');
    }
  }

  /** If the user has taken all there is and still misses a message, x has fragments that are not acknowledged. */
  lemma MissingIsUnacked(n: Net, side: Side)
    requires Inv(n) && PeekSize(At(n, Other(side)).kcb.rcv.queue) < 0
    requires At(n, Other(side)).got != At(n, side).sent
    ensures At(n, side).kcb.snd.una < At(n, side).kcb.snd.nxt || At(n, side).kcb.snd.queue != []
    ensures |At(n, Other(side)).kcb.rcv.queue| < At(n, Other(side)).kcb.cfg.rcvWnd
  {
    var x, y := At(n, side), At(n, Other(side));
    InvBoth(n, side);
    if |y.kcb.rcv.queue| >= y.kcb.cfg.rcvWnd {
      FullQueueHasMessage(x, y);
    }
    if x.kcb.snd.una == x.kcb.snd.nxt && x.kcb.snd.queue == [] {
      AllThere(x, y);
    }
  }

  /** When everything is numbered and received, the next message is complete. */
  lemma AllThere(x: End, y: End)
    requires ValidCfg(x.kcb.cfg) && ValidCfg(y.kcb.cfg) && Flow(x, y) && y.got != x.sent
    requires x.kcb.snd.queue == [] && y.kcb.rcv.nxt == x.kcb.snd.nxt
    ensures PeekSize(y.kcb.rcv.queue) >= 0
  {
    var mss, g, q := x.kcb.cfg.mss, |y.got|, y.kcb.rcv.queue;
    var f, taken := Accepted(x), Taken(x, y);
    assert x.sent[..g] == y.got && g < |x.sent|;
    assert x.sent[..|x.sent|] == x.sent;
    assert x.sent[..g + 1] == y.got + [x.sent[g]];
    StreamMore(mss, y.got, x.sent[g]);
    StreamPrefix(mss, x.sent, g + 1);
    CutShape(mss, x.sent[g]);
    assert |f| >= taken + FragCount(|x.sent[g]|, mss);
    assert q == f[taken..];
    HeadMessage(mss, x.sent, g, q, y.kcb.rcv.nxt);
  }

  lemma EdgesWithin(n: Net, side: Side)
    requires Inv(n)
    ensures Edges(At(n, side)) <= 2 * |Accepted(At(n, side))|
  {
  }

  /** Everything sent by one side is received by the other. */
  lemma Completes(n: Net, side: Side) returns (n': Net)
    requires Fine(n)
    ensures Reach(n, n') && Fine(n') && Later(n, n')
    ensures At(n', Other(side)).got == At(n, side).sent
    decreases 2 * |Accepted(At(n, side))| - Edges(At(n, side))
  {
    hide Reach, Inv, PeekSize, Stream;
    InvBoth(n, side);
    EdgesWithin(n, side);
    var n1 := Drained(n, side);
    if At(n1, Other(side)).got == At(n1, side).sent {
      n' := n1;
    } else {
      MissingIsUnacked(n1, side);
      var n2 := GetsFurther(n1, side);
      EdgesWithin(n2, side);
      n' := Completes(n2, side);
      ReachTrans(n, n1, n2);
      ReachTrans(n, n2, n');
      ReachIsFine(n, n');
    }
  }

  lemma {:induction false} StaysTimely(ca: Cfg, cb: Cfg, es: seq<Event>, more: seq<Event>)
    requires Compatible(ca, cb) && TimelyRun(ca, cb, es) && GoodRun(Run(Start(ca, cb), es), more)
    ensures TimelyRun(ca, cb, es + more)
  {
    hide Run, TimelyAction;
    if more == [] {
      assert es + more == es;
    } else {
      var front := more[..|more| - 1];
      StaysTimely(ca, cb, es, front);
      RunConcat(Start(ca, cb), es, front);
      assert (es + more)[..|es + more| - 1] == es + front;
    }
  }

  lemma {:induction false} GoodSendsNothing(n: Net, es: seq<Event>, i: nat)
    requires n.a.kcb.cfg.mss >= 1 && n.b.kcb.cfg.mss >= 1 && GoodRun(n, es) && i < |es|
    ensures !es[i].action.SendMsg?
    decreases |es|
  {
    hide Run, TimelyAction;
    if i < |es| - 1 {
      GoodSendsNothing(n, es[..|es| - 1], i);
    }
  }

  lemma WayTo(n: Net, n': Net) returns (more: seq<Event>)
    requires n.a.kcb.cfg.mss >= 1 && n.b.kcb.cfg.mss >= 1 && Reach(n, n')
    ensures GoodRun(n, more) && n' == Run(n, more)
    ensures forall i :: 0 <= i < |more| ==> !more[i].action.SendMsg?
  {
    more :| GoodRun(n, more) && n' == Run(n, more);
    forall i | 0 <= i < |more| ensures !more[i].action.SendMsg? {
      GoodSendsNothing(n, more, i);
    }
  }

  lemma CompletesBoth(n: Net) returns (n': Net)
    requires Fine(n)
    ensures Reach(n, n') && Fine(n') && Later(n, n')
    ensures n'.b.got == n.a.sent && n'.a.got == n.b.sent
  {
    hide Reach, Inv, EndFits;
    InvBoth(n, A);
    var n1 := Completes(n, A);
    n' := Completes(n1, B);
    GotWithin(n');
    ReachTrans(n, n1, n');
    ReachIsFine(n, n');
  }

  lemma GotWithin(n: Net)
    requires Inv(n)
    ensures n.b.got <= n.a.sent
  {
  }

  /** After any run, however much was lost and however closed the windows, there is a way to go on, sending no new
      message, after which each user has received every message the other sent; and if nothing was late so far,
      nothing need be late in it. */
  lemma PossibleDelivery(ca: Cfg, cb: Cfg, es: seq<Event>) returns (more: seq<Event>)
    requires Compatible(ca, cb)
    ensures forall i :: 0 <= i < |more| ==> !more[i].action.SendMsg?
    ensures var n, n' := Run(Start(ca, cb), es), Run(Start(ca, cb), es + more);
      n'.b.got == n'.a.sent == n.a.sent && n'.a.got == n'.b.sent == n.b.sent
    ensures TimelyRun(ca, cb, es) ==> TimelyRun(ca, cb, es + more)
  {
    var n := Run(Start(ca, cb), es);
    RunInv(ca, cb, es);
    RunFits(ca, cb, es);
    var n2 := CompletesBoth(n);
    more := WayTo(n, n2);
    hide Run, TimelyRun, GoodRun, Inv, EndFits;
    RunConcat(Start(ca, cb), es, more);
    if TimelyRun(ca, cb, es) {
      StaysTimely(ca, cb, es, more);
    }
  }

  /** The same for the program as it is, after any timely run. */
  lemma PossibleDelivery32(ca: Cfg, cb: Cfg, es: seq<Event>) returns (more: seq<Event>)
    requires Compatible(ca, cb) && TimelyRun(ca, cb, es)
    ensures forall i :: 0 <= i < |more| ==> !more[i].action.SendMsg?
    ensures var n, n' := Run32(Start32(ca, cb), es), Run32(Start32(ca, cb), es + more);
      n'.b.got == n'.a.sent == n.a.sent && n'.a.got == n'.b.sent == n.b.sent
    ensures TimelyRun(ca, cb, es + more)
  {
    more := PossibleDelivery(ca, cb, es);
    Refines(ca, cb, es);
    Refines(ca, cb, es + more);
  }

  /** After any run: with nothing outstanding, fragments waiting and room at the receiver, the next fragment can be
      numbered, even if the window was last seen closed. */
  lemma WindowReopens(ca: Cfg, cb: Cfg, es: seq<Event>, side: Side) returns (more: seq<Event>)
    requires Compatible(ca, cb)
    requires var n := Run(Start(ca, cb), es);
      && At(n, side).kcb.snd.una == At(n, side).kcb.snd.nxt && At(n, side).kcb.snd.queue != []
      && |At(n, Other(side)).kcb.rcv.queue| < At(n, Other(side)).kcb.cfg.rcvWnd
    ensures forall i :: 0 <= i < |more| ==> !more[i].action.SendMsg?
    ensures At(Run(Start(ca, cb), es), side).kcb.snd.nxt < At(Run(Start(ca, cb), es + more), side).kcb.snd.nxt
  {
    var n := Run(Start(ca, cb), es);
    RunInv(ca, cb, es);
    RunFits(ca, cb, es);
    var n' := GetsFurther(n, side);
    UnaWithin(n', side);
    more := WayTo(n, n');
    RunConcat(Start(ca, cb), es, more);
  }
}
