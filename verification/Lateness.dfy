/** Lateness in terms of the network: if no datagram is delivered more than a billion segments after it was put out,
    no number it carries is half the ring late, whatever late data was acknowledged on the way. */
module Lateness {
  import opened Serial
  import opened Kcp
  import opened Buffers
  import opened Wire
  import opened Channel
  import opened Connection
  import opened Refinement
  import opened Delivery

  // ---------------------------------------------------------------- when a datagram was put out

  /** How many fragments the side that put a datagram out, and the other, had numbered by then. */
  datatype Stamp = Stamp(own: int, other: int)

  /** The stamps of a side's datagrams, and its receiving half at its last flush. */
  datatype Mark = Mark(stamps: seq<Stamp>, seen: Rcv)

  function Stamped(n: nat, s: Stamp): (r: seq<Stamp>)
    ensures |r| == n && forall i :: 0 <= i < n ==> r[i] == s
  {
    seq(n, _ => s)
  }

  function MarkStep(m: Mark, x: End, x': End, y: End, a: Action): Mark {
    Mark(m.stamps + Stamped(if |x'.out| < |x.out| then 0 else |x'.out| - |x.out|, Stamp(x'.kcb.snd.nxt, y.kcb.snd.nxt)),
         if Flushes(x.kcb, a) then x.kcb.rcv else m.seen)
  }

  function MarkOf(ca: Cfg, cb: Cfg, es: seq<Event>, side: Side): Mark
    requires Compatible(ca, cb)
  {
    if es == [] then Mark([], Rcv(0, [], [], []))
    else
      var front, e := es[..|es| - 1], es[|es| - 1];
      var m, n := MarkOf(ca, cb, front, side), Run(Start(ca, cb), front);
      if e.side != side then m
      else MarkStep(m, At(n, side), At(Step(n, e), side), At(n, Other(side)), e.action)
  }

  /** About a billion. */
  const PROMPT: int := 0x4000_0000 - 0x4_0000

  /** The datagram delivered was put out at most PROMPT segments ago, in either direction. */
  predicate PromptAction(x: End, y: End, m: Mark, a: Action) {
    a.Deliver? && a.i < |y.out| && a.i < |m.stamps| ==>
      x.kcb.snd.nxt <= m.stamps[a.i].other + PROMPT && y.kcb.snd.nxt <= m.stamps[a.i].own + PROMPT
  }

  predicate PromptRun(ca: Cfg, cb: Cfg, es: seq<Event>)
    requires Compatible(ca, cb)
  {
    es == [] ||
    var front, e := es[..|es| - 1], es[|es| - 1];
    var n := Run(Start(ca, cb), front);
    && PromptRun(ca, cb, front)
    && PromptAction(At(n, e.side), At(n, Other(e.side)), MarkOf(ca, cb, front, Other(e.side)), e.action)
  }

  // ---------------------------------------------------------------- how old the numbers are

  const WND: int := 0x1_0000

  /** The data x put out was recent then. */
  predicate PushesRecent(x: End, m: Mark) {
    && |m.stamps| == |x.out|
    && forall i, j :: 0 <= i < |x.out| && 0 <= j < |x.out[i]| && x.out[i][j].cmd == IKCP_CMD_PUSH ==>
        m.stamps[i].own - WND <= x.out[i][j].sn
  }

  predicate AnswerRecent(p: Packet, other: int) {
    && other - 2 * WND <= p.una
    && (p.cmd == IKCP_CMD_ACK ==> other - PROMPT - 3 * WND <= p.sn)
  }

  /** What y put out in answer was recent then. */
  predicate AnswersRecent(y: End, m: Mark) {
    && |m.stamps| == |y.out|
    && forall i, j :: 0 <= i < |y.out| && 0 <= j < |y.out[i]| ==> AnswerRecent(y.out[i][j], m.stamps[i].other)
  }

  predicate Below(r: Rcv, end: int) {
    forall i :: 0 <= i < |r.buf| ==> r.buf[i].sn < end
  }

  /** What y had received at its last flush is all that x can know of. */
  ghost predicate Known(x: End, y: End, seen: Rcv) {
    && NoLoss(x.kcb.snd, seen)
    && (forall i, j :: 0 <= i < |y.out| && 0 <= j < |y.out[i]| ==> AckOk(y.out[i][j], seen))
    && 0 <= seen.nxt <= y.kcb.rcv.nxt
    && Below(seen, seen.nxt + WND)
    && AcksFrom(y.kcb.rcv, seen.nxt - PROMPT - WND)
  }

  /** From x to y. */
  ghost predicate Lag(x: End, y: End, mx: Mark, my: Mark) {
    PushesRecent(x, mx) && AnswersRecent(y, my) && Known(x, y, my.seen)
  }

  /** x is not much further than what y had received at its last flush. */
  lemma KnownWindow(x: End, y: End, seen: Rcv)
    requires ValidCfg(x.kcb.cfg) && Flow(x, y) && Known(x, y, seen)
    ensures x.kcb.snd.nxt <= seen.nxt + 2 * WND
  {
    var past := seen.nxt + WND;
    if past < x.kcb.snd.nxt {
      assert Buffered(x.kcb.snd, past) || Held(seen, past);
    }
  }

  /** So what is delivered promptly is timely. */
  lemma PromptIsTimelyAction(x: End, y: End, mx: Mark, my: Mark, a: Action)
    requires ValidCfg(x.kcb.cfg) && Lag(x, y, mx, my) && Lag(y, x, my, mx) && PromptAction(x, y, my, a)
    ensures TimelyAction(x, y, a)
  {
    if a.Deliver? && a.i < |y.out| {
      forall j | 0 <= j < |y.out[a.i]| ensures Timely(y.out[a.i][j], x.kcb, y.kcb) {
        assert AnswerRecent(y.out[a.i][j], my.stamps[a.i].other);
      }
    }
  }

  // ---------------------------------------------------------------- x acts

  lemma {:induction false} InputKeepsNoLoss(st: InputState, f: seq<Frag>, wnd: int, r: Rcv, ps: seq<Packet>)
    requires SndOk(st.k.snd, f, wnd) && NoLoss(st.k.snd, r)
    requires forall j :: 0 <= j < |ps| ==> AckOk(ps[j], r)
    ensures var s := InputPackets(Unbounded, st, ps).k.snd; SndOk(s, f, wnd) && NoLoss(s, r)
    decreases |ps|
  {
    if ps != [] {
      var p := ps[0];
      ApplyUnaKeeps(st.k.snd, f, wnd, r, p.una);
      if p.cmd == IKCP_CMD_ACK {
        ApplyAckKeeps(ApplyUna(Unbounded, st.k.snd, p.una), f, wnd, r, p.sn);
      }
      var st1 := InputState(InputPacket(Unbounded, st.k, p), InputAck(Unbounded, st.ack, p));
      hide InputPacket, SndOk, NoLoss, ApplyUna, ApplyAck;
      assert forall j :: 0 <= j < |ps[1..]| ==> ps[1..][j] == ps[j + 1];
      InputKeepsNoLoss(st1, f, wnd, r, ps[1..]);
    }
  }

  lemma DeliverKeepsNoLoss(k: Kcb, f: seq<Frag>, wnd: int, r: Rcv, ps: seq<Packet>)
    requires k.cfg.mss >= 1 && SndOk(k.snd, f, wnd) && NoLoss(k.snd, r)
    requires forall j :: 0 <= j < |ps| ==> AckOk(ps[j], r)
    ensures NoLoss(InputDatagram(Unbounded, k, ps).snd, r)
  {
    InputKeepsNoLoss(InputState(k, NoAck), f, wnd, r, ps);
    var st := InputPackets(Unbounded, InputState(k, NoAck), ps);
    if st.ack.MaxAck? {
      BumpFastackKeepsShape(Unbounded, st.k.snd.buf, st.ack.sn);
      SameShapeKeeps(st.k.snd, BumpFastack(Unbounded, st.k.snd.buf, st.ack.sn), f, wnd, r);
      assert st.k.snd.(buf := st.k.snd.buf) == st.k.snd;
    }
  }

  /** The fragments numbered so far stay known through any step of x. */
  lemma StepKeepsNoLoss(x: End, y: End, r: Rcv, a: Action)
    requires ValidCfg(x.kcb.cfg) && Flow(x, y) && NoLoss(x.kcb.snd, r)
    requires forall i, j :: 0 <= i < |y.out| && 0 <= j < |y.out[i]| ==> AckOk(y.out[i][j], r)
    ensures NoLoss(StepEnd(x, y.out, a).kcb.snd, r)
  {
    var f := Accepted(x);
    match a
    case SendMsg(msg) =>
      assert forall sn :: Buffered(x.kcb.snd, sn) ==> Buffered(StepEnd(x, y.out, a).kcb.snd, sn);
    case RecvMsg(maxLen) =>
    case Deliver(i) =>
      if i < |y.out| {
        DeliverKeepsNoLoss(x.kcb, f, x.kcb.cfg.sndWnd, r, y.out[i]);
      }
    case FlushNow => FlushKeepsSnd(x.kcb, f, r);
    case UpdateAt(current) =>
      FlushKeepsSnd(x.kcb.(clock := Tick(x.kcb.clock, x.kcb.cfg.interval, U32(current)).0), f, r);
  }

  lemma PutsOutNothing(k: Kcb)
    ensures Pack(k.cfg.mtu, [], []) == []
    ensures !k.clock.updated ==> Flush(Unbounded, k).1 == []
  {
  }

  /** What a step puts out, in terms of the block it flushes. */
  lemma StepPutsOut(x: End, wire: seq<seq<Packet>>, a: Action) returns (k: Kcb, ps: seq<Packet>)
    requires x.kcb.cfg.mss >= 1
    ensures StepEnd(x, wire, a).out == x.out + Pack(x.kcb.cfg.mtu, [], ps)
    ensures k == x.kcb.(clock := k.clock)
    ensures Flushes(x.kcb, a) ==>
      StepEnd(x, wire, a).kcb == Flush(Unbounded, k).0 && ps == Flush(Unbounded, k).1 && k.clock.updated
    ensures !Flushes(x.kcb, a) ==> ps == []
  {
    hide Pack, Flush, Recv, Send;
    PutsOutNothing(x.kcb);
    assert x.out + [] == x.out;
    k := if a.UpdateAt? then x.kcb.(clock := Tick(x.kcb.clock, x.kcb.cfg.interval, U32(a.current)).0) else x.kcb;
    ps := if Flushes(x.kcb, a) then Flush(Unbounded, k).1 else [];
  }

  /** Every packet of a new datagram was flushed. */
  lemma NewIsFlushed(before: seq<seq<Packet>>, mtu: int, ps: seq<Packet>, i: nat, j: nat)
    requires var out := before + Pack(mtu, [], ps); |before| <= i < |out| && j < |out[i]|
    ensures (before + Pack(mtu, [], ps))[i][j] in ps
  {
    PackMembers(mtu, ps);
    var ds := Pack(mtu, [], ps);
    assert (before + ds)[i] == ds[i - |before|] && ds[i - |before|] in ds;
  }

  lemma StepKeepsPushes(x: End, y: End, m: Mark, a: Action)
    requires ValidCfg(x.kcb.cfg) && ValidCfg(y.kcb.cfg) && Flow(x, y) && Flow(y, x) && PushesRecent(x, m)
    ensures PushesRecent(StepEnd(x, y.out, a), MarkStep(m, x, StepEnd(x, y.out, a), y, a))
  {
    var k, ps := StepPutsOut(x, y.out, a);
    var x' := StepEnd(x, y.out, a);
    var m' := MarkStep(m, x, x', y, a);
    if Flushes(x.kcb, a) {
      FlushKeepsSnd(k, Accepted(x), y.kcb.rcv);
      FlushKeepsUna(k);
    }
    hide Flow, Flush, StepEnd, Pack, Dir;
    forall i, j | 0 <= i < |x'.out| && 0 <= j < |x'.out[i]| && x'.out[i][j].cmd == IKCP_CMD_PUSH
      ensures m'.stamps[i].own - WND <= x'.out[i][j].sn
    {
      if i < |x.out| {
        assert x'.out[i] == x.out[i];
      } else {
        NewIsFlushed(x.out, x.kcb.cfg.mtu, ps, i, j);
        FlowParts(x, y);
        FlushNumbersFrom(k, Accepted(x), y.kcb.rcv, x'.out[i][j]);
      }
    }
  }

  lemma FlowParts(x: End, y: End)
    requires ValidCfg(x.kcb.cfg) && ValidCfg(y.kcb.cfg) && Flow(x, y)
    ensures SndOk(x.kcb.snd, Accepted(x), x.kcb.cfg.sndWnd) && NoLoss(x.kcb.snd, y.kcb.rcv)
    ensures x.kcb.snd.nxt <= y.kcb.rcv.nxt + 2 * WND && 0 <= y.kcb.rcv.nxt <= x.kcb.snd.nxt
    ensures Below(y.kcb.rcv, y.kcb.rcv.nxt + WND)
    ensures forall i, j :: 0 <= i < |y.out| && 0 <= j < |y.out[i]| ==> AckOk(y.out[i][j], y.kcb.rcv)
  {
    Windows(x.kcb.snd, x.kcb.cfg.sndWnd, y.kcb.rcv, y.kcb.cfg.rcvWnd, Accepted(x), Taken(x, y));
  }

  /** x sends its own data: what y knows of it. */
  lemma SenderKeepsLag(x: End, y: End, mx: Mark, my: Mark, a: Action)
    requires ValidCfg(x.kcb.cfg) && ValidCfg(y.kcb.cfg) && Flow(x, y) && Flow(y, x) && Lag(x, y, mx, my)
    ensures Lag(StepEnd(x, y.out, a), y, MarkStep(mx, x, StepEnd(x, y.out, a), y, a), my)
  {
    StepKeepsPushes(x, y, mx, a);
    StepKeepsNoLoss(x, y, my.seen, a);
    hide Flow, StepEnd, PushesRecent, AnswersRecent, NoLoss;
  }

  // ---------------------------------------------------------------- y answers

  /** What y puts out in a step carries numbers that are recent. */
  lemma StepKeepsAnswers(x: End, y: End, m: Mark, a: Action)
    requires ValidCfg(x.kcb.cfg) && ValidCfg(y.kcb.cfg) && Flow(x, y) && Flow(y, x)
    requires AnswersRecent(y, m) && Known(x, y, m.seen)
    ensures AnswersRecent(StepEnd(y, x.out, a), MarkStep(m, y, StepEnd(y, x.out, a), x, a))
  {
    var k, ps := StepPutsOut(y, x.out, a);
    var y' := StepEnd(y, x.out, a);
    var m' := MarkStep(m, y, y', x, a);
    KnownWindow(x, y, m.seen);
    FlowParts(x, y);
    FlowParts(y, x);
    hide Flow, Flush, StepEnd, Pack, NoLoss, Held;
    forall i, j | 0 <= i < |y'.out| && 0 <= j < |y'.out[i]| ensures AnswerRecent(y'.out[i][j], m'.stamps[i].other) {
      if i < |y.out| {
        assert y'.out[i] == y.out[i];
      } else {
        NewIsFlushed(y.out, y.kcb.cfg.mtu, ps, i, j);
        FlushNumbersFrom(k, Accepted(y), x.kcb.rcv, y'.out[i][j]);
      }
    }
  }

  /** A prompt delivery leaves pending only acknowledgements of recent numbers. */
  lemma DeliverKeepsPending(x: End, y: End, mx: Mark, i: nat, low: int)
    requires ValidCfg(x.kcb.cfg) && ValidCfg(y.kcb.cfg) && Flow(x, y) && PushesRecent(x, mx) && i < |x.out|
    requires x.kcb.snd.nxt <= mx.stamps[i].own + PROMPT && low <= y.kcb.rcv.nxt - PROMPT - WND
    requires AcksFrom(y.kcb.rcv, low)
    ensures AcksFrom(StepEnd(y, x.out, Deliver(i)).kcb.rcv, low)
  {
    FlowParts(x, y);
    hide Flow;
    forall p | p in x.out[i] && p.cmd == IKCP_CMD_PUSH ensures low <= p.sn {
      var j :| 0 <= j < |x.out[i]| && x.out[i][j] == p;
      assert mx.stamps[i].own - WND <= x.out[i][j].sn;
    }
    AcksStayFrom(InputState(y.kcb, NoAck), x.out[i], low);
    InputKeepsCfg(Unbounded, InputState(y.kcb, NoAck), x.out[i]);
  }

  /** No other step adds to what is pending. */
  lemma StepKeepsPending(x: End, y: End, mx: Mark, a: Action, low: int)
    requires ValidCfg(x.kcb.cfg) && ValidCfg(y.kcb.cfg) && Flow(x, y) && PushesRecent(x, mx)
    requires PromptAction(y, x, mx, a) && low <= y.kcb.rcv.nxt - PROMPT - WND && AcksFrom(y.kcb.rcv, low)
    ensures AcksFrom(StepEnd(y, x.out, a).kcb.rcv, low)
  {
    match a
    case SendMsg(msg) =>
    case RecvMsg(maxLen) =>
      var r := y.kcb.rcv;
      MoveReadyKeepsAcks(Unbounded, r, y.kcb.cfg.rcvWnd);
      MoveReadyKeepsAcks(Unbounded, r.(queue := r.queue[MsgNodes(r.queue)..]), y.kcb.cfg.rcvWnd);
    case Deliver(i) =>
      if i < |x.out| {
        DeliverKeepsPending(x, y, mx, i, low);
      }
    case FlushNow =>
    case UpdateAt(current) =>
  }

  lemma SameHeld(r: Rcv, r': Rcv)
    requires r' == r.(acks := r'.acks)
    ensures forall p :: AckOk(p, r') ==> AckOk(p, r)
  {
  }

  /** At a flush, all that y has received becomes what x may come to know of. */
  lemma FlushRenewsKnown(x: End, y: End, y': End)
    requires ValidCfg(x.kcb.cfg) && ValidCfg(y.kcb.cfg) && y'.kcb.cfg == y.kcb.cfg && Flow(x, y) && Flow(x, y')
    requires y'.kcb.rcv == y.kcb.rcv.(acks := [])
    ensures Known(x, y', y.kcb.rcv)
  {
    hide Flow, NoLoss, Held, AckOk, Below;
    FlowParts(x, y);
    FlowParts(x, y');
    SameHeld(y.kcb.rcv, y'.kcb.rcv);
  }

  lemma FlushClears(k: Kcb)
    requires k.clock.updated
    ensures Flush(Unbounded, k).0.rcv == k.rcv.(acks := [])
  {
  }

  lemma ReceiverKeepsKnown(x: End, y: End, mx: Mark, my: Mark, a: Action)
    requires ValidCfg(x.kcb.cfg) && ValidCfg(y.kcb.cfg) && Flow(x, y) && Flow(y, x) && Lag(x, y, mx, my)
    requires PromptAction(y, x, mx, a)
    ensures Known(x, StepEnd(y, x.out, a), MarkStep(my, y, StepEnd(y, x.out, a), x, a).seen)
  {
    var k, ps := StepPutsOut(y, x.out, a);
    var y' := StepEnd(y, x.out, a);
    if Flushes(y.kcb, a) {
      hide Flow, Flush, StepEnd, Lag, Known, PromptAction;
      FlowStep(y, x, a);
      FlushClears(k);
      FlushRenewsKnown(x, y, y');
    } else {
      hide Flow, Flush, StepEnd, NoLoss, Held, Pack, PushesRecent, AnswersRecent, PromptAction;
      assert y'.out == y.out;
      StepKeepsPending(x, y, mx, a, my.seen.nxt - PROMPT - WND);
      StepKeepsRcvNxt(y, x, a);
    }
  }

  lemma StepKeepsRcvNxt(y: End, x: End, a: Action)
    requires ValidCfg(x.kcb.cfg) && ValidCfg(y.kcb.cfg) && Flow(x, y) && Flow(y, x)
    ensures y.kcb.rcv.nxt <= StepEnd(y, x.out, a).kcb.rcv.nxt
  {
    match a
    case SendMsg(msg) =>
    case RecvMsg(maxLen) =>
      if Recv(Unbounded, y.kcb, maxLen).1.code >= 0 {
        RecvHalf(y.kcb, maxLen);
        MoveReadyGrows(y.kcb.rcv.(queue := y.kcb.rcv.queue[if maxLen < 0 then 0 else MsgNodes(y.kcb.rcv.queue)..]),
                       y.kcb.cfg.rcvWnd);
      }
    case Deliver(i) =>
      if i < |x.out| {
        forall j | 0 <= j < |x.out[i]| ensures FromPeer(x.out[i][j], x.kcb, Accepted(x)) {
          assert AckOk(x.out[i][j], x.kcb.rcv) && PushOk(x.out[i][j], Accepted(x), x.kcb.snd.nxt);
        }
        InputDatagramKeeps(y.kcb, Accepted(y), Taken(y, x), x.kcb, Accepted(x), Taken(x, y), x.out[i]);
      }
    case FlushNow =>
    case UpdateAt(current) =>
  }

  lemma {:induction false} MoveReadyGrows(r: Rcv, rcvWnd: int)
    ensures r.nxt <= MoveReady(Unbounded, r, rcvWnd).nxt
    decreases |r.buf|
  {
    if r.buf != [] && r.buf[0].sn == r.nxt && |r.queue| < rcvWnd {
      MoveReadyGrows(r.(buf := r.buf[1..], queue := r.queue + [Frag(r.buf[0].frg, r.buf[0].data)], nxt := r.nxt + 1),
                     rcvWnd);
    }
  }

  /** y receives x's data, and answers it. */
  lemma ReceiverKeepsLag(x: End, y: End, mx: Mark, my: Mark, a: Action)
    requires ValidCfg(x.kcb.cfg) && ValidCfg(y.kcb.cfg) && Flow(x, y) && Flow(y, x) && Lag(x, y, mx, my)
    requires PromptAction(y, x, mx, a)
    ensures Lag(x, StepEnd(y, x.out, a), mx, MarkStep(my, y, StepEnd(y, x.out, a), x, a))
  {
    StepKeepsAnswers(x, y, my, a);
    ReceiverKeepsKnown(x, y, mx, my, a);
    hide Flow, StepEnd, PushesRecent, AnswersRecent, Known;
  }

  // ---------------------------------------------------------------- every run

  ghost predicate Lags(n: Net, ma: Mark, mb: Mark) {
    Lag(n.a, n.b, ma, mb) && Lag(n.b, n.a, mb, ma)
  }

  /** An action of x. */
  lemma StepLags(x: End, y: End, mx: Mark, my: Mark, a: Action)
    requires ValidCfg(x.kcb.cfg) && ValidCfg(y.kcb.cfg) && Flow(x, y) && Flow(y, x)
    requires Lag(x, y, mx, my) && Lag(y, x, my, mx) && PromptAction(x, y, my, a)
    ensures var x' := StepEnd(x, y.out, a); var mx' := MarkStep(mx, x, x', y, a);
      Lag(x', y, mx', my) && Lag(y, x', my, mx') && TimelyAction(x, y, a)
  {
    hide Flow, Lag, StepEnd, PromptAction, TimelyAction, MarkStep;
    PromptIsTimelyAction(x, y, mx, my, a);
    SenderKeepsLag(x, y, mx, my, a);
    ReceiverKeepsLag(y, x, my, mx, a);
  }

  lemma StepKeepsLags(n: Net, ma: Mark, mb: Mark, e: Event)
    requires Inv(n) && Lags(n, ma, mb)
    requires PromptAction(At(n, e.side), At(n, Other(e.side)), if e.side.A? then mb else ma, e.action)
    ensures TimelyAction(At(n, e.side), At(n, Other(e.side)), e.action)
    ensures var n' := Step(n, e);
      if e.side.A? then Lags(n', MarkStep(ma, n.a, n'.a, n.b, e.action), mb)
      else Lags(n', ma, MarkStep(mb, n.b, n'.b, n.a, e.action))
  {
    InvBoth(n, A);
    hide Flow, Lag, StepEnd, PromptAction, TimelyAction, MarkStep, Inv;
    if e.side.A? {
      StepLags(n.a, n.b, ma, mb, e.action);
    } else {
      StepLags(n.b, n.a, mb, ma, e.action);
    }
  }

  lemma {:induction false} RunLags(ca: Cfg, cb: Cfg, es: seq<Event>)
    requires Compatible(ca, cb) && PromptRun(ca, cb, es)
    ensures Lags(Run(Start(ca, cb), es), MarkOf(ca, cb, es, A), MarkOf(ca, cb, es, B)) && TimelyRun(ca, cb, es)
  {
    if es != [] {
      var front, e := es[..|es| - 1], es[|es| - 1];
      RunLags(ca, cb, front);
      RunInv(ca, cb, front);
      hide Lags, StepEnd, PromptAction, TimelyAction, Inv, MarkStep;
      StepKeepsLags(Run(Start(ca, cb), front), MarkOf(ca, cb, front, A), MarkOf(ca, cb, front, B), e);
    }
  }

  /** A run in which every datagram is delivered within PROMPT segments of being put out, if at all, is timely: so
      everything proved of timely runs holds of it. */
  lemma PromptIsTimely(ca: Cfg, cb: Cfg, es: seq<Event>)
    requires Compatible(ca, cb) && PromptRun(ca, cb, es)
    ensures TimelyRun(ca, cb, es)
  {
    RunLags(ca, cb, es);
  }
}
