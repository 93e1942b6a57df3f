/** Two endpoints over a network that loses, repeats and reorders datagrams, and what holds in every run. */
module Connection {
  import opened Bytes
  import opened Serial
  import opened Kcp
  import opened Buffers
  import opened Wire
  import opened Channel

  /** An endpoint with its history: messages accepted by ikcp_send, messages returned by ikcp_recv, and every
      datagram it ever put on the network. */
  datatype End = End(kcb: Kcb, sent: seq<seq<byte>>, got: seq<seq<byte>>, out: seq<seq<Packet>>)

  /** What can happen at an endpoint. `Deliver(i)` hands it the peer's i-th datagram, any number of times and in
      any order; a datagram never delivered is lost. */
  datatype Action = SendMsg(msg: seq<byte>) | RecvMsg(maxLen: int) | Deliver(i: nat) | FlushNow | UpdateAt(current: int)

  predicate Flushes(k: Kcb, a: Action) {
    (a.FlushNow? && k.clock.updated) || (a.UpdateAt? && Tick(k.clock, k.cfg.interval, U32(a.current)).1)
  }

  function Emitted(x: End, k: Kcb, ps: seq<Packet>): End {
    x.(kcb := k, out := x.out + Pack(x.kcb.cfg.mtu, [], ps))
  }

  lemma InputDatagramKeepsCfg(w: Width, k: Kcb, ps: seq<Packet>)
    requires k.cfg.mss >= 1
    ensures InputDatagram(w, k, ps).cfg == k.cfg
  {
    InputKeepsCfg(w, InputState(k, NoAck), ps);
  }

  function StepEnd(x: End, wire: seq<seq<Packet>>, a: Action): (x': End)
    requires x.kcb.cfg.mss >= 1
    ensures x'.kcb.cfg == x.kcb.cfg
  {
    match a
    case SendMsg(msg) =>
      var (k, code) := Send(x.kcb, msg);
      x.(kcb := k, sent := if code == 0 then x.sent + [msg] else x.sent)
    case RecvMsg(maxLen) =>
      var (k, r) := Recv(Unbounded, x.kcb, maxLen);
      x.(kcb := k, got := if r.code >= 0 && maxLen >= 0 then x.got + [r.data] else x.got)
    case Deliver(i) =>
      if i < |wire| then
        InputDatagramKeepsCfg(Unbounded, x.kcb, wire[i]);
        x.(kcb := InputDatagram(Unbounded, x.kcb, wire[i]))
      else x
    case FlushNow =>
      var (k, ps) := Flush(Unbounded, x.kcb);
      Emitted(x, k, ps)
    case UpdateAt(current) =>
      var (k, ps) := Update(Unbounded, x.kcb, U32(current));
      Emitted(x, k, ps)
  }

  datatype Net = Net(a: End, b: End)

  datatype Side = A | B

  function Other(side: Side): Side {
    if side.A? then B else A
  }

  datatype Event = Event(side: Side, action: Action)

  function Step(n: Net, e: Event): (n': Net)
    requires n.a.kcb.cfg.mss >= 1 && n.b.kcb.cfg.mss >= 1
    ensures n'.a.kcb.cfg == n.a.kcb.cfg && n'.b.kcb.cfg == n.b.kcb.cfg
  {
    if e.side.A? then n.(a := StepEnd(n.a, n.b.out, e.action)) else n.(b := StepEnd(n.b, n.a.out, e.action))
  }

  function Run(n: Net, es: seq<Event>): (n': Net)
    requires n.a.kcb.cfg.mss >= 1 && n.b.kcb.cfg.mss >= 1
    ensures n'.a.kcb.cfg == n.a.kcb.cfg && n'.b.kcb.cfg == n.b.kcb.cfg
  {
    if es == [] then n else Step(Run(n, es[..|es| - 1]), es[|es| - 1])
  }

  lemma {:induction false} RunConcat(n: Net, a: seq<Event>, b: seq<Event>)
    requires n.a.kcb.cfg.mss >= 1 && n.b.kcb.cfg.mss >= 1
    ensures Run(n, a + b) == Run(Run(n, a), b)
  {
    hide Step;
    if b == [] {
      assert a + b == a;
    } else {
      RunConcat(n, a, b[..|b| - 1]);
      assert (a + b)[..|a + b| - 1] == a + b[..|b| - 1];
    }
  }

  function At(n: Net, side: Side): End {
    if side.A? then n.a else n.b
  }

  function Fresh(cfg: Cfg): End {
    End(Init(cfg), [], [], [])
  }

  function Start(ca: Cfg, cb: Cfg): Net {
    Net(Fresh(ca), Fresh(cb))
  }

  predicate Compatible(ca: Cfg, cb: Cfg) {
    ValidCfg(ca) && ValidCfg(cb) && ca.conv == cb.conv
  }

  // ---------------------------------------------------------------- the invariant

  function Accepted(x: End): seq<Frag>
    requires x.kcb.cfg.mss >= 1
  {
    Stream(x.kcb.cfg.mss, x.sent)
  }

  /** The number of x's fragments that y has handed to its user. */
  function Taken(x: End, y: End): nat
    requires x.kcb.cfg.mss >= 1
  {
    |Stream(x.kcb.cfg.mss, y.got)|
  }

  predicate OutPushOk(x: End)
    requires x.kcb.cfg.mss >= 1
  {
    forall i, j :: 0 <= i < |x.out| && 0 <= j < |x.out[i]| ==> PushOk(x.out[i][j], Accepted(x), x.kcb.snd.nxt)
  }

  predicate OutAckOk(y: End) {
    forall i, j :: 0 <= i < |y.out| && 0 <= j < |y.out[i]| ==> AckOk(y.out[i][j], y.kcb.rcv)
  }

  /** Everything true of the traffic from x to y. */
  ghost predicate Flow(x: End, y: End)
    requires x.kcb.cfg.mss >= 1
  {
    && Dir(x.kcb.snd, x.kcb.cfg.sndWnd, y.kcb.rcv, y.kcb.cfg.rcvWnd, Accepted(x), Taken(x, y))
    && y.got <= x.sent
    && (forall i :: 0 <= i < |x.sent| ==> Accepts(x.kcb.cfg, x.sent[i]))
    && OutPushOk(x)
    && OutAckOk(y)
  }

  ghost predicate Inv(n: Net) {
    Compatible(n.a.kcb.cfg, n.b.kcb.cfg) && Flow(n.a, n.b) && Flow(n.b, n.a)
  }

  lemma FreshFlow(cx: Cfg, cy: Cfg)
    requires ValidCfg(cx) && ValidCfg(cy)
    ensures Flow(Fresh(cx), Fresh(cy))
  {
    assert Accepted(Fresh(cx)) == [] && Taken(Fresh(cx), Fresh(cy)) == 0;
  }

  lemma StartInv(ca: Cfg, cb: Cfg)
    requires Compatible(ca, cb)
    ensures Inv(Start(ca, cb))
  {
    FreshFlow(ca, cb);
    FreshFlow(cb, ca);
  }

  // ---------------------------------------------------------------- reassembly

  predicate Countdown(c: seq<Frag>) {
    forall i :: 0 <= i < |c| ==> c[i].frg == |c| - 1 - i
  }

  lemma {:induction false} MsgNodesOfCountdown(q: seq<Frag>, c: seq<Frag>)
    requires c != [] && Countdown(c) && c <= q
    ensures MsgNodes(q) == |c|
  {
    if |c| > 1 {
      assert q[0] == c[0];
      assert q[1..][..|c[1..]|] == c[1..];
      MsgNodesOfCountdown(q[1..], c[1..]);
    } else {
      assert q[0] == c[0];
    }
  }

  /** The receive queue starts at a message boundary: if PeekSize finds a message there, it is the next one sent. */
  lemma HeadMessage(mss: int, sent: seq<seq<byte>>, g: nat, q: seq<Frag>, nxt: nat)
    requires mss >= 1 && g <= |sent|
    requires var f := Stream(mss, sent); var taken := |Stream(mss, sent[..g])|;
      taken <= nxt <= |f| && q == f[taken..nxt]
    requires q != []
    ensures g < |sent|
    ensures q[0].frg == FragCount(|sent[g]|, mss) - 1
    ensures PeekSize(q) >= 0 <==> |q| >= FragCount(|sent[g]|, mss)
    ensures PeekSize(q) >= 0 ==>
      && PeekSize(q) == |sent[g]|
      && MsgNodes(q) == FragCount(|sent[g]|, mss)
      && Joined(q[..MsgNodes(q)]) == sent[g]
      && Stream(mss, sent[..g + 1]) == Stream(mss, sent[..g]) + q[..MsgNodes(q)]
  {
    hide Stream, Fragments, FragCount;
    var f, taken := Stream(mss, sent), |Stream(mss, sent[..g])|;
    assert sent[..|sent|] == sent;
    StreamPrefix(mss, sent, g);
    StreamPrefix(mss, sent, g + 1);
    assert sent[..g + 1] == sent[..g] + [sent[g]];
    StreamMore(mss, sent[..g], sent[g]);
    CutShape(mss, sent[g]);
    var c := Cut(mss, sent[g]);
    assert c == f[taken..taken + |c|];
    assert q[0] == c[0];
    if |q| >= |c| {
      assert q[..|c|] == c;
      MsgNodesOfCountdown(q, c);
      if |c| == 1 {
        assert Joined(c) == c[0].data + Joined(c[1..]);
        assert c[0].data + [] == c[0].data;
      }
    }
  }

  /** A full receive queue always holds a complete message, so the user can always make room. */
  lemma FullQueueHasMessage(x: End, y: End)
    requires ValidCfg(x.kcb.cfg) && ValidCfg(y.kcb.cfg) && Flow(x, y)
    requires |y.kcb.rcv.queue| >= y.kcb.cfg.rcvWnd
    ensures PeekSize(y.kcb.rcv.queue) >= 0
  {
    assert x.sent[..|y.got|] == y.got;
    HeadMessage(x.kcb.cfg.mss, x.sent, |y.got|, y.kcb.rcv.queue, y.kcb.rcv.nxt);
    assert Accepts(x.kcb.cfg, x.sent[|y.got|]);
  }

  // ---------------------------------------------------------------- steps

  lemma FlowSend(x: End, y: End, msg: seq<byte>)
    requires ValidCfg(x.kcb.cfg) && ValidCfg(y.kcb.cfg)
    ensures Flow(x, y) ==> Flow(StepEnd(x, y.out, SendMsg(msg)), y)
    ensures Flow(y, x) ==> Flow(y, StepEnd(x, y.out, SendMsg(msg)))
  {
    hide Fragments, FragCount, Stream, U32;
    var x' := StepEnd(x, y.out, SendMsg(msg));
    var mss := x.kcb.cfg.mss;
    if Flow(x, y) && Accepts(x.kcb.cfg, msg) {
      StreamMore(mss, x.sent, msg);
      SndOkMore(x.kcb.snd, Accepted(x), Cut(mss, msg), x.kcb.cfg.sndWnd);
      RcvOkMore(y.kcb.rcv, Accepted(x), Accepted(x'), x.kcb.snd.nxt, x.kcb.snd.nxt, y.kcb.cfg.rcvWnd, Taken(x, y));
      assert NoLoss(x'.kcb.snd, y.kcb.rcv) by {
        forall sn | 0 <= sn < x'.kcb.snd.nxt ensures Buffered(x'.kcb.snd, sn) || Held(y.kcb.rcv, sn) {
          assert Buffered(x.kcb.snd, sn) || Held(y.kcb.rcv, sn);
        }
      }
    }
  }

  /** Taking complete messages off the queue and moving more segments in. */
  lemma RecvKeeps(r: Rcv, f: seq<Frag>, limit: int, wnd: int, taken: int, n: nat)
    requires RcvOk(r, f, limit, wnd, taken) && AcksOk(r) && n <= |r.queue|
    ensures var r' := MoveReady(Unbounded, r.(queue := r.queue[n..]), wnd);
      RcvOk(r', f, limit, wnd, taken + n) && AcksOk(r') && Grows(r, r')
  {
    var r1 := r.(queue := r.queue[n..]);
    assert r1.queue == f[taken + n..r.nxt];
    assert RcvOpen(r1, f, limit, wnd, taken + n);
    assert Grows(r, r1);
    MoveReadyKeeps(r1, f, limit, wnd, taken + n);
  }

  lemma OutAckGrows(x: End, x': End)
    requires OutAckOk(x) && x'.out == x.out && Grows(x.kcb.rcv, x'.kcb.rcv)
    ensures OutAckOk(x')
  {
    forall i, j | 0 <= i < |x.out| && 0 <= j < |x.out[i]| ensures AckOk(x.out[i][j], x'.kcb.rcv) {
      AckOkGrows(x.out[i][j], x.kcb.rcv, x'.kcb.rcv);
    }
  }

  /** Flow in one direction does not depend on the far half of either block. */
  lemma FlowFrame(x: End, y: End, x': End, y': End)
    requires x.kcb.cfg.mss >= 1 && Flow(x, y)
    requires x'.kcb.cfg == x.kcb.cfg && x'.kcb.snd == x.kcb.snd && x'.sent == x.sent && x'.out == x.out
    requires y'.kcb.cfg == y.kcb.cfg && y'.kcb.rcv == y.kcb.rcv && y'.got == y.got && y'.out == y.out
    ensures Flow(x', y')
  {
  }

  /** The receiving half after a successful ikcp_recv. */
  lemma RecvHalf(k: Kcb, maxLen: int)
    requires Recv(Unbounded, k, maxLen).1.code >= 0
    ensures var n := if maxLen < 0 then 0 else MsgNodes(k.rcv.queue);
      Recv(Unbounded, k, maxLen).0.rcv
      == MoveReady(Unbounded, k.rcv.(queue := k.rcv.queue[n..]), k.cfg.rcvWnd)
  {
    assert k.rcv.queue[0..] == k.rcv.queue;
  }

  /** A successful ikcp_recv returns the next message of the sender. */
  lemma RecvReturnsNext(x: End, y: End, maxLen: int)
    requires ValidCfg(x.kcb.cfg) && ValidCfg(y.kcb.cfg) && Flow(y, x)
    requires Recv(Unbounded, x.kcb, maxLen).1.code >= 0
    ensures |x.got| < |y.sent| && Recv(Unbounded, x.kcb, maxLen).1.data == y.sent[|x.got|]
    ensures |Stream(y.kcb.cfg.mss, x.got + [y.sent[|x.got|]])| == Taken(y, x) + MsgNodes(x.kcb.rcv.queue)
    ensures x.got + [y.sent[|x.got|]] <= y.sent
  {
    var g := |x.got|;
    assert y.sent[..g] == x.got;
    HeadMessage(y.kcb.cfg.mss, y.sent, g, x.kcb.rcv.queue, x.kcb.rcv.nxt);
    assert y.sent[..g + 1] == x.got + [y.sent[g]];
  }

  lemma FlowTake(x: End, y: End, maxLen: int)
    requires ValidCfg(x.kcb.cfg) && ValidCfg(y.kcb.cfg) && Flow(y, x)
    requires Recv(Unbounded, x.kcb, maxLen).1.code >= 0
    ensures Flow(y, StepEnd(x, y.out, RecvMsg(maxLen)))
  {
    hide MoveReady, Stream, Recv, TakeHead;
    var x' := StepEnd(x, y.out, RecvMsg(maxLen));
    var n := if maxLen < 0 then 0 else MsgNodes(x.kcb.rcv.queue);
    RecvHalf(x.kcb, maxLen);
    RecvReturnsNext(x, y, maxLen);
    RecvKeeps(x.kcb.rcv, Accepted(y), y.kcb.snd.nxt, x.kcb.cfg.rcvWnd, Taken(y, x), n);
    NoLossGrows(y.kcb.snd, x.kcb.rcv, x'.kcb.rcv);
    OutAckGrows(x, x');
  }

  lemma FlowRecv(x: End, y: End, maxLen: int)
    requires ValidCfg(x.kcb.cfg) && ValidCfg(y.kcb.cfg)
    ensures Flow(x, y) ==> Flow(StepEnd(x, y.out, RecvMsg(maxLen)), y)
    ensures Flow(y, x) ==> Flow(y, StepEnd(x, y.out, RecvMsg(maxLen)))
  {
    var x' := StepEnd(x, y.out, RecvMsg(maxLen));
    if Flow(x, y) {
      FlowFrame(x, y, x', y);
    }
    if Flow(y, x) {
      if Recv(Unbounded, x.kcb, maxLen).1.code >= 0 {
        FlowTake(x, y, maxLen);
      } else {
        FlowFrame(y, x, y, x');
      }
    }
  }

  // ---------------------------------------------------------------- a datagram comes in

  /** Both directions while `x` works through a datagram from `y`. */
  ghost predicate Both(k: Kcb, fx: seq<Frag>, takenX: int, y: Kcb, fy: seq<Frag>, takenY: int) {
    && Dir(k.snd, k.cfg.sndWnd, y.rcv, y.cfg.rcvWnd, fx, takenX)
    && Dir(y.snd, y.cfg.sndWnd, k.rcv, k.cfg.rcvWnd, fy, takenY)
  }

  predicate FromPeer(p: Packet, y: Kcb, fy: seq<Frag>) {
    AckOk(p, y.rcv) && PushOk(p, fy, y.snd.nxt)
  }

  lemma InputPacketKeeps(k: Kcb, fx: seq<Frag>, takenX: int, y: Kcb, fy: seq<Frag>, takenY: int, p: Packet)
    requires Both(k, fx, takenX, y, fy, takenY) && FromPeer(p, y, fy)
    ensures var k' := InputPacket(Unbounded, k, p);
      && Both(k', fx, takenX, y, fy, takenY)
      && k'.cfg == k.cfg && k'.snd.nxt == k.snd.nxt && Grows(k.rcv, k'.rcv) && k.snd.una <= k'.snd.una
  {
    ApplyUnaKeeps(k.snd, fx, k.cfg.sndWnd, y.rcv, p.una);
    var s := ApplyUna(Unbounded, k.snd, p.una);
    if p.cmd == IKCP_CMD_ACK {
      ApplyAckKeeps(s, fx, k.cfg.sndWnd, y.rcv, p.sn);
    } else if p.cmd == IKCP_CMD_PUSH {
      InputPushKeeps(k.rcv, fy, y.snd.nxt, k.cfg.rcvWnd, takenY, p);
      NoLossGrows(y.snd, k.rcv, InputPush(Unbounded, k.rcv, k.cfg.rcvWnd, p));
    }
  }

  lemma {:induction false} InputPacketsKeep(st: InputState, fx: seq<Frag>, takenX: int, y: Kcb, fy: seq<Frag>,
                                            takenY: int, ps: seq<Packet>)
    requires Both(st.k, fx, takenX, y, fy, takenY)
    requires forall j :: 0 <= j < |ps| ==> FromPeer(ps[j], y, fy)
    ensures var k' := InputPackets(Unbounded, st, ps).k;
      && Both(k', fx, takenX, y, fy, takenY)
      && k'.cfg == st.k.cfg && k'.snd.nxt == st.k.snd.nxt && Grows(st.k.rcv, k'.rcv) && st.k.snd.una <= k'.snd.una
    decreases |ps|
  {
    if ps != [] {
      InputPacketKeeps(st.k, fx, takenX, y, fy, takenY, ps[0]);
      var st1 := InputState(InputPacket(Unbounded, st.k, ps[0]), InputAck(Unbounded, st.ack, ps[0]));
      forall j | 0 <= j < |ps[1..]| ensures FromPeer(ps[1..][j], y, fy) {
        assert ps[1..][j] == ps[j + 1];
      }
      InputPacketsKeep(st1, fx, takenX, y, fy, takenY, ps[1..]);
    }
  }

  lemma InputDatagramKeeps(k: Kcb, fx: seq<Frag>, takenX: int, y: Kcb, fy: seq<Frag>, takenY: int, ps: seq<Packet>)
    requires k.cfg.mss >= 1
    requires Both(k, fx, takenX, y, fy, takenY)
    requires forall j :: 0 <= j < |ps| ==> FromPeer(ps[j], y, fy)
    ensures var k' := InputDatagram(Unbounded, k, ps);
      && Both(k', fx, takenX, y, fy, takenY)
      && k'.cfg == k.cfg && k'.snd.nxt == k.snd.nxt && Grows(k.rcv, k'.rcv) && k.snd.una <= k'.snd.una
  {
    InputPacketsKeep(InputState(k, NoAck), fx, takenX, y, fy, takenY, ps);
    var st := InputPackets(Unbounded, InputState(k, NoAck), ps);
    if st.ack.MaxAck? {
      BumpFastackKeepsShape(Unbounded, st.k.snd.buf, st.ack.sn);
      SameShapeKeeps(st.k.snd, BumpFastack(Unbounded, st.k.snd.buf, st.ack.sn), fx, k.cfg.sndWnd, y.rcv);
      assert st.k.snd.(buf := st.k.snd.buf) == st.k.snd;
    }
  }

  lemma FlowDeliver(x: End, y: End, i: nat)
    requires ValidCfg(x.kcb.cfg) && ValidCfg(y.kcb.cfg)
    requires Flow(x, y) && Flow(y, x)
    ensures Flow(StepEnd(x, y.out, Deliver(i)), y) && Flow(y, StepEnd(x, y.out, Deliver(i)))
    ensures x.kcb.snd.una <= StepEnd(x, y.out, Deliver(i)).kcb.snd.una
  {
    if i < |y.out| {
      var x' := StepEnd(x, y.out, Deliver(i));
      forall j | 0 <= j < |y.out[i]| ensures FromPeer(y.out[i][j], y.kcb, Accepted(y)) {
        assert AckOk(y.out[i][j], y.kcb.rcv) && PushOk(y.out[i][j], Accepted(y), y.kcb.snd.nxt);
      }
      InputDatagramKeeps(x.kcb, Accepted(x), Taken(x, y), y.kcb, Accepted(y), Taken(y, x), y.out[i]);
      assert OutPushOk(x') by {
        forall i, j | 0 <= i < |x'.out| && 0 <= j < |x'.out[i]|
          ensures PushOk(x'.out[i][j], Accepted(x'), x'.kcb.snd.nxt)
        {
          assert PushOk(x.out[i][j], Accepted(x), x.kcb.snd.nxt);
        }
      }
      OutAckGrows(x, x');
    }
  }

  // ---------------------------------------------------------------- a flush goes out

  lemma FlushKeepsSnd(k: Kcb, f: seq<Frag>, r: Rcv)
    requires k.cfg.sndWnd >= 1 && SndOk(k.snd, f, k.cfg.sndWnd) && NoLoss(k.snd, r)
    ensures var k' := Flush(Unbounded, k).0;
      && SndOk(k'.snd, f, k.cfg.sndWnd) && NoLoss(k'.snd, r) && k.snd.nxt <= k'.snd.nxt
      && k'.cfg == k.cfg && k'.rcv == (if k.clock.updated then k.rcv.(acks := []) else k.rcv)
  {
    if k.clock.updated {
      var s := FillWindow(Unbounded, k, k.snd, SendWindow(k));
      FillWindowKeeps(k, k.snd, f, k.cfg.sndWnd, SendWindow(k), r);
      FlushBufKeepsShape(k, s.buf);
      SameShapeKeeps(s, FlushBuf(k, s.buf).buf, f, k.cfg.sndWnd, r);
    }
  }

  /** Every segment of a flush is good for both directions. */
  lemma FlushPackets(k: Kcb, f: seq<Frag>)
    requires SndOk(k.snd, f, k.cfg.sndWnd) && k.cfg.sndWnd >= 1 && AcksOk(k.rcv) && 0 <= k.rcv.nxt
    ensures forall p :: p in Flush(Unbounded, k).1 ==>
      AckOk(p, k.rcv) && PushOk(p, f, Flush(Unbounded, k).0.snd.nxt)
  {
    if k.clock.updated {
      var r := Rcv(k.snd.nxt, [], [], []);
      assert NoLoss(k.snd, r);
      FillWindowKeeps(k, k.snd, f, k.cfg.sndWnd, SendWindow(k), r);
      var s := FillWindow(Unbounded, k, k.snd, SendWindow(k));
      FlushBufPackets(k, s.buf);
      var acks := AckPackets(k, k.rcv.acks);
      forall p | p in acks ensures AckOk(p, k.rcv) && p.cmd != IKCP_CMD_PUSH {
        var i :| 0 <= i < |acks| && acks[i] == p;
        assert acks[i] == Control(k, IKCP_CMD_ACK, k.rcv.acks[i]);
      }
    }
  }

  lemma FlowEmit(x: End, y: End, k: Kcb, ps: seq<Packet>)
    requires ValidCfg(x.kcb.cfg) && ValidCfg(y.kcb.cfg)
    requires Flow(x, y) && Flow(y, x)
    requires k.cfg == x.kcb.cfg && x.kcb.snd.nxt <= k.snd.nxt
    requires SndOk(k.snd, Accepted(x), k.cfg.sndWnd) && NoLoss(k.snd, y.kcb.rcv)
    requires k.rcv == x.kcb.rcv || k.rcv == x.kcb.rcv.(acks := [])
    requires forall p :: p in ps ==> AckOk(p, x.kcb.rcv) && PushOk(p, Accepted(x), k.snd.nxt)
    ensures Flow(Emitted(x, k, ps), y) && Flow(y, Emitted(x, k, ps))
  {
    var x' := Emitted(x, k, ps);
    var ds := Pack(x.kcb.cfg.mtu, [], ps);
    PackMembers(x.kcb.cfg.mtu, ps);
    RcvOkMore(y.kcb.rcv, Accepted(x), Accepted(x), x.kcb.snd.nxt, k.snd.nxt, y.kcb.cfg.rcvWnd, Taken(x, y));
    assert Grows(x.kcb.rcv, k.rcv);
    NoLossGrows(y.kcb.snd, x.kcb.rcv, k.rcv);
    forall i, j | 0 <= i < |x'.out| && 0 <= j < |x'.out[i]|
      ensures PushOk(x'.out[i][j], Accepted(x'), k.snd.nxt) && AckOk(x'.out[i][j], k.rcv)
    {
      var p := x'.out[i][j];
      if i < |x.out| {
        assert p == x.out[i][j];
        assert PushOk(p, Accepted(x), x.kcb.snd.nxt) && AckOk(p, x.kcb.rcv);
      } else {
        assert x'.out[i] == ds[i - |x.out|];
        assert ds[i - |x.out|] in ds && p in ds[i - |x.out|];
        assert p in ps;
      }
      AckOkGrows(p, x.kcb.rcv, k.rcv);
    }
  }

  lemma FlowFlush(x: End, y: End, k: Kcb)
    requires ValidCfg(x.kcb.cfg) && ValidCfg(y.kcb.cfg)
    requires Flow(x, y) && Flow(y, x)
    requires k.cfg == x.kcb.cfg && k.snd == x.kcb.snd && k.rcv == x.kcb.rcv
    ensures var r := Flush(Unbounded, k);
      Flow(Emitted(x, r.0, r.1), y) && Flow(y, Emitted(x, r.0, r.1))
  {
    FlushKeepsSnd(k, Accepted(x), y.kcb.rcv);
    FlushPackets(k, Accepted(x));
    FlowEmit(x, y, Flush(Unbounded, k).0, Flush(Unbounded, k).1);
  }

  lemma FlowStep(x: End, y: End, a: Action)
    requires ValidCfg(x.kcb.cfg) && ValidCfg(y.kcb.cfg)
    requires Flow(x, y) && Flow(y, x)
    ensures Flow(StepEnd(x, y.out, a), y) && Flow(y, StepEnd(x, y.out, a))
  {
    hide Flow, Flush, Tick, Send, Recv, InputDatagram;
    match a
    case SendMsg(msg) => FlowSend(x, y, msg);
    case RecvMsg(maxLen) => FlowRecv(x, y, maxLen);
    case Deliver(i) => FlowDeliver(x, y, i);
    case FlushNow => FlowFlush(x, y, x.kcb);
    case UpdateAt(current) =>
      var (clock, due) := Tick(x.kcb.clock, x.kcb.cfg.interval, U32(current));
      if due {
        FlowFlush(x, y, x.kcb.(clock := clock));
      } else {
        FlowClock(x, y, clock);
      }
  }

  lemma FlowClock(x: End, y: End, clock: Clock)
    requires ValidCfg(x.kcb.cfg) && ValidCfg(y.kcb.cfg) && Flow(x, y) && Flow(y, x)
    ensures var x' := Emitted(x, x.kcb.(clock := clock), []); Flow(x', y) && Flow(y, x')
  {
    FlowEmit(x, y, x.kcb.(clock := clock), []);
  }

  // ---------------------------------------------------------------- every run

  lemma {:induction false} RunInv(ca: Cfg, cb: Cfg, es: seq<Event>)
    requires Compatible(ca, cb)
    ensures Inv(Run(Start(ca, cb), es))
  {
    if es == [] {
      StartInv(ca, cb);
    } else {
      RunInv(ca, cb, es[..|es| - 1]);
      var n, e := Run(Start(ca, cb), es[..|es| - 1]), es[|es| - 1];
      if e.side.A? {
        FlowStep(n.a, n.b, e.action);
      } else {
        FlowStep(n.b, n.a, e.action);
      }
    }
  }

  /** The transport promise: in every run, in both directions, what has been received is a prefix of what was
      sent: the same messages, in the same order, each exactly once. */
  lemma DeliveryIsPrefix(ca: Cfg, cb: Cfg, es: seq<Event>)
    requires Compatible(ca, cb)
    ensures var n := Run(Start(ca, cb), es); n.b.got <= n.a.sent && n.a.got <= n.b.sent
  {
    RunInv(ca, cb, es);
  }

  /** In every run, a numbered fragment is still with the sender until the receiver has it. */
  lemma NothingLost(ca: Cfg, cb: Cfg, es: seq<Event>, sn: nat)
    requires Compatible(ca, cb)
    ensures var n := Run(Start(ca, cb), es);
      && (sn < n.a.kcb.snd.nxt ==> Buffered(n.a.kcb.snd, sn) || Held(n.b.kcb.rcv, sn))
      && (sn < n.b.kcb.snd.nxt ==> Buffered(n.b.kcb.snd, sn) || Held(n.a.kcb.rcv, sn))
  {
    RunInv(ca, cb, es);
  }

  /** In every run, at either end, the buffers are strictly sorted inside their windows, which is what makes the early
      exits of the scans harmless, and the receive queue stays within its window. */
  lemma BuffersStaySorted(ca: Cfg, cb: Cfg, es: seq<Event>, side: Side)
    requires Compatible(ca, cb)
    ensures var k := At(Run(Start(ca, cb), es), side).kcb; var s, r := k.snd, k.rcv;
      && SndSorted(s.buf)
      && (forall i :: 0 <= i < |s.buf| ==> s.una <= s.buf[i].sn < s.nxt <= s.una + k.cfg.sndWnd)
      && RcvSorted(r.buf)
      && (forall i :: 0 <= i < |r.buf| ==> r.nxt <= r.buf[i].sn < r.nxt + k.cfg.rcvWnd)
      && |r.queue| <= k.cfg.rcvWnd
  {
    RunInv(ca, cb, es);
  }
}
