/** A run in which the peer's window closes and it is asked for room: 128 messages, received and acknowledged but not
    taken by the user, fill the peer's receive queue. */
module ClosedWindow {
  import opened Bytes
  import opened Options
  import opened Sequences
  import opened Serial
  import opened Kcp
  import opened Wire
  import opened Connection
  import opened ByteRuns
  import opened Probing
  import opened ProbeRuns
  import opened Delivery
  import opened FlowControl

  /** A whole window of empty segments fits one datagram. */
  const CFG: Cfg := Cfg(0, 3072, 3048, 128, 128, 100, true, 30, 0, 5, true, 20)

  const WND: nat := 128

  const COLD: Clock := Clock(0, 100, false)

  const WARM: Clock := Clock(0, 100, true)

  // ---------------------------------------------------------------- 128 messages are sent

  const PIECE: Frag := Frag(0, [])

  function Pieces(n: nat): seq<Frag> {
    seq(n, _ => PIECE)
  }

  function Sendings(n: nat): (r: seq<Action>)
    ensures |r| == n && forall i :: 0 <= i < n ==> r[i] == SendMsg([])
  {
    seq(n, _ => SendMsg([]))
  }

  lemma SendsOne(k: Kcb)
    requires k.cfg == CFG
    ensures Send(k, []).0 == k.(snd := k.snd.(queue := k.snd.queue + [PIECE]))
  {
    assert FragCount(0, 3048) == 1;
    assert Fragments([], 3048, 0) == [];
    assert Fragments([], 3048, 1) == [PIECE];
  }

  lemma {:induction false} SendsAll(x: End32, wire: seq<seq<byte>>, n: nat)
    requires x.kcb.cfg == CFG
    ensures var x' := Steps32(x, wire, Sendings(n));
      x'.kcb == x.kcb.(snd := x.kcb.snd.(queue := x.kcb.snd.queue + Pieces(n))) && x'.out == x.out
    decreases n
  {
    if n == 0 {
      assert x.kcb.snd.queue + Pieces(0) == x.kcb.snd.queue;
    } else {
      SendsOne(x.kcb);
      hide Send;
      var x1 := StepEnd32(x, wire, SendMsg([]));
      assert Sendings(n)[1..] == Sendings(n - 1);
      SendsAll(x1, wire, n - 1);
      assert x.kcb.snd.queue + [PIECE] + Pieces(n - 1) == x.kcb.snd.queue + Pieces(n);
    }
  }

  // ---------------------------------------------------------------- and put out in one datagram

  function Unsent(sn: int): SndSeg {
    SndSeg(0, [], 128, 0, sn, 0, 0, 200, 0, 0)
  }

  function Push(sn: int): Packet {
    Packet(0, IKCP_CMD_PUSH, 0, 128, 0, sn, 0, [])
  }

  function Unsents(from: nat, n: nat): (r: seq<SndSeg>)
    ensures |r| == n && forall i :: 0 <= i < n ==> r[i] == Unsent(from + i)
  {
    seq(n, i => Unsent(from + i))
  }

  function Pushes(from: nat, n: nat): (r: seq<Packet>)
    ensures |r| == n && forall i :: 0 <= i < n ==> r[i] == Push(from + i)
  {
    seq(n, i => Push(from + i))
  }

  predicate AtStart(k: Kcb) {
    && k.cfg == CFG && k.clock == WARM && k.rtt.rto == 200 && k.cong.rmtWnd == 128
    && k.rcv == Rcv(0, [], [], []) && k.probe == Probe(false, false, 0, 0)
  }

  lemma NumbersOne(k: Kcb, i: nat, n: nat)
    requires AtStart(k) && n > 0 && i + n == WND
    ensures NumberOne(Bits32, k, Snd(0, i, Pieces(n), Unsents(0, i))) == Snd(0, i + 1, Pieces(n - 1), Unsents(0, i + 1))
    ensures TimeDiff(i, 128) < 0 && U32(128) == 128
  {
    assert Pieces(n)[1..] == Pieces(n - 1);
    assert Unsents(0, i) + [Unsent(i)] == Unsents(0, i + 1);
    assert U32(i + 1) == i + 1;
  }

  lemma {:induction false} NumbersAll(k: Kcb, i: nat, n: nat)
    requires AtStart(k) && i + n == WND
    ensures FillWindow(Bits32, k, Snd(0, i, Pieces(n), Unsents(0, i)), 128) == Snd(0, 128, [], Unsents(0, 128))
    decreases n
  {
    if n > 0 {
      NumbersOne(k, i, n);
      hide NumberOne, U32, TimeDiff;
      NumbersAll(k, i + 1, n - 1);
    }
  }

  lemma {:induction false} PutsOutAll(k: Kcb, from: nat, n: nat)
    requires AtStart(k)
    ensures FlushBuf(k, Unsents(from, n)).ps == Pushes(from, n)
    decreases n
  {
    if n > 0 {
      assert Unsents(from, n)[1..] == Unsents(from + 1, n - 1);
      assert FlushOne(k, Unsent(from)).ps == [Push(from)];
      hide FlushOne;
      PutsOutAll(k, from + 1, n - 1);
      assert [Push(from)] + Pushes(from + 1, n - 1) == Pushes(from, n);
    }
  }

  lemma FlushesAll(k: Kcb)
    requires AtStart(k) && k.snd == Snd(0, 0, Pieces(WND), [])
    ensures Flush(Bits32, k).1 == Pushes(0, WND)
  {
    assert ControlPackets(k, ProbeWindow(k.probe, k.cong.rmtWnd, k.clock.current)) == [];
    assert SendWindow(k) == 128;
    hide ControlPackets, ProbeWindow, SendWindow, FillWindow, FlushBuf;
    assert Unsents(0, 0) == [];
    NumbersAll(k, 0, WND);
    PutsOutAll(k, 0, WND);
    assert [] + Pushes(0, WND) == Pushes(0, WND);
  }

  predicate Bare(ps: seq<Packet>) {
    forall i :: 0 <= i < |ps| ==> ps[i].data == []
  }

  lemma {:induction false} SizeOfBare(ps: seq<Packet>)
    requires Bare(ps)
    ensures Size(ps) == IKCP_OVERHEAD * |ps|
  {
    if ps != [] {
      SizeOfBare(ps[..|ps| - 1]);
    }
  }

  lemma {:induction false} OneDatagram(mtu: int, cur: seq<Packet>, ps: seq<Packet>)
    requires Bare(cur) && Bare(ps) && IKCP_OVERHEAD * (|cur| + |ps|) <= mtu
    ensures Pack(mtu, cur, ps) == Emit(cur + ps)
    decreases |ps|
  {
    if ps == [] {
      assert cur + ps == cur;
    } else {
      SizeOfBare(cur);
      assert cur + [ps[0]] + ps[1..] == cur + ps;
      OneDatagram(mtu, cur + [ps[0]], ps[1..]);
    }
  }

  // ---------------------------------------------------------------- they fill the peer's queue

  /** The peer has the first `i` of them. */
  predicate Holding(k: Kcb, i: nat) {
    && k.cfg == CFG && k.clock == COLD
    && k.rcv.nxt == i && k.rcv.buf == [] && |k.rcv.queue| == i && |k.rcv.acks| == i
  }

  lemma PushMoves(r: Rcv, i: nat, p: Packet)
    requires i < WND && r.nxt == i && r.buf == [] && |r.queue| == i && p == Push(i)
    ensures var r' := InputPush(Bits32, r, 128, p);
      r'.nxt == i + 1 && r'.buf == [] && |r'.queue| == i + 1 && |r'.acks| == |r.acks| + 1
  {
    assert U32(i + 128) == i + 128 && U32(i + 1) == i + 1;
    assert TimeDiff(i, i + 128) == -128 && TimeDiff(i, i) == 0;
    hide U32, TimeDiff;
    var acked := r.(acks := r.acks + [(i, 0)]);
    assert InsertSeg(Bits32, [], p) == [p];
    var r1 := acked.(buf := [p]);
    var r2 := acked.(buf := [], queue := r.queue + [Frag(0, [])], nxt := i + 1);
    assert [p][1..] == [];
    assert MoveReady(Bits32, r1, 128) == MoveReady(Bits32, r2, 128) == r2;
  }

  lemma {:induction false} PushesFill(st: InputState, i: nat, n: nat)
    requires Holding(st.k, i) && st.ack == NoAck && i + n == WND
    ensures var st' := InputPackets(Bits32, st, Pushes(i, n)); Holding(st'.k, WND) && st'.ack == NoAck
    decreases n
  {
    if n > 0 {
      PushMoves(st.k.rcv, i, Push(i));
      assert Pushes(i, n)[1..] == Pushes(i + 1, n - 1);
      var k := InputPacket(Bits32, st.k, Push(i));
      assert Holding(k, i + 1) by {
        hide InputPush, ApplyUna;
      }
      hide InputPacket, Holding;
      PushesFill(InputState(k, NoAck), i + 1, n - 1);
    }
  }

  lemma DatagramFills(k: Kcb)
    requires Holding(k, 0)
    ensures Holding(InputDatagram(Bits32, k, Pushes(0, WND)), WND)
  {
    PushesFill(InputState(k, NoAck), 0, WND);
    hide InputPackets, GrowCwnd;
  }

  // ---------------------------------------------------------------- so that it advertises no room

  /** Every segment of a flush says that there is no room. */
  lemma FlushTellsRoom(k: Kcb)
    requires k.clock.updated && k.rcv.acks != [] && |k.rcv.queue| == k.cfg.rcvWnd
    ensures Flush(Bits32, k).1 != [] && forall p :: p in Flush(Bits32, k).1 ==> p.wnd == 0
  {
    FlushTells(Bits32, k);
    hide ProbeWindow, FillWindow, FlushBuf, SendWindow;
    var acks := AckPackets(k, k.rcv.acks);
    assert Flush(Bits32, k).1[0] == acks[0];
  }

  /** What the last segment of a datagram advertises counts. */
  lemma {:induction false} WindowNoted(st: InputState, ps: seq<Packet>, wnd: int)
    requires ps != [] && forall i :: 0 <= i < |ps| ==> ps[i].wnd == wnd
    ensures var k := InputPackets(Bits32, st, ps).k;
      k.cong.rmtWnd == wnd && k.clock == st.k.clock && k.cfg == st.k.cfg
    decreases |ps|
  {
    var st1 := InputState(InputPacket(Bits32, st.k, ps[0]), InputAck(Bits32, st.ack, ps[0]));
    assert st1.k.cong.rmtWnd == wnd && st1.k.clock == st.k.clock && st1.k.cfg == st.k.cfg;
    hide InputPacket;
    if |ps| == 1 {
      assert ps[1..] == [];
    } else {
      WindowNoted(st1, ps[1..], wnd);
    }
  }

  lemma DatagramNoted(k: Kcb, ps: seq<Packet>, wnd: int)
    requires k.cfg == CFG && ps != []
    requires forall i :: 0 <= i < |ps| ==> ps[i].wnd == wnd
    ensures var k' := InputDatagram(Bits32, k, ps); k'.cong.rmtWnd == wnd && k'.clock == k.clock && k'.cfg == CFG
  {
    WindowNoted(InputState(k, NoAck), ps, wnd);
    var k1 := InputPackets(Bits32, InputState(k, NoAck), ps).k;
    hide InputPackets, GrowCwnd, ParseFastack;
    GrowKeepsWindow(k1.cong, 3048);
  }

  lemma GrowKeepsWindow(c: Cong, mss: int)
    requires mss >= 1
    ensures GrowCwnd(c, mss).rmtWnd == c.rmtWnd
  {
  }

  // ---------------------------------------------------------------- in a run

  function AfterRun(es: seq<Event>, side: Side): End32 {
    EndOf(Run32(Start32(CFG, CFG), es), side)
  }

  lemma NothingPacked(es: seq<Event>, side: Side)
    requires AfterRun(es, side).out == []
    ensures Packed(CFG, CFG, es, side) == []
  {
    hide Run32, Packed;
    RunSound(CFG, CFG, es, side);
    assert |Packed(CFG, CFG, es, side)| == 0;
  }

  /** A side that has put nothing out yet puts out its first datagrams. */
  lemma FirstDatagrams(es: seq<Event>, side: Side, a: Action)
    requires AfterRun(es, side).out == []
    ensures var x := AfterRun(es, side);
      Packed(CFG, CFG, es + [Event(side, a)], side) == Pack(x.kcb.cfg.mtu, [], FlushedBy(x, a))
  {
    hide Run32, StepEnd32, FlushedBy, Pack;
    NothingPacked(es, side);
    assert (es + [Event(side, a)])[..|es|] == es;
    var x := AfterRun(es, side);
    assert [] + Pack(x.kcb.cfg.mtu, [], FlushedBy(x, a)) == Pack(x.kcb.cfg.mtu, [], FlushedBy(x, a));
  }

  lemma StepOf(es: seq<Event>, side: Side, a: Action)
    ensures AfterRun(es + [Event(side, a)], side) == StepEnd32(AfterRun(es, side), AfterRun(es, Other(side)).out, a)
    ensures AfterRun(es + [Event(side, a)], Other(side)) == AfterRun(es, Other(side))
  {
    assert (es + [Event(side, a)])[..|es|] == es;
    hide StepEnd32;
  }

  /** The flushes of A in `es`, and the time last given to it; its clock does not go back. */
  predicate History(es: seq<Event>, calls: seq<Call>, now: Option<int>) {
    Calls(CFG, CFG, es, A) == calls && Now(es, A) == now && ClockOrdered(es, A)
  }

  const SENT: seq<Event> := Tag(A, Sendings(WND))
  const OUT: seq<Event> := SENT + [Event(A, UpdateAt(0))]
  const ARRIVED: seq<Event> := OUT + [Event(B, Deliver(0))]
  const ANSWERED: seq<Event> := ARRIVED + [Event(B, UpdateAt(0))]
  const CLOSED: seq<Event> := ANSWERED + [Event(A, Deliver(0))]
  const WAITING: seq<Event> := CLOSED + [Event(A, UpdateAt(100))]
  const ASKED: seq<Event> := WAITING + [Event(A, UpdateAt(7100))]

  /** One more event: the flush it makes, if `side` is A and it makes one. */
  lemma FlushedMore(es: seq<Event>, side: Side, a: Action, calls: seq<Call>, now: Option<int>)
    requires History(es, calls, now)
    requires side == A && a.UpdateAt? && now.Some? ==> now.value <= a.current
    ensures var now' := if side == A && a.UpdateAt? then Some(a.current) else now;
      var k := AfterRun(es, A).kcb;
      History(es + [Event(side, a)],
              calls + (if side == A && Flushes(k, a) then [Call(TimeOf(now'), k.cong.rmtWnd)] else []), now')
  {
    hide Run32, StepEnd32, Flushes;
    assert (es + [Event(side, a)])[..|es|] == es;
  }

  lemma NothingMore(calls: seq<Call>)
    ensures calls + [] == calls
  {
  }

  lemma {:induction false} SendingsFlushNothing(n: nat)
    ensures History(Tag(A, Sendings(n)), [], None)
  {
    if n > 0 {
      SendingsFlushNothing(n - 1);
      FlushedMore(Tag(A, Sendings(n - 1)), A, SendMsg([]), [], None);
      assert Tag(A, Sendings(n)) == Tag(A, Sendings(n - 1)) + [Event(A, SendMsg([]))];
      NothingMore([]);
      hide Run32, StepEnd32, History;
    }
  }

  lemma AllSent()
    ensures AfterRun(SENT, A).kcb == Init(CFG).(snd := Snd(0, 0, Pieces(WND), [])) && AfterRun(SENT, A).out == []
    ensures AfterRun(SENT, B) == End32(Init(CFG), [], [], [])
    ensures History(SENT, [], None)
  {
    SendingsFlushNothing(WND);
    RunOfTag(Start32(CFG, CFG), A, Sendings(WND));
    SendsAll(End32(Init(CFG), [], [], []), [], WND);
    hide Run32, Steps32;
    assert [] + Pieces(WND) == Pieces(WND);
  }

  lemma FlushKeeps(k: Kcb)
    ensures var k' := Flush(Bits32, k).0; k'.clock == k.clock && k'.cfg == k.cfg && k'.cong.rmtWnd == k.cong.rmtWnd
  {
  }

  lemma TickCold()
    ensures Tick(COLD, 100, 0) == (WARM, true)
  {
    assert TimeDiff(0, 0) == 0 && TimeDiff(0, 100) == -100;
    hide TimeDiff, U32;
  }

  lemma TickWarm()
    ensures Tick(WARM, 100, 100) == (Clock(100, 200, true), true)
  {
    assert TimeDiff(100, 100) == 0 && TimeDiff(100, 200) == -100;
    hide TimeDiff, U32;
  }

  lemma TickLate()
    ensures Tick(Clock(100, 200, true), 100, 7100) == (Clock(7100, 7200, true), true)
  {
    assert TimeDiff(7100, 200) == 6900 && TimeDiff(7100, 300) == 6800;
    hide TimeDiff, U32;
  }

  /** A call of ikcp_update that flushes. */
  lemma UpdateFlushes(x: End32, wire: seq<seq<byte>>, current: nat, clock: Clock)
    requires x.kcb.cfg == CFG && current < TWO32 && Tick(x.kcb.clock, 100, current) == (clock, true)
    ensures Flushes(x.kcb, UpdateAt(current))
    ensures FlushedBy(x, UpdateAt(current)) == Flush(Bits32, x.kcb.(clock := clock)).1
    ensures var x' := StepEnd32(x, wire, UpdateAt(current));
      x'.kcb.clock == clock && x'.kcb.cfg == CFG && x'.kcb.cong.rmtWnd == x.kcb.cong.rmtWnd
  {
    FlushKeeps(x.kcb.(clock := clock));
    hide Flush, Tick, Pack;
  }

  lemma PushesTogether()
    ensures Pack(CFG.mtu, [], Pushes(0, WND)) == [Pushes(0, WND)]
  {
    OneDatagram(3072, [], Pushes(0, WND));
    assert [] + Pushes(0, WND) == Pushes(0, WND);
  }

  lemma PutOut()
    ensures AfterRun(OUT, A).kcb.cfg == CFG && AfterRun(OUT, A).kcb.clock == WARM
    ensures AfterRun(OUT, B) == End32(Init(CFG), [], [], [])
    ensures Packed(CFG, CFG, OUT, A) == [Pushes(0, WND)]
    ensures History(OUT, [Call(0, 128)], Some(0))
  {
    hide AfterRun, StepEnd32, Flush, FlushedBy, Pack, Tick, Packed, History, Flushes, Pushes, Pieces;
    AllSent();
    TickCold();
    var x := AfterRun(SENT, A);
    FlushesAll(x.kcb.(clock := WARM));
    UpdateFlushes(x, AfterRun(SENT, B).out, 0, WARM);
    assert [] + [Call(0, 128)] == [Call(0, 128)];
    FirstDatagrams(SENT, A, UpdateAt(0));
    StepOf(SENT, A, UpdateAt(0));
    FlushedMore(SENT, A, UpdateAt(0), [], None);
    PushesTogether();
  }

  lemma Delivered(es: seq<Event>, side: Side, i: nat, peer: Kcb)
    requires i < |Packed(CFG, CFG, es, side)| && peer.cfg == CFG
    ensures i < |AfterRun(es, side).out|
    ensures Input(peer, AfterRun(es, side).out[i]).0 == InputDatagram(Bits32, peer, Packed(CFG, CFG, es, side)[i])
  {
    DatagramsParse(CFG, CFG, es, side, i, peer);
  }

  lemma DeliverIs(x: End32, wire: seq<seq<byte>>, i: nat)
    requires x.kcb.cfg == CFG && i < |wire|
    ensures StepEnd32(x, wire, Deliver(i)) == x.(kcb := Input(x.kcb, wire[i]).0)
  {
  }

  lemma DeliverFlushesNothing(k: Kcb, i: nat)
    ensures !Flushes(k, Deliver(i))
  {
  }

  /** The peer takes the datagram in. */
  lemma Arrived()
    ensures AfterRun(ARRIVED, A) == AfterRun(OUT, A)
    ensures Holding(AfterRun(ARRIVED, B).kcb, WND) && AfterRun(ARRIVED, B).out == []
    ensures History(ARRIVED, [Call(0, 128)], Some(0))
  {
    hide AfterRun, StepEnd32, Input, InputDatagram, Packed, History, Flushes, Pushes;
    PutOut();
    var y := AfterRun(OUT, B);
    Delivered(OUT, A, 0, y.kcb);
    DatagramFills(y.kcb);
    DeliverIs(y, AfterRun(OUT, A).out, 0);
    StepOf(OUT, B, Deliver(0));
    FlushedMore(OUT, B, Deliver(0), [Call(0, 128)], Some(0));
    NothingMore([Call(0, 128)]);
  }

  /** And answers. */
  lemma Answered() returns (d: seq<Packet>)
    ensures AfterRun(ANSWERED, A) == AfterRun(OUT, A)
    ensures Packed(CFG, CFG, ANSWERED, B) != [] && Packed(CFG, CFG, ANSWERED, B)[0] == d
    ensures d != [] && forall i :: 0 <= i < |d| ==> d[i].wnd == 0
    ensures History(ANSWERED, [Call(0, 128)], Some(0))
  {
    hide AfterRun, StepEnd32, Flush, FlushedBy, Pack, Tick, Packed, History, Flushes;
    Arrived();
    TickCold();
    var y := AfterRun(ARRIVED, B);
    UpdateFlushes(y, AfterRun(ARRIVED, A).out, 0, WARM);
    FlushTellsRoom(y.kcb.(clock := WARM));
    FirstDatagrams(ARRIVED, B, UpdateAt(0));
    StepOf(ARRIVED, B, UpdateAt(0));
    FlushedMore(ARRIVED, B, UpdateAt(0), [Call(0, 128)], Some(0));
    NothingMore([Call(0, 128)]);
    d := FirstOf(Flush(Bits32, y.kcb.(clock := WARM)).1, 0);
  }

  lemma FirstOf(ps: seq<Packet>, wnd: int) returns (d: seq<Packet>)
    requires ps != [] && forall p :: p in ps ==> p.wnd == wnd
    ensures Pack(CFG.mtu, [], ps) != [] && Pack(CFG.mtu, [], ps)[0] == d
    ensures d != [] && forall i :: 0 <= i < |d| ==> d[i].wnd == wnd
  {
    hide Pack;
    PackFlattens(CFG.mtu, [], ps);
    PackMembers(CFG.mtu, ps);
    PackNonempty(CFG.mtu, [], ps);
    var ds := Pack(CFG.mtu, [], ps);
    assert Flatten<Packet>([]) == [] && [] + ps == ps;
    d := ds[0];
    hide Flatten;
    assert d in ds;
    forall i | 0 <= i < |d| ensures d[i].wnd == wnd {
      assert d[i] in d;
    }
  }

  /** The side that sent learns that there is no room. */
  lemma Closed()
    ensures var k := AfterRun(CLOSED, A).kcb; k.cfg == CFG && k.clock == WARM && k.cong.rmtWnd == 0
    ensures History(CLOSED, [Call(0, 128)], Some(0))
  {
    hide AfterRun, StepEnd32, Input, InputDatagram, Packed, History, Flushes;
    PutOut();
    var d := Answered();
    var x := AfterRun(ANSWERED, A);
    Delivered(ANSWERED, B, 0, x.kcb);
    DatagramNoted(x.kcb, d, 0);
    DeliverIs(x, AfterRun(ANSWERED, B).out, 0);
    StepOf(ANSWERED, A, Deliver(0));
    FlushedMore(ANSWERED, A, Deliver(0), [Call(0, 128)], Some(0));
    DeliverFlushesNothing(x.kcb, 0);
    NothingMore([Call(0, 128)]);
  }

  /** Two more flushes find none. */
  lemma Waited()
    ensures History(ASKED, [Call(0, 128), Call(100, 0), Call(7100, 0)], Some(7100))
  {
    hide AfterRun, StepEnd32, Tick, History, Flushes, Flush, FlushedBy;
    Closed();
    TickWarm();
    TickLate();
    var x := AfterRun(CLOSED, A);
    UpdateFlushes(x, AfterRun(CLOSED, B).out, 100, Clock(100, 200, true));
    StepOf(CLOSED, A, UpdateAt(100));
    FlushedMore(CLOSED, A, UpdateAt(100), [Call(0, 128)], Some(0));
    var x1 := AfterRun(WAITING, A);
    assert [Call(0, 128)] + [Call(100, 0)] == [Call(0, 128), Call(100, 0)];
    assert [Call(0, 128), Call(100, 0)] + [Call(7100, 0)] == [Call(0, 128), Call(100, 0), Call(7100, 0)];
    UpdateFlushes(x1, AfterRun(WAITING, B).out, 7100, Clock(7100, 7200, true));
    FlushedMore(WAITING, A, UpdateAt(7100), [Call(0, 128), Call(100, 0)], Some(100));
  }

  lemma Schedule()
    ensures ProbeRun(Init(CFG).probe, [Call(0, 128)]).1 == 0
    ensures ProbeRun(Init(CFG).probe, [Call(0, 128), Call(100, 0), Call(7100, 0)]).1 == 1
  {
    var p := Init(CFG).probe;
    var c0, c1, c2 := Call(0, 128), Call(100, 0), Call(7100, 0);
    assert [c0, c1, c2][..2] == [c0, c1] && [c0, c1][..1] == [c0] && [c0][..0] == [];
    assert U32(0) == 0 && U32(100) == 100 && U32(7100) == 7100 && TimeDiff(7100, 7100) == 0;
    hide U32, TimeDiff;
    assert ProbeRun(p, []) == (p, 0);
    assert ProbeRun(p, [c0]) == (p, 0);
    assert ProbeRun(p, [c0, c1]) == (Probe(false, false, 7100, 7000), 0);
  }

  /** The window closes, and 7 seconds after the first flush that finds it closed the peer is asked, once: the wait is
      the one that AsksBackOff has for one question. */
  lemma QuestionIsReached() returns (front: seq<Event>, rest: seq<Event>)
    ensures Compatible(CFG, CFG) && ClockOrdered(front + rest, A)
    ensures var before, calls := Calls(CFG, CFG, front, A), Calls(CFG, CFG, front + rest, A);
      && before != [] && before[|before| - 1].rmtWnd != 0 && |before| < |calls|
      && (forall i :: |before| <= i < |calls| ==> calls[i].rmtWnd == 0)
      && calls[|calls| - 1].time - calls[|before|].time == Waits(1)
    ensures Asks(Flatten(Packed(CFG, CFG, front, A))) == 0
    ensures Asks(Flatten(Packed(CFG, CFG, front + rest, A))) == 1
  {
    hide Run32, Packed, Asks, ProbeRun, Waits, Calls, ClockOrdered, Flatten;
    front, rest := CLOSED, [Event(A, UpdateAt(100)), Event(A, UpdateAt(7100))];
    assert front + rest == ASKED;
    Closed();
    Waited();
    Schedule();
    MoreWaits(0);
    AsksAreScheduled(CFG, CFG, front, A);
    AsksAreScheduled(CFG, CFG, front + rest, A);
  }
}
