/** A run after which ikcp_check answers with a time at which ikcp_update does nothing: a flush comes 60 ms late and
    sends a segment, and the next one comes 100 ms late, so that the segment is to be resent 40 ms before the flush
    after it. */
module LateFlush {
  import opened Bytes
  import opened Serial
  import opened Kcp
  import opened Wire
  import opened Connection
  import opened ByteRuns
  import opened Timing

  const CFG: Cfg := Cfg(0, 1400, 1376, 32, 128, 100, true, 30, 0, 5, true, 20)

  const IDLE: Probe := Probe(false, false, 0, 0)

  const ONE: Cong := Cong(128, 1, 1376, 2)

  const PIECE: Frag := Frag(0, [])

  const OUT: SndSeg := SndSeg(0, [], 128, 860, 0, 0, 1060, 200, 0, 1)

  function Block(snd: Snd, clock: Clock, cong: Cong): Kcb {
    Kcb(CFG, snd, Rcv(0, [], [], []), cong, Rtt(0, 0, 200), IDLE, clock, false, 0)
  }

  const EMPTY: Snd := Snd(0, 0, [], [])

  const WAITING: Snd := Snd(0, 0, [PIECE], [])

  const SENT: Snd := Snd(0, 1, [], [OUT])

  lemma Ticks()
    ensures Tick(Clock(0, 100, false), 100, 700) == (Clock(700, 800, true), true)
    ensures Tick(Clock(700, 800, true), 100, 860) == (Clock(860, 900, true), true)
    ensures Tick(Clock(860, 900, true), 100, 1000) == (Clock(1000, 1100, true), true)
  {
    assert TimeDiff(700, 700) == 0 && TimeDiff(700, 800) == -100 && TimeDiff(860, 800) == 60;
    assert TimeDiff(860, 900) == -40 && TimeDiff(1000, 900) == 100 && TimeDiff(1000, 1000) == 0;
    hide TimeDiff;
  }

  lemma Quiet(k: Kcb)
    requires k.rcv.acks == [] && k.probe == IDLE && k.cong.rmtWnd == 128
    ensures ProbeWindow(k.probe, k.cong.rmtWnd, k.clock.current) == IDLE && ControlPackets(k, IDLE) == []
  {
  }

  /** The first flush has nothing to send. */
  lemma FlushesNothing(k: Kcb)
    requires k == Block(EMPTY, Clock(700, 800, true), Cong(128, 0, 0, 2))
    ensures Flush(Bits32, k).0 == k.(cong := ONE)
  {
    Quiet(k);
    hide ControlPackets, ProbeWindow;
    assert FillWindow(Bits32, k, k.snd, SendWindow(k)) == k.snd;
    assert FlushBuf(k, []) == NOTHING;
  }

  lemma Numbers(k: Kcb)
    requires k == Block(WAITING, Clock(860, 900, true), ONE)
    ensures FillWindow(Bits32, k, k.snd, 32)
            == Snd(0, 1, [], [SndSeg(0, [], 128, 860, 0, 0, 860, 200, 0, 0)])
  {
    assert TimeDiff(0, 32) == -32 && U32(32) == 32 && U32(1) == 1;
    var s := NumberOne(Bits32, k, k.snd);
    assert [PIECE][1..] == [];
    hide TimeDiff, U32;
    assert s == Snd(0, 1, [], [SndSeg(0, [], 128, 860, 0, 0, 860, 200, 0, 0)]);
    assert FillWindow(Bits32, k, s, 32) == s;
  }

  lemma BufOne(k: Kcb, s: SndSeg)
    ensures FlushBuf(k, [s]) == FlushOne(k, s)
  {
    hide FlushOne;
    var one := FlushOne(k, s);
    assert [s][1..] == [];
    assert one.buf + [] == one.buf && one.ps + [] == one.ps;
    assert Join(one, NOTHING) == one;
  }

  /** The second sends the segment, to be resent 200 ms later. */
  lemma FlushesOne(k: Kcb)
    requires k == Block(WAITING, Clock(860, 900, true), ONE)
    ensures Flush(Bits32, k).0 == k.(snd := SENT)
  {
    Quiet(k);
    Numbers(k);
    var s := SndSeg(0, [], 128, 860, 0, 0, 860, 200, 0, 0);
    assert FlushOne(k, s).buf == [OUT];
    BufOne(k, s);
    hide ControlPackets, ProbeWindow, FillWindow, FlushBuf;
    assert SendWindow(k) == 32;
  }

  /** The third finds it not due yet. */
  lemma FlushesNoMore(k: Kcb)
    requires k == Block(SENT, Clock(1000, 1100, true), ONE)
    ensures Flush(Bits32, k).0 == k
  {
    Quiet(k);
    assert FillWindow(Bits32, k, k.snd, SendWindow(k)) == k.snd;
    assert TimeDiff(1000, 1060) == -60;
    hide TimeDiff;
    assert FlushOne(k, OUT) == FlushOut([OUT], [], false, false, false, 0);
    BufOne(k, OUT);
    hide ControlPackets, ProbeWindow, FillWindow, FlushBuf, FlushOne;
  }

  lemma Submits(k: Kcb)
    requires k == Block(EMPTY, Clock(700, 800, true), ONE)
    ensures Send(k, []).0 == k.(snd := WAITING)
  {
    assert FragCount(0, 1376) == 1;
    assert Fragments([], 1376, 0) == [];
    assert Fragments([], 1376, 1) == [PIECE];
    assert [] + [PIECE] == [PIECE];
  }

  const ACTIONS: seq<Action> := [UpdateAt(700), SendMsg([]), UpdateAt(860), UpdateAt(1000)]

  lemma UpdateStep(x: End32, wire: seq<seq<byte>>, current: int, clock: Clock)
    requires x.kcb.cfg == CFG && 0 <= current < TWO32 && Tick(x.kcb.clock, 100, current) == (clock, true)
    ensures StepEnd32(x, wire, UpdateAt(current)).kcb == Flush(Bits32, x.kcb.(clock := clock)).0
  {
    hide Tick, Flush, Pack;
  }

  lemma InTurn(x: End32, wire: seq<seq<byte>>, a: Action, b: Action, c: Action, d: Action)
    requires x.kcb.cfg == CFG
    ensures Steps32(x, wire, [a, b, c, d])
            == StepEnd32(StepEnd32(StepEnd32(StepEnd32(x, wire, a), wire, b), wire, c), wire, d)
  {
    hide StepEnd32;
    assert [a, b, c, d][1..] == [b, c, d] && [b, c, d][1..] == [c, d] && [c, d][1..] == [d] && [d][1..] == [];
    var x1 := StepEnd32(x, wire, a);
    var x2 := StepEnd32(x1, wire, b);
    var x3 := StepEnd32(x2, wire, c);
    assert Steps32(x3, wire, [d]) == StepEnd32(x3, wire, d);
    assert Steps32(x1, wire, [b, c, d]) == Steps32(x2, wire, [c, d]);
  }

  lemma FourSteps(x: End32, wire: seq<seq<byte>>)
    requires x.kcb == Init(CFG)
    ensures Steps32(x, wire, ACTIONS).kcb == Block(SENT, Clock(1000, 1100, true), ONE)
  {
    assert x.kcb == Block(EMPTY, Clock(0, 100, false), Cong(128, 0, 0, 2));
    Ticks();
    FlushesNothing(Block(EMPTY, Clock(700, 800, true), Cong(128, 0, 0, 2)));
    Submits(Block(EMPTY, Clock(700, 800, true), ONE));
    FlushesOne(Block(WAITING, Clock(860, 900, true), ONE));
    FlushesNoMore(Block(SENT, Clock(1000, 1100, true), ONE));
    hide Tick, Flush, Send, Steps32;
    UpdateStep(x, wire, 700, Clock(700, 800, true));
    var x1 := StepEnd32(x, wire, UpdateAt(700));
    var x2 := StepEnd32(x1, wire, SendMsg([]));
    hide StepEnd32;
    UpdateStep(x2, wire, 860, Clock(860, 900, true));
    var x3 := StepEnd32(x2, wire, UpdateAt(860));
    UpdateStep(x3, wire, 1000, Clock(1000, 1100, true));
    InTurn(x, wire, UpdateAt(700), SendMsg([]), UpdateAt(860), UpdateAt(1000));
  }

  /** In a run of the program the time ikcp_check names can come without a flush: asked at 1000 it answers 1060, when
      the one segment outstanding is to be resent, and ikcp_update at 1060 puts nothing out. */
  lemma CheckedTooSoon() returns (es: seq<Event>)
    ensures Compatible(CFG, CFG)
    ensures var k := Run32(Start32(CFG, CFG), es).a.kcb;
      && k.clock.current == 1000 && Check(k, 1000) == 1060
      && |k.snd.buf| == 1 && k.snd.buf[0].resendts == 1060
      && Update(Bits32, k, 1060) == (k.(clock := k.clock.(current := 1060)), [])
  {
    hide StepEnd32, Run32, Steps32, Flush;
    es := Tag(A, ACTIONS);
    RunOfTag(Start32(CFG, CFG), A, ACTIONS);
    FourSteps(End32(Init(CFG), [], [], []), []);
    var k := Run32(Start32(CFG, CFG), es).a.kcb;
    CheckAnswerMayNotFlush(k);
    assert TimeDiff(1060, 1100) == -40;
  }
}
