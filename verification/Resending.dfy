/** What a flush sends and why: first transmissions, timeouts and fast retransmissions, segment by segment; when each
    is due again; and what becomes of the counters and the congestion window. */
module Resending {
  import opened Sequences
  import opened Serial
  import opened Kcp
  import opened Buffers
  import opened Connection
  import opened ByteRuns
  import opened FlowControl

  // ---------------------------------------------------------------- when a segment is sent

  /** Its resend time has come. */
  predicate TimedOut(k: Kcb, s: SndSeg) {
    s.xmit != 0 && TimeDiff(k.clock.current, s.resendts) >= 0
  }

  /** Enough acknowledgements passed it over, and it has not been resent too often for that to count. */
  predicate PassedOver(k: Kcb, s: SndSeg) {
    && s.xmit != 0 && TimeDiff(k.clock.current, s.resendts) < 0
    && (if k.cfg.fastresend > 0 then s.fastack >= k.cfg.fastresend else s.fastack >= 0xffff_ffff)
    && (k.cfg.fastlimit > 0 ==> I32(s.xmit) <= k.cfg.fastlimit)
  }

  predicate Due(k: Kcb, s: SndSeg) {
    s.xmit == 0 || TimedOut(k, s) || PassedOver(k, s)
  }

  /** The segment `s` after a flush at the time of `k`, as `s'`. */
  predicate After(k: Kcb, s: SndSeg, s': SndSeg) {
    var now := k.clock.current;
    if !Due(k, s) then s' == s
    else
      && s' == s.(xmit := U32(s.xmit + 1), ts := now, wnd := WndUnused(k), una := k.rcv.nxt,
                  rto := s'.rto, resendts := s'.resendts, fastack := s'.fastack)
      && (s.xmit == 0 ==>
            s'.rto == k.rtt.rto && s'.fastack == s.fastack
            && s'.resendts == U32(now + k.rtt.rto + if k.cfg.nodelay then 0 else k.rtt.rto / 8))
      && (TimedOut(k, s) ==>
            s'.rto == U32(s.rto + if k.cfg.nodelay then k.rtt.rto / 2 else k.rtt.rto) && s'.fastack == s.fastack
            && s'.resendts == U32(now + s'.rto))
      && (PassedOver(k, s) ==>
            s'.rto == s.rto && s'.fastack == 0 && s'.resendts == U32(now + s.rto))
  }

  /** What is put on the wire of the buffer `b`, which the flush makes `b'`: the segments that are due, in order. */
  function Sent(k: Kcb, b: seq<SndSeg>, b': seq<SndSeg>): seq<Packet>
    requires |b'| == |b|
  {
    if b == [] then []
    else
      var s := b'[0];
      (if Due(k, b[0]) then [Packet(k.cfg.conv, 81, s.frg, s.wnd, s.ts, s.sn, s.una, s.data)] else [])
      + Sent(k, b[1..], b'[1..])
  }

  /** The data segments among `ps`, in order. */
  function Data(ps: seq<Packet>): seq<Packet> {
    if ps == [] then [] else DataOf(ps[0]) + Data(ps[1..])
  }

  function DataOf(p: Packet): seq<Packet> {
    if p.cmd == 81 then [p] else []
  }

  // ---------------------------------------------------------------- the loop does that

  lemma OneSent(k: Kcb, s: SndSeg)
    ensures After(k, s, Transmit(k, s))
    ensures FlushOne(k, s).ps == Sent(k, [s], [Transmit(k, s)]) && FlushOne(k, s).buf == [Transmit(k, s)]
    ensures FlushOne(k, s).lost == TimedOut(k, s) && FlushOne(k, s).change == PassedOver(k, s)
    ensures FlushOne(k, s).dead == (Due(k, s) && Transmit(k, s).xmit >= k.cfg.deadLink)
    ensures FlushOne(k, s).xmit == if TimedOut(k, s) then 1 else 0
  {
    hide U32, TimeDiff, I32;
    assert [s][1..] == [] && [Transmit(k, s)][1..] == [];
    assert Sent(k, [], []) == [];
  }

  lemma SentMore(k: Kcb, s: SndSeg, s': SndSeg, b: seq<SndSeg>, b': seq<SndSeg>)
    requires |b'| == |b|
    ensures Sent(k, [s] + b, [s'] + b') == Sent(k, [s], [s']) + Sent(k, b, b')
  {
    hide Due;
    assert ([s] + b)[1..] == b && ([s'] + b')[1..] == b' && [s][1..] == [] && [s'][1..] == [];
    assert Sent(k, [], []) == [];
  }

  /** How many of the segments time out. */
  function Timeouts(k: Kcb, b: seq<SndSeg>): nat {
    if b == [] then 0 else (if TimedOut(k, b[0]) then 1 else 0) + Timeouts(k, b[1..])
  }

  predicate SomeTimedOut(k: Kcb, b: seq<SndSeg>) {
    exists i :: 0 <= i < |b| && TimedOut(k, b[i])
  }

  predicate SomePassedOver(k: Kcb, b: seq<SndSeg>) {
    exists i :: 0 <= i < |b| && PassedOver(k, b[i])
  }

  /** Some segment was sent for at least the dead_link-th time. */
  predicate GivenUp(k: Kcb, b: seq<SndSeg>, b': seq<SndSeg>)
    requires |b'| == |b|
  {
    exists i :: 0 <= i < |b| && GivesUp(k, b[i], b'[i])
  }

  predicate GivesUp(k: Kcb, s: SndSeg, s': SndSeg) {
    Due(k, s) && s'.xmit >= k.cfg.deadLink
  }

  /** What the last loop of ikcp_flush makes of the buffer `b`. */
  predicate LoopOf(k: Kcb, b: seq<SndSeg>, out: FlushOut) {
    && |out.buf| == |b|
    && (forall i :: 0 <= i < |b| ==> After(k, b[i], out.buf[i]))
    && out.ps == Sent(k, b, out.buf)
    && out.lost == SomeTimedOut(k, b) && out.change == SomePassedOver(k, b)
    && out.dead == GivenUp(k, b, out.buf) && out.xmit == Timeouts(k, b)
  }

  lemma LoopOfMore(k: Kcb, s: SndSeg, b: seq<SndSeg>, out: FlushOut)
    requires LoopOf(k, b, out)
    ensures LoopOf(k, [s] + b, Join(FlushOne(k, s), out))
  {
    OneSent(k, s);
    var s' := Transmit(k, s);
    SentMore(k, s, s', b, out.buf);
    var all, all' := [s] + b, [s'] + out.buf;
    hide FlushOne, Transmit, Sent, TimedOut, PassedOver, After;
    assert all[1..] == b && all'[1..] == out.buf;
    assert forall i :: 1 <= i < |all| ==> all[i] == b[i - 1] && all'[i] == out.buf[i - 1];
    assert all[0] == s && all'[0] == s';
    hide SomeTimedOut, SomePassedOver, GivenUp, Timeouts;
    TimedOutMore(k, s, b);
    PassedOverMore(k, s, b);
    GivenUpMore(k, s, s', b, out.buf);
    TimeoutsMore(k, s, b);
  }

  lemma TimedOutMore(k: Kcb, s: SndSeg, b: seq<SndSeg>)
    ensures SomeTimedOut(k, [s] + b) == (TimedOut(k, s) || SomeTimedOut(k, b))
  {
    hide TimedOut;
    var all := [s] + b;
    assert all[0] == s;
    if i :| 0 <= i < |b| && TimedOut(k, b[i]) {
      assert all[i + 1] == b[i];
    }
    if i :| 0 <= i < |all| && TimedOut(k, all[i]) && i > 0 {
      assert all[i] == b[i - 1];
    }
  }

  lemma PassedOverMore(k: Kcb, s: SndSeg, b: seq<SndSeg>)
    ensures SomePassedOver(k, [s] + b) == (PassedOver(k, s) || SomePassedOver(k, b))
  {
    hide PassedOver;
    var all := [s] + b;
    assert all[0] == s;
    if i :| 0 <= i < |b| && PassedOver(k, b[i]) {
      assert all[i + 1] == b[i];
    }
    if i :| 0 <= i < |all| && PassedOver(k, all[i]) && i > 0 {
      assert all[i] == b[i - 1];
    }
  }

  lemma GivenUpMore(k: Kcb, s: SndSeg, s': SndSeg, b: seq<SndSeg>, b': seq<SndSeg>)
    requires |b'| == |b|
    ensures GivenUp(k, [s] + b, [s'] + b') == (GivesUp(k, s, s') || GivenUp(k, b, b'))
  {
    hide GivesUp;
    var all, all' := [s] + b, [s'] + b';
    assert all[0] == s && all'[0] == s';
    if i :| 0 <= i < |b| && GivesUp(k, b[i], b'[i]) {
      assert all[i + 1] == b[i] && all'[i + 1] == b'[i];
      assert GivesUp(k, all[i + 1], all'[i + 1]);
    }
    if i :| 0 <= i < |all| && GivesUp(k, all[i], all'[i]) && i > 0 {
      assert all[i] == b[i - 1] && all'[i] == b'[i - 1];
      assert GivesUp(k, b[i - 1], b'[i - 1]);
    }
    if GivesUp(k, s, s') {
      assert GivesUp(k, all[0], all'[0]);
    }
  }

  lemma TimeoutsMore(k: Kcb, s: SndSeg, b: seq<SndSeg>)
    ensures Timeouts(k, [s] + b) == (if TimedOut(k, s) then 1 else 0) + Timeouts(k, b)
  {
    hide TimedOut;
    assert ([s] + b)[1..] == b;
  }

  lemma {:induction false} LoopExactly(k: Kcb, b: seq<SndSeg>)
    ensures LoopOf(k, b, FlushBuf(k, b))
  {
    if b != [] {
      LoopExactly(k, b[1..]);
      LoopOfMore(k, b[0], b[1..], FlushBuf(k, b[1..]));
      hide LoopOf, FlushOne;
      assert [b[0]] + b[1..] == b;
    }
  }

  // ---------------------------------------------------------------- a flush

  lemma {:induction false} NoData(ps: seq<Packet>)
    requires forall p :: p in ps ==> p.cmd != 81
    ensures Data(ps) == []
  {
    if ps != [] {
      NoData(ps[1..]);
    }
  }

  lemma {:induction false} OnlyData(ps: seq<Packet>)
    requires forall p :: p in ps ==> p.cmd == 81
    ensures Data(ps) == ps
  {
    if ps != [] {
      OnlyData(ps[1..]);
      assert [ps[0]] + ps[1..] == ps;
    }
  }

  lemma {:induction false} DataConcat(a: seq<Packet>, b: seq<Packet>)
    ensures Data(a + b) == Data(a) + Data(b)
  {
    if a == [] {
      assert a + b == b;
    } else {
      hide DataOf;
      DataConcat(a[1..], b);
      assert (a + b)[1..] == a[1..] + b;
      ConcatAssoc(DataOf(a[0]), Data(a[1..]), Data(b));
    }
  }

  lemma ControlHasNoData(k: Kcb, p: Probe)
    ensures Data(ControlPackets(k, p)) == []
  {
    var acks := AckPackets(k, k.rcv.acks);
    forall q | q in acks ensures q.cmd != 81 {
      var i :| 0 <= i < |acks| && acks[i] == q;
      assert acks[i] == Control(k, IKCP_CMD_ACK, k.rcv.acks[i]);
    }
    NoData(ControlPackets(k, p));
  }

  lemma LoopSendsData(k: Kcb, b: seq<SndSeg>)
    ensures Data(FlushBuf(k, b).ps) == FlushBuf(k, b).ps
  {
    FlushBufPackets(k, b);
    hide FlushBuf;
    OnlyData(FlushBuf(k, b).ps);
  }

  /** How many numbers are outstanding once the flush has numbered. */
  function Outstanding(w: Width, s: Snd): int {
    Gap(w, s.nxt, s.una)
  }

  /** The congestion window after a flush: one segment after a timeout, with half the window as threshold; half of
      what is outstanding, and as much more as it took duplicates, after a fast retransmission; otherwise as it was,
      but at least one segment. */
  predicate Settled(w: Width, k: Kcb, s: Snd, lost: bool, change: bool, c: Cong) {
    var window := Min(Min(k.cfg.sndWnd, k.cong.rmtWnd), if k.cfg.nocwnd then 0xffff_ffff else k.cong.cwnd);
    && c.rmtWnd == k.cong.rmtWnd
    && (lost ==> c.cwnd == 1 && c.incr == k.cfg.mss && c.ssthresh == Max(window / 2, 2))
    && (!lost && change ==>
          && c.ssthresh == Max(Outstanding(w, s) / 2, 2)
          && var cwnd := U32(c.ssthresh + if k.cfg.fastresend > 0 then k.cfg.fastresend else 0xffff_ffff);
             if cwnd == 0 then c.cwnd == 1 && c.incr == k.cfg.mss
             else c.cwnd == cwnd && c.incr == U32(cwnd * k.cfg.mss))
    && (!lost && !change && k.cong.cwnd >= 1 ==> c == k.cong)
    && (!lost && !change && k.cong.cwnd < 1 ==> c == k.cong.(cwnd := 1, incr := k.cfg.mss))
  }

  lemma SettlesExactly(w: Width, k: Kcb, s: Snd, lost: bool, change: bool)
    requires k.cfg.sndWnd < 0xffff_ffff
    ensures Settled(w, k, s, lost, change, AfterFlush(w, k.(snd := s), lost, change, SendWindow(k)))
  {
    hide U32;
  }

  lemma SendWindowFits(w: Width, k: Kcb)
    requires Windowed(w, k)
    ensures 0 <= SendWindow(k) < 0x1_0000
  {
  }

  lemma FlushedParts(w: Width, k: Kcb, probe: Probe, s: Snd, out: FlushOut, cwnd: int)
    ensures var k' := Flushed(w, k, probe, s, out, cwnd);
      && k'.snd.buf == out.buf && k'.dead == (k.dead || out.dead) && k'.xmit == U32(k.xmit + out.xmit)
      && k'.cong == AfterFlush(w, k.(snd := s), out.lost, out.change, cwnd)
  {
  }

  /** What a flush does, with the buffer `s.buf` that numbering leaves it: every segment that has not been sent, has
      timed out, or was passed over often enough goes out once, in order, and no other does; each is due again as
      `After` says; and the counters and the congestion window follow from which were due and why. */
  lemma FlushExactly(w: Width, k: Kcb) returns (n: nat, s: Snd)
    requires Windowed(w, k) && k.clock.updated
    ensures var (k', ps) := Flush(w, k); var b, b' := s.buf, k'.snd.buf;
      && Numbered(w, k.snd, s, n) && |b'| == |b|
      && (forall i :: 0 <= i < |b| ==> After(k, b[i], b'[i]))
      && Data(ps) == Sent(k, b, b')
      && k'.dead == (k.dead || GivenUp(k, b, b'))
      && k'.xmit == U32(k.xmit + Timeouts(k, b))
      && Settled(w, k, s, SomeTimedOut(k, b), SomePassedOver(k, b), k'.cong)
  {
    hide Gap, FillWindow, FlushBuf, ProbeWindow, ControlPackets, AfterFlush, Numbered, SendWindow, Settled, Flushed;
    hide After, Sent, Data, GivenUp, Timeouts, SomeTimedOut, SomePassedOver, U32;
    SendWindowFits(w, k);
    n := FillsExactly(w, k, k.snd, SendWindow(k));
    s := FillWindow(w, k, k.snd, SendWindow(k));
    var probe := ProbeWindow(k.probe, k.cong.rmtWnd, k.clock.current);
    var out := FlushBuf(k, s.buf);
    LoopExactly(k, s.buf);
    LoopSendsData(k, s.buf);
    ControlHasNoData(k, probe);
    DataConcat(ControlPackets(k, probe), out.ps);
    assert [] + out.ps == out.ps;
    SettlesExactly(w, k, s, out.lost, out.change);
    FlushedParts(w, k, probe, s, out, SendWindow(k));
  }

  lemma {:induction false} DueIsSent(k: Kcb, b: seq<SndSeg>, b': seq<SndSeg>, i: nat)
    requires |b'| == |b| && i < |b| && Due(k, b[i])
    ensures var s := b'[i]; Packet(k.cfg.conv, 81, s.frg, s.wnd, s.ts, s.sn, s.una, s.data) in Sent(k, b, b')
  {
    hide Due;
    if i > 0 {
      DueIsSent(k, b[1..], b'[1..], i - 1);
    }
  }

  /** In every run of the program each flush of a side does that. */
  lemma FlushesExactly(ca: Cfg, cb: Cfg, es: seq<Event>, side: Side, a: Action) returns (n: nat, s: Snd)
    requires Compatible(ca, cb) && Flushes(EndOf(Run32(Start32(ca, cb), es), side).kcb, a)
    ensures var x := EndOf(Run32(Start32(ca, cb), es), side);
      var k, k' := Flushing(x, a), StepEnd32(x, [], a).kcb; var b, b' := s.buf, k'.snd.buf;
      && Numbered(Bits32, k.snd, s, n) && |b'| == |b|
      && (forall i :: 0 <= i < |b| ==> After(k, b[i], b'[i]))
      && Data(FlushedBy(x, a)) == Sent(k, b, b')
      && k'.dead == (k.dead || GivenUp(k, b, b'))
      && k'.xmit == U32(k.xmit + Timeouts(k, b))
      && Settled(Bits32, k, s, SomeTimedOut(k, b), SomePassedOver(k, b), k'.cong)
  {
    hide Run32, Flowing, Numbered, After, Data, Sent, GivenUp, Timeouts, SomeTimedOut, SomePassedOver, Settled, U32;
    hide StepEnd32, Flush, Flushes, Flushing, FlushedBy;
    RunFlows(ca, cb, es, side);
    var x := EndOf(Run32(Start32(ca, cb), es), side);
    FlowingTicks(x.kcb, x.kcb);
    SentByStep(x, a);
    FlowingTicks(x.kcb, Flushing(x, a));
    InsideIsWindowed(Flushing(x, a));
    PutOutByStep(x, a);
    n, s := FlushExactly(Bits32, Flushing(x, a));
  }

  lemma PutOutByStep(x: End32, a: Action)
    requires Flushes(x.kcb, a)
    ensures FlushedBy(x, a) == Flush(Bits32, Flushing(x, a)).1
  {
    hide Flush;
  }
}
