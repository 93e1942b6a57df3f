/** The congestion window: the byte count `incr` stays within one segment of `cwnd * mss`, in every run. */
module Congestion {
  import opened Serial
  import opened Kcp
  import opened Connection
  import opened Wrapping
  import opened Refinement

  /** The largest window the code can set is a few segments past 2^16; in bytes it must fit a word. */
  predicate WindowFits(cfg: Cfg) {
    cfg.mss >= 1 && cfg.fastresend >= 0 && (0x1_0004 + cfg.fastresend) * cfg.mss < TWO32
  }

  predicate CongOk(c: Cong, cfg: Cfg) {
    && 0 <= c.cwnd <= 0x1_0000 + cfg.fastresend
    && (c.cwnd - 1) * cfg.mss < c.incr < (c.cwnd + 1) * cfg.mss
    && 0 <= c.incr
    && c.ssthresh >= IKCP_THRESH_MIN
  }

  lemma MulLe(a: int, b: int, m: int)
    requires a <= b && m >= 0
    ensures a * m <= b * m
  {
  }

  lemma Next(a: int, m: int)
    ensures (a + 1) * m == a * m + m
  {
  }

  /** A ceiling division brackets its argument. */
  lemma CeilDiv(x: int, m: int)
    requires x >= 0 && m >= 1
    ensures var q := UDiv(x + m - 1, m); (q - 1) * m < x <= q * m || (x == 0 && q == 0)
  {
    var q := (x + m - 1) / m;
    var r := (x + m - 1) % m;
    assert x + m - 1 == q * m + r;
    Next(q - 1, m);
  }

  lemma QuotientBelow(m: int, b: int)
    requires m >= 1 && b > m
    ensures 0 <= UDiv(m * m, b) < m
  {
    var q := m * m / b;
    assert q * b <= m * m;
    Next(m, m);
    MulLe(m + 1, b, m);
    if q >= m {
      MulLe(m, q, b);
      assert false;
    }
  }

  /** The sizes of everything computed with, for a window below 2^16. */
  lemma NoWrap(c: Cong, cfg: Cfg)
    requires WindowFits(cfg) && CongOk(c, cfg) && c.cwnd < 0xffff
    ensures c.incr + 4 * cfg.mss < TWO32
    ensures U32((c.cwnd + 1) * cfg.mss) == (c.cwnd + 1) * cfg.mss
    ensures U32(cfg.mss * cfg.mss) == cfg.mss * cfg.mss
  {
    var m := cfg.mss;
    MulLe(0x1_0004, 0x1_0004 + cfg.fastresend, m);
    MulLe(c.cwnd + 1, 0xffff, m);
    MulLe(0, c.cwnd + 1, m);
    assert 0x1_0004 * m == 0xffff * m + 5 * m;
    assert m < 0xffff;
    MulLe(m, 0xffff, m);
    MulLe(0, m, m);
  }

  /** A window set in whole segments: its byte count is exact and within a segment of itself. */
  lemma WholeWindow(cwnd: int, cfg: Cfg)
    requires WindowFits(cfg) && 0 <= cwnd <= 0x1_0000 + cfg.fastresend
    ensures U32(cwnd * cfg.mss) == cwnd * cfg.mss
    ensures (cwnd - 1) * cfg.mss < cwnd * cfg.mss < (cwnd + 1) * cfg.mss
    ensures 0 <= cwnd * cfg.mss
  {
    MulLe(cwnd, 0x1_0004 + cfg.fastresend, cfg.mss);
    MulLe(0, cwnd, cfg.mss);
    Next(cwnd, cfg.mss);
    Next(cwnd - 1, cfg.mss);
  }

  /** Slow start. */
  lemma SlowStartKeeps(c: Cong, cfg: Cfg)
    requires WindowFits(cfg) && CongOk(c, cfg) && c.cwnd < 0xffff && c.cwnd < c.ssthresh
    ensures CongOk(Grown(c, cfg.mss), cfg) && Grown(c, cfg.mss).cwnd == c.cwnd + 1
  {
    NoWrap(c, cfg);
    Next(c.cwnd, cfg.mss);
    Next(c.cwnd - 1, cfg.mss);
    Next(c.cwnd + 1, cfg.mss);
  }

  /** The new byte count of congestion avoidance: up by less than two segments, without wrapping. */
  lemma AvoidanceBytes(c: Cong, cfg: Cfg)
    requires WindowFits(cfg) && CongOk(c, cfg) && c.cwnd < 0xffff && c.cwnd >= c.ssthresh
    ensures c.incr >= cfg.mss
    ensures Grown(c, cfg.mss).incr == c.incr + UDiv(cfg.mss * cfg.mss, c.incr) + cfg.mss / 16
    ensures c.incr <= Grown(c, cfg.mss).incr < c.incr + 2 * cfg.mss
    ensures U32(Grown(c, cfg.mss).incr + cfg.mss - 1) == Grown(c, cfg.mss).incr + cfg.mss - 1
    ensures U32((c.cwnd + 1) * cfg.mss) == (c.cwnd + 1) * cfg.mss
  {
    NoWrap(c, cfg);
    MulLe(1, c.cwnd - 1, cfg.mss);
    QuotientBelow(cfg.mss, c.incr);
  }

  lemma LessBack(a: int, b: int, m: int)
    requires a * m < b * m && m >= 1
    ensures a < b
  {
    if b <= a {
      MulLe(b, a, m);
    }
  }

  /** The ceiling of a byte count between one and three segments past `w` of them. */
  lemma CeilWithin(x: int, q: int, w: int, m: int)
    requires m >= 1 && (q - 1) * m < x <= q * m
    requires (w + 1) * m <= x < (w + 3) * m
    ensures w <= q <= w + 3
    ensures x < (q + 1) * m
  {
    Next(w, m);
    Next(q, m);
    LessBack(w, q, m);
    LessBack(q - 1, w + 3, m);
  }

  /** Congestion avoidance: the window moves by whole segments exactly when the byte count has filled one. */
  lemma AvoidanceKeeps(c: Cong, cfg: Cfg)
    requires WindowFits(cfg) && CongOk(c, cfg) && c.cwnd < 0xffff && c.cwnd >= c.ssthresh
    ensures var g := Grown(c, cfg.mss);
      (g.cwnd - 1) * cfg.mss < g.incr < (g.cwnd + 1) * cfg.mss && c.cwnd <= g.cwnd <= c.cwnd + 3
  {
    hide UDiv, U32;
    var m, g := cfg.mss, Grown(c, cfg.mss);
    AvoidanceBytes(c, cfg);
    assert (c.cwnd - 1) * m < c.incr <= g.incr;
    if (c.cwnd + 1) * m <= g.incr {
      var q := UDiv(g.incr + m - 1, m);
      assert g.cwnd == q && 0 < m <= g.incr;
      assert g.incr < (c.cwnd + 3) * m by {
        Next(c.cwnd + 1, m);
        Next(c.cwnd + 2, m);
      }
      hide Grown, CongOk, WindowFits;
      CeilDiv(g.incr, m);
      CeilWithin(g.incr, q, c.cwnd, m);
    }
  }

  /** Growth by one ack keeps the byte count at the window; the guard against a small `incr` never fires
      in congestion avoidance, and a window that grew is not above the peer's. */
  lemma GrowCwndKeeps(c: Cong, cfg: Cfg)
    requires WindowFits(cfg) && CongOk(c, cfg) && 0 <= c.rmtWnd < 0x1_0000
    ensures CongOk(GrowCwnd(c, cfg.mss), cfg)
    ensures c.cwnd >= c.ssthresh ==> c.incr >= cfg.mss
    ensures GrowCwnd(c, cfg.mss).cwnd > c.cwnd ==> GrowCwnd(c, cfg.mss).cwnd <= c.rmtWnd
    ensures GrowCwnd(c, cfg.mss).cwnd >= c.cwnd
  {
    if c.cwnd >= c.ssthresh {
      MulLe(1, c.cwnd - 1, cfg.mss);
    }
    if c.cwnd < c.rmtWnd {
      WholeWindow(c.rmtWnd, cfg);
      if c.cwnd < c.ssthresh {
        SlowStartKeeps(c, cfg);
      } else {
        AvoidanceBytes(c, cfg);
        AvoidanceKeeps(c, cfg);
      }
    }
  }

  /** What a flush after fast retransmissions sets the window to. */
  lemma FastWindow(k: Kcb)
    requires WindowFits(k.cfg)
    requires 0 <= k.snd.nxt - k.snd.una < 0x1_0000
    ensures 0 <= U32(Max((k.snd.nxt - k.snd.una) / 2, IKCP_THRESH_MIN) + Resent(k)) <= 0x1_0000 + k.cfg.fastresend
  {
    MulLe(1, k.cfg.mss, 0x1_0004 + k.cfg.fastresend);
  }

  /** A flush that saw no loss, saw a fast retransmission, or saw a timeout leaves the window consistent. */
  lemma AfterFlushKeeps(k: Kcb, lost: bool, change: bool, cwnd: int)
    requires WindowFits(k.cfg) && CongOk(k.cong, k.cfg)
    requires 0 <= k.snd.nxt - k.snd.una < 0x1_0000
    ensures CongOk(AfterFlush(Unbounded, k, lost, change, cwnd), k.cfg)
  {
    FastWindow(k);
    WholeWindow(U32(Max((k.snd.nxt - k.snd.una) / 2, IKCP_THRESH_MIN) + Resent(k)), k.cfg);
    WholeWindow(1, k.cfg);
    assert 1 * k.cfg.mss == k.cfg.mss;
  }

  /** The congestion state and the peer's window. */
  predicate EndCongOk(k: Kcb) {
    CongOk(k.cong, k.cfg) && 0 <= k.cong.rmtWnd < 0x1_0000
  }

  lemma {:induction false} InputPacketsCong(st: InputState, ps: seq<Packet>)
    requires EndCongOk(st.k)
    requires forall j :: 0 <= j < |ps| ==> 0 <= ps[j].wnd < 0x1_0000
    ensures EndCongOk(InputPackets(Unbounded, st, ps).k)
    decreases |ps|
  {
    if ps != [] {
      InputPacketsCong(InputState(InputPacket(Unbounded, st.k, ps[0]), InputAck(Unbounded, st.ack, ps[0])), ps[1..]);
    }
  }

  lemma DeliverCong(x: End, y: End, i: nat)
    requires WindowFits(x.kcb.cfg) && EndCongOk(x.kcb) && OutFits(y)
    ensures EndCongOk(StepEnd(x, y.out, Deliver(i)).kcb)
  {
    if i < |y.out| {
      assert forall j :: 0 <= j < |y.out[i]| ==> PacketFits(y.out[i][j], y.kcb.cfg);
      InputPacketsCong(InputState(x.kcb, NoAck), y.out[i]);
      InputKeepsCfg(Unbounded, InputState(x.kcb, NoAck), y.out[i]);
      GrowCwndKeeps(InputPackets(Unbounded, InputState(x.kcb, NoAck), y.out[i]).k.cong, x.kcb.cfg);
    }
  }

  lemma FlushCong(k: Kcb)
    requires WindowFits(k.cfg) && EndCongOk(k)
    requires 0 <= k.snd.nxt - k.snd.una <= k.cfg.sndWnd < 0x1_0000
    ensures EndCongOk(Flush(Unbounded, k).0)
  {
    if k.clock.updated {
      var cwnd := SendWindow(k);
      FillWindowBounds(k, k.snd, cwnd, k.cfg.sndWnd);
      var snd := FillWindow(Unbounded, k, k.snd, cwnd);
      var out := FlushBuf(k, snd.buf);
      var probe := ProbeWindow(k.probe, k.cong.rmtWnd, k.clock.current);
      var k1 := Kcb(k.cfg, snd.(buf := out.buf), k.rcv.(acks := []), k.cong, k.rtt,
                    probe.(askSend := false, askTell := false), k.clock, k.dead || out.dead, U32(k.xmit + out.xmit));
      AfterFlushKeeps(k1, out.lost, out.change, cwnd);
    }
  }

  lemma StepCong(x: End, y: End, a: Action)
    requires ValidCfg(x.kcb.cfg) && WindowFits(x.kcb.cfg) && Flow(x, y) && OutFits(y) && EndCongOk(x.kcb)
    ensures EndCongOk(StepEnd(x, y.out, a).kcb)
  {
    match a
    case SendMsg(msg) =>
    case RecvMsg(maxLen) =>
    case Deliver(i) => DeliverCong(x, y, i);
    case FlushNow => FlushCong(x.kcb);
    case UpdateAt(current) =>
      var (clock, due) := Tick(x.kcb.clock, x.kcb.cfg.interval, U32(current));
      if due {
        FlushCong(x.kcb.(clock := clock));
      }
  }

  /** In every run the congestion window and its byte count agree to within a segment, and the threshold is
      at least 2; so the guard and the clamp of GrowCwndKeeps hold whenever an ack is processed. */
  lemma {:induction false} CongestionHolds(ca: Cfg, cb: Cfg, es: seq<Event>)
    requires Compatible(ca, cb) && WindowFits(ca) && WindowFits(cb)
    ensures var n := Run(Start(ca, cb), es);
      EndCongOk(n.a.kcb) && EndCongOk(n.b.kcb)
  {
    if es != [] {
      var front := es[..|es| - 1];
      CongestionHolds(ca, cb, front);
      RunFits(ca, cb, front);
      RunInv(ca, cb, front);
      var n, e := Run(Start(ca, cb), front), es[|es| - 1];
      if e.side.A? {
        StepCong(n.a, n.b, e.action);
      } else {
        StepCong(n.b, n.a, e.action);
      }
    }
  }

  /** Without WindowFits it fails: with segments of almost 2^31 bytes the byte count wraps on the first step of
      congestion avoidance. */
  lemma WideSegmentsWrap()
    ensures var mss := TWO31 - 25; var c := Cong(128, 2, 2 * mss, 2);
      (c.cwnd - 1) * mss < c.incr < (c.cwnd + 1) * mss && c.incr < TWO32
      && var g := GrowCwnd(c, mss); !((g.cwnd - 1) * mss < g.incr)
  {
    var mss := TWO31 - 25;
    assert U32(mss * mss) == 625;
    assert UDiv(625, 2 * mss) == 0;
    assert U32(2 * mss + mss / 16) == 134217676;
  }

  // ---------------------------------------------------------------- exactly when

  /** The byte count is a word within one segment of the window. */
  predicate Bracket(c: Cong, m: int) {
    0 <= c.incr < TWO32 && (c.cwnd - 1) * m < c.incr < (c.cwnd + 1) * m
  }

  /** Congestion avoidance's new byte count before it is cut to a word. */
  function Raised(c: Cong, m: int): int
    requires m >= 1 && c.incr >= 1
  {
    c.incr + UDiv(U32(m * m), c.incr) + m / 16
  }

  /** Nothing that decides the new byte count overflows a word on this step of growth. */
  predicate GrowthFits(c: Cong, m: int)
    requires m >= 1 && (c.cwnd >= c.ssthresh ==> c.incr >= 1)
  {
    if c.cwnd >= c.rmtWnd then true
    else if c.cwnd < c.ssthresh then c.incr + m < TWO32
    else if U32((c.cwnd + 1) * m) > U32(Raised(c, m)) then Raised(c, m) < TWO32
    else if UDiv(U32(U32(Raised(c, m)) + m - 1), m) > c.rmtWnd then c.rmtWnd * m < TWO32
    else U32(Raised(c, m)) + m - 1 < TWO32
  }

  lemma Overflown(x: int)
    requires x >= TWO32
    ensures 0 <= U32(x) <= x - TWO32
  {
  }

  /** Setting the window in whole segments is right exactly when they fit a word. */
  lemma SetWindowExactly(w: int, m: int)
    requires 0 <= w && 1 <= m < TWO31
    ensures (w - 1) * m < U32(w * m) < (w + 1) * m <==> w * m < TWO32
  {
    Next(w, m);
    Next(w - 1, m);
    MulLe(0, w, m);
    if w * m >= TWO32 {
      Overflown(w * m);
    }
  }

  lemma SlowStartExactly(c: Cong, m: int)
    requires 1 <= m < TWO31 && Bracket(c, m) && 0 <= c.cwnd < 0xffff && c.cwnd < c.ssthresh
    ensures Bracket(Grown(c, m), m) <==> c.incr + m < TWO32
  {
    Next(c.cwnd, m);
    Next(c.cwnd - 1, m);
    Next(c.cwnd + 1, m);
    if c.incr + m >= TWO32 {
      Overflown(c.incr + m);
    }
  }

  /** What congestion avoidance adds is at most a segment, and next to nothing when it overflows. */
  lemma RaisedBounds(c: Cong, m: int)
    requires 1 <= m < TWO31 && m < c.incr < TWO32
    ensures c.incr <= Raised(c, m)
    ensures Raised(c, m) >= TWO32 ==> 0 <= U32(Raised(c, m)) <= m
  {
    var q, b := UDiv(U32(m * m), c.incr), c.incr;
    assert q * b <= U32(m * m) < TWO32;
    if Raised(c, m) >= TWO32 {
      Overflown(Raised(c, m));
      QuotientSmall(q, b, m);
    }
  }

  lemma QuotientSmall(q: int, b: int, m: int)
    requires 1 <= m < TWO31 && m < b && 0 <= q && q * b < TWO32 && b + q + m / 16 >= TWO32
    ensures q <= 1
  {
    if q >= 2 {
      MulLe(2, q, b);
      MulLe(2, b, q);
    }
  }

  /** The ceiling of a byte count brackets it, if taking the ceiling does not overflow; if it does the window is 0. */
  lemma CeilingExactly(g: int, m: int)
    requires 1 <= m < TWO31 && 0 <= g < TWO32
    ensures var q := UDiv(U32(g + m - 1), m); (q - 1) * m < g < (q + 1) * m <==> g + m - 1 < TWO32
  {
    var q := UDiv(U32(g + m - 1), m);
    Next(q - 1, m);
    Next(q, m);
    if g + m - 1 < TWO32 {
      CeilDiv(g, m);
    } else {
      assert U32(g + m - 1) == g + m - 1 - TWO32 < m;
      assert q == 0;
    }
  }

  lemma AvoidanceExactly(c: Cong, m: int)
    requires 1 <= m < TWO31 && Bracket(c, m) && 2 <= c.ssthresh <= c.cwnd
    ensures c.incr > m
    ensures Bracket(Grown(c, m), m) <==>
      if U32((c.cwnd + 1) * m) <= U32(Raised(c, m)) then U32(Raised(c, m)) + m - 1 < TWO32 else Raised(c, m) < TWO32
  {
    MulLe(1, c.cwnd - 1, m);
    RaisedBounds(c, m);
    hide UDiv;
    if U32((c.cwnd + 1) * m) <= U32(Raised(c, m)) {
      CeilingExactly(U32(Raised(c, m)), m);
    }
  }

  /** A step of growth keeps the byte count within a segment of the window if and only if GrowthFits. */
  lemma GrowCwndExactly(c: Cong, m: int)
    requires 1 <= m < TWO31 && Bracket(c, m) && 0 <= c.cwnd && c.ssthresh >= 2 && 0 <= c.rmtWnd < 0x1_0000
    ensures c.cwnd >= c.ssthresh ==> c.incr > m
    ensures Bracket(GrowCwnd(c, m), m) <==> GrowthFits(c, m)
  {
    if c.cwnd >= c.ssthresh {
      AvoidanceExactly(c, m);
    }
    if c.cwnd < c.rmtWnd {
      SetWindowExactly(c.rmtWnd, m);
      if c.cwnd < c.ssthresh {
        SlowStartExactly(c, m);
      }
    }
  }

  /** The window set for a fast retransmission: half of what is in flight, and as much again as it took duplicates. */
  function RecoveryWindow(w: Width, k: Kcb): (c: int)
    ensures 0 <= c < TWO32
  {
    U32(Max(Wrap(w, k.snd.nxt - k.snd.una) / 2, IKCP_THRESH_MIN) + Resent(k))
  }

  /** The end of a flush leaves the byte count within a segment of the window if and only if it saw a timeout, saw no
      fast retransmission, or the window it sets for one fits a word in bytes. */
  lemma AfterFlushExactly(w: Width, k: Kcb, lost: bool, change: bool, cwnd: int)
    requires 1 <= k.cfg.mss < TWO31 && Bracket(k.cong, k.cfg.mss)
    ensures Bracket(AfterFlush(w, k, lost, change, cwnd), k.cfg.mss) <==>
      lost || !change || RecoveryWindow(w, k) * k.cfg.mss < TWO32
  {
    SetWindowExactly(RecoveryWindow(w, k), k.cfg.mss);
    SetWindowExactly(1, k.cfg.mss);
    assert 0 * k.cfg.mss == 0;
  }
}
