/** When the congestion window grows on incoming segments, and by how much. */
module Growth {
  import opened Serial
  import opened Kcp
  import opened Congestion

  /** All that the segments of a datagram change of the congestion state before it is looked at: the peer's window. */
  lemma {:induction false} PacketsNote(w: Width, st: InputState, ps: seq<Packet>)
    requires ps != []
    ensures var k := InputPackets(w, st, ps).k;
      k.cong == st.k.cong.(rmtWnd := ps[|ps| - 1].wnd) && k.cfg == st.k.cfg
    decreases |ps|
  {
    var st1 := InputState(InputPacket(w, st.k, ps[0]), InputAck(w, st.ack, ps[0]));
    assert st1.k.cong == st.k.cong.(rmtWnd := ps[0].wnd) && st1.k.cfg == st.k.cfg;
    hide InputPacket, InputAck;
    if |ps| == 1 {
      assert ps[1..] == [];
    } else {
      PacketsNote(w, st1, ps[1..]);
    }
  }

  /** Nothing in a step of growth overflows. */
  predicate Roomy(c: Cong, mss: int) {
    && 1 <= mss <= 0xffff && 0 <= c.incr < 0x8000_0000 && 0 <= c.cwnd && (c.cwnd + 1) * mss < TWO32
    && 0 <= c.rmtWnd <= 0xffff
  }

  /** The byte count of congestion avoidance: up by a segment's share of the window and a sixteenth of a segment. */
  function Avoided(c: Cong, mss: int): int
    requires mss >= 1
  {
    var incr := Max(c.incr, mss);
    incr + mss * mss / incr + mss / 16
  }

  /** `cwnd` is the least number of segments that hold `bytes`. */
  predicate Holds(cwnd: int, bytes: int, mss: int) {
    (cwnd - 1) * mss < bytes <= cwnd * mss
  }

  /** One step of growth below the peer's window: below the threshold by a segment; from there on the byte count goes
      up, and the window to what holds it once that is a segment more, but not past the peer's. */
  predicate Grew(c: Cong, mss: int, c': Cong)
    requires mss >= 1
  {
    var bytes := Avoided(c, mss);
    && c'.rmtWnd == c.rmtWnd && c'.ssthresh == c.ssthresh
    && (c.cwnd < c.ssthresh ==> c'.cwnd == c.cwnd + 1 && c'.incr == c.incr + mss)
    && (c.cwnd >= c.ssthresh && bytes < (c.cwnd + 1) * mss ==> c'.cwnd == c.cwnd && c'.incr == bytes)
    && (c.cwnd >= c.ssthresh && bytes >= (c.cwnd + 1) * mss ==>
          || (Holds(c'.cwnd, bytes, mss) && c'.cwnd <= c.rmtWnd && c'.incr == bytes)
          || (c'.cwnd == c.rmtWnd && c'.incr == c.rmtWnd * mss && c.rmtWnd * mss < bytes))
  }

  lemma ShareFits(b: int, m: int)
    requires 1 <= m <= 0xffff && m <= b
    ensures 0 <= UDiv(U32(m * m), b) == m * m / b <= m && m * m < TWO32
  {
    MulLe(m, 0xffff, m);
    MulLe(0, m, m);
    var q := m * m / b;
    assert q * b <= m * m;
    if q > m {
      MulLe(m, b, q);
      MulLe(m + 1, q, m);
      Next(m, m);
    }
  }

  lemma AvoidanceGrows(c: Cong, mss: int)
    requires Roomy(c, mss) && c.cwnd >= c.ssthresh && c.cwnd < c.rmtWnd
    ensures Grew(c, mss, GrowCwnd(c, mss))
  {
    var base := Max(c.incr, mss);
    ShareFits(base, mss);
    var bytes := Avoided(c, mss);
    assert 0 < bytes < TWO32 - mss;
    assert U32(bytes) == bytes && U32((c.cwnd + 1) * mss) == (c.cwnd + 1) * mss by {
      MulLe(0, c.cwnd + 1, mss);
    }
    MulLe(0, c.rmtWnd, mss);
    MulLe(c.rmtWnd, 0xffff, mss);
    assert U32(c.rmtWnd * mss) == c.rmtWnd * mss;
    assert U32(bytes + mss - 1) == bytes + mss - 1;
    hide U32;
    if (c.cwnd + 1) * mss <= bytes {
      CeilDiv(bytes, mss);
      var q := UDiv(bytes + mss - 1, mss);
      assert Holds(q, bytes, mss);
      if q > c.rmtWnd {
        MulLe(c.rmtWnd, q - 1, mss);
      }
    }
  }

  lemma GrowsByRule(c: Cong, mss: int)
    requires Roomy(c, mss)
    ensures if c.cwnd < c.rmtWnd then Grew(c, mss, GrowCwnd(c, mss)) else GrowCwnd(c, mss) == c
  {
    if c.cwnd < c.rmtWnd {
      if c.cwnd >= c.ssthresh {
        AvoidanceGrows(c, mss);
      } else {
        hide Avoided, Holds;
      }
    }
  }

  /** A datagram grows the window, by one step, exactly when it has moved the unacknowledged edge and the window is
      below the one the peer now advertises. */
  lemma InputGrows(w: Width, k: Kcb, ps: seq<Packet>)
    requires ps != [] && Roomy(k.cong.(rmtWnd := ps[|ps| - 1].wnd), k.cfg.mss)
    ensures var k', c := InputDatagram(w, k, ps), k.cong.(rmtWnd := ps[|ps| - 1].wnd);
      if SnDiff(w, k'.snd.una, k.snd.una) > 0 && c.cwnd < c.rmtWnd then Grew(c, k.cfg.mss, k'.cong) else k'.cong == c
  {
    PacketsNote(w, InputState(k, NoAck), ps);
    GrowsByRule(k.cong.(rmtWnd := ps[|ps| - 1].wnd), k.cfg.mss);
    hide InputPackets, GrowCwnd, Grew, Roomy, BumpFastack, SnDiff;
  }
}
