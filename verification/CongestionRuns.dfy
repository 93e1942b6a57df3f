/** The congestion window over whole runs of the program, whatever the segment size and however late the datagrams:
    it stays within a segment of its byte count for as long as no step overflows what decides them, and comes apart at
    the first step that does. */
module CongestionRuns {
  import opened Bytes
  import opened Serial
  import opened Kcp
  import opened Wire
  import opened Datagrams
  import opened Connection
  import opened ByteRuns
  import opened Congestion

  /** What every state of a run has. */
  predicate Plain(k: Kcb) {
    ValidCfg(k.cfg) && 0 <= k.cong.cwnd && k.cong.ssthresh >= IKCP_THRESH_MIN && 0 <= k.cong.rmtWnd < 0x1_0000
  }

  predicate InBracket(k: Kcb) {
    Bracket(k.cong, k.cfg.mss)
  }

  // ---------------------------------------------------------------- the condition on each step

  /** If the unacknowledged edge has moved past `prevUna`, the step of growth that calls for does not overflow. */
  predicate GrowsRight(k: Kcb, prevUna: int)
    requires k.cfg.mss >= 1
  {
    SnDiff(Bits32, k.snd.una, prevUna) > 0 ==>
      (k.cong.cwnd >= k.cong.ssthresh ==> k.cong.incr >= 1) && GrowthFits(k.cong, k.cfg.mss)
  }

  /** Of ikcp_input, which grows the window once, after its loop, unless a bad header ends it first. */
  predicate InputRight(st: InputState, b: seq<byte>, prevUna: int)
    requires st.k.cfg.mss >= 1
    decreases |b|
  {
    if |b| < IKCP_OVERHEAD then GrowsRight(st.k, prevUna)
    else
      var (h, len) := DecodeHeader(b);
      var body := b[IKCP_OVERHEAD..];
      if h.conv != st.k.cfg.conv || |body| < len || I32(len) < 0 || !KnownCmd(h.cmd) then true
      else
        var p := h.(data := body[..len]);
        InputRight(InputState(InputPacket(Bits32, st.k, p), InputAck(Bits32, st.ack, p)), body[len..], prevUna)
  }

  /** Of ikcp_flush: a window set for a fast retransmission fits a word in bytes, unless a timeout undoes it. */
  predicate FlushRight(k: Kcb) {
    k.clock.updated ==>
      var snd := FillWindow(Bits32, k, k.snd, SendWindow(k));
      var out := FlushBuf(k, snd.buf);
      out.lost || !out.change || RecoveryWindow(Bits32, k.(snd := snd)) * k.cfg.mss < TWO32
  }

  predicate StepRight(x: End32, wire: seq<seq<byte>>, a: Action)
    requires x.kcb.cfg.mss >= 1
  {
    match a
    case Deliver(i) =>
      i < |wire| && |wire[i]| >= IKCP_OVERHEAD ==> InputRight(InputState(x.kcb, NoAck), wire[i], x.kcb.snd.una)
    case FlushNow => FlushRight(x.kcb)
    case UpdateAt(current) =>
      Tick(x.kcb.clock, x.kcb.cfg.interval, U32(current)).1 ==> FlushRight(Flushing(x, a))
    case _ => true
  }

  // ---------------------------------------------------------------- exactly when a step keeps the bracket

  lemma HeaderWnd(b: seq<byte>)
    requires |b| >= IKCP_OVERHEAD
    ensures 0 <= DecodeHeader(b).0.wnd < 0x1_0000
  {
    HeaderIs24();
    DecodedFit(WIDTHS, b);
    Pow256Values();
  }

  lemma GrowCwndPlain(c: Cong, m: int)
    requires m >= 1 && 0 <= c.cwnd && 0 <= c.rmtWnd
    ensures 0 <= GrowCwnd(c, m).cwnd && GrowCwnd(c, m).rmtWnd == c.rmtWnd && GrowCwnd(c, m).ssthresh == c.ssthresh
  {
  }

  lemma FinishExactly(st: InputState, prevUna: int)
    requires Plain(st.k)
    ensures Plain(FinishInput(Bits32, st, prevUna))
    ensures InBracket(st.k) ==> (InBracket(FinishInput(Bits32, st, prevUna)) <==> GrowsRight(st.k, prevUna))
  {
    GrowCwndPlain(st.k.cong, st.k.cfg.mss);
    if InBracket(st.k) {
      GrowCwndExactly(st.k.cong, st.k.cfg.mss);
    }
    hide GrowCwnd, GrowthFits, Bracket;
  }

  /** A segment changes only what the peer advertises. */
  lemma PacketKeeps(k: Kcb, p: Packet)
    requires Plain(k) && 0 <= p.wnd < 0x1_0000
    ensures var k' := InputPacket(Bits32, k, p);
      k'.cfg == k.cfg && k'.cfg.mss >= 1 && Plain(k') && (InBracket(k') <==> InBracket(k))
  {
    hide InputPush, ApplyUna, ApplyAck, SampleRtt;
  }

  lemma {:induction false} InputExactly(st: InputState, b: seq<byte>, prevUna: int)
    requires Plain(st.k)
    ensures Plain(InputLoop(st, b, prevUna).0)
    ensures InBracket(st.k) ==> (InBracket(InputLoop(st, b, prevUna).0) <==> InputRight(st, b, prevUna))
    decreases |b|
  {
    if |b| < IKCP_OVERHEAD {
      FinishExactly(st, prevUna);
    } else {
      var (h, len) := DecodeHeader(b);
      var body := b[IKCP_OVERHEAD..];
      if h.conv == st.k.cfg.conv && len <= |body| && I32(len) >= 0 && KnownCmd(h.cmd) {
        var p := h.(data := body[..len]);
        HeaderWnd(b);
        PacketKeeps(st.k, p);
        hide InputPacket, DecodeHeader, Plain, InBracket;
        InputExactly(InputState(InputPacket(Bits32, st.k, p), InputAck(Bits32, st.ack, p)), body[len..], prevUna);
      }
    }
  }

  lemma AfterFlushPlain(k: Kcb, lost: bool, change: bool, cwnd: int)
    requires Plain(k)
    ensures Plain(k.(cong := AfterFlush(Bits32, k, lost, change, cwnd)))
  {
  }

  lemma FlushedCong(k: Kcb, probe: Probe, snd: Snd, out: FlushOut, cwnd: int)
    ensures Flushed(Bits32, k, probe, snd, out, cwnd).cfg == k.cfg
    ensures Flushed(Bits32, k, probe, snd, out, cwnd).cong
            == AfterFlush(Bits32, k.(snd := snd), out.lost, out.change, cwnd)
  {
  }

  lemma FlushExactly(k: Kcb)
    requires Plain(k)
    ensures Plain(Flush(Bits32, k).0)
    ensures InBracket(k) ==> (InBracket(Flush(Bits32, k).0) <==> FlushRight(k))
  {
    if k.clock.updated {
      hide U32, FillWindow, FlushBuf, ProbeWindow, Bracket, RecoveryWindow, SendWindow, AfterFlush, Flushed;
      var cwnd := SendWindow(k);
      var snd := FillWindow(Bits32, k, k.snd, cwnd);
      var out := FlushBuf(k, snd.buf);
      FlushedCong(k, ProbeWindow(k.probe, k.cong.rmtWnd, k.clock.current), snd, out, cwnd);
      AfterFlushPlain(k.(snd := snd), out.lost, out.change, cwnd);
      if InBracket(k) {
        AfterFlushExactly(Bits32, k.(snd := snd), out.lost, out.change, cwnd);
      }
    }
  }

  lemma StepExactly(x: End32, wire: seq<seq<byte>>, a: Action)
    requires Plain(x.kcb)
    ensures Plain(StepEnd32(x, wire, a).kcb)
    ensures InBracket(x.kcb) ==> (InBracket(StepEnd32(x, wire, a).kcb) <==> StepRight(x, wire, a))
  {
    hide FlushRight, InputRight, Flush, Bracket, InputLoop, MoveReady;
    match a
    case SendMsg(msg) =>
    case RecvMsg(maxLen) =>
    case Deliver(i) =>
      if i < |wire| {
        InputExactly(InputState(x.kcb, NoAck), wire[i], x.kcb.snd.una);
      }
    case FlushNow => FlushExactly(x.kcb);
    case UpdateAt(current) => FlushExactly(Flushing(x, a));
  }

  // ---------------------------------------------------------------- over a run

  /** Every step that `side` takes in the run meets its condition. */
  predicate AllRight(ca: Cfg, cb: Cfg, es: seq<Event>, side: Side)
    requires Compatible(ca, cb)
  {
    es == [] ||
    var front, e := es[..|es| - 1], es[|es| - 1];
    var n := Run32(Start32(ca, cb), front);
    && AllRight(ca, cb, front, side)
    && (e.side == side ==> StepRight(EndOf(n, side), EndOf(n, Other(side)).out, e.action))
  }

  /** Every state of `side` in the run has its byte count within a segment of its window. */
  predicate AllInBracket(ca: Cfg, cb: Cfg, es: seq<Event>, side: Side)
    requires Compatible(ca, cb)
  {
    && InBracket(EndOf(Run32(Start32(ca, cb), es), side).kcb)
    && (es == [] || AllInBracket(ca, cb, es[..|es| - 1], side))
  }

  /** In every run the bracket holds throughout if and only if every step met its condition; and the first step that
      does not loses it. */
  lemma {:induction false} BracketExactly(ca: Cfg, cb: Cfg, es: seq<Event>, side: Side)
    requires Compatible(ca, cb)
    ensures Plain(EndOf(Run32(Start32(ca, cb), es), side).kcb)
    ensures AllInBracket(ca, cb, es, side) <==> AllRight(ca, cb, es, side)
    ensures es != [] && AllRight(ca, cb, es[..|es| - 1], side) && !AllRight(ca, cb, es, side) ==>
      !InBracket(EndOf(Run32(Start32(ca, cb), es), side).kcb)
  {
    if es != [] {
      hide Plain, InBracket, StepRight, StepEnd32;
      var front, e := es[..|es| - 1], es[|es| - 1];
      BracketExactly(ca, cb, front, side);
      var n := Run32(Start32(ca, cb), front);
      if e.side == side {
        StepExactly(EndOf(n, side), EndOf(n, Other(side)).out, e.action);
      }
    }
  }
}
