/** Flow control: what a flush may number, in every run of the program, by the window the peer last advertised; and
    what it advertises itself. */
module FlowControl {
  import opened Bytes
  import opened Serial
  import opened Kcp
  import opened Buffers
  import opened Wire
  import opened Datagrams
  import opened Connection
  import opened ByteRuns
  import opened Acknowledgements
  import opened CongestionRuns

  /** How far `a` is ahead of `b`, at a width. */
  function Gap(w: Width, a: int, b: int): int {
    if w.Bits32? then U32(a - b) else a - b
  }

  lemma GapOne(w: Width, a: int, b: int)
    requires 0 <= Gap(w, a, b) < TWO31
    ensures Gap(w, Wrap(w, a + 1), b) == Gap(w, a, b) + 1
  {
    if w.Bits32? {
      WrapAdds(a + 1, -b);
      WrapAdds(a - b, 1);
    }
  }

  /** The test of the numbering loop, by the distance from the unacknowledged edge. */
  lemma EdgeTest(w: Width, nxt: int, una: int, cwnd: int)
    requires 0 <= Gap(w, nxt, una) < 0x2_0000 && 0 <= cwnd < 0x2_0000
    ensures SnDiff(w, nxt, Wrap(w, una + cwnd)) < 0 <==> Gap(w, nxt, una) < cwnd
  {
    if w.Bits32? {
      var i := U32Split(una + cwnd);
      var j := U32Split(nxt - una);
      var g := Gap(w, nxt, una);
      assert nxt - U32(una + cwnd) == (g - cwnd) + (i + j) * TWO32;
      I32Congruent(g - cwnd, i + j);
    }
  }

  // ---------------------------------------------------------------- one flush

  /** A number `d` ahead of the unacknowledged edge is inside the peer's window, the sender's, and, when it counts,
      the congestion window. */
  predicate InWindow(k: Kcb, d: int) {
    d < k.cfg.sndWnd && d < k.cong.rmtWnd && (!k.cfg.nocwnd ==> d < k.cong.cwnd)
  }

  lemma InWindowExactly(k: Kcb, d: int)
    ensures d < SendWindow(k) <==> InWindow(k, d)
  {
  }

  /** `s'` has `n` fragments of the queue of `s` more in its buffer, numbered on from where `s` was. */
  predicate Numbered(w: Width, s: Snd, s': Snd, n: nat) {
    && n <= |s.queue| && s'.una == s.una && s'.queue == s.queue[n..]
    && |s'.buf| == |s.buf| + n && s'.buf[..|s.buf|] == s.buf
    && Gap(w, s'.nxt, s.una) == Gap(w, s.nxt, s.una) + n
    && forall j :: |s.buf| <= j < |s'.buf| ==> Fresh(w, s, j - |s.buf|, s'.buf[j])
  }

  /** The i-th of them, waiting to be sent for the first time. */
  predicate Fresh(w: Width, s: Snd, i: nat, seg: SndSeg)
    requires i < |s.queue|
  {
    && seg.frg == s.queue[i].frg && seg.data == s.queue[i].data
    && Gap(w, seg.sn, s.una) == Gap(w, s.nxt, s.una) + i && seg.sn == Wrap(w, seg.sn)
    && seg.xmit == 0 && seg.fastack == 0
  }

  lemma NumberedOne(w: Width, k: Kcb, s: Snd)
    requires s.queue != [] && 0 <= Gap(w, s.nxt, s.una) < TWO31 && s.nxt == Wrap(w, s.nxt)
    ensures Numbered(w, s, NumberOne(w, k, s), 1) && NumberOne(w, k, s).nxt == Wrap(w, s.nxt + 1)
  {
    GapOne(w, s.nxt, s.una);
    hide Gap, Wrap;
    var s' := NumberOne(w, k, s);
    assert s'.buf[|s.buf|].sn == s.nxt;
  }

  lemma NumberedNone(w: Width, s: Snd)
    ensures Numbered(w, s, s, 0)
  {
  }

  lemma NumberedMore(w: Width, s: Snd, s1: Snd, s2: Snd, n: nat)
    requires Numbered(w, s, s1, 1) && Numbered(w, s1, s2, n)
    ensures Numbered(w, s, s2, n + 1)
  {
    hide Gap, Wrap;
    var b := |s.buf|;
    assert s2.buf[..b] == s2.buf[..b + 1][..b];
    assert s2.buf[b] == s1.buf[b];
    forall j | b <= j < |s2.buf| ensures Fresh(w, s, j - b, s2.buf[j]) {
      if j > b {
        assert Fresh(w, s1, j - |s1.buf|, s2.buf[j]);
        assert s1.queue[j - |s1.buf|] == s.queue[j - b];
      } else {
        assert Fresh(w, s, 0, s1.buf[b]);
      }
    }
  }

  /** The numbering loop numbers as long as there is something queued and the edge of `cwnd` is not reached. */
  lemma {:induction false} FillsExactly(w: Width, k: Kcb, s: Snd, cwnd: int) returns (n: nat)
    requires 0 <= Gap(w, s.nxt, s.una) <= 0x1_0000 && 0 <= cwnd < 0x1_0000 && s.nxt == Wrap(w, s.nxt)
    ensures var s' := FillWindow(w, k, s, cwnd); var g := Gap(w, s.nxt, s.una);
      && Numbered(w, s, s', n) && s'.nxt == Wrap(w, s'.nxt)
      && (n > 0 ==> g + n - 1 < cwnd)
      && (s'.queue != [] ==> cwnd <= g + n)
    decreases |s.queue|
  {
    hide Gap, SnDiff, Numbered, Wrap;
    EdgeTest(w, s.nxt, s.una, cwnd);
    if Gap(w, s.nxt, s.una) < cwnd && s.queue != [] {
      var s1 := NumberOne(w, k, s);
      NumberedOne(w, k, s);
      NumberedGap(w, s, s1, 1);
      WrapTwice(w, s.nxt + 1);
      var m := FillsExactly(w, k, s1, cwnd);
      n := m + 1;
      NumberedMore(w, s, s1, FillWindow(w, k, s1, cwnd), m);
    } else {
      n := 0;
      NumberedNone(w, s);
    }
  }

  lemma WrapTwice(w: Width, x: int)
    ensures Wrap(w, Wrap(w, x)) == Wrap(w, x)
  {
  }

  lemma NumberedGap(w: Width, s: Snd, s': Snd, n: nat)
    requires Numbered(w, s, s', n)
    ensures s'.una == s.una && Gap(w, s'.nxt, s'.una) == Gap(w, s.nxt, s.una) + n
  {
  }

  /** A block as every run has it. */
  predicate Windowed(w: Width, k: Kcb) {
    && ValidCfg(k.cfg) && 0 <= k.cong.rmtWnd < 0x1_0000 && 0 <= k.cong.cwnd
    && 0 <= Gap(w, k.snd.nxt, k.snd.una) <= 0x1_0000 && k.snd.nxt == Wrap(w, k.snd.nxt)
  }

  /** A flush numbers `n` fragments of the queue, in order: every number is inside all the windows that count, and
      what is left queued is left because the next number would not be. */
  lemma FlushNumbersExactly(w: Width, k: Kcb) returns (n: nat, s: Snd)
    requires Windowed(w, k) && k.clock.updated
    ensures var s' := Flush(w, k).0.snd; var g := Gap(w, k.snd.nxt, k.snd.una);
      && Numbered(w, k.snd, s, n) && s.nxt == Wrap(w, s.nxt) && s' == s.(buf := s'.buf) && SameShape(s'.buf, s.buf)
      && (forall d :: g <= d < g + n ==> InWindow(k, d))
      && (s'.queue != [] ==> !InWindow(k, g + n))
  {
    hide Gap, FillWindow, FlushBuf, ProbeWindow, ControlPackets, AfterFlush, Numbered;
    n := FillsExactly(w, k, k.snd, SendWindow(k));
    s := FillWindow(w, k, k.snd, SendWindow(k));
    FlushBufKeepsShape(k, s.buf);
    var g := Gap(w, k.snd.nxt, k.snd.una);
    forall d | g <= d < g + n ensures InWindow(k, d) {
      InWindowExactly(k, d);
    }
    InWindowExactly(k, g + n);
  }

  // ---------------------------------------------------------------- the window in flight, in every run

  /** Every number in the buffer is a word from the unacknowledged edge on, before the next number, in order; and the
      window is no wider than the sender's. */
  predicate Inside(s: Snd, wnd: int) {
    && IsWord(s.una) && IsWord(s.nxt) && U32(s.nxt - s.una) <= wnd
    && (forall i :: 0 <= i < |s.buf| ==> IsWord(s.buf[i].sn) && U32(s.buf[i].sn - s.una) < U32(s.nxt - s.una))
    && (forall i, j :: 0 <= i < j < |s.buf| ==> U32(s.buf[i].sn - s.una) < U32(s.buf[j].sn - s.una))
  }

  predicate Headed(s: Snd) {
    s.una == if s.buf == [] then s.nxt else s.buf[0].sn
  }

  lemma Rebase(a: int, b: int, c: int)
    requires U32(b - a) <= U32(c - a)
    ensures U32(c - b) == U32(c - a) - U32(b - a)
  {
    var i := U32Split(b - a);
    var j := U32Split(c - a);
    assert c - b == U32(c - a) - U32(b - a) + (j - i) * TWO32;
    I32Congruent(U32(c - a) - U32(b - a), j - i);
  }

  /** The edge moves up to the head of what is left. */
  lemma ShrinkInside(s: Snd, wnd: int)
    requires Inside(s, wnd)
    ensures Inside(ShrinkBuf(s), wnd) && Headed(ShrinkBuf(s))
  {
    hide U32;
    var una := ShrinkBuf(s).una;
    assert U32(una - s.una) <= U32(s.nxt - s.una);
    Rebase(s.una, una, s.nxt);
    forall i | 0 <= i < |s.buf| ensures U32(s.buf[i].sn - una) == U32(s.buf[i].sn - s.una) - U32(una - s.una) {
      Rebase(s.una, una, s.buf[i].sn);
    }
  }

  lemma {:induction false} DropBelowTail(w: Width, buf: seq<SndSeg>, una: int) returns (k: nat)
    ensures k <= |buf| && DropBelow(w, buf, una) == buf[k..]
  {
    k := 0;
    if buf != [] && SnDiff(w, una, buf[0].sn) > 0 {
      var m := DropBelowTail(w, buf[1..], una);
      k := m + 1;
    }
  }

  lemma {:induction false} RemoveAckOne(w: Width, buf: seq<SndSeg>, sn: int) returns (k: nat)
    ensures k <= |buf| && RemoveAck(w, buf, sn) == buf[..k] + (if k < |buf| then buf[k + 1..] else [])
  {
    k := |buf|;
    if buf != [] {
      if sn == buf[0].sn {
        k := 0;
      } else if SnDiff(w, sn, buf[0].sn) >= 0 {
        var m := RemoveAckOne(w, buf[1..], sn);
        k := m + 1;
      }
    }
  }

  lemma TailInside(s: Snd, wnd: int, k: nat)
    requires Inside(s, wnd) && k <= |s.buf|
    ensures Inside(s.(buf := s.buf[k..]), wnd)
  {
    hide U32;
  }

  lemma CutInside(s: Snd, wnd: int, k: nat)
    requires Inside(s, wnd) && k <= |s.buf|
    ensures Inside(s.(buf := s.buf[..k] + (if k < |s.buf| then s.buf[k + 1..] else [])), wnd)
  {
    hide U32;
    var b := s.buf[..k] + (if k < |s.buf| then s.buf[k + 1..] else []);
    forall i | 0 <= i < |b| ensures b[i] == s.buf[if i < k then i else i + 1] {
    }
  }

  lemma ShapeInside(s: Snd, wnd: int, buf: seq<SndSeg>)
    requires Inside(s, wnd) && Headed(s) && SameShape(buf, s.buf)
    ensures Inside(s.(buf := buf), wnd) && Headed(s.(buf := buf))
  {
    hide U32;
  }

  lemma UnaInside(s: Snd, wnd: int, una: int)
    requires Inside(s, wnd)
    ensures Inside(ApplyUna(Bits32, s, una), wnd) && Headed(ApplyUna(Bits32, s, una))
  {
    var k := DropBelowTail(Bits32, s.buf, una);
    TailInside(s, wnd, k);
    ShrinkInside(s.(buf := s.buf[k..]), wnd);
  }

  lemma AckInside(s: Snd, wnd: int, sn: int)
    requires Inside(s, wnd)
    ensures Inside(ApplyAck(Bits32, s, sn), wnd) && Headed(ApplyAck(Bits32, s, sn))
  {
    hide Inside, InFlight, RemoveAck;
    var k := RemoveAckOne(Bits32, s.buf, sn);
    CutInside(s, wnd, k);
    ShrinkInside(s, wnd);
    ShrinkInside(s.(buf := RemoveAck(Bits32, s.buf, sn)), wnd);
  }

  lemma NumberedInside(s: Snd, s': Snd, n: nat, wnd: int)
    requires Inside(s, wnd) && Headed(s) && Numbered(Bits32, s, s', n) && IsWord(s'.nxt)
    requires n > 0 ==> U32(s.nxt - s.una) + n <= wnd
    ensures Inside(s', wnd) && Headed(s')
  {
    hide U32;
    var b := |s.buf|;
    assert U32(s'.nxt - s.una) == U32(s.nxt - s.una) + n;
    forall i | 0 <= i < |s'.buf|
      ensures U32(s'.buf[i].sn - s.una) == (if i < b then U32(s.buf[i].sn - s.una) else U32(s.nxt - s.una) + (i - b))
      ensures IsWord(s'.buf[i].sn)
    {
      if i < b {
        assert s'.buf[..b][i] == s.buf[i];
      } else {
        assert Fresh(Bits32, s, i - b, s'.buf[i]);
        WordOf(s'.buf[i].sn);
      }
    }
    if b == 0 {
      SameWord(if n > 0 then s'.buf[0].sn else s'.nxt, s.una);
    }
    if b > 0 {
      assert s'.buf[..b][0] == s.buf[0];
    }
  }

  lemma WordOf(x: int)
    requires x == Wrap(Bits32, x)
    ensures IsWord(x)
  {
  }

  lemma SameWord(a: int, b: int)
    requires IsWord(a) && IsWord(b) && U32(a - b) == U32(b - b)
    ensures a == b
  {
  }

  /** The sending half and the windows it goes by, as every state of a run has them. */
  predicate Flowing(k: Kcb) {
    Plain(k) && Inside(k.snd, k.cfg.sndWnd) && Headed(k.snd)
  }

  /** What a segment does to the window in flight and to the peer's. */
  lemma PacketFlows(k: Kcb, p: Packet)
    requires Flowing(k) && 0 <= p.wnd < 0x1_0000
    ensures var k' := InputPacket(Bits32, k, p); Flowing(k') && k'.cfg == k.cfg && k'.cong.rmtWnd == p.wnd
  {
    hide ApplyUna, ApplyAck, InputPush, SampleRtt, Inside, Headed;
    UnaInside(k.snd, k.cfg.sndWnd, p.una);
    AckInside(ApplyUna(Bits32, k.snd, p.una), k.cfg.sndWnd, p.sn);
  }

  /** What the last of the segments advertises, if there is one. */
  function Advertised(ps: seq<Packet>, before: int): int {
    if ps == [] then before else ps[|ps| - 1].wnd
  }

  lemma AdvertisedMore(p: Packet, ps: seq<Packet>, before: int)
    ensures Advertised([p] + ps, before) == Advertised(ps, p.wnd)
  {
  }

  lemma FinishFlows(st: InputState, prevUna: int)
    requires Flowing(st.k)
    ensures var k := FinishInput(Bits32, st, prevUna); Flowing(k) && k.cong.rmtWnd == st.k.cong.rmtWnd
  {
    hide Inside, Headed, GrowCwnd, BumpFastack;
    GrowCwndPlain(st.k.cong, st.k.cfg.mss);
    if st.ack.MaxAck? {
      BumpFastackKeepsShape(Bits32, st.k.snd.buf, st.ack.sn);
      ShapeInside(st.k.snd, st.k.cfg.sndWnd, BumpFastack(Bits32, st.k.snd.buf, st.ack.sn));
    }
    assert st.k.snd.(buf := st.k.snd.buf) == st.k.snd;
  }

  lemma {:induction false} InputFlows(st: InputState, b: seq<byte>, prevUna: int)
    requires Flowing(st.k)
    ensures var k := InputLoop(st, b, prevUna).0;
      Flowing(k) && k.cong.rmtWnd == Advertised(Segments(st.k.cfg.conv, b), st.k.cong.rmtWnd)
    decreases |b|
  {
    hide InputPacket, DecodeHeader, FinishInput, Inside, Headed;
    if |b| < IKCP_OVERHEAD {
      FinishFlows(st, prevUna);
    } else {
      var (h, len) := DecodeHeader(b);
      var body := b[IKCP_OVERHEAD..];
      if h.conv == st.k.cfg.conv && len <= |body| && I32(len) >= 0 && KnownCmd(h.cmd) {
        var p := h.(data := body[..len]);
        HeaderWnd(b);
        PacketFlows(st.k, p);
        AdvertisedMore(p, Segments(st.k.cfg.conv, body[len..]), st.k.cong.rmtWnd);
        InputFlows(InputState(InputPacket(Bits32, st.k, p), InputAck(Bits32, st.ack, p)), body[len..], prevUna);
      }
    }
  }

  lemma FlushFlows(k: Kcb)
    requires Flowing(k)
    ensures Flowing(Flush(Bits32, k).0) && Flush(Bits32, k).0.cong.rmtWnd == k.cong.rmtWnd
  {
    FlushExactly(k);
    FlushKeepsRoom(k);
    if k.clock.updated {
      hide Flush, Inside, Headed, Numbered;
      InsideIsWindowed(k);
      var n, s := FlushNumbersExactly(Bits32, k);
      assert n > 0 ==> InWindow(k, U32(k.snd.nxt - k.snd.una) + n - 1);
      WordOf(s.nxt);
      NumberedInside(k.snd, s, n, k.cfg.sndWnd);
      ShapeInside(s, k.cfg.sndWnd, Flush(Bits32, k).0.snd.buf);
    }
  }

  lemma FlushKeepsRoom(k: Kcb)
    ensures var k' := Flush(Bits32, k).0; k'.cong.rmtWnd == k.cong.rmtWnd && k'.cfg == k.cfg
  {
  }

  lemma InsideIsWindowed(k: Kcb)
    requires Flowing(k)
    ensures Windowed(Bits32, k)
  {
  }

  /** The window last advertised to `side`; the code assumes 128 before it has heard of one. */
  function LastAdvertised(ca: Cfg, cb: Cfg, es: seq<Event>, side: Side): int
    requires Compatible(ca, cb)
  {
    if es == [] then 128
    else
      var front, e := es[..|es| - 1], es[|es| - 1];
      var n := Run32(Start32(ca, cb), front);
      var before, wire := LastAdvertised(ca, cb, front, side), EndOf(n, Other(side)).out;
      if e.side == side && e.action.Deliver? && e.action.i < |wire|
      then Advertised(Segments(EndOf(n, side).kcb.cfg.conv, wire[e.action.i]), before)
      else before
  }

  lemma StepFlows(x: End32, wire: seq<seq<byte>>, a: Action)
    requires Flowing(x.kcb)
    ensures var k := StepEnd32(x, wire, a).kcb;
      && Flowing(k)
      && k.cong.rmtWnd ==
         if a.Deliver? && a.i < |wire| then Advertised(Segments(x.kcb.cfg.conv, wire[a.i]), x.kcb.cong.rmtWnd)
         else x.kcb.cong.rmtWnd
  {
    hide InputLoop, Segments, Flush, MoveReady, Tick, Fragments, Inside, Headed;
    match a
    case SendMsg(msg) => QueueFlows(x.kcb, Send(x.kcb, msg).0.snd.queue);
    case RecvMsg(maxLen) =>
    case Deliver(i) =>
      if i < |wire| {
        InputFlows(InputState(x.kcb, NoAck), wire[i], x.kcb.snd.una);
        ShortSegments(x.kcb.cfg.conv, wire[i]);
      }
    case FlushNow => FlushFlows(x.kcb);
    case UpdateAt(current) => FlushFlows(Flushing(x, a));
  }

  lemma ShortSegments(conv: int, b: seq<byte>)
    ensures |b| < IKCP_OVERHEAD ==> Segments(conv, b) == []
  {
  }

  lemma QueueFlows(k: Kcb, queue: seq<Frag>)
    requires Flowing(k)
    ensures Flowing(k.(snd := k.snd.(queue := queue)))
  {
  }

  lemma {:induction false} RunFlows(ca: Cfg, cb: Cfg, es: seq<Event>, side: Side)
    requires Compatible(ca, cb)
    ensures var k := EndOf(Run32(Start32(ca, cb), es), side).kcb;
      Flowing(k) && k.cong.rmtWnd == LastAdvertised(ca, cb, es, side)
  {
    if es != [] {
      hide Flowing, StepEnd32, Advertised;
      var front, e := es[..|es| - 1], es[|es| - 1];
      RunFlows(ca, cb, front, side);
      if e.side == side {
        var n := Run32(Start32(ca, cb), front);
        StepFlows(EndOf(n, side), EndOf(n, Other(side)).out, e.action);
      }
    }
  }

  /** A number `d` ahead of the unacknowledged edge is inside the window `room` last advertised, the sender's, and,
      when it counts, the congestion window. */
  predicate Allowed(k: Kcb, room: int, d: int) {
    d < room && d < k.cfg.sndWnd && (k.cfg.nocwnd || d < k.cong.cwnd)
  }

  /** In every run of the program, whatever was late: no more than the sender's window is outstanding, and a flush
      numbers fragments of the queue in order exactly as long as they stay inside the window last advertised, the
      sender's, and, when it counts, the congestion window. */
  lemma FlushesInWindow(ca: Cfg, cb: Cfg, es: seq<Event>, side: Side, a: Action) returns (n: nat, s: Snd)
    requires Compatible(ca, cb) && Flushes(EndOf(Run32(Start32(ca, cb), es), side).kcb, a)
    ensures var x := EndOf(Run32(Start32(ca, cb), es), side);
      var s', g := StepEnd32(x, [], a).kcb.snd, U32(x.kcb.snd.nxt - x.kcb.snd.una);
      var room := LastAdvertised(ca, cb, es, side);
      && g <= x.kcb.cfg.sndWnd
      && Numbered(Bits32, x.kcb.snd, s, n) && s' == s.(buf := s'.buf) && SameShape(s'.buf, s.buf)
      && (forall d :: g <= d < g + n ==> Allowed(x.kcb, room, d))
      && (s'.queue != [] ==> !Allowed(x.kcb, room, g + n))
  {
    hide Run32, LastAdvertised, Flowing, Numbered, StepEnd32, Flushes, InWindow;
    RunFlows(ca, cb, es, side);
    var x := EndOf(Run32(Start32(ca, cb), es), side);
    n, s := StepInWindow(x, a);
    var g, room := U32(x.kcb.snd.nxt - x.kcb.snd.una), LastAdvertised(ca, cb, es, side);
    forall d ensures InWindow(x.kcb, d) == Allowed(x.kcb, room, d) {
      WindowIsAllowed(x.kcb, d);
    }
  }

  lemma WindowIsAllowed(k: Kcb, d: int)
    ensures InWindow(k, d) == Allowed(k, k.cong.rmtWnd, d)
  {
  }

  lemma StepInWindow(x: End32, a: Action) returns (n: nat, s: Snd)
    requires Flowing(x.kcb) && Flushes(x.kcb, a)
    ensures var s', g := StepEnd32(x, [], a).kcb.snd, U32(x.kcb.snd.nxt - x.kcb.snd.una);
      && g <= x.kcb.cfg.sndWnd
      && Numbered(Bits32, x.kcb.snd, s, n) && s' == s.(buf := s'.buf) && SameShape(s'.buf, s.buf)
      && (forall d :: g <= d < g + n ==> InWindow(x.kcb, d))
      && (s'.queue != [] ==> !InWindow(x.kcb, g + n))
  {
    hide Flush, Numbered, Inside, Headed, Plain, Flushing, StepEnd32, Flushes;
    FlowingTicks(x.kcb, x.kcb);
    SentByStep(x, a);
    var k := Flushing(x, a);
    FlowingTicks(x.kcb, k);
    InsideIsWindowed(k);
    n, s := FlushNumbersExactly(Bits32, k);
    assert forall d :: InWindow(k, d) == InWindow(x.kcb, d);
  }

  lemma FlowingTicks(k: Kcb, k': Kcb)
    requires Flowing(k) && k' == k.(clock := k'.clock)
    ensures Flowing(k') && U32(k.snd.nxt - k.snd.una) <= k.cfg.sndWnd && k.cfg.mss >= 1
  {
  }

  /** The sending half after an action that flushes. */
  lemma SentByStep(x: End32, a: Action)
    requires x.kcb.cfg.mss >= 1 && Flushes(x.kcb, a)
    ensures StepEnd32(x, [], a).kcb == Flush(Bits32, Flushing(x, a)).0
    ensures Flushing(x, a) == x.kcb.(clock := Flushing(x, a).clock) && Flushing(x, a).clock.updated
  {
    hide Flush;
  }

  // ---------------------------------------------------------------- what is advertised

  /** Every segment of a flush carries the room left in the receive queue, and the number waited for. */
  lemma FlushTells(w: Width, k: Kcb)
    requires |k.rcv.queue| <= k.cfg.rcvWnd
    ensures forall p :: p in Flush(w, k).1 ==> p.wnd + |k.rcv.queue| == k.cfg.rcvWnd && p.una == k.rcv.nxt
  {
    if k.clock.updated {
      var acks := AckPackets(k, k.rcv.acks);
      var probe := ProbeWindow(k.probe, k.cong.rmtWnd, k.clock.current);
      FlushBufPackets(k, FillWindow(w, k, k.snd, SendWindow(k)).buf);
      hide ProbeWindow, FillWindow, FlushBuf, SendWindow;
      forall p | p in acks ensures p.wnd + |k.rcv.queue| == k.cfg.rcvWnd && p.una == k.rcv.nxt {
        var i :| 0 <= i < |acks| && acks[i] == p;
        assert acks[i] == Control(k, IKCP_CMD_ACK, k.rcv.acks[i]);
      }
    }
  }

  /** In every run each segment put out advertises exactly the free places of the receive queue. */
  lemma AdvertisesRoom(ca: Cfg, cb: Cfg, es: seq<Event>, side: Side, a: Action)
    requires Compatible(ca, cb)
    ensures var x := EndOf(Run32(Start32(ca, cb), es), side);
      forall p :: p in FlushedBy(x, a) ==>
        p.wnd + |x.kcb.rcv.queue| == x.kcb.cfg.rcvWnd && p.una == x.kcb.rcv.nxt
  {
    RunSound(ca, cb, es, side);
    var x := EndOf(Run32(Start32(ca, cb), es), side);
    FlushTells(Bits32, Flushing(x, a));
    hide Run32, Flush;
  }
}
