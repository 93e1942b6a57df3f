/** Window probing: while the peer advertises no room, how often it is asked for some. */
module Probing {
  import opened Bytes
  import opened Serial
  import opened Kcp
  import opened Buffers
  import opened Wire
  import opened Connection
  import opened ByteRuns

  /** Between operations no question is pending, and the wait before the next one is within its limits. */
  predicate ProbeOk(p: Probe) {
    !p.askSend && (p.wait == 0 || 7000 <= p.wait <= 120000)
  }

  // ---------------------------------------------------------------- in every run

  lemma {:induction false} InputLoopKeepsProbe(st: InputState, b: seq<byte>, prevUna: int)
    requires st.k.cfg.mss >= 1
    ensures var p := InputLoop(st, b, prevUna).0.probe;
      p.askSend == st.k.probe.askSend && p.wait == st.k.probe.wait && p.ts == st.k.probe.ts
    decreases |b|
  {
    if |b| >= IKCP_OVERHEAD {
      var (h, len) := DecodeHeader(b);
      var body := b[IKCP_OVERHEAD..];
      if h.conv == st.k.cfg.conv && len <= |body| && I32(len) >= 0 && KnownCmd(h.cmd) {
        var p := h.(data := body[..len]);
        var st1 := InputState(InputPacket(Bits32, st.k, p), InputAck(Bits32, st.ack, p));
        InputLoopKeepsProbe(st1, body[len..], prevUna);
      }
    }
  }

  /** A flush asks the peer exactly when ProbeWindow says so, once, and leaves no question pending. */
  lemma FlushAsks(w: Width, k: Kcb)
    requires k.clock.updated
    ensures var p := ProbeWindow(k.probe, k.cong.rmtWnd, k.clock.current);
      && Flush(w, k).0.probe == p.(askSend := false, askTell := false)
      && ((exists q :: q in Flush(w, k).1 && q.cmd == IKCP_CMD_WASK) <==> p.askSend)
  {
    var p := ProbeWindow(k.probe, k.cong.rmtWnd, k.clock.current);
    FlushBufPackets(k, FillWindow(w, k, k.snd, SendWindow(k)).buf);
    var acks, last := AckPackets(k, k.rcv.acks), LastAck(k.rcv.acks);
    forall q | q in acks ensures q.cmd == IKCP_CMD_ACK {
      var i :| 0 <= i < |acks| && acks[i] == q;
      assert acks[i] == Control(k, IKCP_CMD_ACK, k.rcv.acks[i]);
    }
    if p.askSend {
      var q := Control(k, IKCP_CMD_WASK, last);
      assert ProbePackets(k, p, last)[0] == q;
      assert q in ControlPackets(k, p) && q in Flush(w, k).1;
    }
  }

  lemma StepKeepsProbe(x: End32, wire: seq<seq<byte>>, a: Action)
    requires x.kcb.cfg.mss >= 1 && ProbeOk(x.kcb.probe)
    ensures ProbeOk(StepEnd32(x, wire, a).kcb.probe)
  {
    var k := Flushing(x, a);
    if k.clock.updated {
      FlushAsks(Bits32, k);
    }
    if a.Deliver? && a.i < |wire| {
      InputLoopKeepsProbe(InputState(x.kcb, NoAck), wire[a.i], x.kcb.snd.una);
    }
  }

  /** In every run of the program, for both ends: between calls no question is pending, and the wait is 0 or between 7
      and 120 seconds. */
  lemma {:induction false} ProbesStayOk(ca: Cfg, cb: Cfg, es: seq<Event>, side: Side)
    requires Compatible(ca, cb)
    ensures ProbeOk(EndOf(Run32(Start32(ca, cb), es), side).kcb.probe)
  {
    if es != [] {
      var front, e := es[..|es| - 1], es[|es| - 1];
      ProbesStayOk(ca, cb, front, side);
      if e.side == side {
        var n := Run32(Start32(ca, cb), front);
        StepKeepsProbe(EndOf(n, side), EndOf(n, Other(side)).out, e.action);
      }
    }
  }

  // ---------------------------------------------------------------- how often

  /** A flush at `time`, when the peer last advertised `rmtWnd`. */
  datatype Call = Call(time: int, rmtWnd: int)

  /** The probe after the flushes `calls`, and how many of them asked the peer for its window. */
  function ProbeRun(p: Probe, calls: seq<Call>): (Probe, nat) {
    if calls == [] then (p, 0)
    else
      var c := calls[|calls| - 1];
      var (p1, n) := ProbeRun(p, calls[..|calls| - 1]);
      var p2 := ProbeWindow(p1, c.rmtWnd, U32(c.time));
      (p2.(askSend := false, askTell := false), if p2.askSend then n + 1 else n)
  }

  predicate Ordered(calls: seq<Call>) {
    forall i, j :: 0 <= i < j < |calls| ==> calls[i].time <= calls[j].time
  }

  /** While a question is scheduled, `next` is the unwrapped time for it, no further off than the wait. */
  predicate Scheduled(p: Probe, next: int, t: int) {
    ProbeOk(p) && (p.wait != 0 ==> p.ts == U32(next) && next <= t + p.wait)
  }

  /** One flush: the first while the peer has no room schedules a question 7 seconds on; one is asked only when its
      time has come, and then the next is put off by half as long again, up to 120 seconds. */
  lemma ProbeStep(p: Probe, wnd: int, t: int, next: int) returns (next': int)
    requires Scheduled(p, next, t)
    ensures var q := ProbeWindow(p, wnd, U32(t));
      && Scheduled(q.(askSend := false), next', t)
      && (q.wait == 0 <==> wnd != 0)
      && (wnd == 0 && p.wait == 0 ==> !q.askSend && q.wait == 7000 && next' == t + 7000)
      && (wnd == 0 && p.wait != 0 && !q.askSend ==> q == p && next' == next)
      && (q.askSend ==> wnd == 0 && p.wait != 0 && next <= t && next' == t + q.wait
                        && q.wait == Min(p.wait + p.wait / 2, 120000))
  {
    var q := ProbeWindow(p, wnd, U32(t));
    if wnd == 0 && p.wait == 0 {
      next' := t + IKCP_PROBE_INIT;
      WrapAdds(t, IKCP_PROBE_INIT);
    } else if q.askSend {
      next' := t + q.wait;
      WrapAdds(t, q.wait);
      TimeDiffOfWrapped(t, next);
    } else {
      next' := next;
    }
  }

  /** Whatever the peer advertises meanwhile, `n` questions take at least `n` times 7 seconds. */
  lemma {:induction false} ProbesArePaced(p: Probe, calls: seq<Call>) returns (next: int)
    requires ProbeOk(p) && p.wait == 0 && Ordered(calls)
    ensures var (q, n) := ProbeRun(p, calls);
      && (calls == [] ==> q == p && n == 0)
      && (calls != [] ==>
        var first, last := calls[0].time, calls[|calls| - 1].time;
        && 7000 * n <= last - first
        && Scheduled(q, next, last)
        && (q.wait != 0 ==> 7000 * (n + 1) <= next - first))
  {
    next := 0;
    if calls != [] {
      var front, c := calls[..|calls| - 1], calls[|calls| - 1];
      hide ProbeWindow, U32;
      next := ProbesArePaced(p, front);
      var p1 := ProbeRun(p, front).0;
      if front != [] {
        assert front[|front| - 1].time <= c.time;
      }
      next := ProbeStep(p1, c.rmtWnd, c.time, next);
    }
  }

  /** The wait after `i` questions to a peer that has no room. */
  function Backoff(i: nat): (w: nat)
    ensures 7000 <= w <= 120000
  {
    if i == 0 then 7000 else Min(Backoff(i - 1) + Backoff(i - 1) / 2, 120000)
  }

  function Waits(n: nat): nat {
    if n == 0 then 0 else Waits(n - 1) + Backoff(n - 1)
  }

  lemma MoreWaits(n: nat)
    ensures Backoff(n + 1) == Min(Backoff(n) + Backoff(n) / 2, 120000)
    ensures Waits(n + 2) == Waits(n + 1) + Backoff(n + 1) && Waits(n + 1) == Waits(n) + Backoff(n)
    ensures Waits(0) == 0 && Backoff(0) == 7000
  {
  }

  /** After `n` questions between `first` and `last`, with the next scheduled for `next`. */
  predicate Waited(q: Probe, n: nat, next: int, first: int, last: int) {
    Waits(n) <= last - first && Scheduled(q, next, last) && q.wait == Backoff(n) && Waits(n + 1) <= next - first
  }

  lemma WaitsOn(p: Probe, n: nat, next: int, first: int, last: int, t: int) returns (next': int)
    requires Waited(p, n, next, first, last) && last <= t
    ensures var q := ProbeWindow(p, 0, U32(t));
      Waited(q.(askSend := false, askTell := false), if q.askSend then n + 1 else n, next', first, t)
  {
    hide ProbeWindow, U32, Waits, Backoff;
    MoreWaits(n);
    next' := ProbeStep(p, 0, t, next);
  }

  /** While the peer has no room the waits grow by half each time: `n` questions take at least the first `n` waits. */
  lemma {:induction false} ProbesBackOff(p: Probe, calls: seq<Call>) returns (next: int)
    requires ProbeOk(p) && p.wait == 0 && calls != []
    requires Ordered(calls) && forall i :: 0 <= i < |calls| ==> calls[i].rmtWnd == 0
    ensures var (q, n) := ProbeRun(p, calls); Waited(q, n, next, calls[0].time, calls[|calls| - 1].time)
  {
    var front, c := calls[..|calls| - 1], calls[|calls| - 1];
    var (p1, n1) := ProbeRun(p, front);
    if front == [] {
      MoreWaits(0);
      next := ProbeStep(p, 0, c.time, 0);
    } else {
      next := ProbesBackOff(p, front);
      assert front[|front| - 1].time <= c.time;
      hide Waited, ProbeWindow;
      next := WaitsOn(p1, n1, next, calls[0].time, front[|front| - 1].time, c.time);
    }
  }
}
