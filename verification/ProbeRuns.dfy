/** Window probing over whole runs of the program: the questions that go out in a side's datagrams, counted, and how
    long that many of them take. */
module ProbeRuns {
  import opened Bytes
  import opened Options
  import opened Sequences
  import opened Serial
  import opened Kcp
  import opened Buffers
  import opened Wire
  import opened Connection
  import opened ByteRuns
  import opened Probing

  // ---------------------------------------------------------------- questions on the wire

  /** How many of the segments are commands `cmd`. */
  function CountOf(cmd: int, ps: seq<Packet>): nat {
    if ps == [] then 0 else (if ps[0].cmd == cmd then 1 else 0) + CountOf(cmd, ps[1..])
  }

  /** How many ask for the peer's window. */
  function Asks(ps: seq<Packet>): nat {
    CountOf(IKCP_CMD_WASK, ps)
  }

  lemma {:induction false} CountConcat(cmd: int, a: seq<Packet>, b: seq<Packet>)
    ensures CountOf(cmd, a + b) == CountOf(cmd, a) + CountOf(cmd, b)
  {
    if a == [] {
      assert a + b == b;
    } else {
      CountConcat(cmd, a[1..], b);
      assert (a + b)[1..] == a[1..] + b;
    }
  }

  lemma {:induction false} NoneOf(cmd: int, ps: seq<Packet>)
    requires forall p :: p in ps ==> p.cmd != cmd
    ensures CountOf(cmd, ps) == 0
  {
    if ps != [] {
      NoneOf(cmd, ps[1..]);
    }
  }

  lemma {:induction false} NoneInAcks(cmd: int, k: Kcb, acks: seq<(int, int)>)
    requires cmd != IKCP_CMD_ACK
    ensures CountOf(cmd, AckPackets(k, acks)) == 0
  {
    if acks != [] {
      NoneInAcks(cmd, k, acks[1..]);
    }
  }

  lemma CountsInProbes(k: Kcb, p: Probe, last: (int, int))
    ensures CountOf(IKCP_CMD_WASK, ProbePackets(k, p, last)) == if p.askSend then 1 else 0
    ensures CountOf(IKCP_CMD_WINS, ProbePackets(k, p, last)) == if p.askTell then 1 else 0
  {
    var ask := if p.askSend then [Control(k, IKCP_CMD_WASK, last)] else [];
    var tell := if p.askTell then [Control(k, IKCP_CMD_WINS, last)] else [];
    CountConcat(IKCP_CMD_WASK, ask, tell);
    CountConcat(IKCP_CMD_WINS, ask, tell);
    NoneOf(IKCP_CMD_WASK, tell);
    NoneOf(IKCP_CMD_WINS, ask);
    if p.askSend {
      assert ask[1..] == [];
    }
    if p.askTell {
      assert tell[1..] == [];
    }
  }

  /** The control segments of a flush: one question and one announcement at most, when they are called for. */
  lemma FlushCounts(w: Width, k: Kcb, cmd: int)
    requires k.clock.updated && cmd != IKCP_CMD_ACK && cmd != IKCP_CMD_PUSH
    ensures CountOf(cmd, Flush(w, k).1)
            == CountOf(cmd, ProbePackets(k, ProbeWindow(k.probe, k.cong.rmtWnd, k.clock.current), LastAck(k.rcv.acks)))
  {
    var p := ProbeWindow(k.probe, k.cong.rmtWnd, k.clock.current);
    var buf := FillWindow(w, k, k.snd, SendWindow(k)).buf;
    FlushBufPackets(k, buf);
    var acks, probes, data := AckPackets(k, k.rcv.acks), ProbePackets(k, p, LastAck(k.rcv.acks)), FlushBuf(k, buf).ps;
    NoneOf(cmd, data);
    NoneInAcks(cmd, k, k.rcv.acks);
    CountConcat(cmd, acks, probes);
    CountConcat(cmd, acks + probes, data);
  }

  /** A flush asks once when ProbeWindow says so, and not otherwise. */
  lemma FlushAsksOnce(w: Width, k: Kcb)
    requires k.clock.updated
    ensures Asks(Flush(w, k).1) == if ProbeWindow(k.probe, k.cong.rmtWnd, k.clock.current).askSend then 1 else 0
  {
    hide Flush, ProbeWindow, ProbePackets;
    FlushCounts(w, k, IKCP_CMD_WASK);
    CountsInProbes(k, ProbeWindow(k.probe, k.cong.rmtWnd, k.clock.current), LastAck(k.rcv.acks));
  }

  /** A flush tells the peer of its window once when that is pending, and not otherwise. */
  lemma FlushTellsOnce(w: Width, k: Kcb)
    requires k.clock.updated
    ensures CountOf(IKCP_CMD_WINS, Flush(w, k).1) == if k.probe.askTell then 1 else 0
    ensures !Flush(w, k).0.probe.askTell
  {
    FlushCounts(w, k, IKCP_CMD_WINS);
    CountsInProbes(k, ProbeWindow(k.probe, k.cong.rmtWnd, k.clock.current), LastAck(k.rcv.acks));
    hide ProbePackets, FillWindow, FlushBuf, CountOf;
  }

  lemma PackKeepsAsks(ds: seq<seq<Packet>>, mtu: int, ps: seq<Packet>)
    ensures Asks(Flatten(ds + Pack(mtu, [], ps))) == Asks(Flatten(ds)) + Asks(ps)
  {
    hide CountOf, Flatten, Pack;
    PackFlattens(mtu, [], ps);
    assert [] + ps == ps;
    FlattenConcat(ds, Pack(mtu, [], ps));
    CountConcat(IKCP_CMD_WASK, Flatten(ds), ps);
  }

  // ---------------------------------------------------------------- the flushes of a run

  /** The time last given to ikcp_update. */
  function Now(es: seq<Event>, side: Side): Option<int> {
    if es == [] then None
    else
      var e := es[|es| - 1];
      if e.side == side && e.action.UpdateAt? then Some(e.action.current) else Now(es[..|es| - 1], side)
  }

  /** No time given to ikcp_update is before the one given last. */
  predicate ClockOrdered(es: seq<Event>, side: Side) {
    es == [] ||
    var front, e := es[..|es| - 1], es[|es| - 1];
    && ClockOrdered(front, side)
    && (e.side == side && e.action.UpdateAt? && Now(front, side).Some? ==> Now(front, side).value <= e.action.current)
  }

  function TimeOf(now: Option<int>): int {
    if now.Some? then now.value else 0
  }

  /** The flushes of `side` in a run, each with its time and what the peer had advertised. */
  function Calls(ca: Cfg, cb: Cfg, es: seq<Event>, side: Side): seq<Call>
    requires Compatible(ca, cb)
  {
    if es == [] then []
    else
      var front, e := es[..|es| - 1], es[|es| - 1];
      var k := EndOf(Run32(Start32(ca, cb), front), side).kcb;
      Calls(ca, cb, front, side)
      + if e.side == side && Flushes(k, e.action) then [Call(TimeOf(Now(es, side)), k.cong.rmtWnd)] else []
  }

  /** The block's clock is the time last given, cut to a word. */
  predicate OnTime(c: Clock, now: Option<int>) {
    (c.updated <==> now.Some?) && (now.Some? ==> c.current == U32(now.value))
  }

  lemma {:induction false} InputLoopKeepsClock(st: InputState, b: seq<byte>, prevUna: int)
    requires st.k.cfg.mss >= 1
    ensures InputLoop(st, b, prevUna).0.clock == st.k.clock
    decreases |b|
  {
    if |b| >= IKCP_OVERHEAD {
      var (h, len) := DecodeHeader(b);
      var body := b[IKCP_OVERHEAD..];
      if h.conv == st.k.cfg.conv && len <= |body| && I32(len) >= 0 && KnownCmd(h.cmd) {
        var p := h.(data := body[..len]);
        var st1 := InputState(InputPacket(Bits32, st.k, p), InputAck(Bits32, st.ack, p));
        InputLoopKeepsClock(st1, body[len..], prevUna);
      }
    }
  }

  /** The same but for a pending announcement, which has no part in asking. */
  predicate SameAsking(p: Probe, q: Probe) {
    p.(askTell := q.askTell) == q
  }

  lemma AskingIgnoresTell(p: Probe, q: Probe, rmtWnd: int, current: int)
    requires SameAsking(p, q)
    ensures SameAsking(ProbeWindow(p, rmtWnd, current), ProbeWindow(q, rmtWnd, current))
  {
  }

  /** An action that flushes takes the schedule one step and puts out what it calls for; any other leaves it. */
  lemma StepAsks(x: End32, wire: seq<seq<byte>>, a: Action)
    requires x.kcb.cfg.mss >= 1
    ensures var k, k' := Flushing(x, a), StepEnd32(x, wire, a).kcb;
      if Flushes(x.kcb, a) then
        var p := ProbeWindow(x.kcb.probe, x.kcb.cong.rmtWnd, k.clock.current);
        k'.probe == p.(askSend := false, askTell := false) && Asks(FlushedBy(x, a)) == if p.askSend then 1 else 0
      else
        SameAsking(k'.probe, x.kcb.probe) && FlushedBy(x, a) == []
    ensures StepEnd32(x, wire, a).kcb.clock == Flushing(x, a).clock
  {
    hide ProbeWindow, Asks, InputLoop, FillWindow, FlushBuf, ControlPackets, Tick, MoveReady;
    var k := Flushing(x, a);
    if Flushes(x.kcb, a) {
      TickUpdates(x, a);
      FlushAsks(Bits32, k);
      FlushAsksOnce(Bits32, k);
    } else if a.Deliver? && a.i < |wire| {
      InputLoopKeepsClock(InputState(x.kcb, NoAck), wire[a.i], x.kcb.snd.una);
      InputLoopKeepsProbe(InputState(x.kcb, NoAck), wire[a.i], x.kcb.snd.una);
    }
  }

  lemma TickUpdates(x: End32, a: Action)
    ensures Flushes(x.kcb, a) ==> Flushing(x, a).clock.updated
    ensures a.UpdateAt? ==> Flushing(x, a).clock.updated && Flushing(x, a).clock.current == U32(a.current)
    ensures !a.UpdateAt? ==> Flushing(x, a).clock == x.kcb.clock
  {
  }

  /** One action of the side, when the flushes so far were `calls` and their datagrams are `ds`. */
  lemma StepSchedules(x: End32, wire: seq<seq<byte>>, a: Action, p0: Probe, calls: seq<Call>, ds: seq<seq<Packet>>,
                      now: Option<int>)
    requires x.kcb.cfg.mss >= 1 && OnTime(x.kcb.clock, now)
    requires Asks(Flatten(ds)) == ProbeRun(p0, calls).1 && SameAsking(x.kcb.probe, ProbeRun(p0, calls).0)
    ensures var now' := if a.UpdateAt? then Some(a.current) else now;
      var calls' := calls + if Flushes(x.kcb, a) then [Call(TimeOf(now'), x.kcb.cong.rmtWnd)] else [];
      && Asks(Flatten(ds + Pack(x.kcb.cfg.mtu, [], FlushedBy(x, a)))) == ProbeRun(p0, calls').1
      && SameAsking(StepEnd32(x, wire, a).kcb.probe, ProbeRun(p0, calls').0)
      && OnTime(StepEnd32(x, wire, a).kcb.clock, now')
  {
    hide StepEnd32, Asks, Flatten, Pack, FlushedBy, ProbeWindow, Flushes, Flushing, U32;
    StepAsks(x, wire, a);
    TickUpdates(x, a);
    PackKeepsAsks(ds, x.kcb.cfg.mtu, FlushedBy(x, a));
    if Flushes(x.kcb, a) {
      var now' := if a.UpdateAt? then Some(a.current) else now;
      var c := Call(TimeOf(now'), x.kcb.cong.rmtWnd);
      assert (calls + [c])[..|calls|] == calls;
      AskingIgnoresTell(x.kcb.probe, ProbeRun(p0, calls).0, c.rmtWnd, U32(c.time));
    } else {
      NoneMore();
      assert calls + [] == calls;
    }
  }

  /** In every run the questions put out, and the schedule for the next, are those of the flushes in turn. */
  lemma {:induction false} AsksAreScheduled(ca: Cfg, cb: Cfg, es: seq<Event>, side: Side)
    requires Compatible(ca, cb)
    ensures var k, (q, n) := EndOf(Run32(Start32(ca, cb), es), side).kcb,
                             ProbeRun(Init(ca).probe, Calls(ca, cb, es, side));
      && Asks(Flatten(Packed(ca, cb, es, side))) == n
      && SameAsking(k.probe, q) && OnTime(k.clock, Now(es, side))
  {
    if es != [] {
      var front, e := es[..|es| - 1], es[|es| - 1];
      AsksAreScheduled(ca, cb, front, side);
      hide StepEnd32, Asks, Flatten, Pack, FlushedBy, Flushes, ProbeRun, SameAsking, OnTime;
      var n := Run32(Start32(ca, cb), front);
      if e.side == side {
        StepSchedules(EndOf(n, side), EndOf(n, Other(side)).out, e.action, Init(ca).probe, Calls(ca, cb, front, side),
                      Packed(ca, cb, front, side), Now(front, side));
      } else {
        assert Packed(ca, cb, es, side) == Packed(ca, cb, front, side);
        assert Calls(ca, cb, es, side) == Calls(ca, cb, front, side);
      }
    } else {
      assert Flatten<Packet>([]) == [];
    }
  }

  lemma NoneMore()
    ensures Asks([]) == 0
  {
  }

  // ---------------------------------------------------------------- how long they take

  /** The calls are in order, the last of them no later than `now`. */
  predicate By(calls: seq<Call>, now: Option<int>) {
    Ordered(calls) && forall i :: 0 <= i < |calls| ==> now.Some? && calls[i].time <= now.value
  }

  lemma ByLater(calls: seq<Call>, now: Option<int>, now': Option<int>, rmtWnd: int)
    requires By(calls, now) && now'.Some? && (now.Some? ==> now.value <= now'.value)
    ensures By(calls, now') && By(calls + [Call(now'.value, rmtWnd)], now')
  {
  }

  lemma FlushHasTime(k: Kcb, a: Action, now: Option<int>)
    requires OnTime(k.clock, now) && Flushes(k, a)
    ensures a.UpdateAt? || now.Some?
  {
  }

  lemma NoCalls(now: Option<int>)
    ensures By([], now)
  {
  }

  lemma RunsOnTime(ca: Cfg, cb: Cfg, es: seq<Event>, side: Side)
    requires Compatible(ca, cb)
    ensures OnTime(EndOf(Run32(Start32(ca, cb), es), side).kcb.clock, Now(es, side))
  {
    AsksAreScheduled(ca, cb, es, side);
  }

  lemma {:induction false} CallsAreOrdered(ca: Cfg, cb: Cfg, es: seq<Event>, side: Side)
    requires Compatible(ca, cb) && ClockOrdered(es, side)
    ensures By(Calls(ca, cb, es, side), Now(es, side))
  {
    if es != [] {
      hide Run32, StepEnd32, Start32, Flushes, By, OnTime;
      var front, e := es[..|es| - 1], es[|es| - 1];
      CallsAreOrdered(ca, cb, front, side);
      RunsOnTime(ca, cb, front, side);
      var calls, k := Calls(ca, cb, front, side), EndOf(Run32(Start32(ca, cb), front), side).kcb;
      if e.side == side && Flushes(k, e.action) {
        FlushHasTime(k, e.action, Now(front, side));
      }
      if Now(es, side).Some? {
        ByLater(calls, Now(front, side), Now(es, side), k.cong.rmtWnd);
      }
      assert calls + [] == calls;
    } else {
      NoCalls(Now([], side));
    }
  }

  /** In a run whose clock does not go back, `n` questions in a side's datagrams take at least `n` times 7 seconds
      from its first flush to its last, whatever the peer advertises meanwhile. */
  lemma AsksArePaced(ca: Cfg, cb: Cfg, es: seq<Event>, side: Side)
    requires Compatible(ca, cb) && ClockOrdered(es, side)
    ensures var n, calls := Asks(Flatten(Packed(ca, cb, es, side))), Calls(ca, cb, es, side);
      if calls == [] then n == 0 else 7000 * n <= calls[|calls| - 1].time - calls[0].time
  {
    AsksAreScheduled(ca, cb, es, side);
    CallsAreOrdered(ca, cb, es, side);
    var next := ProbesArePaced(Init(ca).probe, Calls(ca, cb, es, side));
  }

  // ---------------------------------------------------------------- while the peer has no room

  lemma ProbeRunOne(p: Probe, calls: seq<Call>, c: Call)
    ensures var (q, n) := ProbeRun(p, calls); var r := ProbeWindow(q, c.rmtWnd, U32(c.time));
      ProbeRun(p, calls + [c]) == (r.(askSend := false, askTell := false), if r.askSend then n + 1 else n)
  {
    hide ProbeWindow, U32;
    assert (calls + [c])[..|calls|] == calls;
  }

  lemma {:induction false} ProbeRunConcat(p: Probe, a: seq<Call>, b: seq<Call>)
    ensures ProbeRun(p, a + b).0 == ProbeRun(ProbeRun(p, a).0, b).0
    ensures ProbeRun(p, a + b).1 == ProbeRun(p, a).1 + ProbeRun(ProbeRun(p, a).0, b).1
  {
    if b == [] {
      assert a + b == a;
    } else {
      hide ProbeRun, ProbeWindow, U32;
      var front, c := b[..|b| - 1], b[|b| - 1];
      assert front + [c] == b && a + front + [c] == a + b;
      ProbeRunConcat(p, a, front);
      ProbeRunOne(p, a + front, c);
      ProbeRunOne(ProbeRun(p, a).0, front, c);
    }
  }

  lemma {:induction false} ProbeRunOk(p: Probe, calls: seq<Call>)
    requires ProbeOk(p)
    ensures ProbeOk(ProbeRun(p, calls).0)
  {
    if calls != [] {
      ProbeRunOk(p, calls[..|calls| - 1]);
    }
  }

  /** A flush that finds room leaves nothing scheduled. */
  lemma RoomResets(p: Probe, calls: seq<Call>)
    requires p.wait == 0 && (calls == [] || calls[|calls| - 1].rmtWnd != 0)
    ensures ProbeRun(p, calls).0.wait == 0
  {
  }

  lemma {:induction false} CallsGrow(ca: Cfg, cb: Cfg, front: seq<Event>, rest: seq<Event>, side: Side)
    requires Compatible(ca, cb)
    ensures Calls(ca, cb, front, side) <= Calls(ca, cb, front + rest, side)
  {
    hide Run32, StepEnd32, Flushes;
    if rest == [] {
      assert front + rest == front;
    } else {
      CallsGrow(ca, cb, front, rest[..|rest| - 1], side);
      assert (front + rest)[..|front + rest| - 1] == front + rest[..|rest| - 1];
    }
  }

  lemma TailOrdered(calls: seq<Call>, i: nat)
    requires Ordered(calls) && i <= |calls|
    ensures Ordered(calls[i..])
  {
  }

  /** The waits of a stretch of flushes that find no room, whatever came before it. */
  lemma ClosedStretch(p: Probe, before: seq<Call>, closed: seq<Call>)
    requires ProbeOk(p) && p.wait == 0 && (before == [] || before[|before| - 1].rmtWnd != 0)
    requires closed != [] && Ordered(closed) && forall i :: 0 <= i < |closed| ==> closed[i].rmtWnd == 0
    ensures var m, n := ProbeRun(p, before).1, ProbeRun(p, before + closed).1;
      m <= n && Waits(n - m) <= closed[|closed| - 1].time - closed[0].time
  {
    hide ProbeRun, Waits;
    var q := ProbeRun(p, before).0;
    ProbeRunConcat(p, before, closed);
    ProbeRunOk(p, before);
    RoomResets(p, before);
    var next := ProbesBackOff(q, closed);
    assert ProbeRun(p, before + closed).1 == ProbeRun(p, before).1 + ProbeRun(q, closed).1;
    assert Waited(ProbeRun(q, closed).0, ProbeRun(q, closed).1, next, closed[0].time, closed[|closed| - 1].time);
  }

  lemma TailOf(before: seq<Call>, calls: seq<Call>) returns (closed: seq<Call>)
    requires before <= calls && |before| < |calls| && Ordered(calls)
    requires forall i :: |before| <= i < |calls| ==> calls[i].rmtWnd == 0
    ensures closed != [] && before + closed == calls && Ordered(closed)
    ensures closed[0] == calls[|before|] && closed[|closed| - 1] == calls[|calls| - 1]
    ensures forall i :: 0 <= i < |closed| ==> closed[i].rmtWnd == 0
  {
    closed := calls[|before|..];
    TailOrdered(calls, |before|);
    hide Ordered;
    forall i | 0 <= i < |closed| ensures closed[i].rmtWnd == 0 {
      assert closed[i] == calls[|before| + i];
    }
  }

  lemma StretchOf(p: Probe, before: seq<Call>, calls: seq<Call>)
    requires ProbeOk(p) && p.wait == 0 && (before == [] || before[|before| - 1].rmtWnd != 0)
    requires before <= calls && |before| < |calls| && Ordered(calls)
    requires forall i :: |before| <= i < |calls| ==> calls[i].rmtWnd == 0
    ensures var m, n := ProbeRun(p, before).1, ProbeRun(p, calls).1;
      m <= n && Waits(n - m) <= calls[|calls| - 1].time - calls[|before|].time
  {
    hide ProbeRun, ProbeOk, Waits, Ordered;
    var closed := TailOf(before, calls);
    ClosedStretch(p, before, closed);
  }

  /** While the peer goes on advertising no room, from the first flush that finds none, `n - m` questions take at
      least the first `n - m` of the growing waits: `m` were put out before that flush, `n` by the last one. */
  lemma AsksBackOff(ca: Cfg, cb: Cfg, front: seq<Event>, rest: seq<Event>, side: Side)
    requires Compatible(ca, cb) && ClockOrdered(front + rest, side)
    requires var before, calls := Calls(ca, cb, front, side), Calls(ca, cb, front + rest, side);
      && (before == [] || before[|before| - 1].rmtWnd != 0)
      && |before| < |calls|
      && forall i :: |before| <= i < |calls| ==> calls[i].rmtWnd == 0
    ensures var before, calls := Calls(ca, cb, front, side), Calls(ca, cb, front + rest, side);
      var m, n := Asks(Flatten(Packed(ca, cb, front, side))), Asks(Flatten(Packed(ca, cb, front + rest, side)));
      m <= n && Waits(n - m) <= calls[|calls| - 1].time - calls[|before|].time
  {
    hide *;
    NothingScheduled(ca);
    AsksCounted(ca, cb, front, side);
    AsksCounted(ca, cb, front + rest, side);
    CallsInTurn(ca, cb, front + rest, side);
    CallsGrow(ca, cb, front, rest, side);
    StretchOf(Init(ca).probe, Calls(ca, cb, front, side), Calls(ca, cb, front + rest, side));
  }

  lemma NothingScheduled(cfg: Cfg)
    ensures ProbeOk(Init(cfg).probe) && Init(cfg).probe.wait == 0
  {
  }

  lemma AsksCounted(ca: Cfg, cb: Cfg, es: seq<Event>, side: Side)
    requires Compatible(ca, cb)
    ensures Asks(Flatten(Packed(ca, cb, es, side))) == ProbeRun(Init(ca).probe, Calls(ca, cb, es, side)).1
  {
    AsksAreScheduled(ca, cb, es, side);
  }

  lemma CallsInTurn(ca: Cfg, cb: Cfg, es: seq<Event>, side: Side)
    requires Compatible(ca, cb) && ClockOrdered(es, side)
    ensures Ordered(Calls(ca, cb, es, side))
  {
    CallsAreOrdered(ca, cb, es, side);
  }
}
