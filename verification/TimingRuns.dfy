/** Flush pacing and the round-trip estimator over whole runs of the program. */
module TimingRuns {
  import opened Bytes
  import opened Options
  import opened Serial
  import opened Kcp
  import opened Wire
  import opened Connection
  import opened ByteRuns
  import opened Timing
  import opened Acknowledgements
  import opened ProbeRuns

  // ---------------------------------------------------------------- flushes

  /** The times at which a call of ikcp_update by `side` flushed. */
  function Due(ca: Cfg, cb: Cfg, es: seq<Event>, side: Side): seq<int>
    requires Compatible(ca, cb)
  {
    if es == [] then []
    else
      var front, e := es[..|es| - 1], es[|es| - 1];
      var k := EndOf(Run32(Start32(ca, cb), front), side).kcb;
      Due(ca, cb, front, side)
      + if e.side == side && e.action.UpdateAt? && Flushes(k, e.action) then [e.action.current] else []
  }

  /** The time `k` intervals after `t`. */
  function Later(t: int, k: int, interval: int): int {
    t + k * interval
  }

  lemma LaterMore(t: int, k: int, interval: int)
    ensures Later(t, k + 1, interval) == Later(t, k, interval) + interval
    ensures Later(t, 0, interval) == t
  {
  }

  /** The next flush is scheduled for `next`, which is later than that many intervals after each flush so far; and any
      two flushes so far are further apart than the number of intervals between them, less one. */
  predicate Spaced(due: seq<int>, interval: int, next: int) {
    && (forall i :: 0 <= i < |due| ==> Later(due[i], |due| - 1 - i, interval) < next)
    && (forall i, j :: 0 <= i < j < |due| ==> Later(due[i], j - i - 1, interval) < due[j])
  }

  lemma SpacedMore(due: seq<int>, interval: int, next: int, t: int, next': int)
    requires Spaced(due, interval, next) && (due != [] ==> next <= t && next + interval <= next') && t < next'
    ensures Spaced(due + [t], interval, next')
  {
    var due' := due + [t];
    LaterMore(t, 0, interval);
    forall i | 0 <= i < |due'| ensures Later(due'[i], |due'| - 1 - i, interval) < next' {
      if i < |due| {
        LaterMore(due[i], |due| - 1 - i, interval);
      }
    }
    forall i, j | 0 <= i < j < |due'| ensures Later(due'[i], j - i - 1, interval) < due'[j] {
      if j == |due| {
        assert Later(due[i], |due| - 1 - i, interval) < next;
      }
    }
  }

  lemma NoneSpaced(interval: int, next: int)
    ensures Spaced([], interval, next)
  {
  }

  /** The clock is set for `next`, at most an interval off. */
  predicate SetFor(c: Clock, now: Option<int>, interval: int, next: int) {
    now.Some? ==> c.updated && c.tsFlush == U32(next) && next - interval <= now.value
  }

  /** One action, when the flushes so far were `due`. */
  lemma StepSpaces(x: End32, wire: seq<seq<byte>>, a: Action, due: seq<int>, now: Option<int>, next: int)
    returns (next': int)
    requires x.kcb.cfg.mss >= 1 && 1 <= x.kcb.cfg.interval <= 5000 && OnTime(x.kcb.clock, now)
    requires Spaced(due, x.kcb.cfg.interval, next) && SetFor(x.kcb.clock, now, x.kcb.cfg.interval, next)
    requires now.None? ==> due == []
    requires a.UpdateAt? && now.Some? ==> now.value <= a.current
    ensures var now' := if a.UpdateAt? then Some(a.current) else now;
      var due' := due + if a.UpdateAt? && Flushes(x.kcb, a) then [a.current] else [];
      && Spaced(due', x.kcb.cfg.interval, next')
      && SetFor(StepEnd32(x, wire, a).kcb.clock, now', x.kcb.cfg.interval, next')
  {
    hide Spaced, Tick, U32, StepEnd32;
    StepAsks(x, wire, a);
    TickUpdates(x, a);
    if a.UpdateAt? && Flushes(x.kcb, a) {
      if now.Some? {
        next' := TickPace(x.kcb.clock, x.kcb.cfg.interval, a.current, next);
      } else {
        next' := FlushSets(x.kcb.clock, x.kcb.cfg.interval, a.current, next);
      }
      SpacedMore(due, x.kcb.cfg.interval, next, a.current, next');
    } else {
      next' := next;
      assert due + [] == due;
      if a.UpdateAt? {
        next' := StaysSet(x.kcb.clock, x.kcb.cfg.interval, a.current, now, next);
      }
    }
  }

  /** A call that does not flush; the first one does. */
  lemma StaysSet(c: Clock, interval: int, t: int, now: Option<int>, next: int) returns (next': int)
    requires 1 <= interval <= 5000 && OnTime(c, now) && SetFor(c, now, interval, next)
    requires !Tick(c, interval, U32(t)).1 && (now.Some? ==> now.value <= t)
    ensures next' == next && SetFor(Tick(c, interval, U32(t)).0, Some(t), interval, next)
  {
    assert TimeDiff(U32(t), U32(t)) == 0;
    assert c.updated;
    hide Tick, U32;
    next' := TickPace(c, interval, t, next);
  }

  lemma {:induction false} DueIsSpaced(ca: Cfg, cb: Cfg, es: seq<Event>, side: Side) returns (next: int)
    requires Compatible(ca, cb) && ClockOrdered(es, side)
    requires EndOf(Start32(ca, cb), side).kcb.cfg.interval >= 1
    ensures var interval, x := EndOf(Start32(ca, cb), side).kcb.cfg.interval, EndOf(Run32(Start32(ca, cb), es), side);
      && Spaced(Due(ca, cb, es, side), interval, next)
      && SetFor(x.kcb.clock, Now(es, side), interval, next)
      && (Now(es, side).None? ==> Due(ca, cb, es, side) == [])
  {
    if es == [] {
      next := 0;
      NoneSpaced(EndOf(Start32(ca, cb), side).kcb.cfg.interval, 0);
    } else {
      hide StepEnd32, Spaced, SetFor, Flushes, OnTime;
      var front, e := es[..|es| - 1], es[|es| - 1];
      next := DueIsSpaced(ca, cb, front, side);
      var n := Run32(Start32(ca, cb), front);
      if e.side == side {
        RunsOnTime(ca, cb, front, side);
        next := StepSpaces(EndOf(n, side), EndOf(n, Other(side)).out, e.action, Due(ca, cb, front, side),
                           Now(front, side), next);
      } else {
        assert Due(ca, cb, es, side) == Due(ca, cb, front, side);
      }
    }
  }

  /** In every run whose clock does not go back, any two flushes that ikcp_update makes for a side are further apart
      than one interval for each flush between them: `n` flushes take more than `n - 2` intervals. */
  lemma UpdatesArePaced(ca: Cfg, cb: Cfg, es: seq<Event>, side: Side, i: nat, j: nat)
    requires Compatible(ca, cb) && ClockOrdered(es, side)
    requires EndOf(Start32(ca, cb), side).kcb.cfg.interval >= 1
    ensures var due, interval := Due(ca, cb, es, side), EndOf(Start32(ca, cb), side).kcb.cfg.interval;
      i < j < |due| ==> (j - i - 1) * interval < due[j] - due[i]
  {
    hide Due, ClockOrdered;
    var next := DueIsSpaced(ca, cb, es, side);
    var due, interval := Due(ca, cb, es, side), EndOf(Start32(ca, cb), side).kcb.cfg.interval;
    if i < j < |due| {
      assert Later(due[i], j - i - 1, interval) < due[j];
    }
  }

  /** If `side` never flushes outside ikcp_update, these are all its flushes. */
  lemma {:induction false} DueAreCalls(ca: Cfg, cb: Cfg, es: seq<Event>, side: Side)
    requires Compatible(ca, cb)
    requires forall i :: 0 <= i < |es| && es[i].side == side ==> !es[i].action.FlushNow?
    ensures var due, calls := Due(ca, cb, es, side), Calls(ca, cb, es, side);
      |due| == |calls| && forall i :: 0 <= i < |due| ==> due[i] == calls[i].time
  {
    if es != [] {
      DueAreCalls(ca, cb, es[..|es| - 1], side);
      hide Run32;
    }
  }

  // ---------------------------------------------------------------- round-trip times

  /** No acknowledgement in the datagram that comes in carries a time more than `r` back. */
  predicate Fresh(x: End32, wire: seq<seq<byte>>, a: Action, r: int) {
    a.Deliver? && a.i < |wire| ==> FreshIn(x.kcb.clock.current, Segments(x.kcb.cfg.conv, wire[a.i]), r)
  }

  predicate FreshIn(current: int, ps: seq<Packet>, r: int) {
    forall p :: p in ps && p.cmd == IKCP_CMD_ACK ==> TimeDiff(current, p.ts) <= r
  }

  predicate FreshRun(ca: Cfg, cb: Cfg, es: seq<Event>, side: Side, r: int)
    requires Compatible(ca, cb)
  {
    es == [] ||
    var front, e := es[..|es| - 1], es[|es| - 1];
    var n := Run32(Start32(ca, cb), front);
    && FreshRun(ca, cb, front, side, r)
    && (e.side == side ==> Fresh(EndOf(n, side), EndOf(n, Other(side)).out, e.action, r))
  }

  /** The estimates are within `r`, and the timeout is the first one or within its bounds. */
  predicate Estimated(k: Kcb, r: int) {
    RttIn(k.rtt, r) && (k.rtt.rto == 200 || k.cfg.minrto <= k.rtt.rto <= 60000)
  }

  lemma SampleEstimated(k: Kcb, ts: int, r: int)
    requires ValidCfg(k.cfg) && 1 <= r < 0x1000_0000 && Estimated(k, r) && TimeDiff(k.clock.current, ts) <= r
    ensures Estimated(k.(rtt := SampleRtt(k, ts)), r)
  {
    hide UpdateAck, TimeDiff;
    if TimeDiff(k.clock.current, ts) >= 0 {
      UpdateAckIsEstimate(k.cfg, k.rtt, TimeDiff(k.clock.current, ts), r);
    }
  }

  lemma PacketEstimated(k: Kcb, p: Packet, r: int)
    requires ValidCfg(k.cfg) && 1 <= r < 0x1000_0000 && Estimated(k, r)
    requires p.cmd == IKCP_CMD_ACK ==> TimeDiff(k.clock.current, p.ts) <= r
    ensures var k' := InputPacket(Bits32, k, p); Estimated(k', r) && k'.cfg == k.cfg && k'.clock == k.clock
  {
    hide SampleRtt, ApplyUna, ApplyAck, InputPush, TimeDiff;
    if p.cmd == IKCP_CMD_ACK {
      SampleEstimated(k, p.ts, r);
    }
  }

  lemma {:induction false} InputEstimated(st: InputState, b: seq<byte>, prevUna: int, r: int)
    requires ValidCfg(st.k.cfg) && 1 <= r < 0x1000_0000 && Estimated(st.k, r)
    requires FreshIn(st.k.clock.current, Segments(st.k.cfg.conv, b), r)
    ensures var k := InputLoop(st, b, prevUna).0; Estimated(k, r)
    decreases |b|
  {
    hide InputPacket, DecodeHeader, Estimated, ValidCfg, TimeDiff;
    if |b| < IKCP_OVERHEAD {
      FinishEstimated(st, prevUna, r);
    } else {
      var (h, len) := DecodeHeader(b);
      var body := b[IKCP_OVERHEAD..];
      if h.conv == st.k.cfg.conv && len <= |body| && I32(len) >= 0 && KnownCmd(h.cmd) {
        var p := h.(data := body[..len]);
        assert Segments(st.k.cfg.conv, b) == [p] + Segments(st.k.cfg.conv, body[len..]);
        assert p in Segments(st.k.cfg.conv, b);
        PacketEstimated(st.k, p, r);
        InputEstimated(InputState(InputPacket(Bits32, st.k, p), InputAck(Bits32, st.ack, p)), body[len..], prevUna, r);
      }
    }
  }

  lemma FinishEstimated(st: InputState, prevUna: int, r: int)
    requires ValidCfg(st.k.cfg) && Estimated(st.k, r)
    ensures Estimated(FinishInput(Bits32, st, prevUna), r)
  {
    hide GrowCwnd, ParseFastack;
  }

  lemma StepEstimated(x: End32, wire: seq<seq<byte>>, a: Action, r: int)
    requires ValidCfg(x.kcb.cfg) && 1 <= r < 0x1000_0000 && Estimated(x.kcb, r) && Fresh(x, wire, a, r)
    ensures Estimated(StepEnd32(x, wire, a).kcb, r)
  {
    hide InputLoop, Segments, MoveReady, Tick, FillWindow, FlushBuf, ProbeWindow, Fragments;
    if a.Deliver? && a.i < |wire| {
      InputEstimated(InputState(x.kcb, NoAck), wire[a.i], x.kcb.snd.una, r);
    }
  }

  /** In every run in which no acknowledgement delivered to a side carries a time more than `r` milliseconds before
      its clock, the smoothed round-trip time and its variation stay within `r` in all of its states, and the timeout
      is the first one or within its bounds. */
  lemma {:induction false} EstimatesHold(ca: Cfg, cb: Cfg, es: seq<Event>, side: Side, r: int)
    requires Compatible(ca, cb) && 1 <= r < 0x1000_0000 && FreshRun(ca, cb, es, side, r)
    ensures Estimated(EndOf(Run32(Start32(ca, cb), es), side).kcb, r)
  {
    if es != [] {
      hide Estimated, Fresh, StepEnd32, ValidCfg;
      var front, e := es[..|es| - 1], es[|es| - 1];
      EstimatesHold(ca, cb, front, side, r);
      var n := Run32(Start32(ca, cb), front);
      if e.side == side {
        StepEstimated(EndOf(n, side), EndOf(n, Other(side)).out, e.action, r);
      }
    }
  }
}
