/** Flush pacing, the answer of ikcp_check, and the round-trip estimator. */
module Timing {
  import opened Serial
  import opened Kcp

  // ---------------------------------------------------------------- pacing

  /** The clock while calls arrive at `times`, which never wrap here. */
  function TickRun(c: Clock, interval: int, times: seq<int>): (Clock, nat) {
    if times == [] then (c, 0)
    else
      var (c1, n) := TickRun(c, interval, times[..|times| - 1]);
      var (c2, due) := Tick(c1, interval, U32(times[|times| - 1]));
      (c2, if due then n + 1 else n)
  }

  predicate NonDecreasing(times: seq<int>) {
    forall i, j :: 0 <= i < j < |times| ==> times[i] <= times[j]
  }

  /** One call at `t`, when `next` is the unwrapped time of the next flush: a flush happens only once that time
      has come, and puts it off by at least an interval and past the present. */
  lemma TickPace(c: Clock, interval: int, t: int, next: int) returns (next': int)
    requires 1 <= interval <= 5000
    requires c.updated && c.tsFlush == U32(next) && next - interval <= t
    ensures var (c', due) := Tick(c, interval, U32(t));
      && c'.updated && c'.tsFlush == U32(next')
      && (due ==> next <= t && next + interval <= next' && t < next' <= t + interval)
      && (!due ==> next' == next)
  {
    hide U32, I32, TimeDiff;
    var (c', due) := Tick(c, interval, U32(t));
    TimeDiffOfWrapped(t, next);
    var diff := I32(t - next);
    if !due {
      next' := next;
    } else if diff >= 10000 || diff < -10000 {
      next' := t + interval;
      WrapAdds(t, interval);
      TimeDiffOfWrapped(t, t + interval);
    } else {
      var k := I32Split(t - next);
      var base := t - diff;
      assert base == next + k * TWO32;
      I32Congruent(next, k);
      WrapAdds(next, interval);
      WrapAdds(base, interval);
      assert U32(U32(next) + interval) == U32(base + interval);
      TimeDiffOfWrapped(t, base + interval);
      WrapAdds(t, interval);
      next' := if diff >= interval then t + interval else base + interval;
    }
  }

  /** Over any non-decreasing sequence of calls, `n` flushes need the clock to pass `n - 1` intervals
      beyond the time the first was due. */
  lemma {:induction false} FlushesArePaced(c: Clock, interval: int, times: seq<int>, next: int) returns (next': int)
    requires 1 <= interval <= 5000
    requires c.updated && c.tsFlush == U32(next)
    requires NonDecreasing(times) && (times != [] ==> next - interval <= times[0])
    ensures var (c', n) := TickRun(c, interval, times);
      && c'.updated && c'.tsFlush == U32(next')
      && next + n * interval <= next'
      && (n > 0 ==> times != [] && next' - interval <= times[|times| - 1]
                    && next + (n - 1) * interval <= times[|times| - 1])
      && (n == 0 ==> next' == next)
  {
    hide Tick;
    if times == [] {
      next' := next;
    } else {
      var front, t := times[..|times| - 1], times[|times| - 1];
      var (c1, n1) := TickRun(c, interval, front);
      var next1 := FlushesArePaced(c, interval, front, next);
      assert next1 - interval <= t by {
        if front != [] {
          assert times[0] <= t && front[|front| - 1] <= t;
        }
      }
      next' := TickPace(c1, interval, t, next1);
      assert (n1 + 1) * interval == n1 * interval + interval;
    }
  }

  /** A flush at `ta`, the first or a later one, sets the time of the next past `ta`, by an interval at most. */
  lemma FlushSets(c: Clock, interval: int, ta: int, next: int) returns (next': int)
    requires 1 <= interval <= 5000
    requires c.updated ==> c.tsFlush == U32(next) && next - interval <= ta
    requires Tick(c, interval, U32(ta)).1
    ensures var c' := Tick(c, interval, U32(ta)).0;
      c'.updated && c'.tsFlush == U32(next') && ta < next' <= ta + interval
  {
    if c.updated {
      next' := TickPace(c, interval, ta, next);
    } else {
      next' := TickPace(Clock(c.current, U32(ta), true), interval, ta, ta);
    }
  }

  /** After a flush at `ta`, the first or a later one, `n` more flushes by `tb` take more than `n - 1` intervals. */
  lemma Pacing(c: Clock, interval: int, ta: int, times: seq<int>, next: int)
    requires 1 <= interval <= 5000
    requires c.updated ==> c.tsFlush == U32(next) && next - interval <= ta
    requires Tick(c, interval, U32(ta)).1
    requires times != [] && NonDecreasing(times) && ta <= times[0]
    ensures var n := TickRun(Tick(c, interval, U32(ta)).0, interval, times).1;
      (n - 1) * interval < times[|times| - 1] - ta
  {
    var next1 := FlushSets(c, interval, ta, next);
    var c1 := Tick(c, interval, U32(ta)).0;
    var next2 := FlushesArePaced(c1, interval, times, next1);
    var n, tb := TickRun(c1, interval, times).1, times[|times| - 1];
    assert times[0] <= tb;
    if n == 0 {
      assert (0 - 1) * interval == -interval;
    }
  }

  /** The first call flushes, and so over all calls since the block was made, `n` flushes take more than `n - 2`
      intervals. */
  lemma PacingFromStart(cfg: Cfg, ta: int, times: seq<int>)
    requires 1 <= cfg.interval <= 5000
    requires times != [] && NonDecreasing(times) && ta <= times[0]
    ensures var c := Init(cfg).clock;
      && Tick(c, cfg.interval, U32(ta)).1
      && var n := 1 + TickRun(Tick(c, cfg.interval, U32(ta)).0, cfg.interval, times).1;
         (n - 2) * cfg.interval < times[|times| - 1] - ta
  {
    hide Tick, TickRun, NonDecreasing, U32;
    FirstFlushes(cfg, ta);
    Pacing(Init(cfg).clock, cfg.interval, ta, times, ta);
  }

  lemma FirstFlushes(cfg: Cfg, ta: int)
    ensures var c := Init(cfg).clock; !c.updated && Tick(c, cfg.interval, U32(ta)).1
  {
    assert TimeDiff(U32(ta), U32(ta)) == 0;
  }

  /** Where the schedule goes when a flush was due at `next` and a call comes at `t`: on by an interval from then, or
      from now if that has passed as well, or if the clock is ten seconds or more out of step. */
  function Rescheduled(interval: int, t: int, next: int): int {
    if t < next - 10000 || t >= next + 10000 || t >= next + interval then t + interval else next + interval
  }

  /** When a call flushes: the first, and one whose time has come, or when the clock is more than ten seconds short of
      it; and when the next is due. */
  lemma TickExactly(c: Clock, interval: int, t: int, next: int)
    requires 0 <= interval <= 5000
    requires if c.updated then c.tsFlush == U32(next) && -TWO31 <= t - next < TWO31 else next == t
    ensures var (c', due) := Tick(c, interval, U32(t));
      && c'.current == U32(t) && c'.updated
      && (due <==> next <= t || t < next - 10000)
      && c'.tsFlush == U32(if due then Rescheduled(interval, t, next) else next)
  {
    TimeDiffOfWrapped(t, next);
    TimeDiffOfWrapped(t, t);
    TimeDiffOfWrapped(t, t + interval);
    WrapAdds(t, interval);
    WrapAdds(next, interval);
    if 0 <= t - next < 10000 {
      TimeDiffOfWrapped(t, next + interval);
    }
    hide U32, TimeDiff;
  }

  // ---------------------------------------------------------------- ikcp_check

  lemma {:induction false} ResendWaitBounds(buf: seq<SndSeg>, current: int, soonest: int)
    requires soonest > 0
    ensures ResendWait(buf, current, soonest).Due? <==>
      exists i :: 0 <= i < |buf| && TimeDiff(buf[i].resendts, current) <= 0
    ensures ResendWait(buf, current, soonest).In? ==>
      && 0 < ResendWait(buf, current, soonest).ms <= soonest
      && forall i :: 0 <= i < |buf| ==> ResendWait(buf, current, soonest).ms <= TimeDiff(buf[i].resendts, current)
  {
    if buf != [] {
      var diff := TimeDiff(buf[0].resendts, current);
      if diff > 0 {
        var rest := buf[1..];
        ResendWaitBounds(rest, current, Min(diff, soonest));
        assert forall i :: 0 < i < |buf| ==> buf[i] == rest[i - 1];
        if i :| 0 <= i < |rest| && TimeDiff(rest[i].resendts, current) <= 0 {
          assert buf[i + 1] == rest[i];
        }
      }
    }
  }

  lemma LaterByLess(later: int, earlier: int, d: int)
    requires 0 <= d <= TimeDiff(later, earlier)
    ensures TimeDiff(U32(earlier + d), later) == d - TimeDiff(later, earlier)
  {
    var i := U32Split(earlier + d);
    var j := U32Split(later - earlier);
    assert U32(earlier + d) - later == d - (later - earlier) + (-i) * TWO32;
    I32Congruent(d - (later - earlier), -i);
    assert TimeDiff(later, earlier) == later - earlier - j * TWO32;
    I32Congruent(d - (later - earlier), j);
    assert d - (later - earlier) + j * TWO32 == d - TimeDiff(later, earlier);
  }

  /** If nothing else is called, ikcp_update at any time before the answer of ikcp_check neither flushes nor
      has a segment whose resend time has come. */
  lemma CheckIsSafe(k: Kcb, current: int, d: nat)
    requires 0 <= current < TWO32 && 0 <= k.cfg.interval <= 5000
    requires d < U32(Check(k, current) - current)
    ensures var t := U32(current + d);
      && !Tick(k.clock, k.cfg.interval, t).1
      && forall i :: 0 <= i < |k.snd.buf| ==> TimeDiff(t, k.snd.buf[i].resendts) < 0
  {
    ResendWaitBounds(k.snd.buf, current, TWO31 - 1);
    var wait := ResendWait(k.snd.buf, current, TWO31 - 1);
    var late := TimeDiff(current, k.clock.tsFlush);
    assert k.clock.updated && -10000 <= late < 0 && wait.In?;
    var flush := TimeDiff(k.clock.tsFlush, current);
    FlipDiff(current, k.clock.tsFlush);
    var ms := Min(Min(wait.ms, flush), k.cfg.interval);
    assert U32(Check(k, current) - current) == ms by {
      var i := U32Split(current + ms);
      I32Congruent(ms, -i);
    }
    LaterByLess(k.clock.tsFlush, current, d);
    forall i | 0 <= i < |k.snd.buf| ensures TimeDiff(U32(current + d), k.snd.buf[i].resendts) < 0 {
      LaterByLess(k.snd.buf[i].resendts, current, d);
    }
  }

  lemma {:induction false} ResendWaitReached(buf: seq<SndSeg>, current: int, soonest: int)
    requires soonest > 0 && ResendWait(buf, current, soonest).In?
    ensures var ms := ResendWait(buf, current, soonest).ms;
      ms == soonest || exists s :: s in buf && TimeDiff(s.resendts, current) == ms
  {
    hide TimeDiff;
    if buf != [] {
      var diff := TimeDiff(buf[0].resendts, current);
      ResendWaitReached(buf[1..], current, Min(diff, soonest));
      assert buf[0] in buf && forall s :: s in buf[1..] ==> s in buf;
    }
  }

  /** Some segment is to be resent `d` milliseconds after `current`. */
  predicate ResendIn(buf: seq<SndSeg>, current: int, d: int) {
    exists s :: s in buf && TimeDiff(s.resendts, current) == d
  }

  predicate ResendDue(buf: seq<SndSeg>, current: int) {
    exists s :: s in buf && TimeDiff(s.resendts, current) <= 0
  }

  /** The answer of ikcp_check is no earlier than it has to be: now, if a flush or a resend is due or the clock is far
      off; and otherwise `d` milliseconds from now, when the next flush is, or a resend, or an interval has passed. */
  lemma CheckIsTight(k: Kcb, current: int) returns (d: int)
    requires 0 <= current < TWO32 && 0 <= k.cfg.interval <= 5000
    ensures var late := TimeDiff(current, k.clock.tsFlush);
      if !k.clock.updated || late >= 0 || late < -10000 || ResendDue(k.snd.buf, current)
      then Check(k, current) == current
      else
        && Check(k, current) == U32(current + d) && 0 <= d <= k.cfg.interval && d <= -late
        && (d == k.cfg.interval || d == -late || ResendIn(k.snd.buf, current, d))
  {
    var wait, late := ResendWait(k.snd.buf, current, TWO31 - 1), TimeDiff(current, k.clock.tsFlush);
    DueExactly(k.snd.buf, current);
    d := 0;
    if k.clock.updated && -10000 <= late < 0 && wait.In? {
      ResendWaitBounds(k.snd.buf, current, TWO31 - 1);
      ResendWaitReached(k.snd.buf, current, TWO31 - 1);
      FlipDiff(current, k.clock.tsFlush);
      d := Min(Min(wait.ms, -late), k.cfg.interval);
      hide TimeDiff, U32, ResendWait;
    }
  }

  lemma DueExactly(buf: seq<SndSeg>, current: int)
    ensures ResendWait(buf, current, TWO31 - 1).Due? <==> ResendDue(buf, current)
  {
    ResendWaitBounds(buf, current, TWO31 - 1);
    hide ResendWait, TimeDiff;
    if s :| s in buf && TimeDiff(s.resendts, current) <= 0 {
      var i :| 0 <= i < |buf| && buf[i] == s;
      assert TimeDiff(buf[i].resendts, current) <= 0;
    }
  }

  /** Whether ikcp_update flushes when it is called at the time ikcp_check named: it does when a flush was overdue or
      the clock far off, or when the next flush comes no later than any resend time and within an interval. */
  predicate FlushesAtCheck(k: Kcb, current: int) {
    var late := TimeDiff(current, k.clock.tsFlush);
    || !k.clock.updated
    || late >= 0
    || late < -10000
    || match ResendWait(k.snd.buf, current, TWO31 - 1)
       case Due => false
       case In(ms) => -late <= ms && -late <= k.cfg.interval
  }

  /** If nothing else is called, ikcp_update at the answer of ikcp_check flushes if and only if FlushesAtCheck. */
  lemma CheckAnswerFlushes(k: Kcb, current: int)
    requires 0 <= current < TWO32 && 0 <= k.cfg.interval <= 5000
    ensures Tick(k.clock, k.cfg.interval, Check(k, current)).1 <==> FlushesAtCheck(k, current)
  {
    ResendWaitBounds(k.snd.buf, current, TWO31 - 1);
    var wait := ResendWait(k.snd.buf, current, TWO31 - 1);
    var late := TimeDiff(current, k.clock.tsFlush);
    if k.clock.updated && -10000 <= late < 0 && wait.In? {
      FlipDiff(current, k.clock.tsFlush);
      LaterByLess(k.clock.tsFlush, current, Min(Min(wait.ms, -late), k.cfg.interval));
    }
  }

  /** A case in which it does not: a segment is to be resent 40 ms before the next flush. The answer is the resend
      time, and ikcp_update at that time only takes note of it. */
  lemma CheckAnswerMayNotFlush(k: Kcb)
    requires k.cfg.interval == 100 && k.clock == Clock(1000, 1100, true)
    requires |k.snd.buf| == 1 && k.snd.buf[0].resendts == 1060
    ensures Check(k, 1000) == 1060 && !Tick(k.clock, k.cfg.interval, 1060).1
  {
    assert k.snd.buf[1..] == [];
    assert TimeDiff(1000, 1100) == -100 && TimeDiff(1100, 1000) == 100 && TimeDiff(1060, 1000) == 60;
    assert TimeDiff(1060, 1100) == -40;
    assert ResendWait(k.snd.buf[1..], 1000, 60) == In(60);
  }

  lemma FlipDiff(a: int, b: int)
    requires TimeDiff(a, b) != -TWO31
    ensures TimeDiff(b, a) == -TimeDiff(a, b)
  {
    var i := U32Split(a - b);
    assert b - a == -U32(a - b) + (-i) * TWO32;
    I32Congruent(-U32(a - b), -i);
  }

  // ---------------------------------------------------------------- round-trip times

  /** The estimator of RFC 6298 in whole milliseconds: sections 2.2 and 2.3 with G = `interval`. */
  function Estimate(cfg: Cfg, t: Rtt, rtt: nat): Rtt
    requires t.srtt >= 0 && t.rttval >= 0
  {
    var delta := if rtt < t.srtt then t.srtt - rtt else rtt - t.srtt;
    var rttval := if t.srtt == 0 then rtt / 2 else (3 * t.rttval + delta) / 4;
    var srtt := if t.srtt == 0 then rtt else Max((7 * t.srtt + rtt) / 8, 1);
    Rtt(srtt, rttval, Bound(cfg.minrto, srtt + Max(cfg.interval, 4 * rttval), 60000))
  }

  predicate RttIn(t: Rtt, r: int) {
    0 <= t.srtt <= r && 0 <= t.rttval <= r
  }

  function UpdateAcks(cfg: Cfg, t: Rtt, samples: seq<int>): Rtt {
    if samples == [] then t
    else UpdateAck(cfg, UpdateAcks(cfg, t, samples[..|samples| - 1]), samples[|samples| - 1])
  }

  /** One sample: nothing overflows, and the machine arithmetic is that of the estimator. */
  lemma UpdateAckIsEstimate(cfg: Cfg, t: Rtt, rtt: int, r: int)
    requires ValidCfg(cfg) && 1 <= r < 0x1000_0000 && 0 <= rtt <= r && RttIn(t, r)
    ensures UpdateAck(cfg, t, rtt) == Estimate(cfg, t, rtt)
    ensures RttIn(UpdateAck(cfg, t, rtt), r)
    ensures cfg.minrto <= UpdateAck(cfg, t, rtt).rto <= 60000
  {
    hide I32, U32;
  }

  /** Over any run of samples no larger than `r` the estimates stay within `r` and the timeout within its bounds. */
  lemma {:induction false} EstimatesStayBounded(cfg: Cfg, t: Rtt, samples: seq<int>, r: int)
    requires ValidCfg(cfg) && 1 <= r < 0x1000_0000 && RttIn(t, r) && cfg.minrto <= t.rto <= 60000
    requires forall i :: 0 <= i < |samples| ==> 0 <= samples[i] <= r
    ensures RttIn(UpdateAcks(cfg, t, samples), r)
    ensures cfg.minrto <= UpdateAcks(cfg, t, samples).rto <= 60000
  {
    if samples != [] {
      var front := samples[..|samples| - 1];
      EstimatesStayBounded(cfg, t, front, r);
      UpdateAckIsEstimate(cfg, UpdateAcks(cfg, t, front), samples[|samples| - 1], r);
    }
  }
}
