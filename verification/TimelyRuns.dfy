/** The invariants of unbounded runs in the words of the 32-bit program: in every timely run, what its wrapping
    numbers and serial comparisons say of loss, order, windows and progress. */
module TimelyRuns {
  import opened Serial
  import opened Kcp
  import opened Buffers
  import opened Channel
  import opened Connection
  import opened Wrapping
  import opened ByteRuns
  import opened Refinement
  import opened Delivery

  /** The distance of two numbers less than a ring apart can be read off the words. */
  lemma WordGap(a: int, b: int)
    requires 0 <= a - b < TWO32
    ensures U32(U32(a) - U32(b)) == a - b
  {
    var i := U32Split(a);
    var j := U32Split(b);
    assert U32(a) - U32(b) == (a - b) + (j - i) * TWO32;
    I32Congruent(a - b, j - i);
  }

  /** The 32-bit states are wrapped images of states with the invariants. */
  lemma States(ca: Cfg, cb: Cfg, es: seq<Event>, side: Side) returns (x: Kcb, y: Kcb)
    requires Compatible(ca, cb) && TimelyRun(ca, cb, es)
    ensures var n := Run(Start(ca, cb), es); x == At(n, side).kcb && y == At(n, Other(side)).kcb
    ensures var n := Run32(Start32(ca, cb), es);
      EndOf(n, side).kcb == WrapKcb(x) && EndOf(n, Other(side)).kcb == WrapKcb(y)
    ensures ValidCfg(x.cfg) && ValidCfg(y.cfg)
    ensures y.rcv.nxt <= x.snd.nxt <= y.rcv.nxt + y.cfg.rcvWnd + x.cfg.sndWnd
    ensures x.snd.una <= x.snd.nxt <= x.snd.una + x.cfg.sndWnd
    ensures |y.rcv.queue| < y.cfg.rcvWnd ==> x.snd.una <= y.rcv.nxt
    ensures x.snd.una <= y.rcv.nxt + y.cfg.rcvWnd
  {
    var n := Run(Start(ca, cb), es);
    x, y := At(n, side).kcb, At(n, Other(side)).kcb;
    Refines(ca, cb, es);
    RunInv(ca, cb, es);
    InvBoth(n, side);
    hide Run, Run32, TimelyRun;
    Windows(x.snd, x.cfg.sndWnd, y.rcv, y.cfg.rcvWnd, Accepted(At(n, side)), Taken(At(n, side), At(n, Other(side))));
  }

  // ---------------------------------------------------------------- nothing is lost

  lemma BufferedWraps(s: Snd, sn: int)
    requires Buffered(s, sn)
    ensures Buffered(WrapSnd(s), U32(sn))
  {
    var i :| 0 <= i < |s.buf| && s.buf[i].sn == sn;
    assert WrapSnd(s).buf[i].sn == U32(sn);
  }

  lemma HasSnWraps(r: Rcv, sn: int)
    requires HasSn(r.buf, sn)
    ensures HasSn(WrapRcv(r).buf, U32(sn))
  {
    var i :| 0 <= i < |r.buf| && r.buf[i].sn == sn;
    assert WrapRcv(r).buf[i].sn == U32(sn);
  }

  /** A number not received yet is with one side or the other, and so is its word. */
  lemma WordSomewhere(s: Snd, r: Rcv, d: nat)
    requires d < s.nxt - r.nxt < TWO32
    requires Buffered(s, r.nxt + d) || Held(r, r.nxt + d)
    ensures Buffered(WrapSnd(s), U32(U32(r.nxt) + d)) || HasSn(WrapRcv(r).buf, U32(U32(r.nxt) + d))
  {
    hide U32;
    WrapAdds(r.nxt, d);
    if Buffered(s, r.nxt + d) {
      BufferedWraps(s, r.nxt + d);
    } else {
      HasSnWraps(r, r.nxt + d);
    }
  }

  /** Going on from the number the receiver waits for, each word up to the sender's next number is that of a segment
      in the sender's buffer or in the receiver's; and there are no more of them than two windows. */
  lemma NothingLost32(ca: Cfg, cb: Cfg, es: seq<Event>, side: Side, d: nat)
    requires Compatible(ca, cb) && TimelyRun(ca, cb, es)
    ensures var n := Run32(Start32(ca, cb), es); var x, y := EndOf(n, side).kcb, EndOf(n, Other(side)).kcb;
      && U32(x.snd.nxt - y.rcv.nxt) <= y.cfg.rcvWnd + x.cfg.sndWnd
      && (d < U32(x.snd.nxt - y.rcv.nxt) ==>
            Buffered(x.snd, U32(y.rcv.nxt + d)) || HasSn(y.rcv.buf, U32(y.rcv.nxt + d)))
  {
    hide Run, Run32, TimelyRun, U32, Buffered, HasSn, Held, WrapSnd, WrapRcv;
    var x, y := States(ca, cb, es, side);
    WordsOfEdges(x.snd, y.rcv);
    if d < x.snd.nxt - y.rcv.nxt {
      RcvNxtNatural(ca, cb, es, Other(side));
      OtherTwice(side);
      NothingLost(ca, cb, es, y.rcv.nxt + d);
      WordSomewhere(x.snd, y.rcv, d);
    }
  }

  lemma WordsOfEdges(s: Snd, r: Rcv)
    requires 0 <= s.nxt - r.nxt < TWO32
    ensures U32(WrapSnd(s).nxt - WrapRcv(r).nxt) == s.nxt - r.nxt && WrapRcv(r).nxt == U32(r.nxt)
  {
    WordGap(s.nxt, r.nxt);
  }

  lemma RcvNxtNatural(ca: Cfg, cb: Cfg, es: seq<Event>, side: Side)
    requires Compatible(ca, cb)
    ensures 0 <= At(Run(Start(ca, cb), es), side).kcb.rcv.nxt
  {
    RunInv(ca, cb, es);
    hide Run;
  }

  // ---------------------------------------------------------------- order

  /** A buffer of the sender, as the serial comparison sees it. */
  predicate InOrder(s: Snd, wnd: int) {
    && U32(s.nxt - s.una) <= wnd
    && (forall i :: 0 <= i < |s.buf| ==> TimeDiff(s.buf[i].sn, s.una) >= 0 && TimeDiff(s.buf[i].sn, s.nxt) < 0)
    && (forall i, j :: 0 <= i < j < |s.buf| ==> TimeDiff(s.buf[i].sn, s.buf[j].sn) < 0)
  }

  /** A reordering buffer, as the serial comparison sees it. */
  predicate EarlyInOrder(r: Rcv, wnd: int) {
    && |r.queue| <= wnd
    && (forall i :: 0 <= i < |r.buf| ==> 0 <= TimeDiff(r.buf[i].sn, r.nxt) < wnd)
    && (forall i, j :: 0 <= i < j < |r.buf| ==> TimeDiff(r.buf[i].sn, r.buf[j].sn) < 0)
  }

  lemma Compares(a: int, b: int)
    requires -TWO31 <= a - b < TWO31
    ensures TimeDiff(U32(a), U32(b)) == a - b
  {
    TimeDiffOfWrapped(a, b);
  }

  lemma SndInOrder(s: Snd, wnd: int)
    requires 0 <= wnd < 0x1_0000 && s.una <= s.nxt <= s.una + wnd && SndSorted(s.buf)
    requires forall i :: 0 <= i < |s.buf| ==> s.una <= s.buf[i].sn < s.nxt
    ensures InOrder(WrapSnd(s), wnd)
  {
    hide U32, TimeDiff;
    var b := WrapSnd(s).buf;
    WordGap(s.nxt, s.una);
    forall i | 0 <= i < |b| ensures TimeDiff(b[i].sn, U32(s.una)) >= 0 && TimeDiff(b[i].sn, U32(s.nxt)) < 0 {
      Compares(s.buf[i].sn, s.una);
      Compares(s.buf[i].sn, s.nxt);
    }
    forall i, j | 0 <= i < j < |b| ensures TimeDiff(b[i].sn, b[j].sn) < 0 {
      Compares(s.buf[i].sn, s.buf[j].sn);
    }
  }

  lemma RcvInOrder(r: Rcv, wnd: int)
    requires RcvNear(r, wnd) && |r.queue| <= wnd
    ensures EarlyInOrder(WrapRcv(r), wnd)
  {
    hide U32, TimeDiff;
    var b := WrapRcv(r).buf;
    forall i | 0 <= i < |b| ensures 0 <= TimeDiff(b[i].sn, U32(r.nxt)) < wnd {
      Compares(r.buf[i].sn, r.nxt);
    }
    forall i, j | 0 <= i < j < |b| ensures TimeDiff(b[i].sn, b[j].sn) < 0 {
      Compares(r.buf[i].sn, r.buf[j].sn);
    }
  }

  /** At either end both buffers are strictly ordered by the serial comparison and inside their windows, also across
      the point where numbers wrap. */
  lemma BuffersStaySorted32(ca: Cfg, cb: Cfg, es: seq<Event>, side: Side)
    requires Compatible(ca, cb) && TimelyRun(ca, cb, es)
    ensures var k := EndOf(Run32(Start32(ca, cb), es), side).kcb;
      InOrder(k.snd, k.cfg.sndWnd) && EarlyInOrder(k.rcv, k.cfg.rcvWnd)
  {
    var x, y := States(ca, cb, es, side);
    BuffersStaySorted(ca, cb, es, side);
    hide Run, Run32, TimelyRun, InOrder, EarlyInOrder;
    SndInOrder(x.snd, x.cfg.sndWnd);
    RcvInOrder(x.rcv, x.cfg.rcvWnd);
  }

  /** The window relations, by the words. */
  lemma WindowsHold32(ca: Cfg, cb: Cfg, es: seq<Event>, side: Side)
    requires Compatible(ca, cb) && TimelyRun(ca, cb, es)
    ensures var n := Run32(Start32(ca, cb), es); var x, y := EndOf(n, side).kcb, EndOf(n, Other(side)).kcb;
      && U32(x.snd.nxt - y.rcv.nxt) <= y.cfg.rcvWnd + x.cfg.sndWnd
      && U32(x.snd.nxt - x.snd.una) <= x.cfg.sndWnd
      && TimeDiff(x.snd.una, y.rcv.nxt) <= y.cfg.rcvWnd
      && (|y.rcv.queue| < y.cfg.rcvWnd ==> TimeDiff(x.snd.una, y.rcv.nxt) <= 0)
  {
    hide Run, Run32, TimelyRun, U32, TimeDiff, WrapSnd, WrapRcv;
    var x, y := States(ca, cb, es, side);
    WordsOfEdges(x.snd, y.rcv);
    WordsOfUna(x.snd, y.rcv);
  }

  lemma WordsOfUna(s: Snd, r: Rcv)
    requires 0 <= s.nxt - s.una < TWO32 && -TWO31 <= s.una - r.nxt < TWO31
    ensures U32(WrapSnd(s).nxt - WrapSnd(s).una) == s.nxt - s.una
    ensures TimeDiff(WrapSnd(s).una, WrapRcv(r).nxt) == s.una - r.nxt && WrapRcv(r).queue == r.queue
  {
    WordGap(s.nxt, s.una);
    Compares(s.una, r.nxt);
  }

  // ---------------------------------------------------------------- progress

  /** Only a datagram moves the unacknowledged edge. */
  lemma OthersKeepEdge(x: End, wire: seq<seq<Packet>>, a: Action)
    requires x.kcb.cfg.mss >= 1 && !a.Deliver?
    ensures StepEnd(x, wire, a).kcb.snd.una == x.kcb.snd.una
  {
    hide Flush, MoveReady, Tick, Fragments;
    FlushKeepsUna(x.kcb);
    if a.UpdateAt? {
      FlushKeepsUna(x.kcb.(clock := Tick(x.kcb.clock, x.kcb.cfg.interval, U32(a.current)).0));
    }
  }

  /** And it does not move it past what is numbered. */
  lemma EdgeWithinNumbered(x: End, y: End, a: Action)
    requires ValidCfg(x.kcb.cfg) && ValidCfg(y.kcb.cfg) && Flow(x, y) && Flow(y, x)
    ensures StepEnd(x, y.out, a).kcb.snd.una <= x.kcb.snd.nxt
  {
    hide StepEnd, Flow;
    UnaBelowNxt(x, y);
    if a.Deliver? {
      FlowStep(x, y, a);
      UnaBelowNxt(StepEnd(x, y.out, a), y);
      DeliverKeepsNxt(y, x, a.i);
    } else {
      OthersKeepEdge(x, y.out, a);
    }
  }

  lemma UnaBelowNxt(x: End, y: End)
    requires x.kcb.cfg.mss >= 1 && Flow(x, y)
    ensures x.kcb.snd.una <= x.kcb.snd.nxt
  {
  }

  /** A step after which the edge has moved. */
  lemma EdgeStep(n: Net, e: Event, side: Side)
    requires Inv(n) && At(n, side).kcb.snd.una < At(Step(n, e), side).kcb.snd.una
    ensures At(Step(n, e), side).kcb.snd.una <= At(n, side).kcb.snd.una + At(n, side).kcb.cfg.sndWnd
  {
    InvBoth(n, e.side);
    NumberedWithin(n, side);
    hide Flow, Inv, StepEnd;
    EdgeWithinNumbered(At(n, e.side), At(n, Other(e.side)), e.action);
  }

  /** The first point of a run at which the edge has moved. */
  lemma {:induction false} FirstMove(n: Net, es: seq<Event>, side: Side) returns (k: nat)
    requires Inv(n) && GoodRun(n, es) && At(n, side).kcb.snd.una < At(Run(n, es), side).kcb.snd.una
    ensures k <= |es| && GoodRun(n, es[..k])
    ensures At(n, side).kcb.snd.una < At(Run(n, es[..k]), side).kcb.snd.una
                                    <= At(n, side).kcb.snd.una + At(n, side).kcb.cfg.sndWnd
    decreases |es|
  {
    hide Flow, StepEnd, Good;
    assert es != [] && es[..|es|] == es;
    var front := es[..|es| - 1];
    var m := Run(n, front);
    RunIsLater(n, front);
    if At(n, side).kcb.snd.una < At(m, side).kcb.snd.una {
      k := FirstMove(n, front, side);
      assert es[..k] == front[..k];
    } else {
      k := |es|;
      EdgeStep(m, es[|es| - 1], side);
    }
  }

  lemma NumberedWithin(n: Net, side: Side)
    requires Inv(n)
    ensures At(n, side).kcb.snd.nxt <= At(n, side).kcb.snd.una + At(n, side).kcb.cfg.sndWnd
  {
  }

  /** With something outstanding and room at the receiver, some way of going on acknowledges it. */
  lemma EdgeMoves(n: Net, side: Side) returns (n': Net)
    requires Fine(n) && At(n, side).kcb.snd.una < At(n, side).kcb.snd.nxt
    requires |At(n, Other(side)).kcb.rcv.queue| < At(n, Other(side)).kcb.cfg.rcvWnd
    ensures Reach(n, n') && At(n, side).kcb.snd.una < At(n', side).kcb.snd.una
  {
    hide Reach, Inv;
    InvBoth(n, side);
    var n1 := Prepared(n, side);
    if At(n, side).kcb.snd.una < At(n1, side).kcb.snd.una {
      n' := n1;
    } else {
      n' := Acked(n1, side);
      ReachTrans(n, n1, n');
    }
  }

  /** After any timely run with data outstanding on `side`, either the other user has a message to take, or there is a
      way to go on, sending no message and delivering nothing late, that moves the unacknowledged edge forward. */
  lemma NoDeadlock32(ca: Cfg, cb: Cfg, es: seq<Event>, side: Side) returns (more: seq<Event>)
    requires Compatible(ca, cb) && TimelyRun(ca, cb, es)
    ensures TimelyRun(ca, cb, es + more) && forall i :: 0 <= i < |more| ==> !more[i].action.SendMsg?
    ensures var n, n' := Run32(Start32(ca, cb), es), Run32(Start32(ca, cb), es + more);
      var s, s' := EndOf(n, side).kcb.snd, EndOf(n', side).kcb.snd;
      s.una != s.nxt ==> PeekSize(EndOf(n, Other(side)).kcb.rcv.queue) >= 0 || TimeDiff(s'.una, s.una) > 0
  {
    hide Run, Run32, TimelyRun, GoodRun, Flow, EndFits, U32, TimeDiff, PeekSize;
    var n := Run(Start(ca, cb), es);
    var x, y := States(ca, cb, es, side);
    RunInv(ca, cb, es);
    RunFits(ca, cb, es);
    more := [];
    assert es + [] == es;
    if x.snd.una < x.snd.nxt && PeekSize(y.rcv.queue) < 0 {
      if |y.rcv.queue| >= y.cfg.rcvWnd {
        FullQueueHasMessage(At(n, side), At(n, Other(side)));
        assert false;
      }
      more := ShortWay(n, side);
      StaysTimely(ca, cb, es, more);
      RunConcat(Start(ca, cb), es, more);
      var x', y' := States(ca, cb, es + more, side);
      Compares(x'.snd.una, x.snd.una);
    }
  }

  lemma ShortWay(n: Net, side: Side) returns (more: seq<Event>)
    requires Fine(n) && At(n, side).kcb.snd.una < At(n, side).kcb.snd.nxt
    requires |At(n, Other(side)).kcb.rcv.queue| < At(n, Other(side)).kcb.cfg.rcvWnd
    ensures GoodRun(n, more) && forall i :: 0 <= i < |more| ==> !more[i].action.SendMsg?
    ensures At(n, side).kcb.snd.una < At(Run(n, more), side).kcb.snd.una
                                    <= At(n, side).kcb.snd.una + At(n, side).kcb.cfg.sndWnd
  {
    hide Reach, Run, GoodRun, EndFits;
    var n' := EdgeMoves(n, side);
    var all := WayTo(n, n');
    hide Inv;
    var k := FirstMove(n, all, side);
    more := all[..k];
  }
}
