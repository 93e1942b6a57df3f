/** What ikcp_recv does, in every state a run can get into: exactly when it succeeds and what it then leaves, and that
    a read of the session layer leaves no complete message behind. */
module Receiving {
  import opened Bytes
  import opened Sequences
  import opened Serial
  import opened Kcp
  import opened Channel
  import opened Connection
  import opened Wrapping
  import opened ByteRuns
  import opened Refinement
  import opened Wire
  import opened Delivery
  import opened Session

  function Magnitude(n: int): nat {
    if n < 0 then -n else n
  }

  // ---------------------------------------------------------------- any queue

  /** The first message of a queue: its pieces up to the first that says none follow. */
  predicate HeadIs(q: seq<Frag>, n: nat) {
    0 < n <= |q| && q[n - 1].frg == 0 && forall i :: 0 <= i < n - 1 ==> q[i].frg != 0
  }

  lemma {:induction false} MsgNodesOfHead(q: seq<Frag>, n: nat)
    requires HeadIs(q, n)
    ensures MsgNodes(q) == n
  {
    if n > 1 {
      assert forall i :: 0 <= i < n - 2 ==> q[1..][i] == q[i + 1];
      MsgNodesOfHead(q[1..], n - 1);
    }
  }

  /** Whatever is queued: ikcp_recv says -1 for an empty queue, -2 when the queue is shorter than its first piece asks
      for, and -3 when the first message is longer than the buffer; otherwise it returns that message, and takes it
      off the queue unless only peeking. Nothing changes when it fails. */
  lemma RecvExactly(w: Width, k: Kcb, maxLen: int, n: nat)
    requires k.rcv.queue != [] && |k.rcv.queue| > k.rcv.queue[0].frg ==> HeadIs(k.rcv.queue, n)
    ensures var (k', r) := Recv(w, k, maxLen); var q := k.rcv.queue;
      if q == [] then r.code == -1 && k' == k
      else if |q| <= q[0].frg then r.code == -2 && k' == k
      else if |Joined(q[..n])| > Magnitude(maxLen) then r.code == -3 && k' == k
      else
        && r.code == |r.data| && r.data == Joined(q[..n])
        && |k'.rcv.queue| >= |q| - (if maxLen < 0 then 0 else n)
        && (if maxLen < 0 then q else q[n..]) <= k'.rcv.queue
  {
    var q := k.rcv.queue;
    if q != [] && |q| > q[0].frg {
      MsgNodesOfHead(q, n);
      if q[0].frg == 0 {
        assert n == 1;
        assert q[..1] == [q[0]];
        JoinedCons(q[0], []);
        JoinedNone();
        assert [q[0]] + [] == [q[0]] && q[0].data + [] == q[0].data;
      }
      MovesOn(w, if maxLen < 0 then k.rcv else k.rcv.(queue := q[n..]), k.cfg.rcvWnd);
      hide Joined, MoveReady, MsgNodes;
    }
  }

  lemma {:induction false} MovesOn(w: Width, r: Rcv, rcvWnd: int)
    ensures r.queue <= MoveReady(w, r, rcvWnd).queue
    decreases |r.buf|
  {
    if r.buf != [] && r.buf[0].sn == r.nxt && |r.queue| < rcvWnd {
      var r1 := r.(buf := r.buf[1..], queue := r.queue + [Frag(r.buf[0].frg, r.buf[0].data)],
                   nxt := Wrap(w, r.nxt + 1));
      MovesOn(w, r1, rcvWnd);
      assert r.queue <= r1.queue;
    }
  }

  /** The peer is to be told of its window after a receive exactly when it was to be told before, or when the queue
      was full and no longer is. */
  lemma RecvAnnounces(w: Width, k: Kcb, maxLen: int)
    ensures var (k', r) := Recv(w, k, maxLen);
      k'.probe == k.probe.(askTell := k.probe.askTell
        || (r.code >= 0 && |k.rcv.queue| >= k.cfg.rcvWnd && |k'.rcv.queue| < k.cfg.rcvWnd))
  {
    hide MoveReady, MsgNodes, Joined;
  }

  // ---------------------------------------------------------------- in every run

  /** What ikcp_recv has to answer when `q` is queued, the user has had `got` of the messages `sent` by the peer, and
      the peer cuts messages at `mss`. */
  predicate Answers(q: seq<Frag>, got: seq<seq<byte>>, sent: seq<seq<byte>>, mss: int, maxLen: int, r: RecvResult)
    requires mss >= 1
  {
    if q == [] then r.code == -1
    else
      && |got| < |sent|
      && var next := sent[|got|];
         if |q| < |Cut(mss, next)| then r.code == -2
         else if |next| > Magnitude(maxLen) then r.code == -3
         else r == RecvResult(|next|, next)
  }

  lemma RecvAnswers(x: End, y: End, maxLen: int)
    requires ValidCfg(x.kcb.cfg) && ValidCfg(y.kcb.cfg) && Flow(y, x)
    ensures Answers(x.kcb.rcv.queue, x.got, y.sent, y.kcb.cfg.mss, maxLen, Recv(Unbounded, x.kcb, maxLen).1)
  {
    var q := x.kcb.rcv.queue;
    if q != [] {
      assert y.sent[..|x.got|] == x.got;
      HeadMessage(y.kcb.cfg.mss, y.sent, |x.got|, q, x.kcb.rcv.nxt);
      CutShape(y.kcb.cfg.mss, y.sent[|x.got|]);
      hide Flow, Stream, Fragments, FragCount, MsgNodes, MoveReady, Joined, PeekSize;
    }
  }

  /** The user's history after a receive: a message taken is added to it. */
  function Collected(got: seq<seq<byte>>, maxLen: int, r: RecvResult): seq<seq<byte>> {
    if r.code >= 0 && maxLen >= 0 then got + [r.data] else got
  }

  /** A receive changes the history by what it returns, and a failure changes nothing at all. */
  lemma StepReceives(x: End, wire: seq<seq<Packet>>, maxLen: int)
    requires x.kcb.cfg.mss >= 1
    ensures var r, x' := Recv(Unbounded, x.kcb, maxLen).1, StepEnd(x, wire, RecvMsg(maxLen));
      x' == x.(kcb := x'.kcb, got := Collected(x.got, maxLen, r)) && (r.code < 0 ==> x' == x)
  {
    FailureKeeps(Unbounded, x.kcb, maxLen);
    hide Recv;
  }

  lemma StepReceives32(x: End32, wire: seq<seq<byte>>, maxLen: int)
    requires x.kcb.cfg.mss >= 1
    ensures var r, x' := Recv(Bits32, x.kcb, maxLen).1, StepEnd32(x, wire, RecvMsg(maxLen));
      x' == x.(kcb := x'.kcb, got := Collected(x.got, maxLen, r)) && (r.code < 0 ==> x' == x)
  {
    FailureKeeps(Bits32, x.kcb, maxLen);
    hide Recv;
  }

  lemma FailureKeeps(w: Width, k: Kcb, maxLen: int)
    ensures Recv(w, k, maxLen).1.code < 0 ==> Recv(w, k, maxLen).0 == k
  {
  }

  /** In every run, for either side: ikcp_recv fails with -1, -2 or -3 exactly when nothing is queued, the next
      message is not complete, or it is complete but longer than the buffer; otherwise it returns the next message the
      other side sent, whole, and the user has that one more. */
  lemma ReceivesExactly(ca: Cfg, cb: Cfg, es: seq<Event>, side: Side, maxLen: int)
    requires Compatible(ca, cb)
    ensures var n := Run(Start(ca, cb), es); var x, y := At(n, side), At(n, Other(side));
      && Answers(x.kcb.rcv.queue, x.got, y.sent, y.kcb.cfg.mss, maxLen, Recv(Unbounded, x.kcb, maxLen).1)
      && StepEnd(x, y.out, RecvMsg(maxLen)).got == Collected(x.got, maxLen, Recv(Unbounded, x.kcb, maxLen).1)
  {
    hide Run, Flow, Answers, Recv, StepEnd;
    var n := Run(Start(ca, cb), es);
    RunInv(ca, cb, es);
    InvBoth(n, side);
    StepReceives(At(n, side), At(n, Other(side)).out, maxLen);
    RecvAnswers(At(n, side), At(n, Other(side)), maxLen);
  }

  /** The same for the 32-bit program in every timely run. */
  lemma ReceivesExactly32(ca: Cfg, cb: Cfg, es: seq<Event>, side: Side, maxLen: int)
    requires Compatible(ca, cb) && TimelyRun(ca, cb, es)
    ensures var n := Run32(Start32(ca, cb), es); var x, y := EndOf(n, side), EndOf(n, Other(side));
      && y.kcb.cfg.mss >= 1
      && Answers(x.kcb.rcv.queue, x.got, y.sent, y.kcb.cfg.mss, maxLen, Recv(Bits32, x.kcb, maxLen).1)
      && x.kcb.cfg.mss >= 1
      && StepEnd32(x, y.out, RecvMsg(maxLen)).got == Collected(x.got, maxLen, Recv(Bits32, x.kcb, maxLen).1)
  {
    hide Run, Run32, TimelyRun, Flow, Answers, Recv, WrapSnd, EncodeEach, WrapDatagrams, StepEnd, StepEnd32;
    ReceivesExactly(ca, cb, es, side, maxLen);
    Refines(ca, cb, es);
    var n := Run(Start(ca, cb), es);
    RunInv(ca, cb, es);
    InvBoth(n, side);
    BuffersStaySorted(ca, cb, es, side);
    RecvWraps(At(n, side).kcb, maxLen);
    StepReceives32(EndOf(Run32(Start32(ca, cb), es), side), EndOf(Run32(Start32(ca, cb), es), Other(side)).out, maxLen);
  }

  // ---------------------------------------------------------------- after a read

  /** The receive loop ends when ikcp_recv fails. */
  lemma {:induction false} DrainEnds(x: End32, wire: seq<seq<byte>>)
    requires x.kcb.cfg.mss >= 1
    ensures Recv(Bits32, Steps32(x, wire, Drain(Bits32, x.kcb)).kcb, MTU).1.code < 0
    decreases |x.kcb.rcv.queue| + |x.kcb.rcv.buf|
  {
    hide Recv;
    var x1 := StepEnd32(x, wire, RecvMsg(MTU));
    if Recv(Bits32, x.kcb, MTU).1.code >= 0 {
      RecvShrinks(Bits32, x.kcb);
      DrainEnds(x1, wire);
      assert Drain(Bits32, x.kcb)[1..] == Drain(Bits32, x1.kcb);
    } else {
      FailureKeeps(Bits32, x.kcb, MTU);
      assert Drain(Bits32, x.kcb)[1..] == [];
      assert Steps32(x, wire, [RecvMsg(MTU)]) == x1;
    }
  }

  /** A read takes a datagram in and drains. */
  lemma ReadEnds(x: End32, wire: seq<seq<byte>>, i: nat)
    requires x.kcb.cfg.mss >= 1 && i < |wire|
    ensures Recv(Bits32, Steps32(x, wire, Actions(x, wire, Read(i))).kcb, MTU).1.code < 0
  {
    hide Recv, Drain, StepEnd32;
    var x1 := StepEnd32(x, wire, Deliver(i));
    DrainEnds(x1, wire);
    var drain := Drain(Bits32, x1.kcb);
    assert ([Deliver(i)] + drain)[1..] == drain;
  }

  /** No write makes a message that the receive loop has no room for. */
  lemma {:induction false} MessagesFit(calls: seq<SideCall>, side: Side)
    ensures forall i :: 0 <= i < |Messages(calls, side)| ==> |Messages(calls, side)[i]| <= MTU
  {
    hide Split;
    if calls != [] {
      var c := calls[|calls| - 1];
      MessagesFit(calls[..|calls| - 1], side);
      if c.call.Write? {
        SplitFits(c.call.sid, c.call.data);
      }
    }
  }

  /** After a read in any timely run no complete message is left: the peer has sent none more, or some of the next one
      is still missing from the receive queue. */
  lemma ReadLeavesNothing(ca: Cfg, cb: Cfg, calls: seq<SideCall>, side: Side, i: nat)
    requires Compatible(ca, cb) && Carries(ca) && Carries(cb)
    requires TimelyRun(ca, cb, Events(ca, cb, calls + [SideCall(side, Read(i))]))
    requires i < |EndOf(Run32(Start32(ca, cb), Events(ca, cb, calls)), Other(side)).out|
    ensures var n := Run32(Start32(ca, cb), Events(ca, cb, calls + [SideCall(side, Read(i))]));
      var x, y := EndOf(n, side), EndOf(n, Other(side)); var q := x.kcb.rcv.queue;
      && y.kcb.cfg.mss >= 1
      && (q != [] ==> |x.got| < |y.sent| && |q| < |Cut(y.kcb.cfg.mss, y.sent[|x.got|])|)
  {
    hide Run32, Events, TimelyRun, Actions, Steps32, Recv, Carries, Messages, Fragments, FragCount;
    OneMoreCall(ca, cb, calls, SideCall(side, Read(i)));
    var n0 := Run32(Start32(ca, cb), Events(ca, cb, calls));
    ReadEnds(EndOf(n0, side), EndOf(n0, Other(side)).out, i);
    var all := calls + [SideCall(side, Read(i))];
    ReceivesExactly32(ca, cb, Events(ca, cb, all), side, MTU);
    SentIsMessages(ca, cb, all, Other(side));
    MessagesFit(all, Other(side));
  }

  /** When a side has received every message, each session has received all that was written to it. */
  lemma StreamsComplete(ca: Cfg, cb: Cfg, calls: seq<SideCall>, side: Side, sid: int)
    requires Compatible(ca, cb) && Carries(ca) && Carries(cb) && GoodCalls(calls)
    requires var n := Run32(Start32(ca, cb), Events(ca, cb, calls)); EndOf(n, Other(side)).got == EndOf(n, side).sent
    ensures var n := Run32(Start32(ca, cb), Events(ca, cb, calls));
      Flatten(Received(EndOf(n, Other(side)).got, sid)) == Flatten(Written(calls, side, sid))
  {
    hide Run32, Events, Received, Written, Messages, Flatten;
    SentIsMessages(ca, cb, calls, side);
    MessagesHold(calls, side, sid);
  }
}
