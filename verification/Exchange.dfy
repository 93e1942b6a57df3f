/** Two udp objects, driven by any interleaving of writes, reads and timers over a network that may lose, repeat and
    reorder: what their session callbacks are given. */
module Exchange {
  import opened Bytes
  import opened Sequences
  import opened Serial
  import opened Kcp
  import opened Connection
  import opened ByteRuns
  import opened Refinement
  import opened Session
  import opened SegmentLists
  import opened ControlBlock
  import opened Udp
  import Wire

  // ---------------------------------------------------------------- what is handed over

  /** The payloads handed over for one session. */
  function DataFor(ds: seq<Delivery>, sid: int): seq<seq<byte>> {
    if ds == [] then []
    else DataFor(ds[..|ds| - 1], sid) + if ds[|ds| - 1].sid == sid then [ds[|ds| - 1].data] else []
  }

  lemma {:induction false} HandedConcat(a: seq<seq<byte>>, b: seq<seq<byte>>)
    ensures Handed(a + b) == Handed(a) + Handed(b)
  {
    if a == [] {
      assert a + b == b;
    } else {
      HandedConcat(a[1..], b);
      assert a + b == [a[0]] + (a[1..] + b) && [a[0]] + a[1..] == a;
      HandedMore(a[0], a[1..] + b);
      HandedMore(a[0], a[1..]);
      ConcatAssoc(Handed([a[0]]), Handed(a[1..]), Handed(b));
    }
  }

  lemma HandedOne(m: seq<byte>)
    ensures Handed([m]) == if m != [] then [Parse(m)] else []
  {
    assert Handed([m][1..]) == [];
  }

  function EmptyOnes(ms: seq<seq<byte>>): nat {
    if ms == [] then 0 else (if ms[0] == [] then 1 else 0) + EmptyOnes(ms[1..])
  }

  /** Each message that is not empty is handed over once, and no empty one is. */
  lemma {:induction false} HandedOnce(ms: seq<seq<byte>>)
    ensures |Handed(ms)| + EmptyOnes(ms) == |ms|
  {
    hide Parse;
    if ms != [] {
      HandedOnce(ms[1..]);
    }
  }

  /** Passing over empty messages loses nothing: each session is handed what the messages received hold for it. */
  lemma {:induction false} HandedHolds(got: seq<seq<byte>>, sid: int)
    ensures Flatten(DataFor(Handed(got), sid)) == Flatten(Received(got, sid))
  {
    if got != [] {
      hide Parse;
      var front, m := got[..|got| - 1], got[|got| - 1];
      assert front + [m] == got;
      HandedHolds(front, sid);
      HandedConcat(front, [m]);
      HandedOne(m);
      ReceivedConcat(front, [m], sid);
      ReceivedOne(m, sid);
      FlattenConcat(Received(front, sid), Received([m], sid));
      if m != [] {
        var ds := Handed(front) + [Parse(m)];
        assert ds[..|ds| - 1] == Handed(front);
        FlattenConcat(DataFor(Handed(front), sid), if Parse(m).sid == sid then [Parse(m).data] else []);
      } else {
        assert Handed(front) + [] == Handed(front);
        EmptyMessage();
        FlattenOne<byte>([]);
        assert Flatten(Received(front, sid)) + [] == Flatten(Received(front, sid));
      }
    }
  }

  lemma EmptyMessage()
    ensures Parse([]) == Delivery(0, [])
  {
  }

  // ---------------------------------------------------------------- one object

  /** The object `u` is the endpoint `x` of the model, and has handed over what x has received. */
  ghost predicate Mirrors(u: Udp, x: End32)
    reads u, u.kcp, u.kcp.ackList, u.kcp.lists, u.kcp.lists.Repr
  {
    u.Valid() && u.kcp.State() == x.kcb && u.kcp.output == x.out && u.delivered == Handed(x.got)
  }

  ghost function Footprint(u: Udp): set<object>
    reads u, u.kcp, u.kcp.lists
  {
    {u, u.segment, u.kcp, u.kcp.ackList, u.kcp.buffer, u.kcp.lists} + u.kcp.lists.Repr
  }

  lemma {:induction false} SendsOnlySend(x: End32, wire: seq<seq<byte>>, ms: seq<seq<byte>>)
    requires x.kcb.cfg.mss >= 1
    ensures var x' := Steps32(x, wire, Sends(ms)); x'.out == x.out && x'.got == x.got
    decreases |ms|
  {
    if ms != [] {
      assert Sends(ms)[1..] == Sends(ms[1..]);
      SendsOnlySend(StepEnd32(x, wire, SendMsg(ms[0])), wire, ms[1..]);
    }
  }

  /** A datagram is taken in, and then all that is complete is received. */
  lemma ReadSteps(x: End32, wire: seq<seq<byte>>, i: nat)
    requires x.kcb.cfg.mss >= 1 && i < |wire|
    ensures Wire.Input(x.kcb, wire[i]).0.cfg == x.kcb.cfg
    ensures var (k, ms) := Drained(Bits32, Wire.Input(x.kcb, wire[i]).0);
      Steps32(x, wire, Actions(x, wire, Read(i))) == x.(kcb := k, got := x.got + ms)
  {
    hide Wire.Input, Drained, Drain;
    var x1 := StepEnd32(x, wire, Deliver(i));
    DrainedIsDrain(x1, wire);
    var drain := Drain(Bits32, x1.kcb);
    assert ([Deliver(i)] + drain)[1..] == drain;
  }

  lemma TimerStep(x: End32, wire: seq<seq<byte>>, current: int)
    requires x.kcb.cfg.mss >= 1
    ensures Steps32(x, wire, [UpdateAt(current)]) == StepEnd32(x, wire, UpdateAt(current))
  {
  }

  /** Performs one call on an object. */
  method Perform(u: Udp, c: Call, wire: seq<seq<byte>>, ghost x: End32) returns (ghost x': End32)
    requires Mirrors(u, x)
    modifies u, u.segment, u.kcp, u.kcp.ackList, u.kcp.buffer, u.kcp.lists.Repr
    ensures x' == Steps32(x, wire, Actions(x, wire, c)) && Mirrors(u, x')
    ensures fresh(Footprint(u) - old(Footprint(u)))
  {
    hide Segments.Layout, Steps32, Split, Wire.Input, Drained, Drain, SendAll, Handed, Update;
    x' := Steps32(x, wire, Actions(x, wire, c));
    match c
    case Write(sid, data) =>
      var ignored := u.Send(sid, data);
      SendAllIsSends(x, wire, Split(sid, data));
      SendsOnlySend(x, wire, Split(sid, data));
    case Read(i) =>
      if i < |wire| {
        u.OnRead(wire[i]);
        ReadSteps(x, wire, i);
        HandedConcat(x.got, Drained(Bits32, Wire.Input(x.kcb, wire[i]).0).1);
      } else {
        NoSteps(x, wire);
      }
    case Timer(current) =>
      u.kcp.Update(U32(current));
      TimerStep(x, wire, current);
  }

  lemma NoSteps(x: End32, wire: seq<seq<byte>>)
    requires x.kcb.cfg.mss >= 1
    ensures Steps32(x, wire, []) == x
  {
  }

  // ---------------------------------------------------------------- two objects

  /** Performs the call of `u`, whose network is what the peer `v` has put out. */
  method Turn(u: Udp, v: Udp, c: Call, ghost x: End32, ghost y: End32) returns (ghost x': End32)
    requires Mirrors(u, x) && Mirrors(v, y) && Footprint(u) !! Footprint(v)
    modifies u, u.segment, u.kcp, u.kcp.ackList, u.kcp.buffer, u.kcp.lists.Repr
    ensures x' == Steps32(x, y.out, Actions(x, y.out, c)) && Mirrors(u, x') && Mirrors(v, y)
    ensures fresh(Footprint(u) - old(Footprint(u))) && Footprint(v) == old(Footprint(v)) && Footprint(u) !! Footprint(v)
  {
    hide Steps32, Actions, Udp.Valid, ControlBlock.State;
    var wire := v.kcp.output;
    x' := Perform(u, c, wire, x);
  }

  /** The two objects, sharing nothing. */
  ghost predicate Pair(u: Udp, v: Udp, n: Net32)
    reads u, u.kcp, u.kcp.ackList, u.kcp.lists, u.kcp.lists.Repr
    reads v, v.kcp, v.kcp.ackList, v.kcp.lists, v.kcp.lists.Repr
  {
    Mirrors(u, n.a) && Mirrors(v, n.b) && Footprint(u) !! Footprint(v)
  }

  /** Performs a call on the object it is for. */
  method Next(u: Udp, v: Udp, c: SideCall, ghost n: Net32) returns (ghost n': Net32)
    requires Pair(u, v, n)
    modifies Footprint(u), Footprint(v)
    ensures n.a.kcb.cfg.mss >= 1 && n.b.kcb.cfg.mss >= 1 && n' == AfterCall(n, c) && Pair(u, v, n')
    ensures fresh(Footprint(u) - old(Footprint(u))) && fresh(Footprint(v) - old(Footprint(v)))
  {
    hide Steps32, Actions;
    if c.side.A? {
      var x := Turn(u, v, c.call, n.a, n.b);
      n' := Net32(x, n.b);
    } else {
      var y := Turn(v, u, c.call, n.b, n.a);
      n' := Net32(n.a, y);
    }
  }

  method TwoUdps(ca: Cfg, cb: Cfg) returns (u: Udp, v: Udp)
    requires ValidCfg(ca) && ValidCfg(cb)
    ensures Pair(u, v, Start32(ca, cb)) && fresh(Footprint(u)) && fresh(Footprint(v))
  {
    hide Init, Handed, Udp.Valid, ControlBlock.State;
    u := new Udp(ca);
    StartsAlike(u, ca);
    v := new Udp(cb);
    StartsAlike(v, cb);
  }

  /** Runs two fresh objects through `calls`. They go through the states of the model, and as long as no number is
      half the ring late, the bytes each hands to a session are a prefix of those written to it on the other side. */
  method Exchange(ca: Cfg, cb: Cfg, calls: seq<SideCall>) returns (deliveredA: seq<Delivery>, deliveredB: seq<Delivery>)
    requires Compatible(ca, cb) && Carries(ca) && Carries(cb) && GoodCalls(calls)
    ensures var n := Run32(Start32(ca, cb), Events(ca, cb, calls));
      deliveredA == Handed(n.a.got) && deliveredB == Handed(n.b.got)
    ensures TimelyRun(ca, cb, Events(ca, cb, calls)) ==> forall sid: int ::
      && Flatten(DataFor(deliveredB, sid)) <= Flatten(Written(calls, A, sid))
      && Flatten(DataFor(deliveredA, sid)) <= Flatten(Written(calls, B, sid))
  {
    hide Steps32, Actions, Mirrors, Pair, TimelyRun, Run32, Events, Handed, Carries, AfterCall;
    hide Flatten, DataFor, Written;
    var u, v := TwoUdps(ca, cb);
    ghost var n := Start32(ca, cb);
    NoCalls(ca, cb);
    for i := 0 to |calls|
      invariant n == Run32(Start32(ca, cb), Events(ca, cb, calls[..i])) && Pair(u, v, n)
      invariant fresh(Footprint(u)) && fresh(Footprint(v))
    {
      NextCall(ca, cb, calls, i, n);
      n := Next(u, v, calls[i], n);
    }
    assert calls[..|calls|] == calls;
    HandsOver(u, v, n);
    deliveredA, deliveredB := u.delivered, v.delivered;
    if TimelyRun(ca, cb, Events(ca, cb, calls)) {
      HandedArrives(ca, cb, calls);
    }
  }

  function AfterCall(n: Net32, c: SideCall): Net32
    requires n.a.kcb.cfg.mss >= 1 && n.b.kcb.cfg.mss >= 1
  {
    if c.side.A? then Net32(Steps32(n.a, n.b.out, Actions(n.a, n.b.out, c.call)), n.b)
    else Net32(n.a, Steps32(n.b, n.a.out, Actions(n.b, n.a.out, c.call)))
  }

  lemma NextCall(ca: Cfg, cb: Cfg, calls: seq<SideCall>, i: nat, n: Net32)
    requires Compatible(ca, cb) && i < |calls| && n == Run32(Start32(ca, cb), Events(ca, cb, calls[..i]))
    ensures Run32(Start32(ca, cb), Events(ca, cb, calls[..i + 1])) == AfterCall(n, calls[i])
  {
    hide Actions, Steps32, Run32, Events;
    assert calls[..i] + [calls[i]] == calls[..i + 1];
    OneMoreCall(ca, cb, calls[..i], calls[i]);
  }

  lemma HandedArrives(ca: Cfg, cb: Cfg, calls: seq<SideCall>)
    requires Compatible(ca, cb) && Carries(ca) && Carries(cb) && GoodCalls(calls)
    requires TimelyRun(ca, cb, Events(ca, cb, calls))
    ensures var n := Run32(Start32(ca, cb), Events(ca, cb, calls)); forall sid: int ::
      && Flatten(DataFor(Handed(n.b.got), sid)) <= Flatten(Written(calls, A, sid))
      && Flatten(DataFor(Handed(n.a.got), sid)) <= Flatten(Written(calls, B, sid))
  {
    var n := Run32(Start32(ca, cb), Events(ca, cb, calls));
    forall sid: int
      ensures Flatten(DataFor(Handed(n.b.got), sid)) <= Flatten(Written(calls, A, sid))
      ensures Flatten(DataFor(Handed(n.a.got), sid)) <= Flatten(Written(calls, B, sid))
    {
      hide TimelyRun, Events, Run32, Flatten, DataFor, Handed, Received, Written;
      StreamsSurvive(ca, cb, calls, sid);
      HandedHolds(n.a.got, sid);
      HandedHolds(n.b.got, sid);
    }
  }

  lemma HandsOver(u: Udp, v: Udp, n: Net32)
    requires Pair(u, v, n)
    ensures u.delivered == Handed(n.a.got) && v.delivered == Handed(n.b.got)
  {
  }

  lemma NoCalls(ca: Cfg, cb: Cfg)
    requires Compatible(ca, cb)
    ensures Run32(Start32(ca, cb), Events(ca, cb, [])) == Start32(ca, cb)
  {
  }

  lemma StartsAlike(u: Udp, cfg: Cfg)
    requires u.Valid() && u.kcp.State() == Init(cfg) && u.kcp.output == [] && u.delivered == []
    ensures Mirrors(u, End32(Init(cfg), [], [], []))
  {
  }
}
