/** Two control blocks, driven by a run of events over a network that may lose, repeat and reorder: the objects
    go through the states of the 32-bit model, so what is proved of its runs holds of them. */
module Simulation {
  import opened Bytes
  import opened Serial
  import opened Kcp
  import opened Wire
  import opened Connection
  import opened ByteRuns
  import opened Refinement
  import opened SegmentLists
  import Datagrams
  import opened ControlBlock

  /** The object `b` with its history is the endpoint `x` of the model. */
  ghost predicate Mirrors(b: ControlBlock, x: End32)
    reads b, b.ackList, b.lists, b.lists.Repr
  {
    b.Ready() && b.State() == x.kcb && b.output == x.out
  }

  ghost function Footprint(b: ControlBlock): set<object>
    reads b, b.lists
  {
    {b, b.ackList, b.buffer, b.lists} + b.lists.Repr
  }

  /** Performs one action on a control block; returns the message handed to or taken from the user, if any. */
  method Act(b: ControlBlock, a: Action, wire: seq<seq<byte>>, ghost x: End32)
    returns (sent: seq<seq<byte>>, got: seq<seq<byte>>, ghost x': End32)
    requires Mirrors(b, x)
    modifies b, b.ackList, b.buffer, b.lists.Repr
    ensures x' == StepEnd32(x, wire, a) && Mirrors(b, x')
    ensures x'.sent == x.sent + sent && x'.got == x.got + got
    ensures fresh(Footprint(b) - old(Footprint(b)))
  {
    hide Input, Flush, Update, Recv, Send, Segments.Valid, Datagrams.SndFits;
    x' := StepEnd32(x, wire, a);
    sent, got := [], [];
    assert x.sent + [] == x.sent && x.got + [] == x.got;
    match a
    case SendMsg(msg) =>
      var code := b.Send(msg);
      if code == 0 {
        sent := [msg];
      }
    case RecvMsg(maxLen) =>
      var code, data := b.Recv(maxLen);
      if code >= 0 && maxLen >= 0 {
        got := [data];
      }
    case Deliver(i) =>
      if i < |wire| {
        var code := b.Input(wire[i]);
      }
    case FlushNow =>
      b.Flush();
    case UpdateAt(current) =>
      b.Update(U32(current));
  }

  /** Performs the action of `a`, whose network is what the peer `b` has put out. */
  method Turn(a: ControlBlock, b: ControlBlock, action: Action, ghost x: End32, ghost y: End32)
    returns (sent: seq<seq<byte>>, got: seq<seq<byte>>, ghost x': End32)
    requires Mirrors(a, x) && Mirrors(b, y) && Footprint(a) !! Footprint(b)
    modifies a, a.ackList, a.buffer, a.lists.Repr
    ensures x' == StepEnd32(x, y.out, action) && Mirrors(a, x') && Mirrors(b, y)
    ensures x'.sent == x.sent + sent && x'.got == x.got + got
    ensures fresh(Footprint(a) - old(Footprint(a))) && Footprint(b) == old(Footprint(b)) && Footprint(a) !! Footprint(b)
  {
    hide StepEnd32, ControlBlock.Ready, ControlBlock.Valid, ControlBlock.State;
    var wire := b.output;
    sent, got, x' := Act(a, action, wire, x);
  }

  /** The two blocks are the ends of the network `n` and share nothing. */
  ghost predicate Pair(a: ControlBlock, b: ControlBlock, n: Net32)
    reads a, a.ackList, a.lists, a.lists.Repr, b, b.ackList, b.lists, b.lists.Repr
  {
    Mirrors(a, n.a) && Mirrors(b, n.b) && Footprint(a) !! Footprint(b)
  }

  /** Performs an event on the block it is for; says what that side's user handed over or was given. */
  method Next(a: ControlBlock, b: ControlBlock, e: Event, ghost n: Net32)
    returns (sent: seq<seq<byte>>, got: seq<seq<byte>>, ghost n': Net32, ghost more: set<object>)
    requires Pair(a, b, n)
    modifies Footprint(a), Footprint(b)
    ensures n.a.kcb.cfg.mss >= 1 && n.b.kcb.cfg.mss >= 1 && n' == Step32(n, e) && Pair(a, b, n')
    ensures e.side.A? ==> n'.a.sent == n.a.sent + sent && n'.a.got == n.a.got + got && n'.b == n.b
    ensures e.side.B? ==> n'.b.sent == n.b.sent + sent && n'.b.got == n.b.got + got && n'.a == n.a
    ensures fresh(more) && Footprint(a) <= old(Footprint(a)) + more && Footprint(b) <= old(Footprint(b)) + more
  {
    hide StepEnd32, ControlBlock.Ready, ControlBlock.Valid, ControlBlock.State;
    MirrorsCfg(a, n.a);
    MirrorsCfg(b, n.b);
    if e.side.A? {
      ghost var x;
      sent, got, x := Turn(a, b, e.action, n.a, n.b);
      n', more := Net32(x, n.b), Footprint(a) - old(Footprint(a));
    } else {
      ghost var y;
      sent, got, y := Turn(b, a, e.action, n.b, n.a);
      n', more := Net32(n.a, y), Footprint(b) - old(Footprint(b));
    }
  }

  lemma MirrorsCfg(b: ControlBlock, x: End32)
    requires Mirrors(b, x)
    ensures x.kcb.cfg.mss >= 1
  {
  }

  method TwoBlocks(ca: Cfg, cb: Cfg) returns (a: ControlBlock, b: ControlBlock)
    requires ValidCfg(ca) && ValidCfg(cb)
    ensures Pair(a, b, Start32(ca, cb)) && fresh(Footprint(a)) && fresh(Footprint(b))
  {
    hide Init, ControlBlock.Ready, ControlBlock.Valid, ControlBlock.State;
    a := new ControlBlock(ca);
    StartsAlike(a, ca);
    b := new ControlBlock(cb);
    StartsAlike(b, cb);
  }

  /** In blocks that mirror anything the lists are in order. */
  lemma Linked(a: ControlBlock, b: ControlBlock, n: Net32)
    requires Pair(a, b, n)
    ensures a.lists.WellLinked() && b.lists.WellLinked()
  {
    a.lists.IsWellLinked();
    b.lists.IsWellLinked();
  }

  /** Drives two fresh control blocks through `es`: at the end they hold the states of the model's run, and in each of
      them every node is on at most one list and every list is a ring of as many segments as its counter says. */
  method Drive(ca: Cfg, cb: Cfg, es: seq<Event>)
    returns (a: ControlBlock, b: ControlBlock,
             sentA: seq<seq<byte>>, gotA: seq<seq<byte>>, sentB: seq<seq<byte>>, gotB: seq<seq<byte>>)
    requires Compatible(ca, cb)
    ensures var n := Run32(Start32(ca, cb), es);
      Pair(a, b, n) && sentA == n.a.sent && gotA == n.a.got && sentB == n.b.sent && gotB == n.b.got
    ensures a.lists.WellLinked() && b.lists.WellLinked()
  {
    hide StepEnd32, Mirrors, Pair, Run32, Step32, Footprint, Segments.WellLinked;
    a, b := TwoBlocks(ca, cb);
    ghost var n, own := Start32(ca, cb), Footprint(a) + Footprint(b);
    sentA, gotA, sentB, gotB := [], [], [], [];
    RunNone(ca, cb);
    for i := 0 to |es|
      invariant n == Run32(Start32(ca, cb), es[..i]) && Pair(a, b, n)
      invariant fresh(own) && Footprint(a) <= own && Footprint(b) <= own
      invariant sentA == n.a.sent && gotA == n.a.got && sentB == n.b.sent && gotB == n.b.got
    {
      RunMore(ca, cb, es, i);
      var sent, got; ghost var more;
      sent, got, n, more := Next(a, b, es[i], n);
      own := own + more;
      if es[i].side.A? {
        sentA, gotA := sentA + sent, gotA + got;
      } else {
        sentB, gotB := sentB + sent, gotB + got;
      }
    }
    assert es[..|es|] == es;
    Linked(a, b, n);
  }

  /** Runs two fresh control blocks through `es`. As long as no number is half the ring late, the messages each
      side's user receives are a prefix of those the other side's user sent. */
  method Simulate(ca: Cfg, cb: Cfg, es: seq<Event>)
    returns (sentA: seq<seq<byte>>, gotA: seq<seq<byte>>, sentB: seq<seq<byte>>, gotB: seq<seq<byte>>)
    requires Compatible(ca, cb)
    ensures var n := Run32(Start32(ca, cb), es);
      sentA == n.a.sent && gotA == n.a.got && sentB == n.b.sent && gotB == n.b.got
    ensures TimelyRun(ca, cb, es) ==> gotB <= sentA && gotA <= sentB
  {
    hide TimelyRun, Run32, Pair, Segments.WellLinked;
    var a, b;
    a, b, sentA, gotA, sentB, gotB := Drive(ca, cb, es);
    if TimelyRun(ca, cb, es) {
      DeliveryIsPrefix32(ca, cb, es);
    }
  }

  lemma RunNone(ca: Cfg, cb: Cfg)
    requires Compatible(ca, cb)
    ensures Run32(Start32(ca, cb), []) == Start32(ca, cb)
  {
  }

  lemma RunMore(ca: Cfg, cb: Cfg, es: seq<Event>, i: nat)
    requires Compatible(ca, cb) && i < |es|
    ensures Run32(Start32(ca, cb), es[..i + 1]) == Step32(Run32(Start32(ca, cb), es[..i]), es[i])
  {
    assert es[..i + 1][..i] == es[..i];
  }

  lemma StartsAlike(b: ControlBlock, cfg: Cfg)
    requires b.Ready() && b.State() == Init(cfg) && b.output == []
    ensures Mirrors(b, End32(Init(cfg), [], [], []))
  {
  }
}
