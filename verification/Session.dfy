/** Sessions multiplexed over one transport: writes cut into framed messages, messages handed to the session they
    name, and each session's bytes arriving as a prefix of what was written to it. */
module Session {
  import opened Bytes
  import opened Sequences
  import opened Serial
  import opened Kcp
  import opened Connection
  import opened ByteRuns
  import opened Refinement
  import opened NibbleCodec
  import opened Framing

  const MTU: int := 1376
  const SESSION_HEADER_SIZE: int := 8
  const MAX_PAYLOAD: int := MTU - SESSION_HEADER_SIZE

  predicate Int32(x: int) {
    -TWO31 <= x < TWO31
  }

  // ---------------------------------------------------------------- frames

  /** A session header, both fields as little-endian words, and the payload. */
  function Frame(sid: int, data: seq<byte>): (m: seq<byte>)
    ensures |m| == SESSION_HEADER_SIZE + |data|
  {
    ToLE(U32(sid), 4) + ToLE(U32(|data|), 4) + data
  }

  /** What the receiver reads of a message: the session, and as many bytes as the header says. */
  datatype Delivery = Delivery(sid: int, data: seq<byte>)

  function Parse(m: seq<byte>): Delivery {
    if |m| < SESSION_HEADER_SIZE then Delivery(0, [])
    else
      var size := FromLE(m[4..8]);
      Delivery(I32(FromLE(m[..4])), m[8..][..Min(size, |m| - 8)])
  }

  lemma ParseOfFrame(sid: int, data: seq<byte>)
    requires Int32(sid) && |data| < TWO31
    ensures Parse(Frame(sid, data)) == Delivery(sid, data)
  {
    var m := Frame(sid, data);
    Pow256Values();
    LERoundTrip(U32(sid), 4);
    LERoundTrip(U32(|data|), 4);
    assert m[..4] == ToLE(U32(sid), 4) && m[4..8] == ToLE(U32(|data|), 4) && m[8..] == data;
    I32Congruent(sid, 0);
    TimeDiffOfWrapped(sid, 0);
  }

  /** A frame, byte by byte: session and size, little-endian, and the payload. */
  lemma FrameLayout(sid: int, data: seq<byte>)
    ensures var m := Frame(sid, data);
      LittleEndian(m, 0, 4, U32(sid)) && LittleEndian(m, 4, 4, U32(|data|)) && m[8..] == data
  {
    var head, size := ToLE(U32(sid), 4), ToLE(U32(|data|), 4);
    ToLEBytes(U32(sid), 4);
    ToLEBytes(U32(|data|), 4);
    hide LittleEndian, ToLE, U32;
    Longer(head, size + data, 0, 4, U32(sid));
    Longer(size, data, 0, 4, U32(|data|));
    Shifted(head, size + data, 0, 4, U32(|data|));
    ConcatAssoc(head, size, data);
  }

  /** The messages of one udp::send. */
  function Split(sid: int, data: seq<byte>): seq<seq<byte>> {
    if |data| > MAX_PAYLOAD then [Frame(sid, data[..MAX_PAYLOAD])] + Split(sid, data[MAX_PAYLOAD..])
    else [Frame(sid, data)]
  }

  /** The payloads for one session, in order of arrival. */
  function Received(ms: seq<seq<byte>>, sid: int): seq<seq<byte>> {
    if ms == [] then []
    else
      var d := Parse(ms[|ms| - 1]);
      Received(ms[..|ms| - 1], sid) + if d.sid == sid then [d.data] else []
  }

  lemma {:induction false} ReceivedConcat(a: seq<seq<byte>>, b: seq<seq<byte>>, sid: int)
    ensures Received(a + b, sid) == Received(a, sid) + Received(b, sid)
  {
    if b == [] {
      assert a + b == a;
    } else {
      var front, last := b[..|b| - 1], b[|b| - 1];
      ReceivedConcat(a, front, sid);
      assert (a + b)[..|a + b| - 1] == a + front;
      ConcatAssoc(Received(a, sid), Received(front, sid), if Parse(last).sid == sid then [Parse(last).data] else []);
    }
  }

  lemma ReceivedOne(m: seq<byte>, sid: int)
    ensures Received([m], sid) == if Parse(m).sid == sid then [Parse(m).data] else []
  {
    assert [m][..0] == [];
  }

  /** A write reaches its own session whole, and no other. */
  lemma {:induction false} ReceivedOfSplit(sid: int, data: seq<byte>, to: int)
    requires Int32(sid)
    ensures Flatten(Received(Split(sid, data), to)) == if sid == to then data else []
    decreases |data|
  {
    hide Frame, Parse, Received;
    if |data| > MAX_PAYLOAD {
      var head, tail := data[..MAX_PAYLOAD], data[MAX_PAYLOAD..];
      ParseOfFrame(sid, head);
      ReceivedOfSplit(sid, tail, to);
      ReceivedConcat([Frame(sid, head)], Split(sid, tail), to);
      ReceivedOne(Frame(sid, head), to);
      FlattenConcat(Received([Frame(sid, head)], to), Received(Split(sid, tail), to));
      FlattenOne(head);
      assert head + tail == data;
    } else {
      ParseOfFrame(sid, data);
      ReceivedOne(Frame(sid, data), to);
      FlattenOne(data);
    }
  }

  /** No message of a write is longer than MTU. */
  lemma {:induction false} SplitFits(sid: int, data: seq<byte>)
    ensures forall i :: 0 <= i < |Split(sid, data)| ==> |Split(sid, data)[i]| <= MTU
    decreases |data|
  {
    if |data| > MAX_PAYLOAD {
      SplitFits(sid, data[MAX_PAYLOAD..]);
    }
  }

  /** A write of `n` bytes: full messages but for the last, which has the rest and is not bare unless the write is;
      and no more of them than it takes. */
  predicate Portions(sid: int, n: nat, ms: seq<seq<byte>>) {
    && ms != []
    && (forall i :: 0 <= i < |ms| ==> Parse(ms[i]).sid == sid)
    && (forall i :: 0 <= i < |ms| - 1 ==> |ms[i]| == MTU)
    && SESSION_HEADER_SIZE <= |ms[|ms| - 1]| <= MTU
    && (|ms[|ms| - 1]| == SESSION_HEADER_SIZE ==> n == 0)
    && n == (|ms| - 1) * MAX_PAYLOAD + |ms[|ms| - 1]| - SESSION_HEADER_SIZE
    && n <= |ms| * MAX_PAYLOAD && (|ms| == 1 || (|ms| - 1) * MAX_PAYLOAD < n)
  }

  lemma FullPortion(sid: int, n: nat, m: seq<byte>, ms: seq<seq<byte>>)
    requires Portions(sid, n, ms) && n > 0 && Parse(m).sid == sid && |m| == MTU
    ensures Portions(sid, n + MAX_PAYLOAD, [m] + ms)
  {
    hide Parse;
    var all := [m] + ms;
    assert forall i :: 1 <= i < |all| ==> all[i] == ms[i - 1];
    assert all[|all| - 1] == ms[|ms| - 1];
  }

  lemma LastPortion(sid: int, n: nat, m: seq<byte>)
    requires Parse(m).sid == sid && |m| == SESSION_HEADER_SIZE + n <= MTU
    ensures Portions(sid, n, [m])
  {
    hide Parse;
  }

  /** udp::send makes the fewest messages that hold the write. */
  lemma {:induction false} SplitExactly(sid: int, data: seq<byte>)
    requires Int32(sid)
    ensures Portions(sid, |data|, Split(sid, data))
    decreases |data|
  {
    hide Frame, Parse, Portions;
    if |data| > MAX_PAYLOAD {
      var head, tail := data[..MAX_PAYLOAD], data[MAX_PAYLOAD..];
      ParseOfFrame(sid, head);
      SplitExactly(sid, tail);
      FullPortion(sid, |tail|, Frame(sid, head), Split(sid, tail));
    } else {
      ParseOfFrame(sid, data);
      LastPortion(sid, |data|, Frame(sid, data));
    }
  }

  // ---------------------------------------------------------------- calls and events

  /** What the program does with its transport: a write on a session, a datagram read and drained, a timer. */
  datatype Call = Write(sid: int, data: seq<byte>) | Read(i: nat) | Timer(current: int)

  datatype SideCall = SideCall(side: Side, call: Call)

  function Sends(ms: seq<seq<byte>>): (r: seq<Action>)
    ensures |r| == |ms| && forall i :: 0 <= i < |ms| ==> r[i] == SendMsg(ms[i])
  {
    seq(|ms|, i requires 0 <= i < |ms| => SendMsg(ms[i]))
  }

  lemma {:induction false} MoveReadyKeepsTotal(w: Width, r: Rcv, rcvWnd: int)
    ensures var r' := MoveReady(w, r, rcvWnd); |r'.queue| + |r'.buf| == |r.queue| + |r.buf|
    decreases |r.buf|
  {
    if r.buf != [] && r.buf[0].sn == r.nxt && |r.queue| < rcvWnd {
      MoveReadyKeepsTotal(w, r.(buf := r.buf[1..], queue := r.queue + [Frag(r.buf[0].frg, r.buf[0].data)],
                                nxt := Wrap(w, r.nxt + 1)), rcvWnd);
    }
  }

  lemma RecvShrinks(w: Width, k: Kcb)
    requires Recv(w, k, MTU).1.code >= 0
    ensures var k' := Recv(w, k, MTU).0; |k'.rcv.queue| + |k'.rcv.buf| < |k.rcv.queue| + |k.rcv.buf|
  {
    MoveReadyKeepsTotal(w, k.rcv.(queue := k.rcv.queue[MsgNodes(k.rcv.queue)..]), k.cfg.rcvWnd);
  }

  /** The receive loop of on_read: until ikcp_recv has nothing more. */
  function Drain(w: Width, k: Kcb): seq<Action>
    decreases |k.rcv.queue| + |k.rcv.buf|
  {
    if Recv(w, k, MTU).1.code >= 0 then
      RecvShrinks(w, k);
      [RecvMsg(MTU)] + Drain(w, Recv(w, k, MTU).0)
    else [RecvMsg(MTU)]
  }

  /** The transport actions of one call. */
  function Actions(x: End32, wire: seq<seq<byte>>, c: Call): seq<Action>
    requires x.kcb.cfg.mss >= 1
  {
    match c
    case Write(sid, data) => Sends(Split(sid, data))
    case Read(i) =>
      if i < |wire| then [Deliver(i)] + Drain(Bits32, StepEnd32(x, wire, Deliver(i)).kcb) else []
    case Timer(current) => [UpdateAt(current)]
  }

  /** The transport events of a run of calls on the two sides, in any interleaving. */
  function Events(ca: Cfg, cb: Cfg, calls: seq<SideCall>): seq<Event>
    requires Compatible(ca, cb)
  {
    if calls == [] then []
    else
      var es, c := Events(ca, cb, calls[..|calls| - 1]), calls[|calls| - 1];
      var n := Run32(Start32(ca, cb), es);
      es + Tag(c.side, Actions(EndOf(n, c.side), EndOf(n, Other(c.side)).out, c.call))
  }

  /** What one more call does to the two sides. */
  lemma OneMoreCall(ca: Cfg, cb: Cfg, calls: seq<SideCall>, c: SideCall)
    requires Compatible(ca, cb)
    ensures var n := Run32(Start32(ca, cb), Events(ca, cb, calls));
      var n' := Run32(Start32(ca, cb), Events(ca, cb, calls + [c]));
      var x, y := EndOf(n, c.side), EndOf(n, Other(c.side));
      && EndOf(n', c.side) == Steps32(x, y.out, Actions(x, y.out, c.call))
      && EndOf(n', Other(c.side)) == y
  {
    hide Actions;
    assert (calls + [c])[..|calls + [c]| - 1] == calls;
    var es := Events(ca, cb, calls);
    var n := Run32(Start32(ca, cb), es);
    var actions := Actions(EndOf(n, c.side), EndOf(n, Other(c.side)).out, c.call);
    Run32Concat(Start32(ca, cb), es, Tag(c.side, actions));
    RunOfTag(n, c.side, actions);
  }

  /** The buffers written to one session by one side. */
  function Written(calls: seq<SideCall>, side: Side, sid: int): seq<seq<byte>> {
    if calls == [] then []
    else
      var c := calls[|calls| - 1];
      Written(calls[..|calls| - 1], side, sid)
      + if c.side == side && c.call.Write? && c.call.sid == sid then [c.call.data] else []
  }

  /** The messages of all writes by one side. */
  function Messages(calls: seq<SideCall>, side: Side): seq<seq<byte>> {
    if calls == [] then []
    else
      var c := calls[|calls| - 1];
      Messages(calls[..|calls| - 1], side)
      + if c.side == side then Added(c.call) else []
  }

  predicate GoodCalls(calls: seq<SideCall>) {
    forall i :: 0 <= i < |calls| && calls[i].call.Write? ==> Int32(calls[i].call.sid)
  }

  /** A transport that takes a whole frame as one message. */
  predicate Carries(cfg: Cfg) {
    cfg.mss >= 1 && MTU <= (IKCP_WND_RCV - 1) * cfg.mss
  }

  // ---------------------------------------------------------------- what is sent

  lemma AcceptsFrames(cfg: Cfg, m: seq<byte>)
    requires Carries(cfg) && |m| <= MTU
    ensures Accepts(cfg, m)
  {
  }

  lemma {:induction false} SendsAreSent(x: End32, wire: seq<seq<byte>>, ms: seq<seq<byte>>)
    requires Carries(x.kcb.cfg) && forall i :: 0 <= i < |ms| ==> |ms[i]| <= MTU
    ensures Steps32(x, wire, Sends(ms)).sent == x.sent + ms
    decreases |ms|
  {
    if ms != [] {
      hide Accepts, Fragments, FragCount;
      AcceptsFrames(x.kcb.cfg, ms[0]);
      assert Sends(ms)[1..] == Sends(ms[1..]);
      SendsAreSent(StepEnd32(x, wire, SendMsg(ms[0])), wire, ms[1..]);
      assert x.sent + [ms[0]] + ms[1..] == x.sent + ms;
    }
  }

  lemma {:induction false} OthersSendNothing(x: End32, wire: seq<seq<byte>>, actions: seq<Action>)
    requires x.kcb.cfg.mss >= 1 && forall i :: 0 <= i < |actions| ==> !actions[i].SendMsg?
    ensures Steps32(x, wire, actions).sent == x.sent
    decreases |actions|
  {
    if actions != [] {
      OthersSendNothing(StepEnd32(x, wire, actions[0]), wire, actions[1..]);
    }
  }

  lemma {:induction false} DrainOnlyReceives(w: Width, k: Kcb)
    ensures forall i :: 0 <= i < |Drain(w, k)| ==> !Drain(w, k)[i].SendMsg?
    decreases |k.rcv.queue| + |k.rcv.buf|
  {
    if Recv(w, k, MTU).1.code >= 0 {
      RecvShrinks(w, k);
      DrainOnlyReceives(w, Recv(w, k, MTU).0);
    }
  }

  function Added(c: Call): seq<seq<byte>> {
    if c.Write? then Split(c.sid, c.data) else []
  }

  /** One call: a write adds its messages to what its side has sent, anything else adds nothing. */
  lemma CallSends(x: End32, wire: seq<seq<byte>>, c: Call)
    requires Carries(x.kcb.cfg)
    ensures Steps32(x, wire, Actions(x, wire, c)).sent == x.sent + Added(c)
  {
    hide Steps32, Split, StepEnd32, Drain;
    if c.Write? {
      SplitFits(c.sid, c.data);
      SendsAreSent(x, wire, Split(c.sid, c.data));
    } else {
      if c.Read? && c.i < |wire| {
        DrainOnlyReceives(Bits32, StepEnd32(x, wire, Deliver(c.i)).kcb);
      }
      OthersSendNothing(x, wire, Actions(x, wire, c));
      assert x.sent + [] == x.sent;
    }
  }

  lemma {:induction false} SentIsMessages(ca: Cfg, cb: Cfg, calls: seq<SideCall>, side: Side)
    requires Compatible(ca, cb) && Carries(ca) && Carries(cb)
    ensures EndOf(Run32(Start32(ca, cb), Events(ca, cb, calls)), side).sent == Messages(calls, side)
  {
    hide Actions, Steps32, Added, Carries, Events, Run32, Tag, Messages;
    if calls == [] {
      NoCalls(ca, cb, side);
    } else {
      var front, c := calls[..|calls| - 1], calls[|calls| - 1];
      assert front + [c] == calls;
      SentIsMessages(ca, cb, front, side);
      OneMoreCall(ca, cb, front, c);
      var n := Run32(Start32(ca, cb), Events(ca, cb, front));
      CallSends(EndOf(n, c.side), EndOf(n, Other(c.side)).out, c.call);
      hide EndOf;
      MessagesMore(front, c, side);
    }
  }

  lemma NoCalls(ca: Cfg, cb: Cfg, side: Side)
    requires Compatible(ca, cb)
    ensures EndOf(Run32(Start32(ca, cb), Events(ca, cb, [])), side).sent == Messages([], side)
  {
  }

  lemma MessagesMore(calls: seq<SideCall>, c: SideCall, side: Side)
    ensures Messages(calls + [c], side) == Messages(calls, side) + if c.side == side then Added(c.call) else []
  {
    assert (calls + [c])[..|calls + [c]| - 1] == calls;
  }

  // ---------------------------------------------------------------- streams

  lemma {:induction false} MessagesHold(calls: seq<SideCall>, side: Side, sid: int)
    requires GoodCalls(calls)
    ensures Flatten(Received(Messages(calls, side), sid)) == Flatten(Written(calls, side, sid))
  {
    if calls != [] {
      var front, c := calls[..|calls| - 1], calls[|calls| - 1];
      MessagesHold(front, side, sid);
      var ms := Messages(front, side);
      assert ms + [] == ms && Written(front, side, sid) + [] == Written(front, side, sid);
      assert Flatten(Written(front, side, sid)) + [] == Flatten(Written(front, side, sid));
      if c.side == side && c.call.Write? {
        var split := Split(c.call.sid, c.call.data);
        ReceivedConcat(ms, split, sid);
        FlattenConcat(Received(ms, sid), Received(split, sid));
        ReceivedOfSplit(c.call.sid, c.call.data, sid);
        if c.call.sid == sid {
          FlattenConcat(Written(front, side, sid), [c.call.data]);
          FlattenOne(c.call.data);
        }
      }
    }
  }

  /** What a prefix of the messages carries for a session is a prefix of what they all carry. */
  lemma ReceivedPrefix(got: seq<seq<byte>>, sent: seq<seq<byte>>, sid: int)
    requires got <= sent
    ensures Flatten(Received(got, sid)) <= Flatten(Received(sent, sid))
  {
    var rest := sent[|got|..];
    assert sent == got + rest;
    ReceivedConcat(got, rest, sid);
    FlattenConcat(Received(got, sid), Received(rest, sid));
  }

  /** For any interleaving of writes over any sessions, with datagrams lost, repeated and reordered, the bytes
      handed to a session are a prefix of the bytes written to it on the other side. */
  lemma StreamsSurvive(ca: Cfg, cb: Cfg, calls: seq<SideCall>, sid: int)
    requires Compatible(ca, cb) && Carries(ca) && Carries(cb) && GoodCalls(calls)
    requires TimelyRun(ca, cb, Events(ca, cb, calls))
    ensures var n := Run32(Start32(ca, cb), Events(ca, cb, calls));
      && Flatten(Received(n.b.got, sid)) <= Flatten(Written(calls, A, sid))
      && Flatten(Received(n.a.got, sid)) <= Flatten(Written(calls, B, sid))
  {
    DeliveryIsPrefix32(ca, cb, Events(ca, cb, calls));
    SentIsMessages(ca, cb, calls, A);
    SentIsMessages(ca, cb, calls, B);
    var n := Run32(Start32(ca, cb), Events(ca, cb, calls));
    MessagesHold(calls, A, sid);
    MessagesHold(calls, B, sid);
    ReceivedPrefix(n.b.got, n.a.sent, sid);
    ReceivedPrefix(n.a.got, n.b.sent, sid);
  }

  /** With each write coded before it is sent and each payload decoded as it arrives, the plain bytes of a
      session arrive as a prefix of the plain bytes written, though the two sides cut the stream differently. */
  lemma CodedStreamsSurvive(ca: Cfg, cb: Cfg, calls: seq<SideCall>, sid: int, plain: seq<seq<byte>>)
    requires Compatible(ca, cb) && Carries(ca) && Carries(cb) && GoodCalls(calls)
    requires TimelyRun(ca, cb, Events(ca, cb, calls))
    ensures var n := Run32(Start32(ca, cb), Events(ca, cb, calls));
      && (Written(calls, A, sid) == SwapEach(plain) ==> Flatten(SwapEach(Received(n.b.got, sid))) <= Flatten(plain))
      && (Written(calls, B, sid) == SwapEach(plain) ==> Flatten(SwapEach(Received(n.a.got, sid))) <= Flatten(plain))
  {
    StreamsSurvive(ca, cb, calls, sid);
    var n := Run32(Start32(ca, cb), Events(ca, cb, calls));
    if Written(calls, A, sid) == SwapEach(plain) {
      DecodeUndoesEncode(plain, Received(n.b.got, sid));
    }
    if Written(calls, B, sid) == SwapEach(plain) {
      DecodeUndoesEncode(plain, Received(n.a.got, sid));
    }
  }
}
