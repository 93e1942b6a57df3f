/** Two endpoints as the program has them, with 32-bit sequence numbers and datagrams of bytes, over a network that
    loses, repeats and reorders datagrams; and what they put on it. */
module ByteRuns {
  import opened Bytes
  import opened Serial
  import opened Kcp
  import opened Wire
  import opened Connection
  import opened Datagrams

  datatype End32 = End32(kcb: Kcb, sent: seq<seq<byte>>, got: seq<seq<byte>>, out: seq<seq<byte>>)

  function Emitted32(x: End32, k: Kcb, ps: seq<Packet>): End32 {
    x.(kcb := k, out := x.out + EncodeEach(Pack(x.kcb.cfg.mtu, [], ps)))
  }

  lemma {:induction false} InputLoopKeepsCfg(st: InputState, b: seq<byte>, prevUna: int)
    requires st.k.cfg.mss >= 1
    ensures InputLoop(st, b, prevUna).0.cfg == st.k.cfg
    decreases |b|
  {
    if |b| >= IKCP_OVERHEAD {
      var (h, len) := DecodeHeader(b);
      var body := b[IKCP_OVERHEAD..];
      if h.conv == st.k.cfg.conv && len <= |body| && I32(len) >= 0 && KnownCmd(h.cmd) {
        var p := h.(data := body[..len]);
        InputLoopKeepsCfg(InputState(InputPacket(Bits32, st.k, p), InputAck(Bits32, st.ack, p)), body[len..], prevUna);
      }
    }
  }

  function StepEnd32(x: End32, wire: seq<seq<byte>>, a: Action): (x': End32)
    requires x.kcb.cfg.mss >= 1
    ensures x'.kcb.cfg == x.kcb.cfg
  {
    match a
    case SendMsg(msg) =>
      var (k, code) := Send(x.kcb, msg);
      x.(kcb := k, sent := if code == 0 then x.sent + [msg] else x.sent)
    case RecvMsg(maxLen) =>
      var (k, r) := Recv(Bits32, x.kcb, maxLen);
      x.(kcb := k, got := if r.code >= 0 && maxLen >= 0 then x.got + [r.data] else x.got)
    case Deliver(i) =>
      if i < |wire| then
        InputLoopKeepsCfg(InputState(x.kcb, NoAck), wire[i], x.kcb.snd.una);
        x.(kcb := Input(x.kcb, wire[i]).0)
      else x
    case FlushNow =>
      var (k, ps) := Flush(Bits32, x.kcb);
      Emitted32(x, k, ps)
    case UpdateAt(current) =>
      var (k, ps) := Update(Bits32, x.kcb, U32(current));
      Emitted32(x, k, ps)
  }

  datatype Net32 = Net32(a: End32, b: End32)

  function Step32(n: Net32, e: Event): (n': Net32)
    requires n.a.kcb.cfg.mss >= 1 && n.b.kcb.cfg.mss >= 1
    ensures n'.a.kcb.cfg == n.a.kcb.cfg && n'.b.kcb.cfg == n.b.kcb.cfg
  {
    if e.side.A? then n.(a := StepEnd32(n.a, n.b.out, e.action)) else n.(b := StepEnd32(n.b, n.a.out, e.action))
  }

  function Run32(n: Net32, es: seq<Event>): (n': Net32)
    requires n.a.kcb.cfg.mss >= 1 && n.b.kcb.cfg.mss >= 1
    ensures n'.a.kcb.cfg == n.a.kcb.cfg && n'.b.kcb.cfg == n.b.kcb.cfg
  {
    if es == [] then n else Step32(Run32(n, es[..|es| - 1]), es[|es| - 1])
  }

  function Start32(ca: Cfg, cb: Cfg): Net32 {
    Net32(End32(Init(ca), [], [], []), End32(Init(cb), [], [], []))
  }

  function EndOf(n: Net32, side: Side): End32 {
    if side.A? then n.a else n.b
  }

  // ---------------------------------------------------------------- several actions of one side

  function Steps32(x: End32, wire: seq<seq<byte>>, actions: seq<Action>): (x': End32)
    requires x.kcb.cfg.mss >= 1
    ensures x'.kcb.cfg == x.kcb.cfg
    decreases |actions|
  {
    if actions == [] then x else Steps32(StepEnd32(x, wire, actions[0]), wire, actions[1..])
  }

  function Tag(side: Side, actions: seq<Action>): (r: seq<Event>)
    ensures |r| == |actions| && forall i :: 0 <= i < |r| ==> r[i] == Event(side, actions[i])
  {
    seq(|actions|, i requires 0 <= i < |actions| => Event(side, actions[i]))
  }

  lemma {:induction false} Run32Concat(n: Net32, a: seq<Event>, b: seq<Event>)
    requires n.a.kcb.cfg.mss >= 1 && n.b.kcb.cfg.mss >= 1
    ensures Run32(n, a + b) == Run32(Run32(n, a), b)
  {
    hide Step32;
    if b == [] {
      assert a + b == a;
    } else {
      Run32Concat(n, a, b[..|b| - 1]);
      assert (a + b)[..|a + b| - 1] == a + b[..|b| - 1];
    }
  }

  lemma RunOne(n: Net32, e: Event)
    requires n.a.kcb.cfg.mss >= 1 && n.b.kcb.cfg.mss >= 1
    ensures Run32(n, [e]) == Step32(n, e)
  {
    assert [e][..0] == [];
  }

  /** They are its own business: the other side stays as it is. */
  lemma {:induction false} RunOfTag(n: Net32, side: Side, actions: seq<Action>)
    requires n.a.kcb.cfg.mss >= 1 && n.b.kcb.cfg.mss >= 1
    ensures var n' := Run32(n, Tag(side, actions)); var x, y := EndOf(n, side), EndOf(n, Other(side));
      EndOf(n', side) == Steps32(x, y.out, actions) && EndOf(n', Other(side)) == y
    decreases |actions|
  {
    if actions != [] {
      hide StepEnd32;
      var e, rest := Event(side, actions[0]), actions[1..];
      assert Tag(side, actions) == [e] + Tag(side, rest);
      RunOne(n, e);
      Run32Concat(n, [e], Tag(side, rest));
      RunOfTag(Step32(n, e), side, rest);
    }
  }

  // ---------------------------------------------------------------- what is put on the network

  /** The segments an action flushes. */
  function FlushedBy(x: End32, a: Action): seq<Packet> {
    match a
    case FlushNow => Flush(Bits32, x.kcb).1
    case UpdateAt(current) => Update(Bits32, x.kcb, U32(current)).1
    case _ => []
  }

  /** The segments that `side` packed into each of its datagrams, in the order of the datagrams. */
  function Packed(ca: Cfg, cb: Cfg, es: seq<Event>, side: Side): seq<seq<Packet>>
    requires Compatible(ca, cb)
  {
    if es == [] then []
    else
      var front, e := es[..|es| - 1], es[|es| - 1];
      var x := EndOf(Run32(Start32(ca, cb), front), side);
      Packed(ca, cb, front, side)
      + (if e.side == side then Pack(x.kcb.cfg.mtu, [], FlushedBy(x, e.action)) else [])
  }

  /** The block an action flushes, if it flushes one. */
  function Flushing(x: End32, a: Action): Kcb {
    match a
    case UpdateAt(current) => x.kcb.(clock := Tick(x.kcb.clock, x.kcb.cfg.interval, U32(current)).0)
    case _ => x.kcb
  }

  lemma StepSound(x: End32, wire: seq<seq<byte>>, a: Action)
    requires Sound(x.kcb)
    ensures Sound(StepEnd32(x, wire, a).kcb)
    ensures forall d :: d in Pack(x.kcb.cfg.mtu, [], FlushedBy(x, a)) ==> Parses(d, x.kcb.cfg)
    ensures StepEnd32(x, wire, a).out == x.out + EncodeEach(Pack(x.kcb.cfg.mtu, [], FlushedBy(x, a)))
  {
    assert Pack(x.kcb.cfg.mtu, [], []) == [] && EncodeEach([]) == [] && x.out + [] == x.out;
    var k := Flushing(x, a);
    assert Sound(k);
    match a
    case SendMsg(msg) => SendSound(x.kcb, msg);
    case RecvMsg(maxLen) => RecvSound(x.kcb, maxLen);
    case Deliver(i) =>
      if i < |wire| {
        InputSound(x.kcb, wire[i]);
      }
    case FlushNow =>
      FlushSound(k);
      FlushParses(k);
    case UpdateAt(current) =>
      FlushSound(k);
      FlushParses(k);
  }

  lemma {:induction false} RunSound(ca: Cfg, cb: Cfg, es: seq<Event>, side: Side)
    requires Compatible(ca, cb)
    ensures var x := EndOf(Run32(Start32(ca, cb), es), side);
      && Sound(x.kcb) && x.kcb.cfg == EndOf(Start32(ca, cb), side).kcb.cfg
      && x.out == EncodeEach(Packed(ca, cb, es, side))
    ensures forall d :: d in Packed(ca, cb, es, side) ==> Parses(d, EndOf(Start32(ca, cb), side).kcb.cfg)
  {
    if es == [] {
      InitIsSound(ca);
      InitIsSound(cb);
      assert EncodeEach([]) == [];
    } else {
      var front, e := es[..|es| - 1], es[|es| - 1];
      RunSound(ca, cb, front, side);
      if e.side == side {
        var n := Run32(Start32(ca, cb), front);
        var x := EndOf(n, side);
        StepSound(x, EndOf(n, Other(side)).out, e.action);
        EncodeEachConcat(Packed(ca, cb, front, side), Pack(x.kcb.cfg.mtu, [], FlushedBy(x, e.action)));
      }
    }
  }

  /** In every run of the program no datagram is empty or over the mtu. */
  lemma DatagramsFit(ca: Cfg, cb: Cfg, es: seq<Event>, i: nat)
    requires Compatible(ca, cb)
    ensures var n := Run32(Start32(ca, cb), es);
      && (i < |n.a.out| ==> 0 < |n.a.out[i]| <= ca.mtu)
      && (i < |n.b.out| ==> 0 < |n.b.out[i]| <= cb.mtu)
  {
    DatagramsParse(ca, cb, es, A, i, Init(ca));
    DatagramsParse(ca, cb, es, B, i, Init(ca));
  }

  /** In every run each datagram holds the segments that its flush packed into it; and a block of the same
      conversation, in whatever state it finds it, takes it whole and with return code 0: what it makes of the bytes
      is what those segments, in order, call for. */
  lemma DatagramsParse(ca: Cfg, cb: Cfg, es: seq<Event>, side: Side, i: nat, peer: Kcb)
    requires Compatible(ca, cb) && peer.cfg.mss >= 1 && peer.cfg.conv == ca.conv
    ensures var out, ds := EndOf(Run32(Start32(ca, cb), es), side).out, Packed(ca, cb, es, side);
      && |out| == |ds|
      && (i < |ds| ==>
        && out[i] == EncodeAll(ds[i])
        && 0 < |out[i]| <= EndOf(Start32(ca, cb), side).kcb.cfg.mtu
        && Input(peer, out[i]) == (InputDatagram(Bits32, peer, ds[i]), 0))
  {
    RunSound(ca, cb, es, side);
    var ds := Packed(ca, cb, es, side);
    if i < |ds| {
      assert ds[i] in ds;
      ParsesMeans(ds[i], EndOf(Start32(ca, cb), side).kcb.cfg, peer);
    }
  }
}
