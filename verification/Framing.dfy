/** The bytes of a datagram: where each field of a header is, how full datagrams are, and what ikcp_input makes of
    bytes that are not all good segments. */
module Framing {
  import opened Bytes
  import opened Sequences
  import opened Serial
  import opened Kcp
  import opened Wire

  // ---------------------------------------------------------------- layout

  /** `n` bytes of `b` from `at` on are `v`, least significant first. */
  predicate LittleEndian(b: seq<byte>, at: nat, n: nat, v: int) {
    && at + n <= |b|
    && (n > 0 ==> b[at] == v % 0x100)
    && (n > 1 ==> b[at + 1] == v / 0x100 % 0x100)
    && (n > 2 ==> b[at + 2] == v / 0x1_0000 % 0x100)
    && (n > 3 ==> b[at + 3] == v / 0x100_0000 % 0x100)
  }

  lemma ToLEBytes(x: nat, n: nat)
    requires n <= 4
    ensures LittleEndian(ToLE(x, n), 0, n, x)
  {
    if n > 0 {
      assert ToLE(x, n)[1..] == ToLE(x / 0x100, n - 1);
    }
    if n > 1 {
      assert ToLE(x / 0x100, n - 1)[1..] == ToLE(x / 0x1_0000, n - 2);
    }
    if n > 2 {
      assert ToLE(x / 0x1_0000, n - 2)[1..] == ToLE(x / 0x100_0000, n - 3);
    }
  }

  /** The bytes of the widths `widths` from position `at` on hold the values, one after another. */
  predicate LaidOut(b: seq<byte>, at: nat, widths: seq<nat>, values: seq<nat>)
    requires |widths| == |values|
    decreases |widths|
  {
    widths == [] || (LittleEndian(b, at, widths[0], values[0]) && LaidOut(b, at + widths[0], widths[1..], values[1..]))
  }

  lemma Shifted(a: seq<byte>, b: seq<byte>, at: nat, n: nat, v: int)
    requires LittleEndian(b, at, n, v)
    ensures LittleEndian(a + b, |a| + at, n, v)
  {
  }

  lemma {:induction false} ShiftedAll(a: seq<byte>, b: seq<byte>, at: nat, widths: seq<nat>, values: seq<nat>)
    requires |widths| == |values| && LaidOut(b, at, widths, values)
    ensures LaidOut(a + b, |a| + at, widths, values)
    decreases |widths|
  {
    if widths != [] {
      hide LittleEndian;
      Shifted(a, b, at, widths[0], values[0]);
      ShiftedAll(a, b, at + widths[0], widths[1..], values[1..]);
    }
  }

  lemma Longer(b: seq<byte>, c: seq<byte>, at: nat, n: nat, v: int)
    requires LittleEndian(b, at, n, v)
    ensures LittleEndian(b + c, at, n, v)
  {
  }

  lemma {:induction false} FieldsLaidOut(widths: seq<nat>, values: seq<nat>)
    requires |widths| == |values| && forall i :: 0 <= i < |widths| ==> widths[i] <= 4
    ensures LaidOut(EncodeFields(widths, values), 0, widths, values)
  {
    if widths != [] {
      hide LittleEndian, ToLE;
      var head, tail := ToLE(values[0], widths[0]), EncodeFields(widths[1..], values[1..]);
      ToLEBytes(values[0], widths[0]);
      Longer(head, tail, 0, widths[0], values[0]);
      FieldsLaidOut(widths[1..], values[1..]);
      ShiftedAll(head, tail, 0, widths[1..], values[1..]);
    }
  }

  /** A header: conversation, command, fragments to come, window, time stamp, number, una and length, each
      little-endian at its place, cut to its width. */
  lemma HeaderLayout(p: Packet)
    ensures var h := Header(p);
      && LittleEndian(h, 0, 4, U32(p.conv))
      && LittleEndian(h, 4, 1, p.cmd % 0x100)
      && LittleEndian(h, 5, 1, p.frg % 0x100)
      && LittleEndian(h, 6, 2, p.wnd % 0x1_0000)
      && LittleEndian(h, 8, 4, U32(p.ts))
      && LittleEndian(h, 12, 4, U32(p.sn))
      && LittleEndian(h, 16, 4, U32(p.una))
      && LittleEndian(h, 20, 4, U32(|p.data|))
  {
    hide LittleEndian, EncodeFields;
    var v := Fields(p);
    FieldsLaidOut(WIDTHS, v);
    var h := Header(p);
    hide Header, Fields, U32;
    Unrolled(h, v);
  }

  lemma Unrolled(b: seq<byte>, v: seq<nat>)
    requires |v| == |WIDTHS| && LaidOut(b, 0, WIDTHS, v)
    ensures LittleEndian(b, 0, 4, v[0]) && LittleEndian(b, 4, 1, v[1]) && LittleEndian(b, 5, 1, v[2])
    ensures LittleEndian(b, 6, 2, v[3]) && LittleEndian(b, 8, 4, v[4]) && LittleEndian(b, 12, 4, v[5])
    ensures LittleEndian(b, 16, 4, v[6]) && LittleEndian(b, 20, 4, v[7])
  {
    hide LittleEndian;
    assert LaidOut(b, 4, WIDTHS[1..], v[1..]);
    assert WIDTHS[1..][1..] == WIDTHS[2..] && v[1..][1..] == v[2..];
    assert LaidOut(b, 5, WIDTHS[2..], v[2..]);
    assert WIDTHS[2..][1..] == WIDTHS[3..] && v[2..][1..] == v[3..];
    assert LaidOut(b, 6, WIDTHS[3..], v[3..]);
    assert WIDTHS[3..][1..] == WIDTHS[4..] && v[3..][1..] == v[4..];
    assert LaidOut(b, 8, WIDTHS[4..], v[4..]);
    assert WIDTHS[4..][1..] == WIDTHS[5..] && v[4..][1..] == v[5..];
    assert LaidOut(b, 12, WIDTHS[5..], v[5..]);
    assert WIDTHS[5..][1..] == WIDTHS[6..] && v[5..][1..] == v[6..];
    assert LaidOut(b, 16, WIDTHS[6..], v[6..]);
    assert WIDTHS[6..][1..] == WIDTHS[7..] && v[6..][1..] == v[7..];
    assert LaidOut(b, 20, WIDTHS[7..], v[7..]);
  }

  // ---------------------------------------------------------------- packing

  /** A datagram `d` has no room for the first segment of `next`. */
  predicate NoRoom(mtu: int, d: seq<Packet>, next: seq<Packet>) {
    next != [] && Size(d) + PacketSize(next[0]) > mtu
  }

  predicate Tight(mtu: int, ds: seq<seq<Packet>>) {
    forall i :: 0 < i < |ds| ==> NoRoom(mtu, ds[i - 1], ds[i])
  }

  lemma {:induction false} PackBegins(mtu: int, cur: seq<Packet>, ps: seq<Packet>)
    requires cur != []
    ensures Pack(mtu, cur, ps) != [] && Pack(mtu, cur, ps)[0] != [] && Pack(mtu, cur, ps)[0][0] == cur[0]
    decreases |ps|
  {
    if ps != [] && Size(cur) + PacketSize(ps[0]) <= mtu {
      PackBegins(mtu, cur + [ps[0]], ps[1..]);
    }
  }

  lemma TightCons(mtu: int, d: seq<Packet>, ds: seq<seq<Packet>>)
    requires Tight(mtu, ds) && (ds != [] ==> NoRoom(mtu, d, ds[0]))
    ensures Tight(mtu, [d] + ds)
  {
    hide NoRoom;
    var all := [d] + ds;
    forall i | 0 < i < |all| ensures NoRoom(mtu, all[i - 1], all[i]) {
      if i > 1 {
        assert NoRoom(mtu, ds[i - 2], ds[i - 1]);
      }
    }
  }

  /** A datagram is closed only when the next segment does not fit beside what is in it. */
  lemma {:induction false} PacksTight(mtu: int, cur: seq<Packet>, ps: seq<Packet>)
    ensures Tight(mtu, Pack(mtu, cur, ps))
    decreases |ps|
  {
    hide Size, Tight;
    if ps == [] {
      OneTight(mtu, cur);
    } else if Size(cur) + PacketSize(ps[0]) > mtu {
      PackBegins(mtu, [ps[0]], ps[1..]);
      PacksTight(mtu, [ps[0]], ps[1..]);
      var rest := Pack(mtu, [ps[0]], ps[1..]);
      if cur != [] {
        TightCons(mtu, cur, rest);
      } else {
        assert [] + rest == rest;
      }
    } else {
      PacksTight(mtu, cur + [ps[0]], ps[1..]);
    }
  }

  lemma OneTight(mtu: int, cur: seq<Packet>)
    ensures Tight(mtu, Emit(cur))
  {
  }

  // ---------------------------------------------------------------- bytes that are not all segments

  lemma OneParsed(st: InputState, p: Packet, rest: seq<byte>, prevUna: int)
    requires st.k.cfg.mss >= 1 && Acceptable(p, st.k.cfg.conv)
    ensures var st1 := InputState(InputPacket(Bits32, st.k, p), InputAck(Bits32, st.ack, p));
      st1.k.cfg == st.k.cfg && InputLoop(st, Encode(p) + rest, prevUna) == InputLoop(st1, rest, prevUna)
  {
    CfgStays(st.k, p);
    hide InputPacket, Header, DecodeHeader, FinishInput;
    HeaderRoundTrip(p, p.data + rest);
    ConcatAssoc(Header(p), p.data, rest);
    var body := (Encode(p) + rest)[IKCP_OVERHEAD..];
    assert body == p.data + rest && body[..|p.data|] == p.data && body[|p.data|..] == rest;
    assert p.(data := []).(data := body[..|p.data|]) == p;
  }

  lemma CfgStays(k: Kcb, p: Packet)
    ensures InputPacket(Bits32, k, p).cfg == k.cfg
  {
  }

  /** After good segments the loop is where it would be if it had started with what follows. */
  lemma {:induction false} LoopPasses(st: InputState, ps: seq<Packet>, t: seq<byte>, prevUna: int)
    requires st.k.cfg.mss >= 1
    requires forall p :: p in ps ==> Acceptable(p, st.k.cfg.conv)
    ensures InputPackets(Bits32, st, ps).k.cfg == st.k.cfg
    ensures InputLoop(st, EncodeAll(ps) + t, prevUna) == InputLoop(InputPackets(Bits32, st, ps), t, prevUna)
    decreases |ps|
  {
    InputKeepsCfg(Bits32, st, ps);
    hide InputPacket, InputLoop, Encode, Acceptable;
    if ps == [] {
      assert EncodeAll(ps) + t == t;
    } else {
      assert ps[0] in ps;
      OneParsed(st, ps[0], EncodeAll(ps[1..]) + t, prevUna);
      ConcatAssoc(Encode(ps[0]), EncodeAll(ps[1..]), t);
      LoopPasses(InputState(InputPacket(Bits32, st.k, ps[0]), InputAck(Bits32, st.ack, ps[0])), ps[1..], t, prevUna);
    }
  }

  /** How the loop stops: at a tail too short for a header it finishes, with 0; at a segment of another conversation,
      one cut short, or one with an unknown command it stops with -1, -2 or -3, and nothing after the segments before
      it is done. */
  lemma InputStops(k: Kcb, ps: seq<Packet>, q: Packet, t: seq<byte>)
    requires k.cfg.mss >= 1 && Encodable(q)
    requires forall p :: p in ps ==> Acceptable(p, k.cfg.conv)
    ensures var k' := InputPackets(Bits32, InputState(k, NoAck), ps).k; var good := EncodeAll(ps);
      && (|t| < IKCP_OVERHEAD && ps != [] ==> Input(k, good + t) == (InputDatagram(Bits32, k, ps), 0))
      && (|t| < IKCP_OVERHEAD && ps == [] ==> Input(k, good + t) == (k, -1))
      && (q.conv != k.cfg.conv ==> Input(k, good + (Header(q) + t)) == (k', -1))
      && (q.conv == k.cfg.conv && |t| < |q.data| ==> Input(k, good + (Header(q) + t)) == (k', -2))
      && (q.conv == k.cfg.conv && |q.data| <= |t| && !(81 <= q.cmd <= 84) ==>
            Input(k, good + (Header(q) + t)) == (k', -3))
  {
    hide InputPackets, Header, DecodeHeader, EncodeFields, FinishInput;
    LoopPasses(InputState(k, NoAck), ps, t, k.snd.una);
    LoopPasses(InputState(k, NoAck), ps, Header(q) + t, k.snd.una);
    HeaderRoundTrip(q, t);
    assert (Header(q) + t)[IKCP_OVERHEAD..] == t;
    if ps == [] {
      assert EncodeAll(ps) + t == t;
    } else {
      assert |EncodeAll(ps)| >= |Encode(ps[0])|;
    }
  }
}
