/** Segments as bytes, and how a flush packs them into datagrams. */
module Wire {
  import opened Bytes
  import opened Sequences
  import opened Serial
  import opened Kcp

  /** A packet all of whose fields fit the header. */
  predicate Encodable(p: Packet) {
    && 0 <= p.conv < TWO32 && 0 <= p.cmd < 0x100 && 0 <= p.frg < 0x100 && 0 <= p.wnd < 0x1_0000
    && 0 <= p.ts < TWO32 && 0 <= p.sn < TWO32 && 0 <= p.una < TWO32 && |p.data| < TWO31
  }

  // ------------------------------------------------------------- segment headers

  /** The widths in bytes of conv, cmd, frg, wnd, ts, sn, una and len. */
  const WIDTHS: seq<nat> := [4, 1, 1, 2, 4, 4, 4, 4]

  function EncodeFields(widths: seq<nat>, values: seq<nat>): seq<byte>
    requires |widths| == |values|
  {
    if widths == [] then [] else ToLE(values[0], widths[0]) + EncodeFields(widths[1..], values[1..])
  }

  function Total(widths: seq<nat>): nat {
    if widths == [] then 0 else widths[0] + Total(widths[1..])
  }

  function DecodeFields(widths: seq<nat>, b: seq<byte>): (vs: seq<nat>)
    requires |b| >= Total(widths)
    ensures |vs| == |widths|
  {
    if widths == [] then [] else [FromLE(b[..widths[0]])] + DecodeFields(widths[1..], b[widths[0]..])
  }

  predicate Fit(widths: seq<nat>, values: seq<nat>) {
    |widths| == |values| && forall i :: 0 <= i < |widths| ==> values[i] < Pow256(widths[i])
  }

  lemma FitTail(widths: seq<nat>, values: seq<nat>)
    requires Fit(widths, values) && widths != []
    ensures |values| == |widths| && values[0] < Pow256(widths[0]) && Fit(widths[1..], values[1..])
  {
  }

  lemma FirstField(widths: seq<nat>, head: seq<byte>, more: seq<byte>)
    requires widths != [] && |head| == widths[0] && |more| >= Total(widths[1..])
    ensures DecodeFields(widths, head + more) == [FromLE(head)] + DecodeFields(widths[1..], more)
  {
    var b := head + more;
    assert b[..widths[0]] == head && b[widths[0]..] == more;
  }

  lemma {:induction false} FieldsRoundTrip(widths: seq<nat>, values: seq<nat>, rest: seq<byte>)
    requires Fit(widths, values)
    ensures |EncodeFields(widths, values)| == Total(widths)
    ensures DecodeFields(widths, EncodeFields(widths, values) + rest) == values
  {
    if widths != [] {
      var head, tail := ToLE(values[0], widths[0]), EncodeFields(widths[1..], values[1..]);
      FitTail(widths, values);
      hide Fit, ToLE, FromLE, Pow256, DecodeFields;
      LERoundTrip(values[0], widths[0]);
      FieldsRoundTrip(widths[1..], values[1..], rest);
      FirstField(widths, head, tail + rest);
      ConcatAssoc(head, tail, rest);
      assert [values[0]] + values[1..] == values;
    } else {
      assert DecodeFields([], EncodeFields([], []) + rest) == [];
    }
  }

  lemma HeaderIs24()
    ensures Total(WIDTHS) == IKCP_OVERHEAD
  {
    assert Total([4]) == 4;
    assert Total([4, 4, 4, 4]) == 16 by {
      assert Total([4, 4]) == 8;
      assert Total([4, 4, 4]) == 12;
    }
    assert Total([1, 2, 4, 4, 4, 4]) == 19 by {
      assert Total([2, 4, 4, 4, 4]) == 18;
    }
  }

  /** The header fields, each cut to its width as ikcp_encode_seg does. */
  function Fields(p: Packet): (vs: seq<nat>)
    ensures |vs| == |WIDTHS|
  {
    [U32(p.conv), p.cmd % 0x100, p.frg % 0x100, p.wnd % 0x1_0000, U32(p.ts), U32(p.sn), U32(p.una), U32(|p.data|)]
  }

  lemma FieldsFit(p: Packet)
    ensures Fit(WIDTHS, Fields(p))
  {
    Pow256Values();
  }

  function Header(p: Packet): (h: seq<byte>)
    ensures |h| == IKCP_OVERHEAD
  {
    FieldsFit(p);
    FieldsRoundTrip(WIDTHS, Fields(p), []);
    HeaderIs24();
    EncodeFields(WIDTHS, Fields(p))
  }

  function Encode(p: Packet): (b: seq<byte>)
    ensures |b| == PacketSize(p)
  {
    Header(p) + p.data
  }

  function EncodeAll(ps: seq<Packet>): seq<byte> {
    if ps == [] then [] else Encode(ps[0]) + EncodeAll(ps[1..])
  }

  /** The header at the front of `b` as a packet without data, and its length field. */
  function DecodeHeader(b: seq<byte>): (Packet, nat)
    requires |b| >= IKCP_OVERHEAD
  {
    HeaderIs24();
    var v := DecodeFields(WIDTHS, b);
    (Packet(v[0], v[1], v[2], v[3], v[4], v[5], v[6], []), v[7])
  }

  /** Decoding a header undoes encoding it, whatever bytes follow. */
  lemma HeaderRoundTrip(p: Packet, rest: seq<byte>)
    requires Encodable(p)
    ensures DecodeHeader(Header(p) + rest) == (p.(data := []), |p.data|)
  {
    FieldsFit(p);
    FieldsRoundTrip(WIDTHS, Fields(p), rest);
  }

  // ------------------------------------------------------------- ikcp_input on bytes

  /** The loop of ikcp_input over the bytes that remain; an error leaves what earlier segments did in place. */
  function InputLoop(st: InputState, b: seq<byte>, prevUna: int): (Kcb, int)
    requires st.k.cfg.mss >= 1
    decreases |b|
  {
    if |b| < IKCP_OVERHEAD then (FinishInput(Bits32, st, prevUna), 0)
    else
      var (h, len) := DecodeHeader(b);
      var body := b[IKCP_OVERHEAD..];
      if h.conv != st.k.cfg.conv then (st.k, -1)
      else if |body| < len || I32(len) < 0 then (st.k, -2)
      else if !KnownCmd(h.cmd) then (st.k, -3)
      else
        var p := h.(data := body[..len]);
        InputLoop(InputState(InputPacket(Bits32, st.k, p), InputAck(Bits32, st.ack, p)), body[len..], prevUna)
  }

  function Input(k: Kcb, b: seq<byte>): (Kcb, int)
    requires k.cfg.mss >= 1
  {
    if |b| < IKCP_OVERHEAD then (k, -1) else InputLoop(InputState(k, NoAck), b, k.snd.una)
  }

  predicate Acceptable(p: Packet, conv: int) {
    Encodable(p) && p.conv == conv && KnownCmd(p.cmd)
  }

  lemma {:induction false} InputLoopOfEncoded(st: InputState, ps: seq<Packet>, prevUna: int)
    requires st.k.cfg.mss >= 1
    requires forall p :: p in ps ==> Acceptable(p, st.k.cfg.conv)
    ensures InputPackets(Bits32, st, ps).k.cfg == st.k.cfg
    ensures InputLoop(st, EncodeAll(ps), prevUna) == (FinishInput(Bits32, InputPackets(Bits32, st, ps), prevUna), 0)
    decreases |ps|
  {
    InputKeepsCfg(Bits32, st, ps);
    if ps != [] {
      var p := ps[0];
      var rest := EncodeAll(ps[1..]);
      var b := EncodeAll(ps);
      assert Acceptable(p, st.k.cfg.conv);
      assert b == Header(p) + (p.data + rest);
      HeaderRoundTrip(p, p.data + rest);
      var body := b[IKCP_OVERHEAD..];
      assert body == p.data + rest;
      assert body[..|p.data|] == p.data && body[|p.data|..] == rest;
      assert p.(data := []).(data := body[..|p.data|]) == p;
      InputLoopOfEncoded(InputState(InputPacket(Bits32, st.k, p), InputAck(Bits32, st.ack, p)), ps[1..], prevUna);
    }
  }

  /** A datagram of well-formed segments is parsed back, with return code 0, into exactly those segments in order. */
  lemma InputOfEncoded(k: Kcb, ps: seq<Packet>)
    requires k.cfg.mss >= 1 && ps != []
    requires forall p :: p in ps ==> Acceptable(p, k.cfg.conv)
    ensures Input(k, EncodeAll(ps)) == (InputDatagram(Bits32, k, ps), 0)
  {
    InputLoopOfEncoded(InputState(k, NoAck), ps, k.snd.una);
    assert |EncodeAll(ps)| >= |Encode(ps[0])|;
  }

  // ------------------------------------------------------------- packing

  function PacketSize(p: Packet): nat {
    IKCP_OVERHEAD + |p.data|
  }

  function Size(ps: seq<Packet>): nat {
    if ps == [] then 0 else Size(ps[..|ps| - 1]) + PacketSize(ps[|ps| - 1])
  }

  /** What ikcp_output gets to see of a pending datagram: an empty one is not sent. */
  function Emit(cur: seq<Packet>): seq<seq<Packet>> {
    if cur == [] then [] else [cur]
  }

  /** The datagrams of a flush that has `cur` in its buffer and `ps` still to write. */
  function Pack(mtu: int, cur: seq<Packet>, ps: seq<Packet>): seq<seq<Packet>>
    decreases |ps|
  {
    if ps == [] then Emit(cur)
    else if Size(cur) + PacketSize(ps[0]) > mtu then Emit(cur) + Pack(mtu, [ps[0]], ps[1..])
    else Pack(mtu, cur + [ps[0]], ps[1..])
  }

  /** Packing loses, repeats and reorders nothing. */
  lemma {:induction false} PackFlattens(mtu: int, cur: seq<Packet>, ps: seq<Packet>)
    ensures Flatten(Pack(mtu, cur, ps)) == cur + ps
    decreases |ps|
  {
    if ps == [] {
      assert Flatten([cur]) == cur + Flatten([]);
    } else if Size(cur) + PacketSize(ps[0]) > mtu {
      PackFlattens(mtu, [ps[0]], ps[1..]);
      var tail := Pack(mtu, [ps[0]], ps[1..]);
      assert [ps[0]] + ps[1..] == ps;
      if cur != [] {
        assert ([cur] + tail)[1..] == tail;
      } else {
        assert [] + tail == tail;
      }
    } else {
      PackFlattens(mtu, cur + [ps[0]], ps[1..]);
      assert cur + [ps[0]] + ps[1..] == cur + ps;
    }
  }

  lemma SizeOfOne(p: Packet)
    ensures Size([p]) == PacketSize(p)
  {
    assert [p][..0] == [];
  }

  lemma SizeOfMore(ps: seq<Packet>, p: Packet)
    ensures Size(ps + [p]) == Size(ps) + PacketSize(p)
  {
    assert (ps + [p])[..|ps + [p]| - 1] == ps;
  }

  /** No datagram is empty or larger than the mtu. */
  lemma {:induction false} PackFits(mtu: int, cur: seq<Packet>, ps: seq<Packet>)
    requires Size(cur) <= mtu
    requires forall p :: p in ps ==> PacketSize(p) <= mtu
    ensures forall d :: d in Pack(mtu, cur, ps) ==> d != [] && Size(d) <= mtu
    decreases |ps|
  {
    if ps != [] {
      if Size(cur) + PacketSize(ps[0]) > mtu {
        SizeOfOne(ps[0]);
        PackFits(mtu, [ps[0]], ps[1..]);
      } else {
        SizeOfMore(cur, ps[0]);
        PackFits(mtu, cur + [ps[0]], ps[1..]);
      }
    }
  }

  lemma {:induction false} FlattenMember(ds: seq<seq<Packet>>)
    ensures forall d, p :: d in ds && p in d ==> p in Flatten(ds)
  {
    if ds != [] {
      FlattenMember(ds[1..]);
    }
  }

  /** Every packet of every datagram is one of the packets flushed. */
  lemma PackMembers(mtu: int, ps: seq<Packet>)
    ensures forall d, p :: d in Pack(mtu, [], ps) && p in d ==> p in ps
  {
    PackFlattens(mtu, [], ps);
    FlattenMember(Pack(mtu, [], ps));
    assert [] + ps == ps;
  }

  lemma {:induction false} EncodeAllMore(ps: seq<Packet>, p: Packet)
    ensures EncodeAll(ps + [p]) == EncodeAll(ps) + Encode(p)
  {
    if ps == [] {
      assert [] + [p] == [p];
      assert EncodeAll([p]) == Encode(p) + EncodeAll([]);
    } else {
      assert (ps + [p])[1..] == ps[1..] + [p];
      EncodeAllMore(ps[1..], p);
      assert Encode(ps[0]) + (EncodeAll(ps[1..]) + Encode(p)) == Encode(ps[0]) + EncodeAll(ps[1..]) + Encode(p);
    }
  }

  lemma {:induction false} EncodedSize(ps: seq<Packet>)
    ensures |EncodeAll(ps)| == Size(ps)
  {
    if ps != [] {
      var front, last := ps[..|ps| - 1], ps[|ps| - 1];
      assert front + [last] == ps;
      EncodeAllMore(front, last);
      EncodedSize(front);
    }
  }

  /** The datagrams as bytes. */
  function EncodeEach(ds: seq<seq<Packet>>): (bs: seq<seq<byte>>)
    ensures |bs| == |ds| && forall i :: 0 <= i < |ds| ==> bs[i] == EncodeAll(ds[i])
  {
    seq(|ds|, i requires 0 <= i < |ds| => EncodeAll(ds[i]))
  }

  lemma EncodeEachConcat(a: seq<seq<Packet>>, b: seq<seq<Packet>>)
    ensures EncodeEach(a + b) == EncodeEach(a) + EncodeEach(b)
  {
  }

  lemma PackFit(mtu: int, cur: seq<Packet>, p: Packet, rest: seq<Packet>)
    requires Size(cur) + PacketSize(p) <= mtu
    ensures Pack(mtu, cur, [p] + rest) == Pack(mtu, cur + [p], rest)
  {
    assert ([p] + rest)[1..] == rest;
  }

  lemma PackFull(mtu: int, cur: seq<Packet>, p: Packet, rest: seq<Packet>)
    requires Size(cur) + PacketSize(p) > mtu
    ensures Pack(mtu, cur, [p] + rest) == Emit(cur) + Pack(mtu, [p], rest)
  {
    assert ([p] + rest)[1..] == rest;
  }
}
