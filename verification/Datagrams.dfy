/** What a control block keeps whatever bytes it is given, and why every datagram it puts out then fits the mtu and is
    parsed back whole: for the 32-bit program, in any state it can get into. */
module Datagrams {
  import opened Bytes
  import opened Serial
  import opened Kcp
  import opened Buffers
  import opened Wire

  // ---------------------------------------------------------------- what fits the wire

  predicate IsWord(x: int) {
    0 <= x < TWO32
  }

  /** The fields of a fragment fit their places in a header, and its bytes fit a datagram. */
  predicate FragFits(frg: int, data: seq<byte>, mss: int) {
    0 <= frg < IKCP_WND_RCV && |data| <= mss
  }

  predicate QueueFits(queue: seq<Frag>, mss: int) {
    forall i :: 0 <= i < |queue| ==> FragFits(queue[i].frg, queue[i].data, mss)
  }

  predicate SegsFit(buf: seq<SndSeg>, mss: int) {
    forall i :: 0 <= i < |buf| ==> IsWord(buf[i].sn) && FragFits(buf[i].frg, buf[i].data, mss)
  }

  predicate SndFits(s: Snd, mss: int) {
    IsWord(s.nxt) && QueueFits(s.queue, mss) && SegsFit(s.buf, mss)
  }

  predicate RcvFits(r: Rcv, rcvWnd: int) {
    && IsWord(r.nxt) && |r.queue| <= rcvWnd
    && forall i :: 0 <= i < |r.acks| ==> IsWord(r.acks[i].0) && IsWord(r.acks[i].1)
  }

  /** All that a flush reads fits the wire. */
  predicate Sound(k: Kcb) {
    ValidCfg(k.cfg) && SndFits(k.snd, k.cfg.mss) && RcvFits(k.rcv, k.cfg.rcvWnd) && IsWord(k.clock.current)
  }

  // ---------------------------------------------------------------- the sending half

  lemma {:induction false} FragmentsFit(msg: seq<byte>, mss: int, count: nat)
    requires mss >= 1 && count <= IKCP_WND_RCV
    ensures QueueFits(Fragments(msg, mss, count), mss)
  {
    if count > 0 {
      var size := if |msg| > mss then mss else |msg|;
      FragmentsFit(msg[size..], mss, count - 1);
    }
  }

  lemma SendFits(k: Kcb, msg: seq<byte>)
    requires k.cfg.mss >= 1 && SndFits(k.snd, k.cfg.mss)
    ensures SndFits(Send(k, msg).0.snd, k.cfg.mss)
  {
    if Accepts(k.cfg, msg) {
      FragmentsFit(msg, k.cfg.mss, FragCount(|msg|, k.cfg.mss));
    }
  }

  lemma {:induction false} FillWindowFits(k: Kcb, s: Snd, cwnd: int, mss: int)
    requires SndFits(s, mss)
    ensures SndFits(FillWindow(Bits32, k, s, cwnd), mss)
    decreases |s.queue|
  {
    if SnDiff(Bits32, s.nxt, U32(s.una + cwnd)) < 0 && s.queue != [] {
      FillWindowFits(k, NumberOne(Bits32, k, s), cwnd, mss);
    }
  }

  lemma {:induction false} DropBelowFits(buf: seq<SndSeg>, una: int, mss: int)
    requires SegsFit(buf, mss)
    ensures SegsFit(DropBelow(Bits32, buf, una), mss)
  {
    if buf != [] {
      DropBelowFits(buf[1..], una, mss);
    }
  }

  lemma {:induction false} RemoveAckFits(buf: seq<SndSeg>, sn: int, mss: int)
    requires SegsFit(buf, mss)
    ensures SegsFit(RemoveAck(Bits32, buf, sn), mss)
  {
    if buf != [] {
      RemoveAckFits(buf[1..], sn, mss);
    }
  }

  lemma SameShapeFits(a: seq<SndSeg>, b: seq<SndSeg>, mss: int)
    requires SameShape(a, b) && SegsFit(b, mss)
    ensures SegsFit(a, mss)
  {
    assert forall i :: 0 <= i < |a| ==> a[i].sn == b[i].sn && a[i].frg == b[i].frg && a[i].data == b[i].data;
  }

  // ---------------------------------------------------------------- input

  lemma InputPacketFits(k: Kcb, p: Packet)
    requires SndFits(k.snd, k.cfg.mss)
    ensures InputPacket(Bits32, k, p).cfg == k.cfg && SndFits(InputPacket(Bits32, k, p).snd, k.cfg.mss)
  {
    DropBelowFits(k.snd.buf, p.una, k.cfg.mss);
    RemoveAckFits(DropBelow(Bits32, k.snd.buf, p.una), p.sn, k.cfg.mss);
  }

  lemma FinishFits(st: InputState, prevUna: int)
    requires st.k.cfg.mss >= 1 && SndFits(st.k.snd, st.k.cfg.mss)
    ensures SndFits(FinishInput(Bits32, st, prevUna).snd, st.k.cfg.mss)
  {
    if st.ack.MaxAck? {
      BumpFastackKeepsShape(Bits32, st.k.snd.buf, st.ack.sn);
      SameShapeFits(BumpFastack(Bits32, st.k.snd.buf, st.ack.sn), st.k.snd.buf, st.k.cfg.mss);
    }
  }

  lemma {:induction false} InputLoopFits(st: InputState, b: seq<byte>, prevUna: int)
    requires st.k.cfg.mss >= 1 && SndFits(st.k.snd, st.k.cfg.mss)
    ensures SndFits(InputLoop(st, b, prevUna).0.snd, st.k.cfg.mss)
    decreases |b|
  {
    hide InputPacket, DecodeHeader, SndFits, FinishInput;
    if |b| < IKCP_OVERHEAD {
      FinishFits(st, prevUna);
    } else {
      var (h, len) := DecodeHeader(b);
      var body := b[IKCP_OVERHEAD..];
      if h.conv == st.k.cfg.conv && len <= |body| && I32(len) >= 0 && KnownCmd(h.cmd) {
        var p := h.(data := body[..len]);
        InputPacketFits(st.k, p);
        InputLoopFits(InputState(InputPacket(Bits32, st.k, p), InputAck(Bits32, st.ack, p)), body[len..], prevUna);
      }
    }
  }

  lemma {:induction false} MoveReadyFits(r: Rcv, rcvWnd: int)
    requires RcvFits(r, rcvWnd)
    ensures RcvFits(MoveReady(Bits32, r, rcvWnd), rcvWnd)
    decreases |r.buf|
  {
    if r.buf != [] && r.buf[0].sn == r.nxt && |r.queue| < rcvWnd {
      MoveReadyFits(r.(buf := r.buf[1..], queue := r.queue + [Frag(r.buf[0].frg, r.buf[0].data)],
                       nxt := U32(r.nxt + 1)), rcvWnd);
    }
  }

  lemma InputPushFits(r: Rcv, rcvWnd: int, p: Packet)
    requires RcvFits(r, rcvWnd) && IsWord(p.sn) && IsWord(p.ts)
    ensures RcvFits(InputPush(Bits32, r, rcvWnd, p), rcvWnd)
  {
    var acked := r.(acks := r.acks + [(p.sn, p.ts)]);
    MoveReadyFits(acked.(buf := InsertSeg(Bits32, acked.buf, p)), rcvWnd);
  }

  lemma InputPacketSound(k: Kcb, p: Packet)
    requires Sound(k) && IsWord(p.sn) && IsWord(p.ts)
    ensures Sound(InputPacket(Bits32, k, p))
  {
    hide SndFits, RcvFits;
    InputPacketFits(k, p);
    InputPushFits(k.rcv, k.cfg.rcvWnd, p);
  }

  /** The header fields that decoding yields fit their widths. */
  lemma {:induction false} DecodedFit(widths: seq<nat>, b: seq<byte>)
    requires |b| >= Total(widths)
    ensures Fit(widths, DecodeFields(widths, b))
  {
    if widths != [] {
      FromLEBound(b[..widths[0]]);
      DecodedFit(widths[1..], b[widths[0]..]);
    }
  }

  lemma HeaderWords(b: seq<byte>)
    requires |b| >= IKCP_OVERHEAD
    ensures IsWord(DecodeHeader(b).0.sn) && IsWord(DecodeHeader(b).0.ts)
  {
    HeaderIs24();
    DecodedFit(WIDTHS, b);
    Pow256Values();
  }

  lemma {:induction false} InputLoopSound(st: InputState, b: seq<byte>, prevUna: int)
    requires Sound(st.k)
    ensures Sound(InputLoop(st, b, prevUna).0)
    decreases |b|
  {
    hide InputPacket, DecodeHeader, SndFits, RcvFits;
    if |b| < IKCP_OVERHEAD {
      FinishFits(st, prevUna);
    } else {
      var (h, len) := DecodeHeader(b);
      var body := b[IKCP_OVERHEAD..];
      if h.conv == st.k.cfg.conv && len <= |body| && I32(len) >= 0 && KnownCmd(h.cmd) {
        var p := h.(data := body[..len]);
        HeaderWords(b);
        InputPacketSound(st.k, p);
        InputLoopSound(InputState(InputPacket(Bits32, st.k, p), InputAck(Bits32, st.ack, p)), body[len..], prevUna);
      }
    }
  }

  // ---------------------------------------------------------------- every operation

  lemma InitIsSound(cfg: Cfg)
    requires ValidCfg(cfg)
    ensures Sound(Init(cfg))
  {
  }

  lemma SendSound(k: Kcb, msg: seq<byte>)
    requires Sound(k)
    ensures Sound(Send(k, msg).0)
  {
    SendFits(k, msg);
  }

  lemma RecvSound(k: Kcb, maxLen: int)
    requires Sound(k)
    ensures Sound(Recv(Bits32, k, maxLen).0)
  {
    var r := k.rcv;
    MoveReadyFits(r, k.cfg.rcvWnd);
    MoveReadyFits(r.(queue := r.queue[MsgNodes(r.queue)..]), k.cfg.rcvWnd);
  }

  /** Whatever the bytes. */
  lemma InputSound(k: Kcb, b: seq<byte>)
    requires Sound(k)
    ensures Sound(Input(k, b).0)
  {
    InputLoopSound(InputState(k, NoAck), b, k.snd.una);
  }

  lemma FlushFits(k: Kcb)
    requires SndFits(k.snd, k.cfg.mss)
    ensures SndFits(Flush(Bits32, k).0.snd, k.cfg.mss)
  {
    var s := FillWindow(Bits32, k, k.snd, SendWindow(k));
    FillWindowFits(k, k.snd, SendWindow(k), k.cfg.mss);
    FlushBufKeepsShape(k, s.buf);
    SameShapeFits(FlushBuf(k, s.buf).buf, s.buf, k.cfg.mss);
  }

  lemma FlushSound(k: Kcb)
    requires Sound(k)
    ensures Sound(Flush(Bits32, k).0)
  {
    hide SndFits;
    FlushFits(k);
  }

  // ---------------------------------------------------------------- what goes out

  predicate GoesOut(p: Packet, cfg: Cfg) {
    Acceptable(p, cfg.conv) && PacketSize(p) <= cfg.mtu
  }

  lemma ControlGoesOut(k: Kcb, probe: Probe)
    requires Sound(k)
    ensures forall p :: p in ControlPackets(k, probe) ==> GoesOut(p, k.cfg)
  {
    var acks := AckPackets(k, k.rcv.acks);
    forall p | p in acks ensures GoesOut(p, k.cfg) {
      var i :| 0 <= i < |acks| && acks[i] == p;
      assert acks[i] == Control(k, IKCP_CMD_ACK, k.rcv.acks[i]);
    }
    var last := LastAck(k.rcv.acks);
    assert IsWord(last.0) && IsWord(last.1);
  }

  lemma DataGoesOut(k: Kcb, buf: seq<SndSeg>)
    requires Sound(k) && SegsFit(buf, k.cfg.mss)
    ensures forall p :: p in FlushBuf(k, buf).ps ==> GoesOut(p, k.cfg)
  {
    FlushBufPackets(k, buf);
    forall p | p in FlushBuf(k, buf).ps ensures GoesOut(p, k.cfg) {
      var i :| 0 <= i < |buf| && p.sn == buf[i].sn && p.frg == buf[i].frg && p.data == buf[i].data;
      assert FragFits(buf[i].frg, buf[i].data, k.cfg.mss);
    }
  }

  lemma FlushGoesOut(k: Kcb)
    requires Sound(k)
    ensures forall p :: p in Flush(Bits32, k).1 ==> GoesOut(p, k.cfg)
  {
    if k.clock.updated {
      FillWindowFits(k, k.snd, SendWindow(k), k.cfg.mss);
      DataGoesOut(k, FillWindow(Bits32, k, k.snd, SendWindow(k)).buf);
      ControlGoesOut(k, ProbeWindow(k.probe, k.cong.rmtWnd, k.clock.current));
    }
  }

  /** A datagram of segments that may go out: it is neither empty nor over the mtu. A block of the same conversation,
      in whatever state, makes of it just what those segments call for, and returns 0. */
  predicate Parses(d: seq<Packet>, cfg: Cfg) {
    d != [] && Size(d) <= cfg.mtu && forall p :: p in d ==> GoesOut(p, cfg)
  }

  lemma ParsesMeans(d: seq<Packet>, cfg: Cfg, peer: Kcb)
    requires Parses(d, cfg) && peer.cfg.mss >= 1 && peer.cfg.conv == cfg.conv
    ensures 0 < |EncodeAll(d)| <= cfg.mtu
    ensures Input(peer, EncodeAll(d)) == (InputDatagram(Bits32, peer, d), 0)
  {
    EncodedSize(d);
    assert |EncodeAll(d)| >= |Encode(d[0])|;
    InputOfEncoded(peer, d);
  }

  /** Every datagram of a flush, from any sound state. */
  lemma FlushParses(k: Kcb)
    requires Sound(k)
    ensures forall d :: d in Pack(k.cfg.mtu, [], Flush(Bits32, k).1) ==> Parses(d, k.cfg)
  {
    var ps := Flush(Bits32, k).1;
    FlushGoesOut(k);
    PackFits(k.cfg.mtu, [], ps);
    PackMembers(k.cfg.mtu, ps);
  }
}
