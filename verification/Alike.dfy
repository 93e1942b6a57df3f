/** One segment at the two widths: exactly when the 32-bit program does with it what the unbounded one does. A number
    that is late by a multiple of the ring stands, at 32 bits, for the one number its residue has in the window. */
module Alike {
  import opened Serial
  import opened Kcp
  import opened Buffers
  import opened Channel
  import opened Connection
  import opened Wrapping

  /** The number from `base` on that has the residue of `sn`. */
  function From(base: int, sn: int): (c: int)
    ensures base <= c < base + TWO32 && U32(c) == U32(sn)
    ensures base <= sn < base + TWO32 ==> c == sn
  {
    I32Congruent(sn, -((sn - base) / TWO32));
    base + U32(sn - base)
  }

  lemma SameResidue(a: int, b: int, c: int)
    requires U32(a) == U32(b)
    ensures I32(a - c) == I32(b - c)
  {
    var i := U32Split(a);
    var j := U32Split(b);
    assert a - c == (b - c) + (i - j) * TWO32;
    I32Congruent(b - c, i - j);
  }

  // ---------------------------------------------------------------- acknowledgements

  /** The guard of ikcp_parse_ack passes the same numbers at both widths, but for those whose residue is in the
      window while they are not. */
  lemma InFlightExactly(s: Snd, sn: int)
    requires 0 <= s.nxt - s.una < TWO31
    ensures InFlight(Bits32, WrapSnd(s), U32(sn)) <==> From(s.una, sn) < s.nxt
    ensures InFlight(Bits32, WrapSnd(s), U32(sn)) == InFlight(Unbounded, s, sn) <==>
      s.una <= sn < s.nxt || From(s.una, sn) >= s.nxt
  {
    var c := From(s.una, sn);
    hide From, U32;
    TimeDiffOfWrapped(sn, s.una);
    TimeDiffOfWrapped(sn, s.nxt);
    SameResidue(sn, c, s.una);
    SameResidue(sn, c, s.nxt);
  }

  /** The late number is not the alias of one that is outstanding. */
  predicate AckAlike(s: Snd, sn: int) {
    s.una <= sn < s.nxt || Lacks(s.buf, From(s.una, sn))
  }

  /** An acknowledgement removes the same segment, or none, at both widths if and only if AckAlike. */
  lemma ParseAckExactly(s: Snd, wnd: int, sn: int)
    requires SndNear(s, wnd) && SndSorted(s.buf)
    ensures ParseAck(Bits32, WrapSnd(s), U32(sn)) == WrapSnd(ParseAck(Unbounded, s, sn)) <==> AckAlike(s, sn)
  {
    hide From, RemoveAck, U32, WrapSegs;
    InFlightExactly(s, sn);
    var c := From(s.una, sn);
    if c < s.nxt {
      assert AllNear(s.buf, c);
      RemoveAckWraps(s.buf, c);
      var k := RemoveAckPosition(s.buf, c);
    } else {
      assert Lacks(s.buf, c);
    }
  }

  /** Whether the head of the buffer is dropped by mistake. */
  predicate UnaAlike(s: Snd, una: int) {
    s.una <= una || s.buf == [] || U32(una - s.una) == 0 || U32(una - s.una) >= TWO31
  }

  lemma DropHead(buf: seq<SndSeg>, una: int)
    requires buf != [] && TimeDiff(una, buf[0].sn) > 0
    ensures |DropBelow(Bits32, buf, una)| < |buf|
  {
    DropShrinks(buf[1..], una);
  }

  lemma {:induction false} DropShrinks(buf: seq<SndSeg>, una: int)
    ensures |DropBelow(Bits32, buf, una)| <= |buf|
  {
    if buf != [] {
      DropShrinks(buf[1..], una);
    }
  }

  /** A cumulative acknowledgement not past what was sent does the same at both widths if and only if UnaAlike. */
  lemma ApplyUnaExactly(s: Snd, f: seq<Frag>, wnd: int, una: int)
    requires SndOk(s, f, wnd) && wnd < 0x1_0000 && una <= s.nxt
    ensures ApplyUna(Bits32, WrapSnd(s), U32(una)) == WrapSnd(ApplyUna(Unbounded, s, una)) <==> UnaAlike(s, una)
  {
    hide WrapSegs;
    if s.una <= una {
      ApplyUnaWraps(s, wnd, una);
    } else if s.buf != [] {
      TimeDiffOfWrapped(una, s.una);
      assert WrapSnd(s).buf[0].sn == U32(s.una);
      if !UnaAlike(s, una) {
        DropHead(WrapSnd(s).buf, U32(una));
      }
    }
  }

  // ---------------------------------------------------------------- data

  /** A number behind the window is seen behind it, or is the alias of one that is there already. */
  predicate PushAlike(r: Rcv, wnd: int, sn: int) {
    r.nxt <= sn || From(r.nxt, sn) >= r.nxt + TWO31 + wnd || HasSn(r.buf, From(r.nxt, sn))
  }

  /** Segments move between the lists, and none is lost. */
  lemma {:induction false} MoveReadyKeepsCount(w: Width, r: Rcv, rcvWnd: int)
    ensures var r' := MoveReady(w, r, rcvWnd); |r'.buf| + |r'.queue| == |r.buf| + |r.queue|
    decreases |r.buf|
  {
    if r.buf != [] && r.buf[0].sn == r.nxt && |r.queue| < rcvWnd {
      MoveReadyKeepsCount(w, r.(buf := r.buf[1..], queue := r.queue + [Frag(r.buf[0].frg, r.buf[0].data)],
                                nxt := Wrap(w, r.nxt + 1)), rcvWnd);
    }
  }

  lemma InsertsAtAlias(r: Rcv, f: seq<Frag>, limit: int, wnd: int, taken: int, p: Packet, c: int)
    requires RcvOk(r, f, limit, wnd, taken) && 0 <= wnd < 0x1_0000
    requires r.nxt <= c < r.nxt + wnd && U32(c) == U32(p.sn)
    ensures var r' := ParseData(Bits32, WrapRcv(r), wnd, WrapPacket(p));
      if HasSn(r.buf, c) then r' == WrapRcv(r) else r' != WrapRcv(r)
  {
    var q := p.(sn := c);
    assert WrapPacket(q) == WrapPacket(p);
    ParseDataWraps(r, wnd, q);
    var k := InsertSegPosition(r.buf, q);
    MoveReadyKeepsCount(Unbounded, r.(buf := InsertSeg(Unbounded, r.buf, q)), wnd);
  }

  /** On which side of the edge `e` a number is seen, by the number `c` near it that has its residue. */
  lemma SeenBehind(sn: int, c: int, e: int)
    requires U32(c) == U32(sn) && -TWO31 <= c - e < TWO32
    ensures TimeDiff(U32(sn), U32(e)) < 0 <==> c < e || c >= e + TWO31
  {
    TimeDiffOfWrapped(sn, e);
    SameResidue(sn, c, e);
  }

  /** The two window tests, by the residue. */
  lemma PushTests(r: Rcv, wnd: int, sn: int)
    requires 0 <= wnd < 0x1_0000
    ensures var c := From(r.nxt, sn);
      && (SnDiff(Bits32, U32(sn), Wrap(Bits32, U32(r.nxt) + wnd)) < 0 <==>
            c < r.nxt + wnd || c >= r.nxt + TWO31 + wnd)
      && (SnDiff(Bits32, U32(sn), U32(r.nxt)) >= 0 <==> c < r.nxt + TWO31)
  {
    var c := From(r.nxt, sn);
    hide From, U32, TimeDiff;
    WrapAdds(r.nxt, wnd);
    SeenBehind(sn, c, r.nxt + wnd);
    SeenBehind(sn, c, r.nxt);
  }

  lemma WrapsOneMore(acks: seq<(int, int)>, sn: int, ts: int)
    ensures WrapAcks(acks + [(sn, ts)]) == WrapAcks(acks) + [(U32(sn), ts)]
  {
  }

  /** What becomes of a number behind the window. */
  lemma LatePush(r: Rcv, wnd: int, p: Packet)
    requires 0 <= wnd < 0x1_0000 && p.sn < r.nxt
    ensures var acked, c := r.(acks := r.acks + [(p.sn, p.ts)]), From(r.nxt, p.sn);
      && InputPush(Unbounded, r, wnd, p) == acked
      && WrapRcv(acked) != WrapRcv(r)
      && InputPush(Bits32, WrapRcv(r), wnd, WrapPacket(p))
         == if c < r.nxt + wnd then ParseData(Bits32, WrapRcv(acked), wnd, WrapPacket(p))
            else if c < r.nxt + TWO31 + wnd then WrapRcv(r)
            else WrapRcv(acked)
  {
    PushTests(r, wnd, p.sn);
    WrapsOneMore(r.acks, p.sn, p.ts);
    hide From, U32, I32, TimeDiff, WrapPackets, WrapAcks, ParseData;
    assert |WrapAcks(r.acks + [(p.sn, p.ts)])| == |WrapAcks(r.acks)| + 1;
  }

  /** A data segment no further ahead than half the ring does the same at both widths if and only if PushAlike. */
  lemma InputPushExactly(r: Rcv, f: seq<Frag>, limit: int, wnd: int, taken: int, p: Packet)
    requires RcvOk(r, f, limit, wnd, taken) && 0 <= wnd < 0x1_0000 && p.sn < r.nxt + 0x2_0000
    ensures (InputPush(Bits32, WrapRcv(r), wnd, WrapPacket(p)) == WrapRcv(InputPush(Unbounded, r, wnd, p)))
            <==> PushAlike(r, wnd, p.sn)
  {
    hide InputPush, From, U32, ParseData, WrapRcv;
    if r.nxt <= p.sn {
      InputPushWraps(r, wnd, p);
    } else {
      var c := From(r.nxt, p.sn);
      LatePush(r, wnd, p);
      if c < r.nxt + wnd {
        InsertsAtAlias(r.(acks := r.acks + [(p.sn, p.ts)]), f, limit, wnd, taken, p, c);
      } else if HasSn(r.buf, c) {
        AliasIn(r, f, limit, wnd, taken, c);
        assert false;
      }
    }
  }

  lemma AliasIn(r: Rcv, f: seq<Frag>, limit: int, wnd: int, taken: int, c: int)
    requires RcvOk(r, f, limit, wnd, taken) && HasSn(r.buf, c)
    ensures c < r.nxt + wnd
  {
  }

  // ---------------------------------------------------------------- in every reachable state

  /** In every reachable state, for every packet the peer has put out, however late it comes in. */
  lemma DecidesAlike(k: Kcb, fx: seq<Frag>, takenX: int, y: Kcb, fy: seq<Frag>, takenY: int, p: Packet)
    requires ValidCfg(k.cfg) && ValidCfg(y.cfg)
    requires Both(k, fx, takenX, y, fy, takenY) && FromPeer(p, y, fy)
    ensures ApplyUna(Bits32, WrapSnd(k.snd), U32(p.una)) == WrapSnd(ApplyUna(Unbounded, k.snd, p.una)) <==>
      UnaAlike(k.snd, p.una)
    ensures ParseAck(Bits32, WrapSnd(k.snd), U32(p.sn)) == WrapSnd(ParseAck(Unbounded, k.snd, p.sn)) <==>
      AckAlike(k.snd, p.sn)
    ensures p.cmd == IKCP_CMD_PUSH ==>
      ((InputPush(Bits32, WrapRcv(k.rcv), k.cfg.rcvWnd, WrapPacket(p))
        == WrapRcv(InputPush(Unbounded, k.rcv, k.cfg.rcvWnd, p)))
       <==> PushAlike(k.rcv, k.cfg.rcvWnd, p.sn))
  {
    hide ApplyUna, ParseAck, InputPush, UnaAlike, AckAlike, PushAlike;
    Windows(k.snd, k.cfg.sndWnd, y.rcv, y.cfg.rcvWnd, fx, takenX);
    Windows(y.snd, y.cfg.sndWnd, k.rcv, k.cfg.rcvWnd, fy, takenY);
    ApplyUnaExactly(k.snd, fx, k.cfg.sndWnd, p.una);
    ParseAckExactly(k.snd, k.cfg.sndWnd, p.sn);
    if p.cmd == IKCP_CMD_PUSH {
      InputPushExactly(k.rcv, fy, y.snd.nxt, k.cfg.rcvWnd, takenY, p);
    }
  }

  /** What the acknowledgement in `p` finds: the send half after its una. */
  function AfterUna(k: Kcb, p: Packet): Snd {
    ApplyUna(Unbounded, k.snd, p.una)
  }

  predicate PacketAlike(k: Kcb, p: Packet) {
    && UnaAlike(k.snd, p.una)
    && (p.cmd == IKCP_CMD_ACK ==> AckAlike(AfterUna(k, p), p.sn))
    && (p.cmd == IKCP_CMD_PUSH ==> PushAlike(k.rcv, k.cfg.rcvWnd, p.sn))
  }

  lemma ShrinkWraps(s: Snd)
    ensures ShrinkBuf(WrapSnd(s)) == WrapSnd(ShrinkBuf(s))
  {
  }

  lemma ApplyAckAlike(s: Snd, wnd: int, sn: int)
    requires SndNear(s, wnd) && SndSorted(s.buf) && AckAlike(s, sn)
    ensures ApplyAck(Bits32, WrapSnd(s), U32(sn)) == WrapSnd(ApplyAck(Unbounded, s, sn))
  {
    hide ParseAck, ShrinkBuf, AckAlike, WrapSnd;
    ParseAckExactly(s, wnd, sn);
    ShrinkWraps(ParseAck(Unbounded, s, sn));
  }

  /** A whole segment, then, however late, does the same at both widths whenever each of its numbers does. */
  lemma PacketsAlike(k: Kcb, fx: seq<Frag>, takenX: int, y: Kcb, fy: seq<Frag>, takenY: int, p: Packet)
    requires ValidCfg(k.cfg) && ValidCfg(y.cfg)
    requires Both(k, fx, takenX, y, fy, takenY) && FromPeer(p, y, fy) && PacketAlike(k, p)
    ensures InputPacket(Bits32, WrapKcb(k), WrapPacket(p)) == WrapKcb(InputPacket(Unbounded, k, p))
  {
    DecidesAlike(k, fx, takenX, y, fy, takenY, p);
    Windows(k.snd, k.cfg.sndWnd, y.rcv, y.cfg.rcvWnd, fx, takenX);
    ApplyUnaNear(k.snd, k.cfg.sndWnd, p.una);
    DropBelowIsFilter(k.snd.buf, p.una);
    if p.cmd == IKCP_CMD_ACK {
      ApplyAckAlike(AfterUna(k, p), k.cfg.sndWnd, p.sn);
    }
    hide ApplyUna, ApplyAck, ParseAck, InputPush, UnaAlike, AckAlike, PushAlike, SampleRtt, Both, FromPeer;
    hide WrapSnd, WrapRcv;
  }
}
