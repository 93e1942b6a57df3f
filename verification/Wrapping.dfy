/** The 32-bit program and the unbounded one take the same steps: each operation on the wrapped image of a
    block yields the wrapped image of the result, as long as the numbers compared are less than half the
    ring apart. */
module Wrapping {
  import opened Bytes
  import opened Sequences
  import opened Serial
  import opened Kcp
  import opened Buffers

  predicate Near(a: int, b: int) {
    -TWO31 <= a - b < TWO31
  }

  function WrapSeg(s: SndSeg): SndSeg {
    s.(sn := U32(s.sn), una := U32(s.una))
  }

  function WrapPacket(p: Packet): Packet {
    p.(sn := U32(p.sn), una := U32(p.una))
  }

  function WrapSegs(b: seq<SndSeg>): (r: seq<SndSeg>)
    ensures |r| == |b| && forall i :: 0 <= i < |b| ==> r[i] == WrapSeg(b[i])
  {
    seq(|b|, i requires 0 <= i < |b| => WrapSeg(b[i]))
  }

  function WrapPackets(b: seq<Packet>): (r: seq<Packet>)
    ensures |r| == |b| && forall i :: 0 <= i < |b| ==> r[i] == WrapPacket(b[i])
  {
    seq(|b|, i requires 0 <= i < |b| => WrapPacket(b[i]))
  }

  function WrapAcks(b: seq<(int, int)>): (r: seq<(int, int)>)
    ensures |r| == |b| && forall i :: 0 <= i < |b| ==> r[i] == (U32(b[i].0), b[i].1)
  {
    seq(|b|, i requires 0 <= i < |b| => (U32(b[i].0), b[i].1))
  }

  function WrapSnd(s: Snd): Snd {
    Snd(U32(s.una), U32(s.nxt), s.queue, WrapSegs(s.buf))
  }

  function WrapRcv(r: Rcv): Rcv {
    Rcv(U32(r.nxt), WrapPackets(r.buf), r.queue, WrapAcks(r.acks))
  }

  function WrapKcb(k: Kcb): Kcb {
    k.(snd := WrapSnd(k.snd), rcv := WrapRcv(k.rcv))
  }

  function WrapMax(a: MaxAck): MaxAck {
    if a.MaxAck? then MaxAck(U32(a.sn)) else a
  }

  // ---------------------------------------------------------------- scans

  predicate AllNear(buf: seq<SndSeg>, sn: int) {
    forall i :: 0 <= i < |buf| ==> Near(sn, buf[i].sn)
  }

  lemma WrapSegsTail(buf: seq<SndSeg>)
    requires buf != []
    ensures WrapSegs(buf)[1..] == WrapSegs(buf[1..])
    ensures WrapSegs(buf) == [WrapSeg(buf[0])] + WrapSegs(buf[1..])
  {
  }

  lemma WrapSegsCons(x: SndSeg, rest: seq<SndSeg>)
    ensures WrapSegs([x] + rest) == [WrapSeg(x)] + WrapSegs(rest)
  {
  }

  lemma {:induction false} DropBelowWraps(buf: seq<SndSeg>, una: int)
    requires AllNear(buf, una)
    ensures DropBelow(Bits32, WrapSegs(buf), U32(una)) == WrapSegs(DropBelow(Unbounded, buf, una))
  {
    if buf != [] {
      WrapSegsTail(buf);
      SnDiffWraps(una, buf[0].sn);
      DropBelowWraps(buf[1..], una);
    }
  }

  lemma {:induction false} RemoveAckWraps(buf: seq<SndSeg>, sn: int)
    requires AllNear(buf, sn)
    ensures RemoveAck(Bits32, WrapSegs(buf), U32(sn)) == WrapSegs(RemoveAck(Unbounded, buf, sn))
  {
    if buf != [] {
      WrapSegsTail(buf);
      SnDiffWraps(sn, buf[0].sn);
      RemoveAckWraps(buf[1..], sn);
      var rest := RemoveAck(Unbounded, buf[1..], sn);
      WrapSegsCons(buf[0], rest);
    }
  }

  lemma {:induction false} BumpFastackWraps(buf: seq<SndSeg>, sn: int)
    requires AllNear(buf, sn)
    ensures BumpFastack(Bits32, WrapSegs(buf), U32(sn)) == WrapSegs(BumpFastack(Unbounded, buf, sn))
  {
    if buf != [] {
      WrapSegsTail(buf);
      SnDiffWraps(sn, buf[0].sn);
      BumpFastackWraps(buf[1..], sn);
      var head := if sn != buf[0].sn then buf[0].(fastack := U32(buf[0].fastack + 1)) else buf[0];
      var rest := BumpFastack(Unbounded, buf[1..], sn);
      WrapSegsCons(head, rest);
    }
  }

  lemma {:induction false} InsertSegWraps(buf: seq<Packet>, p: Packet)
    requires forall i :: 0 <= i < |buf| ==> Near(p.sn, buf[i].sn)
    ensures InsertSeg(Bits32, WrapPackets(buf), WrapPacket(p)) == WrapPackets(InsertSeg(Unbounded, buf, p))
  {
    if buf == [] {
      assert WrapPackets([p]) == [WrapPacket(p)];
    } else {
      var front, last := buf[..|buf| - 1], buf[|buf| - 1];
      SnDiffWraps(p.sn, last.sn);
      InsertSegWraps(front, p);
      assert WrapPackets(buf)[..|buf| - 1] == WrapPackets(front);
      assert WrapPackets(buf + [p]) == WrapPackets(buf) + [WrapPacket(p)];
      var r := InsertSeg(Unbounded, front, p);
      assert WrapPackets(r + [last]) == WrapPackets(r) + [WrapPacket(last)];
    }
  }

  // ---------------------------------------------------------------- the sending half

  /** A send buffer inside a window of `wnd`. */
  predicate SndNear(s: Snd, wnd: int) {
    && 0 <= s.una <= s.nxt <= s.una + wnd && wnd < 0x1_0000
    && forall i :: 0 <= i < |s.buf| ==> s.una <= s.buf[i].sn < s.nxt
  }

  lemma ApplyUnaWraps(s: Snd, wnd: int, una: int)
    requires SndNear(s, wnd) && s.nxt - TWO31 <= una <= s.nxt
    ensures ApplyUna(Bits32, WrapSnd(s), U32(una)) == WrapSnd(ApplyUna(Unbounded, s, una))
  {
    DropBelowWraps(s.buf, una);
  }

  lemma InFlightWraps(s: Snd, wnd: int, sn: int)
    requires SndNear(s, wnd) && s.nxt - TWO31 <= sn < s.nxt
    ensures InFlight(Bits32, WrapSnd(s), U32(sn)) == InFlight(Unbounded, s, sn)
    ensures AllNear(s.buf, sn)
  {
    SnDiffWraps(sn, s.una);
    SnDiffWraps(sn, s.nxt);
  }

  lemma ApplyAckWraps(s: Snd, wnd: int, sn: int)
    requires SndNear(s, wnd) && s.nxt - TWO31 <= sn < s.nxt
    ensures ApplyAck(Bits32, WrapSnd(s), U32(sn)) == WrapSnd(ApplyAck(Unbounded, s, sn))
  {
    InFlightWraps(s, wnd, sn);
    RemoveAckWraps(s.buf, sn);
  }

  lemma ParseFastackWraps(s: Snd, wnd: int, sn: int)
    requires SndNear(s, wnd) && s.nxt - TWO31 <= sn < s.nxt
    ensures ParseFastack(Bits32, WrapSnd(s), U32(sn)) == WrapSnd(ParseFastack(Unbounded, s, sn))
  {
    InFlightWraps(s, wnd, sn);
    BumpFastackWraps(s.buf, sn);
  }

  lemma NumberOneWraps(k: Kcb, s: Snd)
    requires s.queue != []
    ensures NumberOne(Bits32, WrapKcb(k), WrapSnd(s)) == WrapSnd(NumberOne(Unbounded, k, s))
  {
    WrapAdds(s.nxt, 1);
    var seg := NumberOne(Unbounded, k, s).buf[|s.buf|];
    assert WrapSegs(s.buf + [seg]) == WrapSegs(s.buf) + [WrapSeg(seg)];
  }

  lemma {:induction false} FillWindowWraps(k: Kcb, s: Snd, cwnd: int)
    requires 0 <= s.una <= s.nxt <= s.una + 0x1_0000 && 0 <= cwnd < 0x1_0000
    ensures FillWindow(Bits32, WrapKcb(k), WrapSnd(s), cwnd) == WrapSnd(FillWindow(Unbounded, k, s, cwnd))
    decreases |s.queue|
  {
    hide U32, I32, TimeDiff, WrapSegs;
    WrapAdds(s.una, cwnd);
    SnDiffWraps(s.nxt, s.una + cwnd);
    if s.nxt < s.una + cwnd && s.queue != [] {
      NumberOneWraps(k, s);
      FillWindowWraps(k, NumberOne(Unbounded, k, s), cwnd);
    }
  }

  lemma TransmitWraps(k: Kcb, s: SndSeg)
    ensures Transmit(WrapKcb(k), WrapSeg(s)) == WrapSeg(Transmit(k, s))
    ensures SendCause(WrapKcb(k), WrapSeg(s)) == SendCause(k, s)
  {
  }

  lemma WrapPacketsConcat(a: seq<Packet>, b: seq<Packet>)
    ensures WrapPackets(a + b) == WrapPackets(a) + WrapPackets(b)
  {
  }

  function WrapOut(o: FlushOut): FlushOut {
    o.(buf := WrapSegs(o.buf), ps := WrapPackets(o.ps))
  }

  lemma {:induction false} FlushBufWraps(k: Kcb, buf: seq<SndSeg>)
    ensures FlushBuf(WrapKcb(k), WrapSegs(buf)) == WrapOut(FlushBuf(k, buf))
  {
    if buf != [] {
      var tail := buf[1..];
      WrapSegsTail(buf);
      FlushBufWraps(k, tail);
      TransmitWraps(k, buf[0]);
      var rest, seg := FlushBuf(k, tail), Transmit(k, buf[0]);
      WrapSegsCons(seg, rest.buf);
      var ps := if SendCause(k, buf[0]).Keep? then [] else [PushPacket(k.cfg.conv, seg)];
      WrapPacketsConcat(ps, rest.ps);
      assert WrapPackets(ps) == if SendCause(k, buf[0]).Keep? then [] else [PushPacket(k.cfg.conv, WrapSeg(seg))];
    } else {
      assert WrapSegs([]) == [] && WrapPackets([]) == [];
    }
  }

  // ---------------------------------------------------------------- the receiving half

  /** A reordering buffer inside a window of `wnd`. */
  predicate RcvNear(r: Rcv, wnd: int) {
    && RcvSorted(r.buf) && 0 <= wnd < 0x1_0000
    && forall i :: 0 <= i < |r.buf| ==> r.nxt <= r.buf[i].sn < r.nxt + wnd
  }

  /** The first segment has moved to the queue. */
  function Moved(r: Rcv): Rcv
    requires r.buf != []
  {
    r.(buf := r.buf[1..], queue := r.queue + [Frag(r.buf[0].frg, r.buf[0].data)], nxt := r.nxt + 1)
  }

  lemma MovedIsNear(r: Rcv, wnd: int)
    requires RcvNear(r, wnd) && r.buf != [] && r.buf[0].sn == r.nxt
    ensures RcvNear(Moved(r), wnd)
  {
    assert forall i :: 0 <= i < |r.buf[1..]| ==> r.buf[1..][i] == r.buf[i + 1];
  }

  lemma {:induction false} MoveReadyWraps(r: Rcv, rcvWnd: int, wnd: int)
    requires RcvNear(r, wnd)
    ensures MoveReady(Bits32, WrapRcv(r), rcvWnd) == WrapRcv(MoveReady(Unbounded, r, rcvWnd))
    decreases |r.buf|
  {
    if r.buf != [] {
      SnDiffWraps(r.buf[0].sn, r.nxt);
      hide U32, I32, TimeDiff, RcvNear;
      if r.buf[0].sn == r.nxt && |r.queue| < rcvWnd {
        WrapAdds(r.nxt, 1);
        assert WrapPackets(r.buf)[1..] == WrapPackets(r.buf[1..]);
        MovedIsNear(r, wnd);
        MoveReadyWraps(Moved(r), rcvWnd, wnd);
      }
    }
  }

  /** The two window tests of an incoming data segment. */
  lemma PushTestsWrap(r: Rcv, wnd: int, sn: int)
    requires 0 <= wnd < 0x1_0000
    requires r.nxt + wnd - TWO31 <= sn < r.nxt + 0x2_0000
    ensures SnDiff(Bits32, U32(sn), Wrap(Bits32, U32(r.nxt) + wnd)) == sn - (r.nxt + wnd)
    ensures SnDiff(Bits32, U32(sn), U32(r.nxt)) == sn - r.nxt
  {
    WrapAdds(r.nxt, wnd);
    SnDiffWraps(sn, r.nxt + wnd);
    SnDiffWraps(sn, r.nxt);
  }

  lemma InsertKeepsNear(r: Rcv, wnd: int, p: Packet)
    requires RcvNear(r, wnd) && r.nxt <= p.sn < r.nxt + wnd
    ensures RcvNear(r.(buf := InsertSeg(Unbounded, r.buf, p)), wnd)
  {
    var k := InsertSegPosition(r.buf, p);
    if k >= 0 {
      var b := With(r.buf, k, p);
      forall i | 0 <= i < |b| ensures r.nxt <= b[i].sn < r.nxt + wnd {
        assert i != k ==> b[i] == r.buf[if i < k then i else i - 1];
      }
    }
  }

  lemma ParseDataWraps(r: Rcv, wnd: int, p: Packet)
    requires RcvNear(r, wnd)
    requires r.nxt + wnd - TWO31 <= p.sn < r.nxt + 0x2_0000
    ensures ParseData(Bits32, WrapRcv(r), wnd, WrapPacket(p)) == WrapRcv(ParseData(Unbounded, r, wnd, p))
  {
    hide U32, I32, TimeDiff, WrapPackets, MoveReady, InsertSeg;
    PushTestsWrap(r, wnd, p.sn);
    if r.nxt <= p.sn < r.nxt + wnd {
      InsertSegWraps(r.buf, p);
      InsertKeepsNear(r, wnd, p);
      MoveReadyWraps(r.(buf := InsertSeg(Unbounded, r.buf, p)), wnd, wnd);
    }
  }

  lemma InputPushWraps(r: Rcv, wnd: int, p: Packet)
    requires RcvNear(r, wnd)
    requires r.nxt + wnd - TWO31 <= p.sn < r.nxt + 0x2_0000
    ensures InputPush(Bits32, WrapRcv(r), wnd, WrapPacket(p)) == WrapRcv(InputPush(Unbounded, r, wnd, p))
  {
    hide U32, I32, TimeDiff, WrapPackets, ParseData;
    PushTestsWrap(r, wnd, p.sn);
    if p.sn < r.nxt + wnd {
      var acked := r.(acks := r.acks + [(p.sn, p.ts)]);
      assert WrapAcks(acked.acks) == WrapAcks(r.acks) + [(U32(p.sn), p.ts)];
      assert RcvNear(acked, wnd);
      if p.sn >= r.nxt {
        ParseDataWraps(acked, wnd, p);
      }
    }
  }

  // ---------------------------------------------------------------- whole operations

  /** Both halves inside their windows. */
  predicate KcbNear(k: Kcb) {
    SndNear(k.snd, k.cfg.sndWnd) && RcvNear(k.rcv, k.cfg.rcvWnd)
  }

  /** The numbers `p` carries are near enough to those of the block it reaches. */
  predicate PacketNear(k: Kcb, p: Packet) {
    && k.snd.nxt - TWO31 <= p.una <= k.snd.nxt
    && (p.cmd == IKCP_CMD_ACK ==> k.snd.nxt - TWO31 <= p.sn < k.snd.nxt)
    && (p.cmd == IKCP_CMD_PUSH ==> k.rcv.nxt + k.cfg.rcvWnd - TWO31 <= p.sn < k.rcv.nxt + 0x2_0000)
  }

  lemma ApplyUnaNear(s: Snd, wnd: int, una: int)
    requires SndNear(s, wnd) && SndSorted(s.buf) && una <= s.nxt
    ensures SndNear(ApplyUna(Unbounded, s, una), wnd)
  {
    var k := DropBelowPosition(s.buf, una);
  }

  lemma InputPacketWraps(k: Kcb, p: Packet)
    requires KcbNear(k) && PacketNear(k, p) && SndSorted(k.snd.buf)
    ensures InputPacket(Bits32, WrapKcb(k), WrapPacket(p)) == WrapKcb(InputPacket(Unbounded, k, p))
  {
    ApplyUnaWraps(k.snd, k.cfg.sndWnd, p.una);
    ApplyUnaNear(k.snd, k.cfg.sndWnd, p.una);
    if p.cmd == IKCP_CMD_ACK {
      ApplyAckWraps(ApplyUna(Unbounded, k.snd, p.una), k.cfg.sndWnd, p.sn);
    } else if p.cmd == IKCP_CMD_PUSH {
      InputPushWraps(k.rcv, k.cfg.rcvWnd, p);
    }
  }

  predicate MaxNear(k: Kcb, a: MaxAck) {
    a.MaxAck? ==> k.snd.nxt - TWO31 <= a.sn < k.snd.nxt
  }

  lemma InputAckWraps(k: Kcb, a: MaxAck, p: Packet)
    requires PacketNear(k, p) && MaxNear(k, a)
    ensures InputAck(Bits32, WrapMax(a), WrapPacket(p)) == WrapMax(InputAck(Unbounded, a, p))
    ensures MaxNear(k, InputAck(Unbounded, a, p))
  {
    if p.cmd == IKCP_CMD_ACK && a.MaxAck? {
      SnDiffWraps(p.sn, a.sn);
    }
  }

  lemma FinishInputWraps(st: InputState, prevUna: int)
    requires st.k.cfg.mss >= 1
    requires SndNear(st.k.snd, st.k.cfg.sndWnd) && MaxNear(st.k, st.ack)
    requires st.k.snd.nxt - 0x1_0000 <= prevUna <= st.k.snd.nxt
    ensures FinishInput(Bits32, InputState(WrapKcb(st.k), WrapMax(st.ack)), U32(prevUna))
            == WrapKcb(FinishInput(Unbounded, st, prevUna))
  {
    SnDiffWraps(st.k.snd.una, prevUna);
    if st.ack.MaxAck? {
      ParseFastackWraps(st.k.snd, st.k.cfg.sndWnd, st.ack.sn);
    }
  }

  lemma {:induction false} AckPacketsWrap(k: Kcb, acks: seq<(int, int)>)
    ensures AckPackets(WrapKcb(k), WrapAcks(acks)) == WrapPackets(AckPackets(k, acks))
  {
    forall i | 0 <= i < |acks|
      ensures AckPackets(WrapKcb(k), WrapAcks(acks))[i] == WrapPackets(AckPackets(k, acks))[i]
    {
      assert AckPackets(k, acks)[i] == Control(k, IKCP_CMD_ACK, acks[i]);
    }
  }

  lemma ProbePacketsWrap(k: Kcb, p: Probe, last: (int, int))
    ensures ProbePackets(WrapKcb(k), p, (U32(last.0), last.1)) == WrapPackets(ProbePackets(k, p, last))
  {
    assert WrapPackets([]) == [];
    var a, b := Control(k, IKCP_CMD_WASK, last), Control(k, IKCP_CMD_WINS, last);
    assert WrapPackets([a]) == [WrapPacket(a)] && WrapPackets([b]) == [WrapPacket(b)];
    assert WrapPackets([a] + [b]) == [WrapPacket(a)] + [WrapPacket(b)];
  }

  /** The block after a flush is not affected by where in the ring its numbers lie. */
  lemma AfterFlushWraps(k: Kcb, lost: bool, change: bool, cwnd: int)
    requires 0 <= k.snd.nxt - k.snd.una < TWO32
    ensures AfterFlush(Bits32, WrapKcb(k), lost, change, cwnd) == AfterFlush(Unbounded, k, lost, change, cwnd)
  {
    var i := U32Split(k.snd.nxt);
    var j := U32Split(k.snd.una);
    I32Congruent(k.snd.nxt - k.snd.una, j - i);
    assert U32(k.snd.nxt) - U32(k.snd.una) == k.snd.nxt - k.snd.una + (j - i) * TWO32;
  }

  lemma {:induction false} FillWindowBounds(k: Kcb, s: Snd, cwnd: int, wnd: int)
    requires s.una <= s.nxt <= s.una + wnd && cwnd <= wnd
    ensures var s' := FillWindow(Unbounded, k, s, cwnd); s'.una == s.una && s.nxt <= s'.nxt <= s.una + wnd
    decreases |s.queue|
  {
    if s.nxt < s.una + cwnd && s.queue != [] {
      FillWindowBounds(k, NumberOne(Unbounded, k, s), cwnd, wnd);
    }
  }

  lemma LastAckWraps(acks: seq<(int, int)>)
    ensures LastAck(WrapAcks(acks)) == (U32(LastAck(acks).0), LastAck(acks).1)
  {
  }

  lemma ControlPacketsWrap(k: Kcb, probe: Probe)
    ensures ControlPackets(WrapKcb(k), probe) == WrapPackets(ControlPackets(k, probe))
  {
    AckPacketsWrap(k, k.rcv.acks);
    LastAckWraps(k.rcv.acks);
    ProbePacketsWrap(k, probe, LastAck(k.rcv.acks));
    WrapPacketsConcat(AckPackets(k, k.rcv.acks), ProbePackets(k, probe, LastAck(k.rcv.acks)));
  }

  lemma FlushedWraps(k: Kcb, probe: Probe, snd: Snd, out: FlushOut, cwnd: int)
    requires 0 <= snd.nxt - snd.una < TWO32
    ensures Flushed(Bits32, WrapKcb(k), probe, WrapSnd(snd), WrapOut(out), cwnd)
            == WrapKcb(Flushed(Unbounded, k, probe, snd, out, cwnd))
  {
    var k1 := Kcb(k.cfg, snd.(buf := out.buf), k.rcv.(acks := []), k.cong, k.rtt,
                  probe.(askSend := false, askTell := false), k.clock, k.dead || out.dead, U32(k.xmit + out.xmit));
    AfterFlushWraps(k1, out.lost, out.change, cwnd);
    assert WrapAcks([]) == [];
  }

  lemma FlushWraps(k: Kcb)
    requires SndNear(k.snd, k.cfg.sndWnd)
    requires 0 <= k.cong.cwnd && 0 <= k.cong.rmtWnd && 1 <= k.cfg.sndWnd
    ensures Flush(Bits32, WrapKcb(k)) == (WrapKcb(Flush(Unbounded, k).0), WrapPackets(Flush(Unbounded, k).1))
  {
    if k.clock.updated {
      var probe := ProbeWindow(k.probe, k.cong.rmtWnd, k.clock.current);
      var cwnd := SendWindow(k);
      FillWindowWraps(k, k.snd, cwnd);
      FillWindowBounds(k, k.snd, cwnd, k.cfg.sndWnd);
      var snd := FillWindow(Unbounded, k, k.snd, cwnd);
      FlushBufWraps(k, snd.buf);
      var out := FlushBuf(k, snd.buf);
      ControlPacketsWrap(k, probe);
      FlushedWraps(k, probe, snd, out, cwnd);
      WrapPacketsConcat(ControlPackets(k, probe), out.ps);
    } else {
      assert WrapPackets([]) == [];
    }
  }

  lemma RecvWraps(k: Kcb, maxLen: int)
    requires RcvNear(k.rcv, k.cfg.rcvWnd)
    ensures Recv(Bits32, WrapKcb(k), maxLen) == (WrapKcb(Recv(Unbounded, k, maxLen).0), Recv(Unbounded, k, maxLen).1)
  {
    var n := MsgNodes(k.rcv.queue);
    MoveReadyWraps(k.rcv, k.cfg.rcvWnd, k.cfg.rcvWnd);
    var taken := k.rcv.(queue := k.rcv.queue[n..]);
    assert RcvNear(taken, k.cfg.rcvWnd);
    MoveReadyWraps(taken, k.cfg.rcvWnd, k.cfg.rcvWnd);
  }

  lemma SendWraps(k: Kcb, msg: seq<byte>)
    requires k.cfg.mss >= 1
    ensures Send(WrapKcb(k), msg) == (WrapKcb(Send(k, msg).0), Send(k, msg).1)
  {
  }
}
