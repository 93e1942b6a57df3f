/** Fast retransmission, on the way in: which segments a datagram of acknowledgements counts as passed over. */
module FastAcks {
  import opened Serial
  import opened Kcp
  import opened Buffers
  import opened Channel
  import opened Connection
  import opened Delivery

  // ---------------------------------------------------------------- the highest number acknowledged

  predicate IsAck(p: Packet) {
    p.cmd == IKCP_CMD_ACK
  }

  /** `h` is the highest number that `before` or an acknowledgement among `ps` names, if there is one. */
  predicate Highest(before: MaxAck, ps: seq<Packet>, h: MaxAck) {
    && (h.NoAck? <==> before.NoAck? && forall p :: p in ps ==> !IsAck(p))
    && (h.MaxAck? ==>
          && (h == before || exists p :: p in ps && IsAck(p) && p.sn == h.sn)
          && (before.MaxAck? ==> before.sn <= h.sn)
          && forall p :: p in ps && IsAck(p) ==> p.sn <= h.sn)
  }

  lemma HighestOne(before: MaxAck, p: Packet)
    ensures Highest(before, [p], InputAck(Unbounded, before, p))
  {
    assert p in [p];
  }

  lemma HighestMore(before: MaxAck, p: Packet, ps: seq<Packet>, mid: MaxAck, h: MaxAck)
    requires Highest(before, [p], mid) && Highest(mid, ps, h)
    ensures Highest(before, [p] + ps, h)
  {
    var all := [p] + ps;
    assert p in [p] && p in all;
    assert forall q :: q in all <==> q == p || q in ps;
    assert forall q :: q in [p] <==> q == p;
  }

  lemma {:induction false} TracksHighest(st: InputState, ps: seq<Packet>)
    ensures Highest(st.ack, ps, InputPackets(Unbounded, st, ps).ack)
    decreases |ps|
  {
    if ps != [] {
      var st1 := InputState(InputPacket(Unbounded, st.k, ps[0]), InputAck(Unbounded, st.ack, ps[0]));
      HighestOne(st.ack, ps[0]);
      TracksHighest(st1, ps[1..]);
      hide InputPacket, InputAck, Highest;
      HighestMore(st.ack, ps[0], ps[1..], st1.ack, InputPackets(Unbounded, st1, ps[1..]).ack);
      assert [ps[0]] + ps[1..] == ps;
    }
  }

  // ---------------------------------------------------------------- what is left in the buffer

  predicate LeftOf(b': seq<SndSeg>, b: seq<SndSeg>) {
    forall s :: s in b' ==> s in b
  }

  lemma {:induction false} DropLeaves(buf: seq<SndSeg>, una: int)
    ensures LeftOf(DropBelow(Unbounded, buf, una), buf)
  {
    if buf != [] {
      DropLeaves(buf[1..], una);
    }
  }

  lemma {:induction false} RemoveLeaves(buf: seq<SndSeg>, sn: int)
    ensures LeftOf(RemoveAck(Unbounded, buf, sn), buf)
  {
    if buf != [] {
      RemoveLeaves(buf[1..], sn);
    }
  }

  lemma PacketLeaves(k: Kcb, p: Packet)
    ensures LeftOf(InputPacket(Unbounded, k, p).snd.buf, k.snd.buf)
  {
    hide DropBelow, RemoveAck, InputPush, SampleRtt;
    DropLeaves(k.snd.buf, p.una);
    RemoveLeaves(ApplyUna(Unbounded, k.snd, p.una).buf, p.sn);
  }

  lemma {:induction false} PacketsLeave(st: InputState, ps: seq<Packet>)
    ensures LeftOf(InputPackets(Unbounded, st, ps).k.snd.buf, st.k.snd.buf)
    decreases |ps|
  {
    if ps != [] {
      hide InputPacket;
      PacketLeaves(st.k, ps[0]);
      PacketsLeave(InputState(InputPacket(Unbounded, st.k, ps[0]), InputAck(Unbounded, st.ack, ps[0])), ps[1..]);
    }
  }

  // ---------------------------------------------------------------- and counted

  /** One more acknowledgement has passed `s` over, if `skipped`. */
  function Counted(s: SndSeg, skipped: bool): SndSeg {
    if skipped then s.(fastack := U32(s.fastack + 1)) else s
  }

  /** The counting scan counts exactly the segments below `sn`. */
  lemma {:induction false} BumpsBelow(buf: seq<SndSeg>, sn: int)
    requires SndSorted(buf)
    ensures var b := BumpFastack(Unbounded, buf, sn);
      |b| == |buf| && forall i :: 0 <= i < |b| ==> b[i] == Counted(buf[i], buf[i].sn < sn)
  {
    hide U32;
    if buf != [] && sn >= buf[0].sn {
      BumpsBelow(buf[1..], sn);
    }
  }

  predicate SkippedBy(ps: seq<Packet>, sn: int) {
    exists p :: p in ps && IsAck(p) && sn < p.sn
  }

  lemma SkippedByHighest(ps: seq<Packet>, h: MaxAck, sn: int)
    requires Highest(NoAck, ps, h)
    ensures SkippedBy(ps, sn) <==> h.MaxAck? && sn < h.sn
  {
  }

  /** What a datagram leaves of the send buffer: segments that were there, each counted as passed over exactly when
      the datagram acknowledges a later one. */
  predicate CountsSkips(b: seq<SndSeg>, ps: seq<Packet>, b': seq<SndSeg>) {
    forall s' :: s' in b' ==> IsCounted(b, ps, s')
  }

  predicate IsCounted(b: seq<SndSeg>, ps: seq<Packet>, s': SndSeg) {
    exists s :: s in b && s' == Counted(s, SkippedBy(ps, s.sn))
  }

  lemma FinishCounts(st: InputState, ps: seq<Packet>, prevUna: int, b: seq<SndSeg>)
    requires st.k.cfg.mss >= 1 && Highest(NoAck, ps, st.ack) && LeftOf(st.k.snd.buf, b) && SndSorted(st.k.snd.buf)
    requires forall i :: 0 <= i < |st.k.snd.buf| ==> st.k.snd.una <= st.k.snd.buf[i].sn
    requires st.ack.MaxAck? ==> st.ack.sn < st.k.snd.nxt
    ensures CountsSkips(b, ps, FinishInput(Unbounded, st, prevUna).snd.buf)
  {
    var buf, b' := st.k.snd.buf, FinishInput(Unbounded, st, prevUna).snd.buf;
    FinishBumps(st, prevUna);
    hide FinishInput, U32, LeftOf, Highest;
    forall s' | s' in b' ensures IsCounted(b, ps, s') {
      var i :| 0 <= i < |b'| && b'[i] == s';
      SkippedByHighest(ps, st.ack, buf[i].sn);
      Leaves(buf, b, buf[i]);
      assert b'[i] == Counted(buf[i], SkippedBy(ps, buf[i].sn));
    }
  }

  lemma FinishBumps(st: InputState, prevUna: int)
    requires st.k.cfg.mss >= 1 && SndSorted(st.k.snd.buf)
    requires forall i :: 0 <= i < |st.k.snd.buf| ==> st.k.snd.una <= st.k.snd.buf[i].sn
    requires st.ack.MaxAck? ==> st.ack.sn < st.k.snd.nxt
    ensures var buf, b' := st.k.snd.buf, FinishInput(Unbounded, st, prevUna).snd.buf;
      |b'| == |buf| && forall i :: 0 <= i < |b'| ==> b'[i] == Counted(buf[i], st.ack.MaxAck? && buf[i].sn < st.ack.sn)
  {
    hide GrowCwnd, BumpFastack, U32;
    if st.ack.MaxAck? {
      BumpsBelow(st.k.snd.buf, st.ack.sn);
    }
  }

  lemma Leaves(b': seq<SndSeg>, b: seq<SndSeg>, s: SndSeg)
    requires LeftOf(b', b) && s in b'
    ensures s in b
  {
  }

  // ---------------------------------------------------------------- in every run

  /** No acknowledgement names a number that was not given out. */
  lemma AcksBelowNxt(k: Kcb, fx: seq<Frag>, takenX: int, y: Kcb, fy: seq<Frag>, takenY: int, p: Packet)
    requires Both(k, fx, takenX, y, fy, takenY) && FromPeer(p, y, fy) && IsAck(p)
    ensures p.sn < k.snd.nxt
  {
  }

  lemma DatagramCounts(k: Kcb, fx: seq<Frag>, takenX: int, y: Kcb, fy: seq<Frag>, takenY: int, ps: seq<Packet>)
    requires ValidCfg(k.cfg) && ValidCfg(y.cfg) && Both(k, fx, takenX, y, fy, takenY)
    requires forall j :: 0 <= j < |ps| ==> FromPeer(ps[j], y, fy)
    ensures CountsSkips(k.snd.buf, ps, InputDatagram(Unbounded, k, ps).snd.buf)
  {
    hide CountsSkips, Highest, LeftOf, InputPackets, FinishInput, FromPeer;
    var st := InputPackets(Unbounded, InputState(k, NoAck), ps);
    InputKeepsCfg(Unbounded, InputState(k, NoAck), ps);
    InputPacketsKeep(InputState(k, NoAck), fx, takenX, y, fy, takenY, ps);
    TracksHighest(InputState(k, NoAck), ps);
    PacketsLeave(InputState(k, NoAck), ps);
    if st.ack.MaxAck? {
      var p := HighestIsAck(ps, st.ack);
      AcksBelowNxt(k, fx, takenX, y, fy, takenY, p);
    }
    FinishCounts(st, ps, k.snd.una, k.snd.buf);
  }

  lemma HighestIsAck(ps: seq<Packet>, h: MaxAck) returns (p: Packet)
    requires Highest(NoAck, ps, h) && h.MaxAck?
    ensures p in ps && IsAck(p) && p.sn == h.sn
  {
    p :| p in ps && IsAck(p) && p.sn == h.sn;
  }

  /** In every run, for either side: a datagram that comes in leaves of the send buffer segments that were there, and
      counts as passed over, once, exactly those below a number that it acknowledges. */
  lemma SkipsCounted(ca: Cfg, cb: Cfg, es: seq<Event>, side: Side, i: nat)
    requires Compatible(ca, cb)
    ensures var n := Run(Start(ca, cb), es); var x, wire := At(n, side), At(n, Other(side)).out;
      i < |wire| ==> CountsSkips(x.kcb.snd.buf, wire[i], StepEnd(x, wire, Deliver(i)).kcb.snd.buf)
  {
    hide Run, CountsSkips, InputDatagram, FromPeer, StepEnd, Flow;
    var n := Run(Start(ca, cb), es);
    RunInv(ca, cb, es);
    InvBoth(n, side);
    var x, y := At(n, side), At(n, Other(side));
    if i < |y.out| {
      PeersPackets(x, y, i);
      Delivered(x, y.out, i);
      DatagramCounts(x.kcb, Accepted(x), Taken(x, y), y.kcb, Accepted(y), Taken(y, x), y.out[i]);
    }
  }

  lemma Delivered(x: End, wire: seq<seq<Packet>>, i: nat)
    requires x.kcb.cfg.mss >= 1 && i < |wire|
    ensures StepEnd(x, wire, Deliver(i)).kcb == InputDatagram(Unbounded, x.kcb, wire[i])
  {
    hide InputDatagram;
  }

  lemma PeersPackets(x: End, y: End, i: nat)
    requires ValidCfg(x.kcb.cfg) && ValidCfg(y.kcb.cfg) && Flow(x, y) && Flow(y, x) && i < |y.out|
    ensures Both(x.kcb, Accepted(x), Taken(x, y), y.kcb, Accepted(y), Taken(y, x))
    ensures forall j :: 0 <= j < |y.out[i]| ==> FromPeer(y.out[i][j], y.kcb, Accepted(y))
  {
    forall j | 0 <= j < |y.out[i]| ensures FromPeer(y.out[i][j], y.kcb, Accepted(y)) {
      assert AckOk(y.out[i][j], y.kcb.rcv) && PushOk(y.out[i][j], Accepted(y), y.kcb.snd.nxt);
    }
  }
}
