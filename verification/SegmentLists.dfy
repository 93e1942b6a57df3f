/** The four lists of a control block, with segments as the program stores them: each operation walks the nodes,
    compares sequence numbers where the program does, and links or unlinks in place. */
module SegmentLists {
  import opened Bytes
  import opened Sequences
  import opened Serial
  import opened Kcp
  import opened Queues

  /** IKCPSEG: one record for every use a segment is put to. */
  datatype Seg = Seg(conv: int, cmd: int, frg: int, wnd: int, ts: int, sn: int, una: int, data: seq<byte>,
                     resendts: int, rto: int, fastack: int, xmit: int)

  // ---------------------------------------------------------------- what the lists stand for

  function FragOf(s: Seg): Frag {
    Frag(s.frg, s.data)
  }

  function SndSegOf(s: Seg): SndSeg {
    SndSeg(s.frg, s.data, s.wnd, s.ts, s.sn, s.una, s.resendts, s.rto, s.fastack, s.xmit)
  }

  function PacketOf(s: Seg): Packet {
    Packet(s.conv, s.cmd, s.frg, s.wnd, s.ts, s.sn, s.una, s.data)
  }

  predicate Frags(segs: seq<Seg>, v: seq<Frag>) {
    |segs| == |v| && forall i :: 0 <= i < |v| ==> v[i] == FragOf(segs[i])
  }

  predicate SndSegs(segs: seq<Seg>, v: seq<SndSeg>) {
    |segs| == |v| && forall i :: 0 <= i < |v| ==> v[i] == SndSegOf(segs[i])
  }

  predicate Packets(segs: seq<Seg>, v: seq<Packet>) {
    |segs| == |v| && forall i :: 0 <= i < |v| ==> v[i] == PacketOf(segs[i])
  }

  /** Numbered segments belong to the conversation `conv` and carry data. */
  predicate Tagged(segs: seq<Seg>, conv: int) {
    forall i :: 0 <= i < |segs| ==> segs[i].conv == conv && segs[i].cmd == IKCP_CMD_PUSH
  }

  // ---------------------------------------------------------------- scans, seen from the middle

  /** The backward scan passes over every segment from `i` on. */
  predicate PassedFrom(buf: seq<Packet>, i: nat, p: Packet) {
    forall j :: i <= j < |buf| ==> buf[j].sn != p.sn && TimeDiff(p.sn, buf[j].sn) <= 0
  }

  /** Where the backward scan stops decides what it does. */
  lemma {:induction false} StopsAt(buf: seq<Packet>, i: nat, p: Packet)
    requires i <= |buf| && PassedFrom(buf, i, p)
    ensures i > 0 && buf[i - 1].sn == p.sn ==> InsertSeg(Bits32, buf, p) == buf
    ensures (i > 0 ==> buf[i - 1].sn != p.sn && TimeDiff(p.sn, buf[i - 1].sn) > 0) ==>
      InsertSeg(Bits32, buf, p) == With(buf, i, p)
  {
    hide TimeDiff;
    if i < |buf| {
      var front, last := buf[..|buf| - 1], buf[|buf| - 1];
      assert front + [last] == buf && front[..i] == buf[..i] && front[i..] + [last] == buf[i..];
      assert PassedFrom(front, i, p) && InsertSeg(Bits32, buf, p) == InsertSeg(Bits32, front, p) + [last];
      hide PassedFrom, InsertSeg;
      StopsAt(front, i, p);
      ConcatAssoc(front[..i] + [p], front[i..], [last]);
    } else {
      assert buf[..i] + [p] + buf[i..] == buf + [p];
    }
  }

  /** The scan for an acknowledged number has passed the first `i` segments. */
  predicate AckPassed(buf: seq<SndSeg>, i: nat, sn: int)
    requires i <= |buf|
  {
    RemoveAck(Bits32, buf, sn) == buf[..i] + RemoveAck(Bits32, buf[i..], sn)
  }

  lemma AckStarts(buf: seq<SndSeg>, sn: int)
    ensures AckPassed(buf, 0, sn)
  {
    assert buf[0..] == buf;
    assert buf[..0] + RemoveAck(Bits32, buf, sn) == RemoveAck(Bits32, buf, sn);
  }

  lemma AckStep(buf: seq<SndSeg>, i: nat, sn: int)
    requires i < |buf| && AckPassed(buf, i, sn)
    ensures sn == buf[i].sn ==> RemoveAck(Bits32, buf, sn) == Without(buf, i)
    ensures sn != buf[i].sn && TimeDiff(sn, buf[i].sn) < 0 ==> RemoveAck(Bits32, buf, sn) == buf
    ensures sn != buf[i].sn && TimeDiff(sn, buf[i].sn) >= 0 ==> AckPassed(buf, i + 1, sn)
  {
    hide TimeDiff;
    assert buf[i..][1..] == buf[i + 1..] && buf[..i] + buf[i..] == buf;
    assert buf[..i] + [buf[i]] == buf[..i + 1];
    ConcatAssoc(buf[..i], [buf[i]], RemoveAck(Bits32, buf[i + 1..], sn));
  }

  lemma AckEnds(buf: seq<SndSeg>, sn: int)
    requires AckPassed(buf, |buf|, sn)
    ensures RemoveAck(Bits32, buf, sn) == buf
  {
    assert buf[|buf|..] == [] && buf[..|buf|] == buf && buf + [] == buf;
  }

  /** The counting scan has turned `buf0` into `buf` up to its i-th segment. */
  predicate BumpPassed(buf0: seq<SndSeg>, buf: seq<SndSeg>, i: nat, sn: int)
    requires i <= |buf0| == |buf|
  {
    buf[i..] == buf0[i..] && BumpFastack(Bits32, buf0, sn) == buf[..i] + BumpFastack(Bits32, buf[i..], sn)
  }

  lemma BumpStarts(buf: seq<SndSeg>, sn: int)
    ensures BumpPassed(buf, buf, 0, sn)
  {
    assert buf[0..] == buf;
    assert buf[..0] + BumpFastack(Bits32, buf, sn) == BumpFastack(Bits32, buf, sn);
  }

  lemma BumpStep(buf0: seq<SndSeg>, buf: seq<SndSeg>, i: nat, sn: int)
    requires i < |buf0| == |buf| && BumpPassed(buf0, buf, i, sn) && TimeDiff(sn, buf[i].sn) >= 0
    ensures var s := if sn != buf[i].sn then buf[i].(fastack := U32(buf[i].fastack + 1)) else buf[i];
      BumpPassed(buf0, buf[i := s], i + 1, sn)
  {
    hide TimeDiff, U32;
    var s := if sn != buf[i].sn then buf[i].(fastack := U32(buf[i].fastack + 1)) else buf[i];
    var buf' := buf[i := s];
    assert buf[i..][0] == buf[i] && buf[i..][1..] == buf'[i + 1..] && buf0[i + 1..] == buf0[i..][1..];
    assert buf[..i] + [s] == buf'[..i + 1];
    ConcatAssoc(buf[..i], [s], BumpFastack(Bits32, buf'[i + 1..], sn));
  }

  lemma BumpEnds(buf0: seq<SndSeg>, buf: seq<SndSeg>, i: nat, sn: int)
    requires i <= |buf0| == |buf| && BumpPassed(buf0, buf, i, sn)
    requires i < |buf| ==> TimeDiff(sn, buf[i].sn) < 0
    ensures BumpFastack(Bits32, buf0, sn) == buf
  {
    hide TimeDiff;
    assert buf[..i] + buf[i..] == buf;
    assert i < |buf| ==> buf[i..][0] == buf[i];
  }

  /** A message's pieces, from its first to its last. */
  lemma JoinedHead(q: seq<Frag>)
    requires q != []
    ensures Joined(q[..MsgNodes(q)])
            == q[0].data + (if q[0].frg == 0 then [] else Joined(q[1..][..MsgNodes(q[1..])]))
  {
    assert q[..MsgNodes(q)][1..] == if q[0].frg == 0 then [] else q[1..][..MsgNodes(q[1..])];
  }

  // ---------------------------------------------------------------- the lists

  method TwoQueues() returns (q: Queue<Seg>, r: Queue<Seg>)
    ensures q.Valid() && r.Valid() && fresh(q.Repr) && fresh(r.Repr) && q.Repr !! r.Repr
    ensures q.value == [] && r.value == [] && q in q.Repr && r in r.Repr
  {
    hide Queue.Closed;
    q := new Queue<Seg>();
    r := new Queue<Seg>();
  }

  /** snd_queue, rcv_queue, snd_buf and rcv_buf with their counters. `queued`, `ready`, `inFlight` and `early` are
      what is on them, in order. No node is on two lists, and a node on none is not among theirs. */
  class Segments {
    const conv: int
    const sndQue: Queue<Seg>
    const rcvQue: Queue<Seg>
    const sndBuf: Queue<Seg>
    const rcvBuf: Queue<Seg>
    ghost var queued: seq<Frag>
    ghost var ready: seq<Frag>
    ghost var inFlight: seq<SndSeg>
    ghost var early: seq<Packet>
    ghost var Repr: set<object>

    ghost predicate Valid()
      reads this, Repr
    {
      && this in Repr && sndQue in Repr && rcvQue in Repr && sndBuf in Repr && rcvBuf in Repr
      && sndQue.count == |queued| && rcvQue.count == |ready| && sndBuf.count == |inFlight| && rcvBuf.count == |early|
      && Layout()
    }

    /** Four rings, apart from each other, with the segments the ghost fields say. */
    ghost predicate Layout()
      requires this in Repr && {sndQue, rcvQue, sndBuf, rcvBuf} <= Repr
      reads this, Repr
    {
      && Apart()
      && sndQue.Valid() && rcvQue.Valid() && sndBuf.Valid() && rcvBuf.Valid()
      && Frags(sndQue.value, queued) && Frags(rcvQue.value, ready)
      && SndSegs(sndBuf.value, inFlight) && Packets(rcvBuf.value, early) && Tagged(sndBuf.value, conv)
    }

    /** The lists share nothing. */
    ghost predicate Apart()
      reads this, sndQue, rcvQue, sndBuf, rcvBuf
    {
      && sndQue.Repr <= Repr && rcvQue.Repr <= Repr && sndBuf.Repr <= Repr && rcvBuf.Repr <= Repr
      && this !in sndQue.Repr && this !in rcvQue.Repr && this !in sndBuf.Repr && this !in rcvBuf.Repr
      && sndQue.Repr !! rcvQue.Repr !! sndBuf.Repr !! rcvBuf.Repr
    }

    ghost function Lists(): set<Queue<Seg>> {
      {sndQue, rcvQue, sndBuf, rcvBuf}
    }

    /** What the program relies on in its links: each list is a ring with as many segments as its counter says, and no
        node is on two lists. */
    ghost predicate WellLinked()
      reads this, sndQue, rcvQue, sndBuf, rcvBuf, sndQue.ring, rcvQue.ring, sndBuf.ring, rcvBuf.ring
    {
      && (forall q <- Lists() :: q.Circular())
      && (forall q <- Lists(), r <- Lists(), n: Node<Seg> :: n in q.ring && n in r.ring ==> q == r)
    }

    lemma IsWellLinked()
      requires Valid()
      ensures WellLinked()
    {
      hide Queue.Circular;
      forall q <- Lists() ensures q.Circular() {
        q.IsCircular();
      }
      forall q <- Lists(), n | n in q.ring ensures n in q.Repr {
      }
    }

    constructor (conv: int)
      ensures Valid() && fresh(Repr) && this.conv == conv
      ensures queued == [] && ready == [] && inFlight == [] && early == []
    {
      hide Queue.Closed;
      this.conv := conv;
      var sq, rq := TwoQueues();
      var sb, rb := TwoQueues();
      sndQue, rcvQue, sndBuf, rcvBuf := sq, rq, sb, rb;
      queued, ready, inFlight, early := [], [], [], [];
      Repr := {this} + sq.Repr + rq.Repr + sb.Repr + rb.Repr;
    }

    // ------------------------------------------------------------- snd_queue and rcv_queue

    /** A new segment for `frag`, at the end of snd_queue. */
    method Submit(frag: Frag)
      requires Valid()
      modifies Repr
      ensures Valid() && fresh(Repr - old(Repr))
      ensures queued == old(queued) + [frag]
      ensures ready == old(ready) && inFlight == old(inFlight) && early == old(early)
    {
      hide Queue.Closed;
      var node := new Node<Seg>(Segment(Seg(0, 0, frag.frg, 0, 0, 0, 0, frag.data, 0, 0, 0, 0)));
      sndQue.Push(node);
      Repr := Repr + {node};
      queued := queued + [frag];
    }

    /** `p` is the node of the i-th segment of rcv_queue, counting from 0, or the head past the last one. */
    ghost predicate AtReady(p: Node<Seg>, i: nat)
      requires Valid()
      reads this, Repr
    {
      i <= |ready| && rcvQue.At(p, i + 1) && (p == rcvQue.head <==> i == |ready|)
    }

    method FirstReady() returns (p: Node<Seg>)
      requires Valid()
      ensures AtReady(p, 0)
    {
      hide Queue.Closed;
      p := rcvQue.First();
      rcvQue.Ends(p, 1);
    }

    /** The i-th segment of rcv_queue, and the node after its own. */
    method NextReady(p: Node<Seg>, ghost i: nat) returns (frag: Frag, q: Node<Seg>)
      requires Valid() && i < |ready| && AtReady(p, i)
      ensures frag == ready[i] && AtReady(q, i + 1)
    {
      hide Queue.Closed;
      var seg := rcvQue.Get(p, i + 1);
      frag := FragOf(seg);
      q := rcvQue.Next(p, i + 1);
      rcvQue.Ends(q, i + 2);
    }

    /** Takes `p`, the first node of rcv_queue, off it; `q`, the node after it, is now the first. */
    method DropReady(p: Node<Seg>, ghost q: Node<Seg>)
      requires Valid() && ready != [] && AtReady(p, 0) && AtReady(q, 1)
      modifies Repr
      ensures Valid() && Repr == old(Repr)
      ensures ready == old(ready)[1..] && AtReady(q, 0)
      ensures queued == old(queued) && inFlight == old(inFlight) && early == old(early)
    {
      hide Queue.Closed;
      rcvQue.Unlink(p, 1);
      ready := ready[1..];
    }

    /** ikcp_peeksize. */
    method PeekSize() returns (size: int)
      requires Valid()
      ensures size == Kcp.PeekSize(ready)
    {
      hide Queue.Closed, SndSegs, Packets, Apart;
      var p := FirstReady();
      if p == rcvQue.head {
        return -1;
      }
      var seg, next := NextReady(p, 0);
      if seg.frg == 0 {
        return |seg.data|;
      }
      if rcvQue.count < seg.frg + 1 {
        return -1;
      }
      size := 0;
      ghost var i := 0;
      assert ready[0..] == ready;
      while p != rcvQue.head
        invariant 0 <= i <= |ready| && AtReady(p, i)
        invariant size + |Joined(ready[i..][..MsgNodes(ready[i..])])| == |Joined(ready[..MsgNodes(ready)])|
        decreases |ready| - i
      {
        JoinedHead(ready[i..]);
        assert ready[i..][1..] == ready[i + 1..];
        seg, next := NextReady(p, i);
        size := size + |seg.data|;
        if seg.frg == 0 {
          return;
        }
        p, i := next, i + 1;
      }
    }

    /** Joins the pieces of the message at the head of rcv_queue, taking them off it unless only peeking. */
    method MergeFragments(peek: bool) returns (data: seq<byte>)
      requires Valid()
      modifies Repr
      ensures Valid() && Repr == old(Repr)
      ensures data == Joined(old(ready)[..MsgNodes(old(ready))])
      ensures ready == if peek then old(ready) else old(ready)[MsgNodes(old(ready))..]
      ensures queued == old(queued) && inFlight == old(inFlight) && early == old(early)
    {
      hide Queue.Closed, Frags, SndSegs, Packets, Apart;
      data := [];
      ghost var q0, i := ready, 0;
      assert q0[0..] == q0;
      var p := FirstReady();
      while p != rcvQue.head
        invariant 0 <= i <= |q0| && Valid() && Repr == old(Repr)
        invariant ready == (if peek then q0 else q0[i..]) && AtReady(p, if peek then i else 0)
        invariant i + MsgNodes(q0[i..]) == MsgNodes(q0)
        invariant data + Joined(q0[i..][..MsgNodes(q0[i..])]) == Joined(q0[..MsgNodes(q0)])
        invariant queued == old(queued) && inFlight == old(inFlight) && early == old(early)
        decreases |q0| - i
      {
        JoinedHead(q0[i..]);
        assert q0[i..][1..] == q0[i + 1..];
        ghost var tail := if q0[i].frg == 0 then [] else Joined(q0[i + 1..][..MsgNodes(q0[i + 1..])]);
        ConcatAssoc(data, q0[i].data, tail);
        var seg, next := NextReady(p, if peek then i else 0);
        data := data + seg.data;
        if !peek {
          DropReady(p, next);
        }
        p, i := next, i + 1;
        if seg.frg == 0 {
          assert data + [] == data;
          return;
        }
      }
      assert q0[i..] == [] && Joined([]) == [] && data + [] == data;
    }

    // ------------------------------------------------------------- snd_buf

    /** `p` is the node of the i-th segment of snd_buf, counting from 0, or the head past the last one. */
    ghost predicate AtSnd(p: Node<Seg>, i: nat)
      requires Valid()
      reads this, Repr
    {
      i <= |inFlight| && sndBuf.At(p, i + 1) && (p == sndBuf.head <==> i == |inFlight|)
    }

    method FirstSnd() returns (p: Node<Seg>)
      requires Valid()
      ensures AtSnd(p, 0) && (p == sndBuf.head <==> inFlight == [])
    {
      hide Queue.Closed;
      p := sndBuf.First();
      sndBuf.Ends(p, 1);
    }

    method NextSnd(p: Node<Seg>, ghost i: nat) returns (q: Node<Seg>)
      requires Valid() && i < |inFlight| && AtSnd(p, i)
      ensures AtSnd(q, i + 1) && (q == sndBuf.head <==> i + 1 == |inFlight|)
    {
      hide Queue.Closed;
      q := sndBuf.Next(p, i + 1);
      sndBuf.Ends(q, i + 2);
    }

    method GetSnd(p: Node<Seg>, ghost i: nat) returns (s: SndSeg)
      requires Valid() && i < |inFlight| && AtSnd(p, i)
      ensures s == inFlight[i]
    {
      hide Queue.Closed;
      var seg := sndBuf.Get(p, i + 1);
      s := SndSegOf(seg);
    }

    /** What is put on the wire of a segment of snd_buf. */
    method WireSnd(p: Node<Seg>, ghost i: nat) returns (packet: Packet)
      requires Valid() && i < |inFlight| && AtSnd(p, i)
      ensures packet == PushPacket(conv, inFlight[i])
    {
      hide Queue.Closed;
      var seg := sndBuf.Get(p, i + 1);
      packet := PacketOf(seg);
    }

    /** Assigns to the fields of a segment in place. */
    method SetSnd(p: Node<Seg>, s: SndSeg, ghost i: nat)
      requires Valid() && i < |inFlight| && AtSnd(p, i)
      modifies Repr
      ensures Valid() && Repr == old(Repr) && AtSnd(p, i)
      ensures inFlight == old(inFlight)[i := s]
      ensures queued == old(queued) && ready == old(ready) && early == old(early)
    {
      hide Queue.Closed;
      var seg := sndBuf.Get(p, i + 1);
      sndBuf.Set(p, Seg(seg.conv, seg.cmd, s.frg, s.wnd, s.ts, s.sn, s.una, s.data,
                        s.resendts, s.rto, s.fastack, s.xmit), i + 1);
      inFlight := inFlight[i := s];
    }

    /** Unlinks `p`, the node of the i-th segment of snd_buf; `q`, the node after it, is now the i-th. */
    method DropSnd(p: Node<Seg>, ghost q: Node<Seg>, ghost i: nat)
      requires Valid() && i < |inFlight| && AtSnd(p, i) && AtSnd(q, i + 1)
      modifies Repr
      ensures Valid() && Repr == old(Repr)
      ensures inFlight == Without(old(inFlight), i)
      ensures AtSnd(q, i)
      ensures queued == old(queued) && ready == old(ready) && early == old(early)
    {
      hide Queue.Closed;
      sndBuf.Unlink(p, i + 1);
      inFlight := Without(inFlight, i);
    }

    /** ikcp_parse_una. */
    method ParseUna(una: int)
      requires Valid()
      modifies Repr
      ensures Valid() && Repr == old(Repr)
      ensures inFlight == DropBelow(Bits32, old(inFlight), una)
      ensures queued == old(queued) && ready == old(ready) && early == old(early)
    {
      hide Queue.Closed, Frags, SndSegs, Packets, Apart, TimeDiff;
      var p := FirstSnd();
      while p != sndBuf.head
        invariant Valid() && Repr == old(Repr) && AtSnd(p, 0)
        invariant DropBelow(Bits32, inFlight, una) == DropBelow(Bits32, old(inFlight), una)
        invariant queued == old(queued) && ready == old(ready) && early == old(early)
        decreases |inFlight|
      {
        var seg := GetSnd(p, 0);
        var next := NextSnd(p, 0);
        if TimeDiff(una, seg.sn) > 0 {
          assert Without(inFlight, 0) == inFlight[1..];
          DropSnd(p, next, 0);
          p := next;
        } else {
          break;
        }
      }
    }

    /** The loop of ikcp_parse_ack. */
    method RemoveAck(sn: int)
      requires Valid()
      modifies Repr
      ensures Valid() && Repr == old(Repr)
      ensures inFlight == Kcp.RemoveAck(Bits32, old(inFlight), sn)
      ensures queued == old(queued) && ready == old(ready) && early == old(early)
    {
      hide Queue.Closed, Frags, SndSegs, Packets, Apart, TimeDiff, Kcp.RemoveAck, AckPassed;
      var p := FirstSnd();
      ghost var i := 0;
      AckStarts(inFlight, sn);
      while p != sndBuf.head
        invariant Valid() && Repr == old(Repr) && inFlight == old(inFlight)
        invariant i <= |inFlight| && AtSnd(p, i) && AckPassed(inFlight, i, sn)
        invariant queued == old(queued) && ready == old(ready) && early == old(early)
        decreases |inFlight| - i
      {
        var seg := GetSnd(p, i);
        var next := NextSnd(p, i);
        AckStep(inFlight, i, sn);
        if sn == seg.sn {
          DropSnd(p, next, i);
          return;
        }
        if TimeDiff(sn, seg.sn) < 0 {
          return;
        }
        p := next;
        i := i + 1;
      }
      AckEnds(inFlight, sn);
    }

    /** The loop of ikcp_parse_fastack. */
    method BumpFastack(sn: int)
      requires Valid()
      modifies Repr
      ensures Valid() && Repr == old(Repr)
      ensures inFlight == Kcp.BumpFastack(Bits32, old(inFlight), sn)
      ensures queued == old(queued) && ready == old(ready) && early == old(early)
    {
      hide Queue.Closed, Frags, SndSegs, Packets, Apart, TimeDiff, Kcp.BumpFastack, BumpPassed, U32;
      ghost var buf0, i := inFlight, 0;
      var p := FirstSnd();
      BumpStarts(buf0, sn);
      while p != sndBuf.head
        invariant Valid() && Repr == old(Repr)
        invariant i <= |inFlight| == |buf0| && AtSnd(p, i) && BumpPassed(buf0, inFlight, i, sn)
        invariant queued == old(queued) && ready == old(ready) && early == old(early)
        decreases |inFlight| - i
      {
        var seg := GetSnd(p, i);
        if TimeDiff(sn, seg.sn) < 0 {
          break;
        }
        BumpStep(buf0, inFlight, i, sn);
        if sn != seg.sn {
          SetSnd(p, seg.(fastack := U32(seg.fastack + 1)), i);
        } else {
          assert inFlight[i := seg] == inFlight;
        }
        p := NextSnd(p, i);
        i := i + 1;
      }
      BumpEnds(buf0, inFlight, i, sn);
    }

    /** Moves the first segment of snd_queue to the end of snd_buf and fills in its fields. */
    method NumberOne(wnd: int, ts: int, sn: int, una: int, rto: int)
      requires Valid() && queued != []
      modifies Repr
      ensures Valid() && Repr == old(Repr)
      ensures queued == old(queued)[1..]
      ensures inFlight
              == old(inFlight) + [SndSeg(old(queued)[0].frg, old(queued)[0].data, wnd, ts, sn, una, ts, rto, 0, 0)]
      ensures ready == old(ready) && early == old(early)
    {
      hide Queue.Closed;
      ghost var n := |inFlight|;
      var p := Transfer(sndQue, sndBuf);
      var seg := sndBuf.Get(p, n + 1);
      sndBuf.Set(p, Seg(conv, IKCP_CMD_PUSH, seg.frg, wnd, ts, sn, una, seg.data, ts, rto, 0, 0), n + 1);
      inFlight := inFlight + [SndSeg(queued[0].frg, queued[0].data, wnd, ts, sn, una, ts, rto, 0, 0)];
      queued := queued[1..];
    }

    // ------------------------------------------------------------- rcv_buf

    /** The loop of ikcp_parse_data, from the tail of rcv_buf back: a duplicate of `p`, or the node it goes after. */
    method FindSlot(p: Packet) returns (repeat: bool, at: Node<Seg>, ghost i: nat)
      requires Valid()
      ensures i <= |early| && at == rcvBuf.ring[i]
      ensures InsertSeg(Bits32, early, p) == if repeat then early else With(early, i, p)
    {
      hide Queue.Closed, TimeDiff, InsertSeg, Frags, SndSegs, Apart;
      repeat, i := false, |early|;
      at := rcvBuf.Last();
      rcvBuf.HeadOnce(i);
      while at != rcvBuf.head
        invariant i <= |early| && at == rcvBuf.ring[i] && (at == rcvBuf.head <==> i == 0)
        invariant PassedFrom(early, i, p)
        decreases i
      {
        var seg := rcvBuf.Get(at, i);
        var prev := rcvBuf.Prev(at, i);
        if seg.sn == p.sn {
          StopsAt(early, i, p);
          return true, at, i;
        }
        if TimeDiff(p.sn, seg.sn) > 0 {
          break;
        }
        at, i := prev, i - 1;
        rcvBuf.HeadOnce(i);
      }
      StopsAt(early, i, p);
    }

    /** Links `p` in at its place, unless it is there already. */
    method Insert(p: Packet)
      requires Valid()
      modifies Repr
      ensures Valid() && fresh(Repr - old(Repr))
      ensures early == InsertSeg(Bits32, old(early), p)
      ensures queued == old(queued) && ready == old(ready) && inFlight == old(inFlight)
    {
      hide Queue.Closed, InsertSeg, Frags, SndSegs, Packets, Apart;
      var repeat, at; ghost var i;
      repeat, at, i := FindSlot(p);
      if !repeat {
        PutAfter(at, p, i);
      }
    }

    /** Links a new segment for `p` in after `at`, the node of the i-th segment of rcv_buf. */
    method PutAfter(at: Node<Seg>, p: Packet, ghost i: nat)
      requires Valid() && i <= |early| && at == rcvBuf.ring[i]
      modifies Repr
      ensures Valid() && fresh(Repr - old(Repr))
      ensures early == With(old(early), i, p)
      ensures queued == old(queued) && ready == old(ready) && inFlight == old(inFlight)
    {
      hide Queue.Closed;
      var node := new Node<Seg>(Segment(Seg(p.conv, p.cmd, p.frg, p.wnd, p.ts, p.sn, p.una, p.data, 0, 0, 0, 0)));
      rcvBuf.InsertAfter(at, node, i);
      Repr := Repr + {node};
      early := With(early, i, p);
    }

    /** The number of the first segment of rcv_buf, if there is one. */
    method FirstEarly() returns (some: bool, sn: int)
      requires Valid()
      ensures some == (early != []) && (some ==> sn == early[0].sn)
    {
      hide Queue.Closed;
      var empty := rcvBuf.Empty();
      some, sn := !empty, 0;
      if some {
        var p := rcvBuf.First();
        var seg := rcvBuf.Get(p, 1);
        sn := seg.sn;
      }
    }

    /** Moves the first segment of rcv_buf to the end of rcv_queue. */
    method MoveOne()
      requires Valid() && early != []
      modifies Repr
      ensures Valid() && Repr == old(Repr)
      ensures early == old(early)[1..] && ready == old(ready) + [Frag(old(early)[0].frg, old(early)[0].data)]
      ensures queued == old(queued) && inFlight == old(inFlight)
    {
      hide Queue.Closed;
      var p := Transfer(rcvBuf, rcvQue);
      ready := ready + [Frag(early[0].frg, early[0].data)];
      early := early[1..];
    }
  }
}
