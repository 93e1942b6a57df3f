/** The early-exit scans over sorted buffers, shown to do what a scan of the whole buffer would. */
module Buffers {
  import opened Sequences
  import opened Serial
  import opened Kcp

  predicate SndSorted(buf: seq<SndSeg>) {
    forall i, j :: 0 <= i < j < |buf| ==> buf[i].sn < buf[j].sn
  }

  predicate RcvSorted(buf: seq<Packet>) {
    forall i, j :: 0 <= i < j < |buf| ==> buf[i].sn < buf[j].sn
  }

  ghost function SndSns(buf: seq<SndSeg>): set<int> {
    set i | 0 <= i < |buf| :: buf[i].sn
  }

  ghost function RcvSns(buf: seq<Packet>): set<int> {
    set i | 0 <= i < |buf| :: buf[i].sn
  }

  lemma SndSnsConcat(a: seq<SndSeg>, b: seq<SndSeg>)
    ensures SndSns(a + b) == SndSns(a) + SndSns(b)
  {
    forall x | x in SndSns(a) + SndSns(b) ensures x in SndSns(a + b) {
      if x in SndSns(a) {
        var i :| 0 <= i < |a| && a[i].sn == x;
        assert (a + b)[i].sn == x;
      } else {
        var i :| 0 <= i < |b| && b[i].sn == x;
        assert (a + b)[|a| + i].sn == x;
      }
    }
  }

  /** Same numbers and contents, whatever the timers and counters say. */
  predicate SameShape(a: seq<SndSeg>, b: seq<SndSeg>) {
    |a| == |b| && forall i :: 0 <= i < |a| ==> a[i].sn == b[i].sn && a[i].frg == b[i].frg && a[i].data == b[i].data
  }

  lemma {:induction false} BumpFastackKeepsShape(w: Width, buf: seq<SndSeg>, sn: int)
    ensures SameShape(BumpFastack(w, buf, sn), buf)
  {
    if buf != [] {
      BumpFastackKeepsShape(w, buf[1..], sn);
    }
  }

  /** Where the una scan stops: at the first segment not below `una`. */
  lemma {:induction false} DropBelowPosition(buf: seq<SndSeg>, una: int) returns (k: int)
    requires SndSorted(buf)
    ensures 0 <= k <= |buf| && DropBelow(Unbounded, buf, una) == buf[k..]
    ensures forall i :: 0 <= i < k ==> buf[i].sn < una
    ensures forall i :: k <= i < |buf| ==> una <= buf[i].sn
  {
    if buf != [] && buf[0].sn < una {
      k := DropBelowPosition(buf[1..], una);
      assert forall i :: k <= i < |buf[1..]| ==> una <= buf[1..][i].sn;
      k := k + 1;
    } else {
      k := 0;
    }
  }

  /** ikcp_parse_una removes exactly the segments below `una`, although it stops at the first it keeps. */
  lemma DropBelowIsFilter(buf: seq<SndSeg>, una: int)
    requires SndSorted(buf)
    ensures SndSorted(DropBelow(Unbounded, buf, una))
    ensures SndSns(DropBelow(Unbounded, buf, una)) == set x | x in SndSns(buf) && x >= una
  {
    var k := DropBelowPosition(buf, una);
    SndSnsConcat(buf[..k], buf[k..]);
    assert buf[..k] + buf[k..] == buf;
  }

  lemma WithoutSorted(buf: seq<SndSeg>, k: int)
    requires SndSorted(buf) && 0 <= k < |buf|
    ensures SndSorted(Without(buf, k))
  {
  }

  lemma WithoutSns(buf: seq<SndSeg>, k: int)
    requires SndSorted(buf) && 0 <= k < |buf|
    ensures SndSns(Without(buf, k)) == SndSns(buf) - {buf[k].sn}
  {
    var r := Without(buf, k);
    forall x | x in SndSns(buf) && x != buf[k].sn ensures x in SndSns(r) {
      var i :| 0 <= i < |buf| && buf[i].sn == x;
      assert r[if i < k then i else i - 1] == buf[i];
    }
    forall x | x in SndSns(r) ensures x in SndSns(buf) && x != buf[k].sn {
      var i :| 0 <= i < |r| && r[i].sn == x;
      assert r[i] == buf[if i < k then i else i + 1];
    }
  }

  predicate Lacks(buf: seq<SndSeg>, sn: int) {
    forall i :: 0 <= i < |buf| ==> buf[i].sn != sn
  }

  lemma LacksMore(first: SndSeg, rest: seq<SndSeg>, sn: int)
    requires first.sn != sn && Lacks(rest, sn)
    ensures Lacks([first] + rest, sn)
  {
  }

  lemma LacksSmaller(buf: seq<SndSeg>, sn: int)
    requires SndSorted(buf) && (buf == [] || sn < buf[0].sn)
    ensures Lacks(buf, sn)
  {
  }

  /** Where the ack scan finds `sn`; -1 when it is not in the buffer at all. */
  lemma {:induction false} RemoveAckPosition(buf: seq<SndSeg>, sn: int) returns (k: int)
    requires SndSorted(buf)
    ensures -1 <= k < |buf|
    ensures k < 0 ==> RemoveAck(Unbounded, buf, sn) == buf && Lacks(buf, sn)
    ensures k >= 0 ==> RemoveAck(Unbounded, buf, sn) == Without(buf, k) && buf[k].sn == sn
  {
    if buf == [] || sn < buf[0].sn {
      LacksSmaller(buf, sn);
      k := -1;
    } else if sn == buf[0].sn {
      k := 0;
      assert Without(buf, 0) == buf[1..];
    } else {
      var rest := buf[1..];
      assert [buf[0]] + rest == buf && SndSorted(rest);
      hide SndSorted, Lacks;
      k := RemoveAckPosition(rest, sn);
      if k >= 0 {
        assert [buf[0]] + Without(rest, k) == Without(buf, k + 1);
        k := k + 1;
      } else {
        LacksMore(buf[0], rest, sn);
      }
    }
  }

  /** ikcp_parse_ack removes `sn` if it is anywhere in the buffer, and nothing else. */
  lemma RemoveAckIsRemoval(buf: seq<SndSeg>, sn: int)
    requires SndSorted(buf)
    ensures SndSorted(RemoveAck(Unbounded, buf, sn))
    ensures SndSns(RemoveAck(Unbounded, buf, sn)) == SndSns(buf) - {sn}
  {
    var k := RemoveAckPosition(buf, sn);
    if k >= 0 {
      WithoutSns(buf, k);
    }
  }

  lemma WithSns(buf: seq<Packet>, k: int, p: Packet)
    requires 0 <= k <= |buf|
    ensures RcvSns(With(buf, k, p)) == RcvSns(buf) + {p.sn}
  {
    var r := With(buf, k, p);
    forall x | x in RcvSns(buf) ensures x in RcvSns(r) {
      var i :| 0 <= i < |buf| && buf[i].sn == x;
      assert r[if i < k then i else i + 1] == buf[i];
    }
    forall x | x in RcvSns(r) ensures x in RcvSns(buf) + {p.sn} {
      var i :| 0 <= i < |r| && r[i].sn == x;
      assert i != k ==> r[i] == buf[if i < k then i else i - 1];
    }
  }

  lemma WithSorted(buf: seq<Packet>, k: int, p: Packet)
    requires RcvSorted(buf) && 0 <= k <= |buf|
    requires forall i :: 0 <= i < k ==> buf[i].sn < p.sn
    requires forall i :: k <= i < |buf| ==> p.sn < buf[i].sn
    ensures RcvSorted(With(buf, k, p))
  {
  }

  lemma WithLast(buf: seq<Packet>, k: int, p: Packet)
    requires 0 <= k < |buf|
    ensures With(buf[..|buf| - 1], k, p) + [buf[|buf| - 1]] == With(buf, k, p)
  {
  }

  /** `p` belongs after the first `k` of the buffer. */
  predicate Belongs(buf: seq<Packet>, p: Packet, k: int) {
    && 0 <= k <= |buf|
    && (forall i :: 0 <= i < k ==> buf[i].sn < p.sn)
    && (forall i :: k <= i < |buf| ==> p.sn < buf[i].sn)
  }

  predicate HasSn(buf: seq<Packet>, sn: int) {
    exists i :: 0 <= i < |buf| && buf[i].sn == sn
  }

  /** Where the backward scan puts `p`; -1 when its number is already there. */
  lemma {:induction false} InsertSegPosition(buf: seq<Packet>, p: Packet) returns (k: int)
    requires RcvSorted(buf)
    ensures -1 <= k <= |buf|
    ensures k < 0 ==> InsertSeg(Unbounded, buf, p) == buf && HasSn(buf, p.sn)
    ensures k >= 0 ==> InsertSeg(Unbounded, buf, p) == With(buf, k, p) && Belongs(buf, p, k)
  {
    if buf == [] {
      k := 0;
    } else {
      var front, last := buf[..|buf| - 1], buf[|buf| - 1];
      assert buf == front + [last] && RcvSorted(front);
      if last.sn == p.sn {
        k := -1;
      } else if p.sn > last.sn {
        k := |buf|;
        assert With(buf, k, p) == buf + [p];
      } else {
        hide Belongs, HasSn, RcvSorted;
        k := InsertSegPosition(front, p);
        if k >= 0 {
          WithLast(buf, k, p);
          BeforeLast(front, last, p, k);
        } else {
          HasSnMore(front, last, p.sn);
        }
      }
    }
  }

  lemma BeforeLast(front: seq<Packet>, last: Packet, p: Packet, k: int)
    requires p.sn < last.sn && Belongs(front, p, k)
    ensures k <= |front| && Belongs(front + [last], p, k)
  {
  }

  lemma HasSnMore(front: seq<Packet>, last: Packet, sn: int)
    requires HasSn(front, sn)
    ensures HasSn(front + [last], sn)
  {
    var i :| 0 <= i < |front| && front[i].sn == sn;
    assert (front + [last])[i].sn == sn;
  }

  /** The backward scan of ikcp_parse_data is insertion into a sorted set: a number already present changes nothing.
      */
  lemma InsertSegIsSetInsert(buf: seq<Packet>, p: Packet)
    requires RcvSorted(buf)
    ensures RcvSorted(InsertSeg(Unbounded, buf, p))
    ensures RcvSns(InsertSeg(Unbounded, buf, p)) == RcvSns(buf) + {p.sn}
    ensures p.sn in RcvSns(buf) ==> InsertSeg(Unbounded, buf, p) == buf
    ensures forall i :: 0 <= i < |InsertSeg(Unbounded, buf, p)| ==>
      InsertSeg(Unbounded, buf, p)[i] == p || InsertSeg(Unbounded, buf, p)[i] in buf
  {
    var k := InsertSegPosition(buf, p);
    if k >= 0 {
      WithSns(buf, k, p);
      WithSorted(buf, k, p);
      hide RcvSorted, RcvSns;
      assert forall i :: 0 <= i < |With(buf, k, p)| && i != k ==>
        With(buf, k, p)[i] == buf[if i < k then i else i - 1];
    }
  }

  /** Moving segments to the receive queue leaves the pending acknowledgements alone. */
  lemma {:induction false} MoveReadyKeepsAcks(w: Width, r: Rcv, rcvWnd: int)
    ensures MoveReady(w, r, rcvWnd).acks == r.acks
    decreases |r.buf|
  {
    if r.buf != [] && r.buf[0].sn == r.nxt && |r.queue| < rcvWnd {
      MoveReadyKeepsAcks(w, r.(buf := r.buf[1..], queue := r.queue + [Frag(r.buf[0].frg, r.buf[0].data)],
                               nxt := Wrap(w, r.nxt + 1)), rcvWnd);
    }
  }

  // ------------------------------------------------------------- flushing

  lemma {:induction false} FlushBufKeepsShape(k: Kcb, buf: seq<SndSeg>)
    ensures SameShape(FlushBuf(k, buf).buf, buf)
  {
    if buf != [] {
      FlushBufKeepsShape(k, buf[1..]);
    }
  }

  /** Every segment sent carries the number and bytes of a buffered one, and the current `una`. */
  lemma {:induction false} FlushBufPackets(k: Kcb, buf: seq<SndSeg>)
    ensures forall p :: p in FlushBuf(k, buf).ps ==>
      && p.cmd == IKCP_CMD_PUSH && p.una == k.rcv.nxt && p.conv == k.cfg.conv && p.wnd == WndUnused(k)
      && p.ts == k.clock.current
      && exists i :: 0 <= i < |buf| && p.sn == buf[i].sn && p.frg == buf[i].frg && p.data == buf[i].data
  {
    if buf != [] {
      var rest := buf[1..];
      FlushBufPackets(k, rest);
      forall p | p in FlushBuf(k, buf).ps
        ensures p.cmd == IKCP_CMD_PUSH && p.una == k.rcv.nxt && p.conv == k.cfg.conv && p.wnd == WndUnused(k)
        ensures p.ts == k.clock.current
        ensures exists i :: 0 <= i < |buf| && p.sn == buf[i].sn && p.frg == buf[i].frg && p.data == buf[i].data
      {
        if p in FlushBuf(k, rest).ps {
          var i :| 0 <= i < |rest| && p.sn == rest[i].sn && p.frg == rest[i].frg && p.data == rest[i].data;
          assert buf[i + 1] == rest[i];
        } else {
          assert p.sn == buf[0].sn && p.frg == buf[0].frg && p.data == buf[0].data;
        }
      }
    }
  }
}
