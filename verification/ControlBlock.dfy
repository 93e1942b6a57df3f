/** The KCP control block as an object updated in place; every method computes the function of Kcp.dfy with
    32-bit sequence numbers. */
module ControlBlock {
  import opened Bytes
  import opened Sequences
  import opened Serial
  import opened Kcp
  import opened Wire
  import opened Datagrams
  import opened Queues
  import opened SegmentLists

  // ---------------------------------------------------------------- what a flush reads

  lemma JoinNothing(a: FlushOut)
    ensures Join(NOTHING, a) == a
  {
  }

  lemma JoinAssoc(a: FlushOut, b: FlushOut, c: FlushOut)
    ensures Join(Join(a, b), c) == Join(a, Join(b, c))
  {
  }

  /** The parts of the block that stay put during a flush. */
  predicate SameEnv(k: Kcb, k': Kcb) {
    && k'.cfg == k.cfg && k'.clock == k.clock && k'.rtt == k.rtt
    && k'.rcv.nxt == k.rcv.nxt && |k'.rcv.queue| == |k.rcv.queue|
  }

  lemma ProbePacketsRead(k: Kcb, k': Kcb, p: Probe, last: (int, int))
    requires SameEnv(k, k')
    ensures ProbePackets(k', p, last) == ProbePackets(k, p, last)
  {
  }

  lemma {:induction false} FillWindowReads(k: Kcb, k': Kcb, s: Snd, cwnd: int)
    requires SameEnv(k, k')
    ensures Kcp.FillWindow(Bits32, k', s, cwnd) == Kcp.FillWindow(Bits32, k, s, cwnd)
    decreases |s.queue|
  {
    if SnDiff(Bits32, s.nxt, U32(s.una + cwnd)) < 0 && s.queue != [] {
      FillWindowReads(k, k', Kcp.NumberOne(Bits32, k, s), cwnd);
    }
  }

  lemma FlushOneReads(k: Kcb, k': Kcb, s: SndSeg)
    requires SameEnv(k, k')
    ensures Transmit(k', s) == Transmit(k, s) && SendCause(k', s) == SendCause(k, s)
  {
  }

  /** What the first `i` segments contribute. */
  function Upto(k: Kcb, buf: seq<SndSeg>, i: nat): FlushOut
    requires i <= |buf|
  {
    if i == 0 then NOTHING else Join(Upto(k, buf, i - 1), FlushOne(k, buf[i - 1]))
  }

  lemma {:induction false} UptoRest(k: Kcb, buf: seq<SndSeg>, i: nat)
    requires i <= |buf|
    ensures Join(Upto(k, buf, i), FlushBuf(k, buf[i..])) == FlushBuf(k, buf)
  {
    if i == 0 {
      assert buf[0..] == buf;
      JoinNothing(FlushBuf(k, buf));
      hide Join;
    } else {
      hide Join, Kcp.FlushOne;
      UptoRest(k, buf, i - 1);
      JoinAssoc(Upto(k, buf, i - 1), FlushOne(k, buf[i - 1]), FlushBuf(k, buf[i..]));
      assert buf[i - 1..][1..] == buf[i..];
    }
  }

  lemma {:induction false} UptoAll(k: Kcb, buf: seq<SndSeg>)
    ensures Upto(k, buf, |buf|) == FlushBuf(k, buf)
  {
    UptoRest(k, buf, |buf|);
    assert buf[|buf|..] == [];
    assert Join(Upto(k, buf, |buf|), NOTHING) == Upto(k, buf, |buf|);
  }

  /** The flags and counters after the first `i` segments. */
  predicate Counted(k: Kcb, b: seq<SndSeg>, i: nat, lost: bool, change: bool, dead0: bool, dead: bool, xmit0: int,
                    xmit: int)
    requires i <= |b|
  {
    var done := Upto(k, b, i);
    lost == done.lost && change == done.change && dead == (dead0 || done.dead) && xmit == U32(xmit0 + done.xmit)
  }

  lemma CountedStep(k: Kcb, b: seq<SndSeg>, i: nat, lost: bool, change: bool, dead0: bool, dead: bool, xmit0: int,
                    xmit: int)
    requires i < |b| && Counted(k, b, i, lost, change, dead0, dead, xmit0, xmit)
    ensures var one := FlushOne(k, b[i]);
      Counted(k, b, i + 1, lost || one.lost, change || one.change, dead0, dead || one.dead, xmit0, U32(xmit + one.xmit))
  {
    WrapAdds(xmit0 + Upto(k, b, i).xmit, FlushOne(k, b[i]).xmit);
  }

  lemma CountedNone(k: Kcb, b: seq<SndSeg>, dead0: bool, xmit0: int)
    requires 0 <= xmit0 < TWO32
    ensures Counted(k, b, 0, false, false, dead0, dead0, xmit0, xmit0)
  {
  }

  lemma CountedAll(k: Kcb, b: seq<SndSeg>, lost: bool, change: bool, dead0: bool, dead: bool, xmit0: int, xmit: int)
    requires Counted(k, b, |b|, lost, change, dead0, dead, xmit0, xmit)
    ensures var out := FlushBuf(k, b);
      lost == out.lost && change == out.change && dead == (dead0 || out.dead) && xmit == U32(xmit0 + out.xmit)
  {
    UptoAll(k, b);
  }

  lemma {:induction false} FlushBufElements(k: Kcb, buf: seq<SndSeg>)
    ensures |FlushBuf(k, buf).buf| == |buf|
    ensures forall j :: 0 <= j < |buf| ==> FlushBuf(k, buf).buf[j] == Transmit(k, buf[j])
  {
    if buf != [] {
      FlushBufElements(k, buf[1..]);
    }
  }

  /** The first `i` segments of `b` have been sent where they were due, which makes it `buf`. */
  predicate Sent(k: Kcb, b: seq<SndSeg>, buf: seq<SndSeg>, i: nat) {
    && i <= |b| == |buf|
    && (forall j :: 0 <= j < i ==> buf[j] == Transmit(k, b[j]))
    && (forall j :: i <= j < |b| ==> buf[j] == b[j])
  }

  lemma SentNone(k: Kcb, b: seq<SndSeg>)
    ensures Sent(k, b, b, 0)
  {
  }

  lemma SentStep(k: Kcb, b: seq<SndSeg>, buf: seq<SndSeg>, i: nat)
    requires Sent(k, b, buf, i) && i < |b|
    ensures buf[i] == b[i] && Sent(k, b, buf[i := Transmit(k, b[i])], i + 1)
  {
    hide Transmit;
  }

  lemma SentAll(k: Kcb, b: seq<SndSeg>, buf: seq<SndSeg>)
    requires Sent(k, b, buf, |b|)
    ensures buf == FlushBuf(k, b).buf
  {
    hide Transmit, Kcp.FlushBuf;
    FlushBufElements(k, b);
  }

  lemma NothingToFlush(k: Kcb)
    ensures FlushBuf(k, []).ps == []
  {
  }

  lemma PacketsFrom(k: Kcb, buf: seq<SndSeg>, i: nat)
    requires i < |buf|
    ensures FlushBuf(k, buf[i..]).ps == FlushOne(k, buf[i]).ps + FlushBuf(k, buf[i + 1..]).ps
  {
    assert buf[i..][1..] == buf[i + 1..];
  }

  // ---------------------------------------------------------------- writing bytes

  method PutField(buf: array<byte>, at: nat, v: nat, n: nat)
    requires at + n <= buf.Length
    modifies buf
    ensures buf[..at + n] == old(buf[..at]) + ToLE(v, n)
  {
    var x := v;
    for i := 0 to n
      invariant x >= 0
      invariant buf[..at + i] + ToLE(x, n - i) == old(buf[..at]) + ToLE(v, n)
    {
      ghost var before := buf[..at + i];
      buf[at + i] := x % 256;
      assert buf[..at + i + 1] == before + [x % 256];
      assert before + ([x % 256] + ToLE(x / 256, n - i - 1)) == buf[..at + i + 1] + ToLE(x / 256, n - i - 1);
      x := x / 256;
    }
    assert ToLE(x, 0) == [];
  }

  method PutData(buf: array<byte>, at: nat, data: seq<byte>)
    requires at + |data| <= buf.Length
    modifies buf
    ensures buf[..at + |data|] == old(buf[..at]) + data
  {
    for i := 0 to |data|
      invariant buf[..at] == old(buf[..at])
      invariant forall j :: 0 <= j < i ==> buf[at + j] == data[j]
    {
      buf[at + i] := data[i];
      assert buf[..at] == old(buf[..at]);
    }
  }

  lemma FieldsStep(done: seq<byte>, j: nat, v: seq<nat>)
    requires j < |WIDTHS| == |v|
    ensures done + EncodeFields(WIDTHS[j..], v[j..])
            == done + ToLE(v[j], WIDTHS[j]) + EncodeFields(WIDTHS[j + 1..], v[j + 1..])
    ensures Total(WIDTHS[j..]) == WIDTHS[j] + Total(WIDTHS[j + 1..])
  {
    assert WIDTHS[j..][1..] == WIDTHS[j + 1..] && v[j..][1..] == v[j + 1..];
  }

  lemma NoFields(done: seq<byte>)
    ensures done + EncodeFields([], []) == done && Total([]) == 0
  {
  }

  /** ikcp_encode_seg. */
  method EncodeHeader(buf: array<byte>, at: nat, p: Packet)
    requires at + IKCP_OVERHEAD <= buf.Length
    modifies buf
    ensures buf[..at + IKCP_OVERHEAD] == old(buf[..at]) + Header(p)
  {
    hide EncodeFields, ToLE, Fields;
    ghost var start := buf[..at];
    var v := Fields(p);
    HeaderIs24();
    var next, j := at, 0;
    while j < |WIDTHS|
      invariant 0 <= j <= |WIDTHS| && at <= next && next + Total(WIDTHS[j..]) == at + IKCP_OVERHEAD
      invariant buf[..next] + EncodeFields(WIDTHS[j..], v[j..]) == start + Header(p)
    {
      FieldsStep(buf[..next], j, v);
      PutField(buf, next, v[j], WIDTHS[j]);
      next := next + WIDTHS[j];
      j := j + 1;
    }
    assert WIDTHS[j..] == [] && v[j..] == [];
    NoFields(buf[..next]);
  }

  method EncodeSeg(buf: array<byte>, at: nat, p: Packet) returns (next: nat)
    requires at + PacketSize(p) <= buf.Length
    modifies buf
    ensures next == at + PacketSize(p) && buf[..next] == old(buf[..at]) + Encode(p)
  {
    EncodeHeader(buf, at, p);
    PutData(buf, at + IKCP_OVERHEAD, p.data);
    next := at + PacketSize(p);
  }

  lemma FirstFragment(msg: seq<byte>, mss: int, count: nat)
    requires mss >= 1 && count > 0
    ensures var size := if |msg| > mss then mss else |msg|;
      Fragments(msg, mss, count) == [Frag(count - 1, msg[..size])] + Fragments(msg[size..], mss, count - 1)
  {
  }

  lemma NoFragments(mss: int)
    requires mss >= 1
    ensures forall msg :: Fragments(msg, mss, 0) == []
  {
  }

  class ControlBlock {
    const cfg: Cfg
    var sndUna: int
    var sndNxt: int
    var rcvNxt: int
    var cong: Cong
    var rtt: Rtt
    var probe: Probe
    var clock: Clock
    var dead: bool
    var xmit: int
    const lists: Segments
    var ackList: array<int>
    var ackCount: int
    var ackBlock: int
    var buffer: array<byte>
    var output: seq<seq<byte>>

    ghost predicate Valid()
      reads this, lists, lists.Repr
    {
      && ValidCfg(cfg)
      && lists.Valid() && lists.conv == cfg.conv
      && this !in lists.Repr && ackList !in lists.Repr && buffer !in lists.Repr
      && 0 <= ackCount <= ackBlock && ackList.Length == 2 * ackBlock
      && buffer.Length == 3 * (cfg.mtu + IKCP_OVERHEAD)
      && buffer as object != ackList as object
      && 0 <= xmit < TWO32
    }

    static ghost function Pairs(list: array<int>, n: int): (r: seq<(int, int)>)
      requires 0 <= 2 * n <= list.Length
      reads list
      ensures |r| == n
      ensures forall i :: 0 <= i < n ==> r[i] == (list[2 * i], list[2 * i + 1])
    {
      seq(n, i requires 0 <= 2 * i < 2 * n <= list.Length reads list => (list[2 * i], list[2 * i + 1]))
    }

    ghost function Acks(): seq<(int, int)>
      requires Valid()
      reads this, ackList, lists, lists.Repr
    {
      Pairs(ackList, ackCount)
    }

    ghost function SndHalf(): Snd
      reads this, lists
    {
      Snd(sndUna, sndNxt, lists.queued, lists.inFlight)
    }

    ghost function RcvHalf(): Rcv
      requires Valid()
      reads this, ackList, lists, lists.Repr
    {
      Rcv(rcvNxt, lists.early, lists.ready, Acks())
    }

    ghost function State(): Kcb
      requires Valid()
      reads this, ackList, lists, lists.Repr
    {
      Kcb(cfg, SndHalf(), RcvHalf(), cong, rtt, probe, clock, dead, xmit)
    }

    /** Valid, with no segment over the size a datagram can carry: what every caller finds. */
    ghost predicate Ready()
      reads this, lists, lists.Repr
    {
      Valid() && SndFits(SndHalf(), cfg.mss)
    }

    constructor (cfg: Cfg)
      requires ValidCfg(cfg)
      ensures Ready() && State() == Init(cfg) && output == []
      ensures fresh(ackList) && fresh(buffer) && fresh(lists) && fresh(lists.Repr)
    {
      hide Segments.Layout;
      this.cfg := cfg;
      sndUna, sndNxt, rcvNxt := 0, 0, 0;
      cong := Cong(IKCP_WND_RCV, 0, 0, 2);
      rtt := Rtt(0, 0, 200);
      probe := Probe(false, false, 0, 0);
      clock := Clock(0, 100, false);
      dead, xmit := false, 0;
      lists := new Segments(cfg.conv);
      ackList := new int[0];
      ackCount, ackBlock := 0, 0;
      buffer := new byte[3 * (cfg.mtu + IKCP_OVERHEAD)];
      output := [];
    }

    // ------------------------------------------------------------- user side

    method Send(msg: seq<byte>) returns (code: int)
      requires Valid()
      modifies lists.Repr
      ensures Valid() && fresh(lists.Repr - old(lists.Repr))
      ensures (State(), code) == Kcp.Send(old(State()), msg)
      ensures old(Ready()) ==> Ready()
    {
      hide Segments.Layout, Fragments, SndFits;
      ghost var k := State();
      if SndFits(k.snd, cfg.mss) {
        SendFits(k, msg);
      }
      var count := if |msg| <= cfg.mss then 1 else (|msg| + cfg.mss - 1) / cfg.mss;
      assert count == FragCount(|msg|, cfg.mss);
      if count >= IKCP_WND_RCV {
        return -2;
      }
      NoFragments(cfg.mss);
      var i, rest := 0, msg;
      while i < count
        invariant 0 <= i <= count && Valid() && fresh(lists.Repr - old(lists.Repr))
        invariant lists.queued + Fragments(rest, cfg.mss, count - i)
                  == old(lists.queued) + Fragments(msg, cfg.mss, count)
        invariant State() == k.(snd := k.snd.(queue := lists.queued))
      {
        var size := if |rest| > cfg.mss then cfg.mss else |rest|;
        var frag := Frag(count - i - 1, rest[..size]);
        FirstFragment(rest, cfg.mss, count - i);
        ConcatAssoc(lists.queued, [frag], Fragments(rest[size..], cfg.mss, count - i - 1));
        lists.Submit(frag);
        rest := rest[size..];
        i := i + 1;
      }
      assert lists.queued + [] == lists.queued;
      return 0;
    }

    method PeekSize() returns (size: int)
      requires Valid()
      ensures size == Kcp.PeekSize(lists.ready)
    {
      hide Segments.Layout;
      size := lists.PeekSize();
    }

    /** Moves segments that have become next in order to the receive queue. */
    method MoveReady()
      requires Valid()
      modifies lists.Repr, this`rcvNxt
      ensures Valid() && lists.Repr == old(lists.Repr)
      ensures RcvHalf() == Kcp.MoveReady(Bits32, old(RcvHalf()), cfg.rcvWnd) && SndHalf() == old(SndHalf())
    {
      hide Segments.Layout;
      var some, sn := lists.FirstEarly();
      while some && sn == rcvNxt && lists.rcvQue.count < cfg.rcvWnd
        invariant Valid() && lists.Repr == old(lists.Repr) && SndHalf() == old(SndHalf())
        invariant some == (lists.early != []) && (some ==> sn == lists.early[0].sn)
        invariant Kcp.MoveReady(Bits32, RcvHalf(), cfg.rcvWnd) == Kcp.MoveReady(Bits32, old(RcvHalf()), cfg.rcvWnd)
        decreases |lists.early|
      {
        lists.MoveOne();
        rcvNxt := U32(rcvNxt + 1);
        some, sn := lists.FirstEarly();
      }
    }

    /** Joins the pieces of the message at the head of the queue, taking them off it unless only peeking. */
    method MergeFragments(peek: bool) returns (data: seq<byte>)
      requires Valid()
      modifies lists.Repr
      ensures Valid() && lists.Repr == old(lists.Repr)
      ensures data == Joined(old(lists.ready)[..MsgNodes(old(lists.ready))])
      ensures var k := old(State());
        State() == if peek then k else k.(rcv := k.rcv.(queue := k.rcv.queue[MsgNodes(k.rcv.queue)..]))
    {
      hide Segments.Layout;
      data := lists.MergeFragments(peek);
    }

    method Refill(wasFull: bool)
      requires Valid()
      modifies lists.Repr, this`rcvNxt, this`probe
      ensures Valid() && lists.Repr == old(lists.Repr)
      ensures State() == Kcp.Refill(Bits32, old(State()), wasFull)
    {
      hide Segments.Layout;
      MoveReady();
      if lists.rcvQue.count < cfg.rcvWnd && wasFull {
        probe := probe.(askTell := true);
      }
    }

    method TakeHead(peek: bool) returns (data: seq<byte>)
      requires Valid()
      modifies lists.Repr, this`rcvNxt, this`probe
      ensures Valid() && lists.Repr == old(lists.Repr)
      ensures (State(), data) == Kcp.TakeHead(Bits32, old(State()), peek)
    {
      hide Segments.Layout;
      var wasFull := lists.rcvQue.count >= cfg.rcvWnd;
      data := MergeFragments(peek);
      Refill(wasFull);
    }

    method Recv(maxLen: int) returns (code: int, data: seq<byte>)
      requires Valid()
      modifies lists.Repr, this`rcvNxt, this`probe
      ensures Valid() && lists.Repr == old(lists.Repr)
      ensures (State(), RecvResult(code, data)) == Kcp.Recv(Bits32, old(State()), maxLen)
      ensures old(Ready()) ==> Ready()
    {
      hide Segments.Layout;
      if lists.rcvQue.count == 0 {
        return -1, [];
      }
      var size := PeekSize();
      if size < 0 {
        return -2, [];
      }
      if size > (if maxLen < 0 then -maxLen else maxLen) {
        return -3, [];
      }
      data := TakeHead(maxLen < 0);
      code := |data|;
    }

    // ------------------------------------------------------------- acknowledgements

    method UpdateAck(sample: int)
      requires Valid()
      modifies this`rtt
      ensures Valid() && rtt == Kcp.UpdateAck(cfg, old(rtt), sample)
    {
      hide Segments.Layout, I32, U32, TruncDiv, Bound;
      if rtt.srtt == 0 {
        rtt := rtt.(srtt := sample, rttval := TruncDiv(sample, 2));
      } else {
        var delta := sample - rtt.srtt;
        if delta < 0 {
          delta := -delta;
        }
        rtt := rtt.(rttval := I32(TruncDiv(I32(3 * rtt.rttval) + delta, 4)));
        rtt := rtt.(srtt := TruncDiv(I32(I32(7 * rtt.srtt) + sample), 8));
        if rtt.srtt < 1 {
          rtt := rtt.(srtt := 1);
        }
      }
      var rto := U32(rtt.srtt + Max(cfg.interval, U32(4 * rtt.rttval)));
      rtt := rtt.(rto := Bound(cfg.minrto, rto, IKCP_RTO_MAX));
    }

    method ShrinkBuf()
      requires Valid()
      modifies this`sndUna
      ensures Valid() && SndHalf() == Kcp.ShrinkBuf(old(SndHalf()))
    {
      hide Segments.Layout;
      var p := lists.FirstSnd();
      if p != lists.sndBuf.head {
        var seg := lists.GetSnd(p, 0);
        sndUna := seg.sn;
      } else {
        sndUna := sndNxt;
      }
    }

    method ParseUna(una: int)
      requires Valid()
      modifies lists.Repr
      ensures Valid() && lists.Repr == old(lists.Repr)
      ensures SndHalf() == old(SndHalf()).(buf := DropBelow(Bits32, old(lists.inFlight), una))
      ensures RcvHalf() == old(RcvHalf())
    {
      hide Segments.Layout;
      lists.ParseUna(una);
    }

    method ParseAck(sn: int)
      requires Valid()
      modifies lists.Repr
      ensures Valid() && lists.Repr == old(lists.Repr)
      ensures SndHalf() == Kcp.ParseAck(Bits32, old(SndHalf()), sn) && RcvHalf() == old(RcvHalf())
    {
      hide Segments.Layout, RemoveAck;
      if TimeDiff(sn, sndUna) < 0 || TimeDiff(sn, sndNxt) >= 0 {
        return;
      }
      lists.RemoveAck(sn);
    }

    method ParseFastack(sn: int)
      requires Valid()
      modifies lists.Repr
      ensures Valid() && lists.Repr == old(lists.Repr)
      ensures SndHalf() == Kcp.ParseFastack(Bits32, old(SndHalf()), sn) && RcvHalf() == old(RcvHalf())
    {
      hide Segments.Layout, BumpFastack;
      if TimeDiff(sn, sndUna) < 0 || TimeDiff(sn, sndNxt) >= 0 {
        return;
      }
      lists.BumpFastack(sn);
    }

    /** Moves the ack list to a larger array. */
    method GrowAckList(newBlock: nat)
      requires Valid() && ackCount <= newBlock
      modifies this`ackList, this`ackBlock
      ensures Valid() && Acks() == old(Acks()) && ackBlock == newBlock && fresh(ackList)
    {
      hide Segments.Layout;
      ghost var before := Acks();
      var list := new int[2 * newBlock];
      var x := 0;
      while x < ackCount
        invariant 0 <= x <= ackCount == old(ackCount) && ackList == old(ackList)
        invariant forall i :: 0 <= i < 2 * x ==> list[i] == ackList[i]
      {
        list[2 * x] := ackList[2 * x];
        list[2 * x + 1] := ackList[2 * x + 1];
        x := x + 1;
      }
      assert forall i :: 0 <= i < ackCount ==> (list[2 * i], list[2 * i + 1]) == before[i];
      ackList := list;
      ackBlock := newBlock;
    }

    /** Appends to the ack list, doubling its storage when it is full. */
    method AckPush(sn: int, ts: int)
      requires Valid()
      modifies this`ackList, this`ackCount, this`ackBlock, ackList
      ensures Valid() && Acks() == old(Acks()) + [(sn, ts)]
      ensures ackList == old(ackList) || fresh(ackList)
    {
      hide Segments.Layout;
      ghost var before := Acks();
      var newSize := ackCount + 1;
      if newSize > ackBlock {
        var newBlock := 8;
        while newBlock < newSize
          invariant newBlock >= 8
        {
          newBlock := 2 * newBlock;
        }
        GrowAckList(newBlock);
      }
      ackList[2 * ackCount] := sn;
      ackList[2 * ackCount + 1] := ts;
      ackCount := ackCount + 1;
      assert forall i :: 0 <= i < ackCount - 1 ==> (ackList[2 * i], ackList[2 * i + 1]) == before[i];
    }

    // ------------------------------------------------------------- data in

    method ParseData(p: Packet)
      requires Valid()
      modifies lists.Repr, this`rcvNxt
      ensures Valid() && fresh(lists.Repr - old(lists.Repr))
      ensures RcvHalf() == Kcp.ParseData(Bits32, old(RcvHalf()), cfg.rcvWnd, p) && SndHalf() == old(SndHalf())
    {
      hide Segments.Layout, TimeDiff, InsertSeg, Kcp.MoveReady;
      if TimeDiff(p.sn, U32(rcvNxt + cfg.rcvWnd)) >= 0 || TimeDiff(p.sn, rcvNxt) < 0 {
        return;
      }
      lists.Insert(p);
      MoveReady();
    }

    method ApplyUna(una: int)
      requires Valid()
      modifies lists.Repr, this`sndUna
      ensures Valid() && lists.Repr == old(lists.Repr) && RcvHalf() == old(RcvHalf())
      ensures SndHalf() == Kcp.ApplyUna(Bits32, old(SndHalf()), una)
    {
      hide Segments.Layout, DropBelow;
      ParseUna(una);
      ShrinkBuf();
    }

    method ApplyAck(sn: int)
      requires Valid()
      modifies lists.Repr, this`sndUna
      ensures Valid() && lists.Repr == old(lists.Repr) && RcvHalf() == old(RcvHalf())
      ensures SndHalf() == Kcp.ApplyAck(Bits32, old(SndHalf()), sn)
    {
      hide Segments.Layout, Kcp.ParseAck;
      ParseAck(sn);
      ShrinkBuf();
    }

    method SampleRtt(ts: int)
      requires Valid()
      modifies this`rtt
      ensures Valid() && rtt == Kcp.SampleRtt(old(State()), ts)
    {
      hide Segments.Layout;
      if TimeDiff(clock.current, ts) >= 0 {
        UpdateAck(TimeDiff(clock.current, ts));
      }
    }

    /** The part of the loop of ikcp_input that depends on the command. */
    method Dispatch(p: Packet)
      requires Valid()
      modifies this`rtt, this`probe, this`sndUna, lists.Repr, this`rcvNxt
      modifies this`ackList, this`ackCount, this`ackBlock, ackList
      ensures Valid() && fresh(lists.Repr - old(lists.Repr))
      ensures rtt == if p.cmd == IKCP_CMD_ACK then Kcp.SampleRtt(old(State()), p.ts) else old(rtt)
      ensures SndHalf() == if p.cmd == IKCP_CMD_ACK then Kcp.ApplyAck(Bits32, old(SndHalf()), p.sn) else old(SndHalf())
      ensures RcvHalf() == if p.cmd == IKCP_CMD_PUSH then Kcp.InputPush(Bits32, old(RcvHalf()), cfg.rcvWnd, p)
                           else old(RcvHalf())
      ensures probe == if p.cmd == IKCP_CMD_WASK then old(probe).(askTell := true) else old(probe)
      ensures ackList == old(ackList) || fresh(ackList)
    {
      hide Segments.Layout;
      if p.cmd == IKCP_CMD_ACK {
        SampleRtt(p.ts);
        ApplyAck(p.sn);
      } else if p.cmd == IKCP_CMD_PUSH {
        InputPush(p);
      } else if p.cmd == IKCP_CMD_WASK {
        probe := probe.(askTell := true);
      }
    }

    /** One turn of the loop of ikcp_input, for a segment whose header was accepted. */
    method InputPacket(p: Packet)
      requires Valid()
      modifies this`cong, this`rtt, this`probe, this`sndUna, lists.Repr, this`rcvNxt
      modifies this`ackList, this`ackCount, this`ackBlock, ackList
      ensures Valid() && fresh(lists.Repr - old(lists.Repr))
      ensures State() == Kcp.InputPacket(Bits32, old(State()), p)
      ensures ackList == old(ackList) || fresh(ackList)
    {
      hide Segments.Layout, Kcp.ApplyUna, Kcp.ApplyAck, Kcp.UpdateAck, Kcp.InputPush, TimeDiff;
      ghost var k := State();
      cong := cong.(rmtWnd := p.wnd);
      ApplyUna(p.una);
      assert State() == k.(cong := k.cong.(rmtWnd := p.wnd), snd := Kcp.ApplyUna(Bits32, k.snd, p.una));
      Dispatch(p);
      ghost var k' := Kcp.InputPacket(Bits32, k, p);
      assert SndHalf() == k'.snd && RcvHalf() == k'.rcv && rtt == k'.rtt && probe == k'.probe;
    }

    method InputPush(p: Packet)
      requires Valid()
      modifies lists.Repr, this`rcvNxt
      modifies this`ackList, this`ackCount, this`ackBlock, ackList
      ensures Valid() && fresh(lists.Repr - old(lists.Repr)) && SndHalf() == old(SndHalf())
      ensures RcvHalf() == Kcp.InputPush(Bits32, old(RcvHalf()), cfg.rcvWnd, p)
      ensures ackList == old(ackList) || fresh(ackList)
    {
      hide Segments.Layout;
      if TimeDiff(p.sn, U32(rcvNxt + cfg.rcvWnd)) < 0 {
        AckPush(p.sn, p.ts);
        if TimeDiff(p.sn, rcvNxt) >= 0 {
          ParseData(p);
        }
      }
    }

    method GrowCwnd()
      requires Valid()
      modifies this`cong
      ensures Valid() && cong == Kcp.GrowCwnd(old(cong), cfg.mss)
    {
      hide Segments.Layout;
      if cong.cwnd < cong.rmtWnd {
        var mss := cfg.mss;
        if cong.cwnd < cong.ssthresh {
          cong := cong.(cwnd := U32(cong.cwnd + 1));
          cong := cong.(incr := U32(cong.incr + mss));
        } else {
          if cong.incr < mss {
            cong := cong.(incr := mss);
          }
          cong := cong.(incr := U32(cong.incr + UDiv(U32(mss * mss), cong.incr) + mss / 16));
          if U32((cong.cwnd + 1) * mss) <= cong.incr {
            cong := cong.(cwnd := UDiv(U32(cong.incr + mss - 1), mss));
          }
        }
        if cong.cwnd > cong.rmtWnd {
          cong := cong.(cwnd := cong.rmtWnd);
          cong := cong.(incr := U32(cong.rmtWnd * mss));
        }
      }
    }

    method FinishInput(ack: MaxAck, prevUna: int)
      requires Valid()
      modifies lists.Repr, this`cong
      ensures Valid() && lists.Repr == old(lists.Repr)
      ensures State() == Kcp.FinishInput(Bits32, InputState(old(State()), ack), prevUna)
    {
      hide Segments.Layout;
      if ack.MaxAck? {
        ParseFastack(ack.sn);
      }
      if TimeDiff(sndUna, prevUna) > 0 {
        GrowCwnd();
      }
    }

    method Input(data: seq<byte>) returns (code: int)
      requires Valid()
      modifies this, ackList, lists.Repr
      ensures Valid() && fresh(lists.Repr - old(lists.Repr))
      ensures (State(), code) == Wire.Input(old(State()), data)
      ensures old(Ready()) ==> Ready()
      ensures ackList == old(ackList) || fresh(ackList)
      ensures buffer == old(buffer) && output == old(output)
    {
      hide Segments.Layout, Kcp.InputPacket, Kcp.FinishInput, DecodeHeader, I32, SndFits;
      ghost var k := State();
      if SndFits(k.snd, cfg.mss) {
        InputLoopFits(InputState(k, NoAck), data, k.snd.una);
      }
      var prevUna, ack := sndUna, NoAck;
      if |data| < IKCP_OVERHEAD {
        return -1;
      }
      var rest := data;
      while |rest| >= IKCP_OVERHEAD
        invariant Valid() && fresh(lists.Repr - old(lists.Repr)) && buffer == old(buffer) && output == old(output)
        invariant ackList == old(ackList) || fresh(ackList)
        invariant InputLoop(InputState(State(), ack), rest, prevUna) == Wire.Input(old(State()), data)
        decreases |rest|
      {
        var (h, len) := DecodeHeader(rest);
        var body := rest[IKCP_OVERHEAD..];
        if h.conv != cfg.conv {
          return -1;
        }
        if |body| < len || I32(len) < 0 {
          return -2;
        }
        if h.cmd != IKCP_CMD_PUSH && h.cmd != IKCP_CMD_ACK && h.cmd != IKCP_CMD_WASK && h.cmd != IKCP_CMD_WINS {
          return -3;
        }
        var p := h.(data := body[..len]);
        InputPacket(p);
        if p.cmd == IKCP_CMD_ACK && (ack.NoAck? || TimeDiff(p.sn, ack.sn) > 0) {
          ack := MaxAck(p.sn);
        }
        rest := body[len..];
      }
      FinishInput(ack, prevUna);
      return 0;
    }

    // ------------------------------------------------------------- data out

    /** The output buffer holds the segments `pending`, up to `ptr`. */
    ghost predicate Pending(ptr: int, pending: seq<Packet>)
      reads this`buffer, buffer
    {
      0 <= ptr == Size(pending) <= cfg.mtu <= buffer.Length && buffer[..ptr] == EncodeAll(pending)
    }

    /** What will have been output once `pending` and then `rest` have gone out. */
    ghost function Outcome(pending: seq<Packet>, rest: seq<Packet>): seq<seq<byte>>
      reads this`output
    {
      output + EncodeEach(Pack(cfg.mtu, pending, rest))
    }

    static lemma OutputFull(out: seq<seq<byte>>, mtu: int, cur: seq<Packet>, p: Packet, rest: seq<Packet>)
      requires Size(cur) + PacketSize(p) > mtu
      ensures out + EncodeEach(Pack(mtu, cur, [p] + rest))
              == out + EncodeEach(Emit(cur)) + EncodeEach(Pack(mtu, [p], rest))
    {
      PackFull(mtu, cur, p, rest);
      EncodeEachConcat(Emit(cur), Pack(mtu, [p], rest));
    }

    /** Sends what is pending, if anything. */
    method OutputPending(ptr: nat, ghost pending: seq<Packet>)
      requires Valid() && Pending(ptr, pending)
      modifies this`output
      ensures Valid() && output == old(output) + EncodeEach(Emit(pending))
    {
      hide Segments.Layout;
      EncodedSize(pending);
      if ptr > 0 {
        output := output + [buffer[..ptr]];
        assert EncodeEach([pending]) == [EncodeAll(pending)];
      } else {
        assert pending == [];
        assert output + EncodeEach([]) == output;
      }
    }

    /** Puts `p` into the output buffer, sending what is there first when `p` does not fit beside it. */
    method Write(ptr: nat, p: Packet, ghost pending: seq<Packet>, ghost rest: seq<Packet>)
      returns (ptr': nat, ghost pending': seq<Packet>)
      requires Valid() && Pending(ptr, pending) && PacketSize(p) <= cfg.mtu
      modifies this`output, buffer
      ensures Valid() && Pending(ptr', pending')
      ensures Outcome(pending', rest) == old(Outcome(pending, [p] + rest))
    {
      hide Segments.Layout;
      if ptr + PacketSize(p) > cfg.mtu {
        OutputFull(output, cfg.mtu, pending, p, rest);
        SizeOfOne(p);
        OutputPending(ptr, pending);
        pending' := [p];
        ptr' := EncodeSeg(buffer, 0, p);
        assert EncodeAll([p]) == Encode(p) + EncodeAll([]);
      } else {
        PackFit(cfg.mtu, pending, p, rest);
        SizeOfMore(pending, p);
        EncodeAllMore(pending, p);
        pending' := pending + [p];
        ptr' := EncodeSeg(buffer, ptr, p);
      }
    }

    static lemma AcksFrom(k: Kcb, acks: seq<(int, int)>, i: nat, rest: seq<Packet>)
      requires i < |acks|
      ensures AckPackets(k, acks[i..]) + rest
              == [Control(k, IKCP_CMD_ACK, acks[i])] + (AckPackets(k, acks[i + 1..]) + rest)
    {
      assert acks[i..][1..] == acks[i + 1..];
    }

    /** Writes a segment that carries no data. */
    method WriteControl(ptr: nat, cmd: int, snts: (int, int), ghost pending: seq<Packet>, ghost rest: seq<Packet>)
      returns (ptr': nat, ghost pending': seq<Packet>)
      requires Valid() && Pending(ptr, pending)
      modifies this`output, buffer
      ensures Valid() && Pending(ptr', pending')
      ensures Outcome(pending', rest) == old(Outcome(pending, [Control(State(), cmd, snts)] + rest))
    {
      hide Segments.Layout;
      var p := Packet(cfg.conv, cmd, 0, Max(cfg.rcvWnd - lists.rcvQue.count, 0), snts.1, snts.0, rcvNxt, []);
      assert p == Control(State(), cmd, snts);
      ptr', pending' := Write(ptr, p, pending, rest);
    }

    static lemma NothingPending()
      ensures Size([]) == 0 && EncodeAll([]) == []
    {
    }

    /** Writes one ack segment for every pending acknowledgement, in order. */
    method FlushAcks(ghost rest: seq<Packet>) returns (ptr: nat, ghost pending: seq<Packet>)
      requires Valid()
      modifies this`output, buffer
      ensures Valid() && Pending(ptr, pending)
      ensures Outcome(pending, rest) == old(Outcome([], AckPackets(State(), Acks()) + rest))
    {
      hide Segments.Layout, Pack, Size, EncodeAll, Control;
      ghost var k, acks := State(), Acks();
      ghost var out := Outcome([], AckPackets(k, acks) + rest);
      ptr, pending := 0, [];
      NothingPending();
      assert acks[0..] == acks;
      var i := 0;
      while i < ackCount
        invariant 0 <= i <= ackCount && Valid() && Pending(ptr, pending) && State() == k
        invariant Outcome(pending, AckPackets(k, acks[i..]) + rest) == out
      {
        AcksFrom(k, acks, i, rest);
        ptr, pending := WriteControl(ptr, IKCP_CMD_ACK, (ackList[2 * i], ackList[2 * i + 1]), pending,
                                     AckPackets(k, acks[i + 1..]) + rest);
        i := i + 1;
      }
      assert [] + rest == rest;
    }

    method ScheduleProbe()
      requires Valid()
      modifies this`probe
      ensures Valid() && probe == ProbeWindow(old(probe), cong.rmtWnd, clock.current)
    {
      hide Segments.Layout;
      if cong.rmtWnd == 0 {
        if probe.wait == 0 {
          probe := probe.(wait := IKCP_PROBE_INIT);
          probe := probe.(ts := U32(clock.current + probe.wait));
        } else if TimeDiff(clock.current, probe.ts) >= 0 {
          if probe.wait < IKCP_PROBE_INIT {
            probe := probe.(wait := IKCP_PROBE_INIT);
          }
          probe := probe.(wait := probe.wait + probe.wait / 2);
          if probe.wait > IKCP_PROBE_LIMIT {
            probe := probe.(wait := IKCP_PROBE_LIMIT);
          }
          probe := probe.(ts := U32(clock.current + probe.wait), askSend := true);
        }
      } else {
        probe := probe.(ts := 0, wait := 0);
      }
    }

    /** Writes a control segment if it is due. */
    method WriteIfDue(due: bool, ptr: nat, cmd: int, last: (int, int), ghost pending: seq<Packet>,
                      ghost rest: seq<Packet>)
      returns (ptr': nat, ghost pending': seq<Packet>)
      requires Valid() && Pending(ptr, pending)
      modifies this`output, buffer
      ensures Valid() && Pending(ptr', pending')
      ensures Outcome(pending', rest)
              == old(Outcome(pending, (if due then [Control(State(), cmd, last)] else []) + rest))
    {
      hide Segments.Layout, Pack, Size, EncodeAll, Control;
      ptr', pending' := ptr, pending;
      assert [] + rest == rest;
      if due {
        ptr', pending' := WriteControl(ptr, cmd, last, pending, rest);
      }
    }

    /** Writes the window probe and the window announcement that are due. */
    method FlushProbes(ptr0: nat, last: (int, int), ghost pending0: seq<Packet>, ghost rest: seq<Packet>)
      returns (ptr: nat, ghost pending: seq<Packet>)
      requires Valid() && Pending(ptr0, pending0)
      modifies this`output, buffer
      ensures Valid() && Pending(ptr, pending)
      ensures Outcome(pending, rest) == old(Outcome(pending0, ProbePackets(State(), probe, last) + rest))
    {
      hide Segments.Layout, Pack, Size, EncodeAll, Control, Outcome, Pending;
      ghost var tell := if probe.askTell then [Control(State(), IKCP_CMD_WINS, last)] else [];
      ghost var ask := if probe.askSend then [Control(State(), IKCP_CMD_WASK, last)] else [];
      assert ask + tell + rest == ask + (tell + rest);
      ptr, pending := WriteIfDue(probe.askSend, ptr0, IKCP_CMD_WASK, last, pending0, tell + rest);
      ptr, pending := WriteIfDue(probe.askTell, ptr, IKCP_CMD_WINS, last, pending, rest);
    }

    method NumberOne()
      requires Valid() && lists.queued != []
      modifies lists.Repr, this`sndNxt
      ensures Valid() && lists.Repr == old(lists.Repr)
      ensures State() == old(State()).(snd := Kcp.NumberOne(Bits32, old(State()), old(SndHalf())))
    {
      hide Segments.Layout;
      lists.NumberOne(Max(cfg.rcvWnd - lists.rcvQue.count, 0), clock.current, sndNxt, rcvNxt, rtt.rto);
      sndNxt := U32(sndNxt + 1);
    }

    static lemma NumberOneReads(k: Kcb, k': Kcb, s: Snd)
      requires s.queue != [] && k' == k.(snd := k'.snd)
      ensures Kcp.NumberOne(Bits32, k', s) == Kcp.NumberOne(Bits32, k, s)
    {
    }

    /** Moves queued fragments into the send buffer while the window has room. */
    method FillWindow(cwnd: int)
      requires Valid()
      modifies lists.Repr, this`sndNxt
      ensures Valid() && lists.Repr == old(lists.Repr)
      ensures State() == old(State()).(snd := Kcp.FillWindow(Bits32, old(State()), old(SndHalf()), cwnd))
    {
      hide Segments.Layout;
      ghost var k := State();
      while TimeDiff(sndNxt, U32(sndUna + cwnd)) < 0 && lists.sndQue.count != 0
        invariant Valid() && State() == k.(snd := SndHalf()) && lists.Repr == old(lists.Repr)
        invariant Kcp.FillWindow(Bits32, k, SndHalf(), cwnd) == Kcp.FillWindow(Bits32, k, k.snd, cwnd)
        decreases |lists.queued|
      {
        NumberOneReads(k, State(), SndHalf());
        NumberOne();
      }
    }

    /** Whether and why `s` is sent now, and the segment as it is sent. */
    method Prepare(s: SndSeg, ghost k: Kcb) returns (seg: SndSeg, cause: Cause)
      requires Valid() && SameEnv(k, State())
      ensures seg == Transmit(k, s) && cause == SendCause(k, s) && seg.data == s.data
    {
      hide Segments.Layout;
      FlushOneReads(k, State(), s);
      seg, cause := s, Keep;
      var now := clock.current;
      var resent := if cfg.fastresend > 0 then cfg.fastresend else TWO32 - 1;
      if s.xmit == 0 {
        cause := First;
        var rtomin := if cfg.nodelay then 0 else rtt.rto / 8;
        seg := seg.(xmit := U32(s.xmit + 1), rto := rtt.rto);
        seg := seg.(resendts := U32(now + seg.rto + rtomin));
      } else if TimeDiff(now, s.resendts) >= 0 {
        cause := Timeout;
        seg := seg.(xmit := U32(s.xmit + 1));
        seg := seg.(rto := U32(seg.rto + (if cfg.nodelay then rtt.rto / 2 else rtt.rto)));
        seg := seg.(resendts := U32(now + seg.rto));
      } else if s.fastack >= resent {
        if I32(s.xmit) <= cfg.fastlimit || cfg.fastlimit <= 0 {
          cause := Fast;
          seg := seg.(xmit := U32(s.xmit + 1), fastack := 0, resendts := U32(now + seg.rto));
        }
      }
      if !cause.Keep? {
        seg := seg.(ts := now, wnd := Max(cfg.rcvWnd - lists.rcvQue.count, 0), una := rcvNxt);
      }
    }

    /** Writes a segment that is due. */
    method WriteSeg(ptr: nat, p: Packet, cause: Cause, ghost pending: seq<Packet>, ghost rest: seq<Packet>)
      returns (ptr': nat, ghost pending': seq<Packet>)
      requires Valid() && Pending(ptr, pending) && |p.data| <= cfg.mss
      modifies this`output, buffer
      ensures Valid() && Pending(ptr', pending')
      ensures Outcome(pending', rest)
              == old(Outcome(pending, (if cause.Keep? then [] else [p]) + rest))
    {
      hide Segments.Layout;
      ptr', pending' := ptr, pending;
      assert [] + rest == rest;
      if !cause.Keep? {
        ptr', pending' := Write(ptr, p, pending, rest);
      }
    }

    /** Counts a retransmission, and gives the link up after too many. */
    method Account(seg: SndSeg, cause: Cause)
      requires Valid()
      modifies this`dead, this`xmit
      ensures Valid()
      ensures dead == (old(dead) || (!cause.Keep? && seg.xmit >= cfg.deadLink))
      ensures xmit == U32(old(xmit) + (if cause.Timeout? then 1 else 0))
    {
      hide Segments.Layout;
      if cause.Timeout? {
        xmit := U32(xmit + 1);
      }
      if !cause.Keep? && seg.xmit >= cfg.deadLink {
        dead := true;
      }
    }

    /** The body of the last loop of ikcp_flush, for the i-th segment of snd_buf. */
    method FlushNth(p: Node<Seg>, ghost i: nat, ptr: nat, ghost k: Kcb, ghost pending: seq<Packet>,
                    ghost rest: seq<Packet>)
      returns (cause: Cause, ptr': nat, ghost pending': seq<Packet>)
      requires Valid() && Pending(ptr, pending) && SameEnv(k, State())
      requires i < |lists.inFlight| && lists.AtSnd(p, i) && |lists.inFlight[i].data| <= cfg.mss
      modifies lists.Repr, this`output, this`dead, this`xmit, buffer
      ensures Valid() && lists.Repr == old(lists.Repr) && Pending(ptr', pending') && SameEnv(k, State())
      ensures lists.AtSnd(p, i) && lists.inFlight == old(lists.inFlight)[i := Transmit(k, old(lists.inFlight)[i])]
      ensures lists.queued == old(lists.queued) && RcvHalf() == old(RcvHalf())
      ensures var one := FlushOne(k, old(lists.inFlight)[i]);
        && cause.Timeout? == one.lost && cause.Fast? == one.change
        && dead == (old(dead) || one.dead) && xmit == U32(old(xmit) + one.xmit)
        && Outcome(pending', rest) == old(Outcome(pending, one.ps + rest))
    {
      hide Segments.Layout, SendCause, Transmit, Pack, EncodeAll, Size;
      var seg := lists.GetSnd(p, i);
      seg, cause := Prepare(seg, k);
      lists.SetSnd(p, seg, i);
      var packet := lists.WireSnd(p, i);
      ptr', pending' := WriteSeg(ptr, packet, cause, pending, rest);
      Account(seg, cause);
    }

    /** The last loop of ikcp_flush. */
    method FlushData(ptr0: nat, ghost k: Kcb, ghost pending0: seq<Packet>)
      returns (ptr: nat, lost: bool, change: bool, ghost pending: seq<Packet>)
      requires Valid() && Pending(ptr0, pending0) && SameEnv(k, State())
      requires forall i :: 0 <= i < |lists.inFlight| ==> |lists.inFlight[i].data| <= cfg.mss
      modifies lists.Repr, this`output, this`dead, this`xmit, buffer
      ensures Valid() && lists.Repr == old(lists.Repr) && Pending(ptr, pending)
      ensures lists.queued == old(lists.queued) && RcvHalf() == old(RcvHalf())
      ensures var out := FlushBuf(k, old(lists.inFlight));
        && lists.inFlight == out.buf && lost == out.lost && change == out.change
        && dead == (old(dead) || out.dead) && xmit == U32(old(xmit) + out.xmit)
        && Outcome(pending, []) == old(Outcome(pending0, out.ps))
    {
      hide Segments.Layout, Segments.AtSnd, RcvHalf, State, SameEnv, Pending, Outcome, Sent, Counted;
      hide SendCause, Transmit, Size, EncodeAll, Pack, Kcp.FlushBuf, Kcp.FlushOne;
      ptr, pending, lost, change := ptr0, pending0, false, false;
      ghost var b, dead0, xmit0, i := lists.inFlight, dead, xmit, 0;
      ghost var goal := Outcome(pending0, FlushBuf(k, b).ps);
      assert b[0..] == b;
      CountedNone(k, b, dead0, xmit0);
      SentNone(k, b);
      var p := lists.FirstSnd();
      while p != lists.sndBuf.head
        invariant Valid() && lists.Repr == old(lists.Repr) && Pending(ptr, pending) && SameEnv(k, State())
        invariant i <= |lists.inFlight| == |b| && lists.AtSnd(p, i) && Sent(k, b, lists.inFlight, i)
        invariant p == lists.sndBuf.head <==> i == |b|
        invariant lists.queued == old(lists.queued) && RcvHalf() == old(RcvHalf())
        invariant Outcome(pending, FlushBuf(k, b[i..]).ps) == goal
        invariant Counted(k, b, i, lost, change, dead0, dead, xmit0, xmit)
        decreases |b| - i
      {
        PacketsFrom(k, b, i);
        CountedStep(k, b, i, lost, change, dead0, dead, xmit0, xmit);
        SentStep(k, b, lists.inFlight, i);
        var cause;
        cause, ptr, pending := FlushNth(p, i, ptr, k, pending, FlushBuf(k, b[i + 1..]).ps);
        lost := lost || cause.Timeout?;
        change := change || cause.Fast?;
        p := lists.NextSnd(p, i);
        i := i + 1;
      }
      SentAll(k, b, lists.inFlight);
      CountedAll(k, b, lost, change, dead0, dead, xmit0, xmit);
      assert b[i..] == [];
      NothingToFlush(k);
    }

    /** What ikcp_flush does about fast retransmissions. */
    method FastRecovery(resent: int)
      modifies this`cong
      ensures var thresh := Max(U32(sndNxt - sndUna) / 2, IKCP_THRESH_MIN);
        cong == old(cong).(ssthresh := thresh, cwnd := U32(thresh + resent),
                           incr := U32(U32(thresh + resent) * cfg.mss))
    {
      hide U32;
      var inflight := U32(sndNxt - sndUna);
      cong := cong.(ssthresh := inflight / 2);
      if cong.ssthresh < IKCP_THRESH_MIN {
        cong := cong.(ssthresh := IKCP_THRESH_MIN);
      }
      cong := cong.(cwnd := U32(cong.ssthresh + resent));
      cong := cong.(incr := U32(cong.cwnd * cfg.mss));
    }

    /** The end of ikcp_flush: the congestion state after losses and fast retransmissions. */
    method Settle(lost: bool, change: bool, cwnd: int)
      requires Valid()
      modifies this`cong
      ensures Valid() && cong == AfterFlush(Bits32, old(State()), lost, change, cwnd)
    {
      hide Segments.Layout, U32;
      var resent := if cfg.fastresend > 0 then cfg.fastresend else TWO32 - 1;
      if change {
        FastRecovery(resent);
      }
      if lost {
        cong := cong.(ssthresh := cwnd / 2);
        if cong.ssthresh < IKCP_THRESH_MIN {
          cong := cong.(ssthresh := IKCP_THRESH_MIN);
        }
        cong := cong.(cwnd := 1, incr := cfg.mss);
      }
      if cong.cwnd < 1 {
        cong := cong.(cwnd := 1, incr := cfg.mss);
      }
    }

    /** Writes the acks, and forgets them. */
    method DrainAcks(ghost rest: seq<Packet>) returns (ptr: nat, last: (int, int), ghost pending: seq<Packet>)
      requires Valid()
      modifies this`output, this`ackCount, buffer
      ensures Valid() && Pending(ptr, pending) && last == LastAck(old(Acks()))
      ensures State() == old(State()).(rcv := old(State()).rcv.(acks := []))
      ensures Outcome(pending, rest) == old(Outcome([], AckPackets(State(), Acks()) + rest))
    {
      hide Segments.Layout, Pack, Size, EncodeAll, Outcome, AckPackets;
      ptr, pending := FlushAcks(rest);
      last := if ackCount == 0 then (0, 0) else (ackList[2 * (ackCount - 1)], ackList[2 * (ackCount - 1) + 1]);
      ackCount := 0;
    }

    /** Acks, window probe and window announcement: everything a flush sends ahead of the data. */
    method FlushControl(ghost rest: seq<Packet>) returns (ptr: nat, ghost pending: seq<Packet>)
      requires Valid()
      modifies this`output, this`ackCount, this`probe, buffer
      ensures Valid() && Pending(ptr, pending)
      ensures var k := old(State()); var p := ProbeWindow(k.probe, k.cong.rmtWnd, k.clock.current);
        && State() == k.(rcv := k.rcv.(acks := []), probe := p.(askSend := false, askTell := false))
        && Outcome(pending, rest) == old(Outcome([], ControlPackets(k, p) + rest))
    {
      hide Segments.Layout, Pack, Size, EncodeAll, Outcome, ProbePackets, AckPackets, ProbeWindow, Control, Pending;
      ghost var k := State();
      ghost var p := ProbeWindow(k.probe, k.cong.rmtWnd, k.clock.current);
      ghost var probes := ProbePackets(k, p, LastAck(k.rcv.acks));
      assert ControlPackets(k, p) + rest == AckPackets(k, k.rcv.acks) + (probes + rest);
      var last;
      ptr, last, pending := DrainAcks(probes + rest);
      ScheduleProbe();
      ProbePacketsRead(k, State(), p, last);
      ptr, pending := FlushProbes(ptr, last, pending, rest);
      probe := probe.(askSend := false, askTell := false);
    }

    /** Window, data and what is left in the buffer: the rest of a flush. */
    method FlushSegments(ptr0: nat, ghost k: Kcb, ghost pending0: seq<Packet>)
      returns (lost: bool, change: bool, cwnd: int)
      requires Valid() && Pending(ptr0, pending0) && SameEnv(k, State()) && SndFits(SndHalf(), cfg.mss)
      requires k.snd == SndHalf() && k.cong == cong
      modifies lists.Repr, this`sndNxt, this`output, this`dead, this`xmit, buffer
      ensures Valid() && lists.Repr == old(lists.Repr) && RcvHalf() == old(RcvHalf()) && cwnd == SendWindow(k)
      ensures var snd := Kcp.FillWindow(Bits32, k, k.snd, SendWindow(k)); var out := FlushBuf(k, snd.buf);
        && SndHalf() == snd.(buf := out.buf) && lost == out.lost && change == out.change
        && dead == (old(dead) || out.dead) && xmit == U32(old(xmit) + out.xmit)
        && output == old(output + EncodeEach(Pack(cfg.mtu, pending0, out.ps)))
    {
      hide Segments.Layout, Pack, Size, EncodeAll, Kcp.FlushBuf, Kcp.FillWindow;
      cwnd := Min(cfg.sndWnd, cong.rmtWnd);
      if !cfg.nocwnd {
        cwnd := Min(cong.cwnd, cwnd);
      }
      FillWindowReads(k, State(), SndHalf(), cwnd);
      FillWindowFits(k, SndHalf(), cwnd, cfg.mss);
      FillWindow(cwnd);
      var ptr: nat; ghost var pending;
      ptr, lost, change, pending := FlushData(ptr0, k, pending0);
      EmptyPack(cfg.mtu, pending);
      OutputPending(ptr, pending);
    }

    static lemma EmptyPack(mtu: int, pending: seq<Packet>)
      ensures Pack(mtu, pending, []) == Emit(pending)
    {
    }

    /** ikcp_flush. */
    method Flush()
      requires Ready()
      modifies this, buffer, lists.Repr
      ensures Ready() && lists.Repr == old(lists.Repr) && State() == Kcp.Flush(Bits32, old(State())).0
      ensures output == old(output) + EncodeEach(Pack(cfg.mtu, [], Kcp.Flush(Bits32, old(State())).1))
      ensures buffer == old(buffer) && ackList == old(ackList)
    {
      hide Segments.Layout, Pack, Size, EncodeAll;
      hide Kcp.FlushBuf, Kcp.FillWindow, AfterFlush, ControlPackets, ProbeWindow;
      ghost var k := State();
      FlushFits(k);
      if !clock.updated {
        EmptyPack(cfg.mtu, []);
        assert output + EncodeEach([]) == output;
        return;
      }
      ghost var cwnd0 := SendWindow(k);
      ghost var snd := Kcp.FillWindow(Bits32, k, k.snd, cwnd0);
      ghost var out := FlushBuf(k, snd.buf);
      ghost var p := ProbeWindow(k.probe, k.cong.rmtWnd, k.clock.current);
      var ptr: nat; ghost var pending;
      ptr, pending := FlushControl(out.ps);
      var lost, change, cwnd := FlushSegments(ptr, k, pending);
      ghost var k1 := Kcb(k.cfg, snd.(buf := out.buf), k.rcv.(acks := []), k.cong, k.rtt,
                          p.(askSend := false, askTell := false), k.clock, k.dead || out.dead, U32(k.xmit + out.xmit));
      assert State() == k1;
      Settle(lost, change, cwnd);
      assert State() == k1.(cong := AfterFlush(Bits32, k1, out.lost, out.change, cwnd0));
    }

    // ------------------------------------------------------------- time

    /** The clock part of ikcp_update; says whether a flush is due. */
    method Tick(current: int) returns (due: bool)
      requires Valid()
      modifies this`clock
      ensures Valid() && (clock, due) == Kcp.Tick(old(clock), cfg.interval, current)
    {
      hide Segments.Layout;
      clock := clock.(current := current);
      if !clock.updated {
        clock := clock.(updated := true, tsFlush := current);
      }
      var slap := TimeDiff(current, clock.tsFlush);
      if slap >= 10000 || slap < -10000 {
        clock := clock.(tsFlush := current);
        slap := 0;
      }
      due := slap >= 0;
      if due {
        clock := clock.(tsFlush := U32(clock.tsFlush + cfg.interval));
        if TimeDiff(current, clock.tsFlush) >= 0 {
          clock := clock.(tsFlush := U32(current + cfg.interval));
        }
      }
    }

    /** ikcp_update. */
    method Update(current: int)
      requires Ready()
      modifies this, buffer, lists.Repr
      ensures Ready() && lists.Repr == old(lists.Repr) && State() == Kcp.Update(Bits32, old(State()), current).0
      ensures output == old(output) + EncodeEach(Pack(cfg.mtu, [], Kcp.Update(Bits32, old(State()), current).1))
      ensures buffer == old(buffer) && ackList == old(ackList)
    {
      hide Segments.Layout, Kcp.Tick, Kcp.Flush, Pack;
      ghost var k := State();
      var due := Tick(current);
      assert State() == k.(clock := Kcp.Tick(k.clock, cfg.interval, current).0);
      if due {
        Flush();
      } else {
        EmptyPack(cfg.mtu, []);
        assert output + EncodeEach([]) == output;
      }
    }

    /** ikcp_check. */
    method Check(current: int) returns (t: int)
      requires Valid()
      ensures t == Kcp.Check(State(), current)
    {
      hide Segments.Layout, TimeDiff, U32;
      if !clock.updated {
        return current;
      }
      var late := TimeDiff(current, clock.tsFlush);
      if late >= 10000 || late < -10000 || late >= 0 {
        return current;
      }
      var flush, packet := TimeDiff(clock.tsFlush, current), TWO31 - 1;
      ghost var buf, i := lists.inFlight, 0;
      assert buf[0..] == buf;
      var p := lists.FirstSnd();
      while p != lists.sndBuf.head
        invariant i <= |buf| && lists.AtSnd(p, i)
        invariant ResendWait(buf[i..], current, packet) == ResendWait(buf, current, TWO31 - 1)
        decreases |buf| - i
      {
        assert buf[i..][1..] == buf[i + 1..];
        var seg := lists.GetSnd(p, i);
        var diff := TimeDiff(seg.resendts, current);
        if diff <= 0 {
          return current;
        }
        if diff < packet {
          packet := diff;
        }
        p := lists.NextSnd(p, i);
        i := i + 1;
      }
      assert buf[i..] == [];
      var minimal := if packet < flush then packet else flush;
      if minimal >= cfg.interval {
        minimal := cfg.interval;
      }
      return U32(current + minimal);
    }
  }
}
