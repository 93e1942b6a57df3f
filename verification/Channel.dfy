/** One direction of a connection: what the sending half, the receiving half and the packets between them
    agree on, and that every operation of either half keeps it. Sequence numbers are unbounded here. */
module Channel {
  import opened Bytes
  import opened Sequences
  import opened Serial
  import opened Kcp
  import opened Buffers

  // ---------------------------------------------------------------- the fragment stream

  function Cut(mss: int, msg: seq<byte>): seq<Frag>
    requires mss >= 1
  {
    Fragments(msg, mss, FragCount(|msg|, mss))
  }

  /** The fragments of all of `ms`; a fragment's place in it is its sequence number. */
  function Stream(mss: int, ms: seq<seq<byte>>): seq<Frag>
    requires mss >= 1
  {
    if ms == [] then [] else Stream(mss, ms[..|ms| - 1]) + Cut(mss, ms[|ms| - 1])
  }

  lemma StreamMore(mss: int, ms: seq<seq<byte>>, m: seq<byte>)
    requires mss >= 1
    ensures Stream(mss, ms + [m]) == Stream(mss, ms) + Cut(mss, m)
  {
    assert (ms + [m])[..|ms + [m]| - 1] == ms;
  }

  lemma {:induction false} StreamPrefix(mss: int, ms: seq<seq<byte>>, n: nat)
    requires mss >= 1 && n <= |ms|
    ensures Stream(mss, ms[..n]) <= Stream(mss, ms)
    decreases |ms| - n
  {
    if n == |ms| {
      assert ms[..n] == ms;
    } else {
      StreamPrefix(mss, ms, n + 1);
      assert ms[..n + 1] == ms[..n] + [ms[n]];
      StreamMore(mss, ms[..n], ms[n]);
    }
  }

  /** `count` pieces of `mss` bytes are enough for `len`, and one less would not be; even no bytes take a piece. */
  predicate Needs(len: nat, mss: int, count: nat) {
    len <= count * mss && (count == 1 || (count - 1) * mss < len)
  }

  lemma OnePiece(len: nat, mss: int)
    requires Needs(len, mss, 1)
    ensures len <= mss
  {
  }

  lemma FirstPiece(len: nat, mss: int, count: nat)
    requires mss >= 1 && count >= 2 && Needs(len, mss, count)
    ensures mss < len && Needs(len - mss, mss, count - 1)
  {
    assert (count - 1) * mss == (count - 2) * mss + mss;
    assert count * mss == (count - 1) * mss + mss;
    assert (count - 2) * mss >= 0;
  }

  lemma JoinedCons(f: Frag, rest: seq<Frag>)
    ensures Joined([f] + rest) == f.data + Joined(rest)
  {
    assert ([f] + rest)[1..] == rest;
  }

  lemma JoinedNone()
    ensures Joined([]) == []
  {
  }

  lemma FragmentsCons(msg: seq<byte>, mss: int, count: nat)
    requires mss >= 1 && count >= 1
    ensures var size := if |msg| > mss then mss else |msg|;
      && Fragments(msg, mss, count) == [Frag(count - 1, msg[..size])] + Fragments(msg[size..], mss, count - 1)
      && msg[..size] + msg[size..] == msg
  {
  }

  /** The pieces of a message count down to 0 and hold its bytes in order; all are full but the last, which has the
      rest and is not empty unless the message is. */
  predicate Pieces(msg: seq<byte>, mss: int, fs: seq<Frag>) {
    && fs != [] && Joined(fs) == msg
    && (forall i :: 0 <= i < |fs| ==> fs[i].frg == |fs| - 1 - i && |fs[i].data| <= mss)
    && (forall i :: 0 <= i < |fs| - 1 ==> |fs[i].data| == mss)
    && (fs[|fs| - 1].data == [] ==> msg == [])
  }

  lemma PiecesCons(head: seq<byte>, tail: seq<byte>, mss: int, fs: seq<Frag>)
    requires Pieces(tail, mss, fs) && |head| == mss && tail != []
    ensures Pieces(head + tail, mss, [Frag(|fs|, head)] + fs)
  {
    JoinedCons(Frag(|fs|, head), fs);
    hide Joined;
  }

  lemma PiecesOne(msg: seq<byte>, mss: int)
    requires |msg| <= mss
    ensures Pieces(msg, mss, [Frag(0, msg)])
  {
    JoinedCons(Frag(0, msg), []);
    JoinedNone();
    hide Joined;
    assert [Frag(0, msg)] + [] == [Frag(0, msg)] && msg + [] == msg;
  }

  lemma {:induction false} FragmentsShape(msg: seq<byte>, mss: int, count: nat)
    requires mss >= 1 && count >= 1 && Needs(|msg|, mss, count)
    ensures Pieces(msg, mss, Fragments(msg, mss, count))
  {
    hide Fragments, Pieces, Needs;
    FragmentsCons(msg, mss, count);
    if count == 1 {
      OnePiece(|msg|, mss);
      NoFragments(mss);
      assert msg[..|msg|] == msg;
      PiecesOne(msg, mss);
      assert [Frag(0, msg)] + [] == [Frag(0, msg)];
    } else {
      FirstPiece(|msg|, mss, count);
      FragmentsShape(msg[mss..], mss, count - 1);
      PiecesCons(msg[..mss], msg[mss..], mss, Fragments(msg[mss..], mss, count - 1));
    }
  }

  lemma NoFragments(mss: int)
    requires mss >= 1
    ensures forall msg :: Fragments(msg, mss, 0) == []
  {
  }

  lemma FragCountFits(len: nat, mss: int)
    requires mss >= 1
    ensures Needs(len, mss, FragCount(len, mss))
  {
    if len > mss {
      var q := (len + mss - 1) / mss;
      var r := (len + mss - 1) % mss;
      assert len + mss - 1 == q * mss + r;
      assert (q - 1) * mss == q * mss - mss;
    }
  }

  /** Cutting a message and joining the pieces gives it back, with no more pieces than it takes; `frg` fits the byte
      it has on the wire. */
  lemma CutShape(mss: int, msg: seq<byte>)
    requires mss >= 1
    ensures var fs := Cut(mss, msg);
      && |fs| == FragCount(|msg|, mss)
      && Joined(fs) == msg && fs != []
      && (forall i :: 0 <= i < |fs| ==> fs[i].frg == |fs| - 1 - i && |fs[i].data| <= mss)
      && (forall i :: 0 <= i < |fs| - 1 ==> |fs[i].data| == mss)
      && (fs[|fs| - 1].data == [] ==> msg == [])
      && |msg| <= |fs| * mss && (|fs| == 1 || (|fs| - 1) * mss < |msg|)
  {
    FragCountFits(|msg|, mss);
    FragmentsShape(msg, mss, FragCount(|msg|, mss));
    hide Fragments;
  }

  /** A message is accepted exactly when 127 pieces hold it. */
  lemma AcceptsExactly(cfg: Cfg, msg: seq<byte>)
    requires cfg.mss >= 1
    ensures Accepts(cfg, msg) <==> |msg| <= 127 * cfg.mss
  {
    var n := FragCount(|msg|, cfg.mss);
    FragCountFits(|msg|, cfg.mss);
    hide FragCount;
    if n <= 127 {
      MulMono(n, 127, cfg.mss);
    } else {
      MulMono(127, n - 1, cfg.mss);
    }
  }

  lemma MulMono(a: int, b: int, m: int)
    requires a <= b && m >= 0
    ensures a * m <= b * m
  {
  }

  /** What ikcp_send does with any message: refuses it with -2 exactly when it is longer than 127 pieces, and
      otherwise queues it in the fewest pieces there are. */
  lemma SendExactly(k: Kcb, msg: seq<byte>)
    requires k.cfg.mss >= 1
    ensures var (k', code) := Send(k, msg); var mss := k.cfg.mss;
      if |msg| > 127 * mss then
        code == -2 && k' == k
      else
        && code == 0 && k' == k.(snd := k.snd.(queue := k'.snd.queue)) && k.snd.queue <= k'.snd.queue
        && var fs := k'.snd.queue[|k.snd.queue|..];
           && Pieces(msg, mss, fs)
           && |msg| <= |fs| * mss && (|fs| == 1 || (|fs| - 1) * mss < |msg|)
  {
    AcceptsExactly(k.cfg, msg);
    CutShape(k.cfg.mss, msg);
    hide Accepts, Fragments, FragCount;
    var fs := Cut(k.cfg.mss, msg);
    assert (k.snd.queue + fs)[|k.snd.queue|..] == fs;
  }

  // ---------------------------------------------------------------- invariants

  /** The sending half, against the stream `f` of everything accepted for sending. */
  predicate SndOk(s: Snd, f: seq<Frag>, wnd: int) {
    && 0 <= s.una <= s.nxt <= s.una + wnd
    && s.nxt <= |f| && s.queue == f[s.nxt..]
    && SndSorted(s.buf)
    && (forall i :: 0 <= i < |s.buf| ==>
      s.una <= s.buf[i].sn < s.nxt && Frag(s.buf[i].frg, s.buf[i].data) == f[s.buf[i].sn])
    && s.una == if s.buf == [] then s.nxt else s.buf[0].sn
  }

  /** The receiving half, when `taken` fragments have been handed to the user and `limit` have been numbered. */
  predicate RcvOk(r: Rcv, f: seq<Frag>, limit: int, wnd: int, taken: int) {
    && 0 <= taken <= r.nxt <= limit <= |f|
    && r.queue == f[taken..r.nxt]
    && |r.queue| <= wnd
    && RcvSorted(r.buf)
    && (forall i :: 0 <= i < |r.buf| ==>
      r.nxt <= r.buf[i].sn < r.nxt + wnd && r.buf[i].sn < limit
      && Frag(r.buf[i].frg, r.buf[i].data) == f[r.buf[i].sn])
    && (|r.queue| < wnd && r.buf != [] ==> r.nxt < r.buf[0].sn)
  }

  predicate Held(r: Rcv, sn: int) {
    sn < r.nxt || exists i :: 0 <= i < |r.buf| && r.buf[i].sn == sn
  }

  predicate Buffered(s: Snd, sn: int) {
    exists i :: 0 <= i < |s.buf| && s.buf[i].sn == sn
  }

  /** Every numbered fragment is still with the sender or already with the receiver. */
  ghost predicate NoLoss(s: Snd, r: Rcv) {
    forall sn :: 0 <= sn < s.nxt ==> Buffered(s, sn) || Held(r, sn)
  }

  /** What is or will be acknowledged has been received. */
  predicate AcksOk(r: Rcv) {
    forall i :: 0 <= i < |r.acks| ==> 0 <= r.acks[i].0 && Held(r, r.acks[i].0)
  }

  /** Data on the wire is a numbered fragment of the stream. */
  predicate PushOk(p: Packet, f: seq<Frag>, limit: int) {
    p.cmd == IKCP_CMD_PUSH ==> 0 <= p.sn < limit <= |f| && Frag(p.frg, p.data) == f[p.sn]
  }

  /** Acknowledgements on the wire name only what the receiver has. */
  predicate AckOk(p: Packet, r: Rcv) {
    0 <= p.una <= r.nxt && (p.cmd == IKCP_CMD_ACK ==> 0 <= p.sn && Held(r, p.sn))
  }

  ghost predicate Grows(r: Rcv, r': Rcv) {
    r.nxt <= r'.nxt && forall sn :: Held(r, sn) ==> Held(r', sn)
  }

  ghost predicate Dir(s: Snd, sndWnd: int, r: Rcv, rcvWnd: int, f: seq<Frag>, taken: int) {
    SndOk(s, f, sndWnd) && RcvOk(r, f, s.nxt, rcvWnd, taken) && NoLoss(s, r) && AcksOk(r)
  }

  // ---------------------------------------------------------------- the sending half

  lemma ApplyUnaKeeps(s: Snd, f: seq<Frag>, wnd: int, r: Rcv, una: int)
    requires SndOk(s, f, wnd) && NoLoss(s, r)
    requires una <= r.nxt
    ensures var s' := ApplyUna(Unbounded, s, una);
      SndOk(s', f, wnd) && NoLoss(s', r) && s'.nxt == s.nxt && s.una <= s'.una && s'.queue == s.queue
  {
    var k := DropBelowPosition(s.buf, una);
    var s' := ApplyUna(Unbounded, s, una);
    assert s'.buf == s.buf[k..];
    forall sn | 0 <= sn < s'.nxt ensures Buffered(s', sn) || Held(r, sn) {
      assert Buffered(s, sn) || Held(r, sn);
      if Buffered(s, sn) {
        var i :| 0 <= i < |s.buf| && s.buf[i].sn == sn;
        if i >= k {
          assert s'.buf[i - k].sn == sn;
        }
      }
    }
  }

  lemma WithoutOk(s: Snd, f: seq<Frag>, wnd: int, k: int)
    requires SndOk(s, f, wnd) && 0 <= k < |s.buf|
    ensures var s' := ShrinkBuf(s.(buf := Without(s.buf, k))); SndOk(s', f, wnd) && s.una <= s'.una
  {
    var buf := Without(s.buf, k);
    WithoutSorted(s.buf, k);
    hide Without, SndSorted;
    forall i | 0 <= i < |buf|
      ensures s.una <= buf[i].sn < s.nxt && Frag(buf[i].frg, buf[i].data) == f[buf[i].sn]
    {
      assert buf[i] == s.buf[if i < k then i else i + 1];
    }
    forall i | 0 <= i < |buf| ensures buf[0].sn <= buf[i].sn {
      FirstIsLeast(buf, i);
    }
  }

  lemma FirstIsLeast(buf: seq<SndSeg>, i: nat)
    requires SndSorted(buf) && i < |buf|
    ensures buf[0].sn <= buf[i].sn
  {
  }

  /** Taking one segment the receiver holds out of the send buffer. */
  lemma WithoutKeeps(s: Snd, f: seq<Frag>, wnd: int, r: Rcv, k: int)
    requires SndOk(s, f, wnd) && NoLoss(s, r)
    requires 0 <= k < |s.buf| && Held(r, s.buf[k].sn)
    ensures var s' := ShrinkBuf(s.(buf := Without(s.buf, k)));
      SndOk(s', f, wnd) && NoLoss(s', r) && s.una <= s'.una
  {
    hide SndOk, Held;
    var s' := ShrinkBuf(s.(buf := Without(s.buf, k)));
    WithoutOk(s, f, wnd, k);
    forall x | 0 <= x < s'.nxt ensures Buffered(s', x) || Held(r, x) {
      assert Buffered(s, x) || Held(r, x);
      if Buffered(s, x) && x != s.buf[k].sn {
        var i :| 0 <= i < |s.buf| && s.buf[i].sn == x;
        assert s'.buf[if i < k then i else i - 1].sn == x;
      }
    }
  }

  lemma ApplyAckKeeps(s: Snd, f: seq<Frag>, wnd: int, r: Rcv, sn: int)
    requires SndOk(s, f, wnd) && NoLoss(s, r)
    requires Held(r, sn)
    ensures var s' := ApplyAck(Unbounded, s, sn);
      SndOk(s', f, wnd) && NoLoss(s', r) && s'.nxt == s.nxt && s.una <= s'.una && s'.queue == s.queue
  {
    var k := RemoveAckPosition(s.buf, sn);
    if InFlight(Unbounded, s, sn) && k >= 0 {
      WithoutKeeps(s, f, wnd, r, k);
    } else {
      assert ApplyAck(Unbounded, s, sn) == s;
    }
  }

  lemma SameShapeKeeps(s: Snd, buf: seq<SndSeg>, f: seq<Frag>, wnd: int, r: Rcv)
    requires SndOk(s, f, wnd) && NoLoss(s, r)
    requires SameShape(buf, s.buf)
    ensures SndOk(s.(buf := buf), f, wnd) && NoLoss(s.(buf := buf), r)
  {
    var s' := s.(buf := buf);
    forall x | 0 <= x < s'.nxt ensures Buffered(s', x) || Held(r, x) {
      assert Buffered(s, x) || Held(r, x);
      if Buffered(s, x) {
        var i :| 0 <= i < |s.buf| && s.buf[i].sn == x;
        assert buf[i].sn == x;
      }
    }
  }

  lemma NumberOneKeeps(k: Kcb, s: Snd, f: seq<Frag>, wnd: int, r: Rcv)
    requires SndOk(s, f, wnd) && NoLoss(s, r)
    requires s.queue != [] && s.nxt < s.una + wnd
    ensures var s' := NumberOne(Unbounded, k, s); SndOk(s', f, wnd) && NoLoss(s', r)
  {
    var s' := NumberOne(Unbounded, k, s);
    assert s.queue[0] == f[s.nxt] && s'.queue == f[s'.nxt..];
    forall x | 0 <= x < s'.nxt ensures Buffered(s', x) || Held(r, x) {
      if x == s.nxt {
        assert s'.buf[|s.buf|].sn == x;
      } else {
        assert Buffered(s, x) || Held(r, x);
        if Buffered(s, x) {
          var i :| 0 <= i < |s.buf| && s.buf[i].sn == x;
          assert s'.buf[i].sn == x;
        }
      }
    }
  }

  lemma {:induction false} FillWindowKeeps(k: Kcb, s: Snd, f: seq<Frag>, wnd: int, cwnd: int, r: Rcv)
    requires SndOk(s, f, wnd) && NoLoss(s, r)
    requires cwnd <= wnd
    ensures var s' := FillWindow(Unbounded, k, s, cwnd);
      SndOk(s', f, wnd) && NoLoss(s', r) && s.nxt <= s'.nxt
    decreases |s.queue|
  {
    if s.nxt < s.una + cwnd && s.queue != [] {
      NumberOneKeeps(k, s, f, wnd, r);
      FillWindowKeeps(k, NumberOne(Unbounded, k, s), f, wnd, cwnd, r);
    }
  }

  /** The receiving half does not mind the stream growing, nor the sender numbering more of it. */
  lemma RcvOkMore(r: Rcv, f: seq<Frag>, f': seq<Frag>, limit: int, limit': int, wnd: int, taken: int)
    requires RcvOk(r, f, limit, wnd, taken)
    requires f <= f' && limit <= limit' <= |f'|
    ensures RcvOk(r, f', limit', wnd, taken)
  {
    assert f'[taken..r.nxt] == f[taken..r.nxt];
  }

  lemma SndOkMore(s: Snd, f: seq<Frag>, more: seq<Frag>, wnd: int)
    requires SndOk(s, f, wnd)
    ensures SndOk(s.(queue := s.queue + more), f + more, wnd)
  {
    assert (f + more)[s.nxt..] == f[s.nxt..] + more;
  }

  // ---------------------------------------------------------------- the receiving half

  /** RcvOk without the promise that nothing is ready to move. */
  predicate RcvOpen(r: Rcv, f: seq<Frag>, limit: int, wnd: int, taken: int) {
    && 0 <= taken <= r.nxt <= limit <= |f|
    && r.queue == f[taken..r.nxt]
    && |r.queue| <= wnd
    && RcvSorted(r.buf)
    && (forall i :: 0 <= i < |r.buf| ==>
      r.nxt <= r.buf[i].sn < r.nxt + wnd && r.buf[i].sn < limit
      && Frag(r.buf[i].frg, r.buf[i].data) == f[r.buf[i].sn])
  }

  lemma MoveOneKeeps(r: Rcv, f: seq<Frag>, limit: int, wnd: int, taken: int) returns (r1: Rcv)
    requires RcvOpen(r, f, limit, wnd, taken) && r.buf != [] && r.buf[0].sn == r.nxt && |r.queue| < wnd
    ensures r1 == r.(buf := r.buf[1..], queue := r.queue + [Frag(r.buf[0].frg, r.buf[0].data)], nxt := r.nxt + 1)
    ensures RcvOpen(r1, f, limit, wnd, taken) && Grows(r, r1)
  {
    r1 := r.(buf := r.buf[1..], queue := r.queue + [Frag(r.buf[0].frg, r.buf[0].data)], nxt := r.nxt + 1);
    assert r1.queue == f[taken..r1.nxt];
    assert forall i :: 0 <= i < |r1.buf| ==> r1.buf[i] == r.buf[i + 1];
    forall sn | Held(r, sn) ensures Held(r1, sn) {
      if sn > r.nxt {
        var i :| 0 <= i < |r.buf| && r.buf[i].sn == sn;
        assert r1.buf[i - 1].sn == sn;
      }
    }
  }

  lemma {:induction false} MoveReadyKeeps(r: Rcv, f: seq<Frag>, limit: int, wnd: int, taken: int)
    requires RcvOpen(r, f, limit, wnd, taken)
    ensures var r' := MoveReady(Unbounded, r, wnd);
      RcvOk(r', f, limit, wnd, taken) && Grows(r, r') && r'.acks == r.acks
    decreases |r.buf|
  {
    if r.buf != [] && r.buf[0].sn == r.nxt && |r.queue| < wnd {
      var r1 := MoveOneKeeps(r, f, limit, wnd, taken);
      hide RcvOpen, RcvOk, Held;
      MoveReadyKeeps(r1, f, limit, wnd, taken);
    }
  }

  /** Putting one fragment of the stream into the reordering buffer. */
  lemma WithKeeps(r: Rcv, f: seq<Frag>, limit: int, wnd: int, taken: int, p: Packet, k: int)
    requires RcvOk(r, f, limit, wnd, taken)
    requires r.nxt <= p.sn < r.nxt + wnd && p.sn < limit && Frag(p.frg, p.data) == f[p.sn]
    requires 0 <= k <= |r.buf|
    requires forall i :: 0 <= i < k ==> r.buf[i].sn < p.sn
    requires forall i :: k <= i < |r.buf| ==> p.sn < r.buf[i].sn
    ensures var r' := r.(buf := With(r.buf, k, p));
      RcvOpen(r', f, limit, wnd, taken) && Grows(r, r') && Held(r', p.sn)
  {
    var r' := r.(buf := With(r.buf, k, p));
    assert RcvOpen(r', f, limit, wnd, taken) by {
      WithSorted(r.buf, k, p);
      hide RcvSorted;
      assert forall i :: 0 <= i < |r'.buf| && i != k ==> r'.buf[i] == r.buf[if i < k then i else i - 1];
    }
    WithHolds(r, p, k);
  }

  lemma WithHolds(r: Rcv, p: Packet, k: int)
    requires 0 <= k <= |r.buf|
    ensures var r' := r.(buf := With(r.buf, k, p)); Grows(r, r') && Held(r', p.sn)
  {
    var r' := r.(buf := With(r.buf, k, p));
    assert r'.buf[k].sn == p.sn;
    forall sn | Held(r, sn) ensures Held(r', sn) {
      if sn >= r.nxt {
        var i :| 0 <= i < |r.buf| && r.buf[i].sn == sn;
        assert r'.buf[if i < k then i else i + 1].sn == sn;
      }
    }
  }

  lemma InsertKeeps(r: Rcv, f: seq<Frag>, limit: int, wnd: int, taken: int, p: Packet)
    requires RcvOk(r, f, limit, wnd, taken)
    requires r.nxt <= p.sn < r.nxt + wnd && p.sn < limit && Frag(p.frg, p.data) == f[p.sn]
    ensures var r' := r.(buf := InsertSeg(Unbounded, r.buf, p));
      RcvOpen(r', f, limit, wnd, taken) && Grows(r, r') && Held(r', p.sn)
  {
    var k := InsertSegPosition(r.buf, p);
    if k >= 0 {
      WithKeeps(r, f, limit, wnd, taken, p, k);
    }
  }

  lemma ParseDataKeeps(r: Rcv, f: seq<Frag>, limit: int, wnd: int, taken: int, p: Packet)
    requires RcvOk(r, f, limit, wnd, taken)
    requires r.nxt <= p.sn < r.nxt + wnd && p.sn < limit && Frag(p.frg, p.data) == f[p.sn]
    ensures var r' := ParseData(Unbounded, r, wnd, p);
      RcvOk(r', f, limit, wnd, taken) && Grows(r, r') && r'.acks == r.acks && Held(r', p.sn)
  {
    InsertKeeps(r, f, limit, wnd, taken, p);
    MoveReadyKeeps(r.(buf := InsertSeg(Unbounded, r.buf, p)), f, limit, wnd, taken);
  }

  lemma InputPushKeeps(r: Rcv, f: seq<Frag>, limit: int, wnd: int, taken: int, p: Packet)
    requires RcvOk(r, f, limit, wnd, taken) && AcksOk(r)
    requires 0 <= p.sn < limit && Frag(p.frg, p.data) == f[p.sn]
    ensures var r' := InputPush(Unbounded, r, wnd, p);
      && RcvOk(r', f, limit, wnd, taken) && AcksOk(r') && Grows(r, r')
      && (p.sn < r.nxt + wnd ==> r'.acks == r.acks + [(p.sn, p.ts)])
  {
    var r' := InputPush(Unbounded, r, wnd, p);
    if p.sn < r.nxt + wnd {
      var acked := r.(acks := r.acks + [(p.sn, p.ts)]);
      assert Grows(r, acked);
      if p.sn >= r.nxt {
        ParseDataKeeps(acked, f, limit, wnd, taken, p);
      }
      forall i | 0 <= i < |r'.acks| ensures 0 <= r'.acks[i].0 && Held(r', r'.acks[i].0) {
        assert i < |r.acks| ==> r'.acks[i] == r.acks[i];
      }
    }
  }

  lemma NoLossGrows(s: Snd, r: Rcv, r': Rcv)
    requires NoLoss(s, r) && Grows(r, r')
    ensures NoLoss(s, r')
  {
    forall sn | 0 <= sn < s.nxt ensures Buffered(s, sn) || Held(r', sn) {
      assert Buffered(s, sn) || Held(r, sn);
    }
  }

  lemma AckOkGrows(p: Packet, r: Rcv, r': Rcv)
    requires AckOk(p, r) && Grows(r, r')
    ensures AckOk(p, r')
  {
  }

  // ---------------------------------------------------------------- windows

  /** The sender is never further ahead of the receiver than the two windows together, and its
      unacknowledged edge is at or before the first number the receiver still lacks. */
  lemma Windows(s: Snd, sndWnd: int, r: Rcv, rcvWnd: int, f: seq<Frag>, taken: int)
    requires Dir(s, sndWnd, r, rcvWnd, f, taken) && rcvWnd >= 1
    ensures r.nxt <= s.nxt <= r.nxt + rcvWnd + sndWnd
    ensures s.una <= r.nxt + rcvWnd
    ensures |r.queue| < rcvWnd ==> s.una <= r.nxt
  {
    var past := r.nxt + rcvWnd;
    assert past < s.nxt ==> Buffered(s, past) || Held(r, past);
    assert r.nxt < s.nxt ==> Buffered(s, r.nxt) || Held(r, r.nxt);
  }
}
