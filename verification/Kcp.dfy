/** The KCP control block as a value, and each operation on it as a function of that value.

    Every function that reads a sequence number takes the Width it is read at. The class in
    ControlBlock.dfy computes these functions at `Bits32`, in place. */
module Kcp {
  import opened Bytes
  import opened Serial

  const IKCP_RTO_MAX: int := 60000
  const IKCP_CMD_PUSH: int := 81
  const IKCP_CMD_ACK: int := 82
  const IKCP_CMD_WASK: int := 83
  const IKCP_CMD_WINS: int := 84
  const IKCP_WND_RCV: int := 128
  const IKCP_OVERHEAD: int := 24
  const IKCP_THRESH_MIN: int := 2
  const IKCP_PROBE_INIT: int := 7000
  const IKCP_PROBE_LIMIT: int := 120000

  // ---------------------------------------------------------------- data

  /** A piece of a message; `frg` counts the pieces still to come. */
  datatype Frag = Frag(frg: int, data: seq<byte>)

  /** What travels on the wire. */
  datatype Packet = Packet(conv: int, cmd: int, frg: int, wnd: int, ts: int, sn: int, una: int, data: seq<byte>)

  /** A numbered fragment awaiting acknowledgement. */
  datatype SndSeg = SndSeg(frg: int, data: seq<byte>, wnd: int, ts: int, sn: int, una: int,
                           resendts: int, rto: int, fastack: int, xmit: int)

  datatype Cfg = Cfg(conv: int, mtu: int, mss: int, sndWnd: int, rcvWnd: int, interval: int, nodelay: bool,
                     minrto: int, fastresend: int, fastlimit: int, nocwnd: bool, deadLink: int)

  datatype Snd = Snd(una: int, nxt: int, queue: seq<Frag>, buf: seq<SndSeg>)

  datatype Rcv = Rcv(nxt: int, buf: seq<Packet>, queue: seq<Frag>, acks: seq<(int, int)>)

  datatype Cong = Cong(rmtWnd: int, cwnd: int, incr: int, ssthresh: int)

  datatype Rtt = Rtt(srtt: int, rttval: int, rto: int)

  datatype Probe = Probe(askSend: bool, askTell: bool, ts: int, wait: int)

  datatype Clock = Clock(current: int, tsFlush: int, updated: bool)

  datatype Kcb = Kcb(cfg: Cfg, snd: Snd, rcv: Rcv, cong: Cong, rtt: Rtt, probe: Probe, clock: Clock,
                     dead: bool, xmit: int)

  /** What the program needs of its configuration: windows below 2^16, at least one payload byte a segment. */
  predicate ValidCfg(c: Cfg) {
    && 0 <= c.conv < TWO32
    && c.mss >= 1
    && c.mtu == c.mss + IKCP_OVERHEAD
    && c.mtu < TWO31
    && 1 <= c.sndWnd < 0x1_0000
    && IKCP_WND_RCV <= c.rcvWnd < 0x1_0000
    && 0 <= c.interval <= 5000
    && 0 <= c.minrto <= IKCP_RTO_MAX
    && 0 <= c.fastresend < TWO31
  }

  function Min(a: int, b: int): int { if a <= b then a else b }

  function Max(a: int, b: int): int { if a >= b then a else b }

  /** ikcp_create, with the settings of `c`. */
  function Init(c: Cfg): Kcb {
    Kcb(c, Snd(0, 0, [], []), Rcv(0, [], [], []), Cong(IKCP_WND_RCV, 0, 0, 2), Rtt(0, 0, 200),
        Probe(false, false, 0, 0), Clock(0, 100, false), false, 0)
  }

  // ---------------------------------------------------------------- sending

  function FragCount(len: nat, mss: int): (n: int)
    requires mss >= 1
    ensures n >= 1
  {
    if len <= mss then 1 else assert (len + mss - 1) / mss >= 1; (len + mss - 1) / mss
  }

  /** Cuts `msg` into `count` pieces of at most `mss` bytes, numbered down to 0. */
  function Fragments(msg: seq<byte>, mss: int, count: nat): (fs: seq<Frag>)
    requires mss >= 1
    ensures |fs| == count
  {
    if count == 0 then []
    else
      var size := if |msg| > mss then mss else |msg|;
      [Frag(count - 1, msg[..size])] + Fragments(msg[size..], mss, count - 1)
  }

  function Accepts(cfg: Cfg, msg: seq<byte>): bool
    requires cfg.mss >= 1
  {
    FragCount(|msg|, cfg.mss) < IKCP_WND_RCV
  }

  function Send(k: Kcb, msg: seq<byte>): (Kcb, int)
    requires k.cfg.mss >= 1
  {
    if !Accepts(k.cfg, msg) then (k, -2)
    else (k.(snd := k.snd.(queue := k.snd.queue + Fragments(msg, k.cfg.mss, FragCount(|msg|, k.cfg.mss)))), 0)
  }

  // ---------------------------------------------------------------- receiving

  /** How many pieces the message at the head of the queue has, as far as the queue holds it. */
  function MsgNodes(q: seq<Frag>): (n: nat)
    ensures n <= |q|
  {
    if q == [] then 0
    else if q[0].frg == 0 then 1
    else 1 + MsgNodes(q[1..])
  }

  function Joined(q: seq<Frag>): seq<byte> {
    if q == [] then [] else q[0].data + Joined(q[1..])
  }

  function PeekSize(q: seq<Frag>): int {
    if q == [] then -1
    else if q[0].frg == 0 then |q[0].data|
    else if |q| < q[0].frg + 1 then -1
    else |Joined(q[..MsgNodes(q)])|
  }

  /** Moves segments that have become next in order from the reordering buffer to the receive queue. */
  function MoveReady(w: Width, r: Rcv, rcvWnd: int): Rcv
    decreases |r.buf|
  {
    if r.buf != [] && r.buf[0].sn == r.nxt && |r.queue| < rcvWnd then
      MoveReady(w, r.(buf := r.buf[1..], queue := r.queue + [Frag(r.buf[0].frg, r.buf[0].data)],
                      nxt := Wrap(w, r.nxt + 1)), rcvWnd)
    else r
  }

  datatype RecvResult = RecvResult(code: int, data: seq<byte>)

  /** Moves more segments in; a queue that was full and now has room asks for the peer to be told. */
  function Refill(w: Width, k: Kcb, wasFull: bool): Kcb {
    var moved := MoveReady(w, k.rcv, k.cfg.rcvWnd);
    k.(rcv := moved, probe := k.probe.(askTell := k.probe.askTell || (wasFull && |moved.queue| < k.cfg.rcvWnd)))
  }

  /** Joins the message at the head of the queue, drops it from the queue unless only peeking, and refills. */
  function TakeHead(w: Width, k: Kcb, peek: bool): (Kcb, seq<byte>) {
    var q := k.rcv.queue;
    var n := MsgNodes(q);
    var taken := if peek then k else k.(rcv := k.rcv.(queue := q[n..]));
    (Refill(w, taken, |q| >= k.cfg.rcvWnd), Joined(q[..n]))
  }

  /** A negative `maxLen` only peeks. */
  function Recv(w: Width, k: Kcb, maxLen: int): (Kcb, RecvResult) {
    var size := PeekSize(k.rcv.queue);
    if k.rcv.queue == [] then (k, RecvResult(-1, []))
    else if size < 0 then (k, RecvResult(-2, []))
    else if size > (if maxLen < 0 then -maxLen else maxLen) then (k, RecvResult(-3, []))
    else
      var (k', data) := TakeHead(w, k, maxLen < 0);
      (k', RecvResult(|data|, data))
  }

  // ---------------------------------------------------------------- acknowledgements

  /** C division of a signed word: toward zero. */
  function TruncDiv(a: int, b: int): int
    requires b > 0
  {
    if a >= 0 then a / b else -((-a) / b)
  }

  function Bound(lower: int, middle: int, upper: int): int {
    Min(Max(lower, middle), upper)
  }

  /** The round-trip estimator; section 2 of RFC 6298 with the update interval as clock granularity. */
  function UpdateAck(cfg: Cfg, t: Rtt, rtt: int): Rtt {
    var delta := if rtt - t.srtt < 0 then t.srtt - rtt else rtt - t.srtt;
    var rttval := if t.srtt == 0 then TruncDiv(rtt, 2) else I32(TruncDiv(I32(3 * t.rttval) + delta, 4));
    var srtt := if t.srtt == 0 then rtt else Max(TruncDiv(I32(I32(7 * t.srtt) + rtt), 8), 1);
    var rto := U32(srtt + Max(cfg.interval, U32(4 * rttval)));
    Rtt(srtt, rttval, Bound(cfg.minrto, rto, IKCP_RTO_MAX))
  }

  function ShrinkBuf(s: Snd): Snd {
    s.(una := if s.buf != [] then s.buf[0].sn else s.nxt)
  }

  /** Drops from the head of `buf` everything below `una`. */
  function DropBelow(w: Width, buf: seq<SndSeg>, una: int): seq<SndSeg> {
    if buf != [] && SnDiff(w, una, buf[0].sn) > 0 then DropBelow(w, buf[1..], una) else buf
  }

  /** The scan of ikcp_parse_ack: stops at the first segment past `sn`. */
  function RemoveAck(w: Width, buf: seq<SndSeg>, sn: int): seq<SndSeg> {
    if buf == [] then []
    else if sn == buf[0].sn then buf[1..]
    else if SnDiff(w, sn, buf[0].sn) < 0 then buf
    else [buf[0]] + RemoveAck(w, buf[1..], sn)
  }

  predicate InFlight(w: Width, s: Snd, sn: int) {
    SnDiff(w, sn, s.una) >= 0 && SnDiff(w, sn, s.nxt) < 0
  }

  function ParseAck(w: Width, s: Snd, sn: int): Snd {
    if InFlight(w, s, sn) then s.(buf := RemoveAck(w, s.buf, sn)) else s
  }

  function BumpFastack(w: Width, buf: seq<SndSeg>, sn: int): seq<SndSeg> {
    if buf == [] || SnDiff(w, sn, buf[0].sn) < 0 then buf
    else [if sn != buf[0].sn then buf[0].(fastack := U32(buf[0].fastack + 1)) else buf[0]]
         + BumpFastack(w, buf[1..], sn)
  }

  function ParseFastack(w: Width, s: Snd, sn: int): Snd {
    if InFlight(w, s, sn) then s.(buf := BumpFastack(w, s.buf, sn)) else s
  }

  // ---------------------------------------------------------------- data in

  /** The backward scan of ikcp_parse_data: a duplicate is dropped, anything else goes after the last smaller one. */
  function InsertSeg(w: Width, buf: seq<Packet>, p: Packet): seq<Packet> {
    if buf == [] then [p]
    else
      var last := buf[|buf| - 1];
      if last.sn == p.sn then buf
      else if SnDiff(w, p.sn, last.sn) > 0 then buf + [p]
      else InsertSeg(w, buf[..|buf| - 1], p) + [last]
  }

  function ParseData(w: Width, r: Rcv, rcvWnd: int, p: Packet): Rcv {
    if SnDiff(w, p.sn, Wrap(w, r.nxt + rcvWnd)) >= 0 || SnDiff(w, p.sn, r.nxt) < 0 then r
    else MoveReady(w, r.(buf := InsertSeg(w, r.buf, p)), rcvWnd)
  }

  function InputPush(w: Width, r: Rcv, rcvWnd: int, p: Packet): Rcv {
    if SnDiff(w, p.sn, Wrap(w, r.nxt + rcvWnd)) >= 0 then r
    else
      var acked := r.(acks := r.acks + [(p.sn, p.ts)]);
      if SnDiff(w, p.sn, r.nxt) >= 0 then ParseData(w, acked, rcvWnd, p) else acked
  }

  /** The highest acknowledged number seen so far in one datagram. */
  datatype MaxAck = NoAck | MaxAck(sn: int)

  function TrackAck(w: Width, a: MaxAck, sn: int): MaxAck {
    if a.NoAck? || SnDiff(w, sn, a.sn) > 0 then MaxAck(sn) else a
  }

  function ApplyUna(w: Width, s: Snd, una: int): Snd {
    ShrinkBuf(s.(buf := DropBelow(w, s.buf, una)))
  }

  function ApplyAck(w: Width, s: Snd, sn: int): Snd {
    ShrinkBuf(ParseAck(w, s, sn))
  }

  function SampleRtt(k: Kcb, ts: int): Rtt {
    var rtt := TimeDiff(k.clock.current, ts);
    if rtt >= 0 then UpdateAck(k.cfg, k.rtt, rtt) else k.rtt
  }

  predicate KnownCmd(cmd: int) {
    IKCP_CMD_PUSH <= cmd <= IKCP_CMD_WINS
  }

  /** One turn of the loop of ikcp_input, for a segment whose header was accepted. */
  function InputPacket(w: Width, k: Kcb, p: Packet): Kcb {
    var s := ApplyUna(w, k.snd, p.una);
    var k1 := k.(cong := k.cong.(rmtWnd := p.wnd), snd := s);
    if p.cmd == IKCP_CMD_ACK then k1.(rtt := SampleRtt(k, p.ts), snd := ApplyAck(w, s, p.sn))
    else if p.cmd == IKCP_CMD_PUSH then k1.(rcv := InputPush(w, k.rcv, k.cfg.rcvWnd, p))
    else if p.cmd == IKCP_CMD_WASK then k1.(probe := k.probe.(askTell := true))
    else k1
  }

  function InputAck(w: Width, a: MaxAck, p: Packet): MaxAck {
    if p.cmd == IKCP_CMD_ACK then TrackAck(w, a, p.sn) else a
  }

  datatype InputState = InputState(k: Kcb, ack: MaxAck)

  function InputPackets(w: Width, st: InputState, ps: seq<Packet>): InputState
    decreases |ps|
  {
    if ps == [] then st
    else InputPackets(w, InputState(InputPacket(w, st.k, ps[0]), InputAck(w, st.ack, ps[0])), ps[1..])
  }

  /** Unsigned division. */
  function UDiv(a: int, b: int): (q: int)
    requires 0 <= a && b > 0
    ensures 0 <= q
  {
    a / b
  }

  /** One step of window growth: slow start below the threshold, congestion avoidance from it on. */
  function Grown(c: Cong, mss: int): Cong
    requires mss >= 1
  {
    if c.cwnd < c.ssthresh then c.(cwnd := U32(c.cwnd + 1), incr := U32(c.incr + mss))
    else
      var base := if c.incr < mss then mss else c.incr;
      var incr := U32(base + UDiv(U32(mss * mss), base) + mss / 16);
      c.(incr := incr, cwnd := if U32((c.cwnd + 1) * mss) <= incr then UDiv(U32(incr + mss - 1), mss) else c.cwnd)
  }

  /** Window growth when the unacknowledged edge has moved. */
  function GrowCwnd(c: Cong, mss: int): Cong
    requires mss >= 1
  {
    if c.cwnd >= c.rmtWnd then c
    else
      var grown := Grown(c, mss);
      if grown.cwnd > c.rmtWnd then grown.(cwnd := c.rmtWnd, incr := U32(c.rmtWnd * mss)) else grown
  }

  /** What ikcp_input does after its loop. */
  function FinishInput(w: Width, st: InputState, prevUna: int): Kcb
    requires st.k.cfg.mss >= 1
  {
    var k := if st.ack.MaxAck? then st.k.(snd := ParseFastack(w, st.k.snd, st.ack.sn)) else st.k;
    if SnDiff(w, k.snd.una, prevUna) > 0 then k.(cong := GrowCwnd(k.cong, k.cfg.mss)) else k
  }

  lemma {:induction false} InputKeepsCfg(w: Width, st: InputState, ps: seq<Packet>)
    ensures InputPackets(w, st, ps).k.cfg == st.k.cfg
    decreases |ps|
  {
    if ps != [] {
      InputKeepsCfg(w, InputState(InputPacket(w, st.k, ps[0]), InputAck(w, st.ack, ps[0])), ps[1..]);
    }
  }

  /** ikcp_input on the segments of one datagram, when every header is accepted. */
  function InputDatagram(w: Width, k: Kcb, ps: seq<Packet>): Kcb
    requires k.cfg.mss >= 1
  {
    InputKeepsCfg(w, InputState(k, NoAck), ps);
    FinishInput(w, InputPackets(w, InputState(k, NoAck), ps), k.snd.una)
  }

  // ---------------------------------------------------------------- data out

  function WndUnused(k: Kcb): int {
    Max(k.cfg.rcvWnd - |k.rcv.queue|, 0)
  }

  function Control(k: Kcb, cmd: int, snts: (int, int)): Packet {
    Packet(k.cfg.conv, cmd, 0, WndUnused(k), snts.1, snts.0, k.rcv.nxt, [])
  }

  function AckPackets(k: Kcb, acks: seq<(int, int)>): (ps: seq<Packet>)
    ensures |ps| == |acks|
    ensures forall i :: 0 <= i < |acks| ==> ps[i] == Control(k, IKCP_CMD_ACK, acks[i])
  {
    if acks == [] then [] else [Control(k, IKCP_CMD_ACK, acks[0])] + AckPackets(k, acks[1..])
  }

  /** The number and time stamp left in the local segment header once the acks are out. */
  function LastAck(acks: seq<(int, int)>): (int, int) {
    if acks == [] then (0, 0) else acks[|acks| - 1]
  }

  /** Schedules a window probe while the peer advertises no room. */
  function ProbeWindow(p: Probe, rmtWnd: int, current: int): Probe {
    if rmtWnd != 0 then p.(ts := 0, wait := 0)
    else if p.wait == 0 then p.(wait := IKCP_PROBE_INIT, ts := U32(current + IKCP_PROBE_INIT))
    else if TimeDiff(current, p.ts) < 0 then p
    else
      var base := Max(p.wait, IKCP_PROBE_INIT);
      var wait := Min(base + base / 2, IKCP_PROBE_LIMIT);
      p.(wait := wait, ts := U32(current + wait), askSend := true)
  }

  function ProbePackets(k: Kcb, p: Probe, last: (int, int)): seq<Packet> {
    (if p.askSend then [Control(k, IKCP_CMD_WASK, last)] else [])
    + (if p.askTell then [Control(k, IKCP_CMD_WINS, last)] else [])
  }

  function SendWindow(k: Kcb): int {
    var cwnd := Min(k.cfg.sndWnd, k.cong.rmtWnd);
    if k.cfg.nocwnd then cwnd else Min(k.cong.cwnd, cwnd)
  }

  /** Moves the first queued fragment to the send buffer under the next number. */
  function NumberOne(w: Width, k: Kcb, s: Snd): Snd
    requires s.queue != []
  {
    var seg := SndSeg(s.queue[0].frg, s.queue[0].data, WndUnused(k), k.clock.current, s.nxt, k.rcv.nxt,
                      k.clock.current, k.rtt.rto, 0, 0);
    Snd(s.una, Wrap(w, s.nxt + 1), s.queue[1..], s.buf + [seg])
  }

  /** Numbers queued fragments while the window has room. */
  function FillWindow(w: Width, k: Kcb, s: Snd, cwnd: int): Snd
    decreases |s.queue|
  {
    if SnDiff(w, s.nxt, Wrap(w, s.una + cwnd)) < 0 && s.queue != [] then FillWindow(w, k, NumberOne(w, k, s), cwnd)
    else s
  }

  datatype Cause = Keep | First | Timeout | Fast

  function Resent(k: Kcb): int {
    if k.cfg.fastresend > 0 then k.cfg.fastresend else TWO32 - 1
  }

  function SendCause(k: Kcb, s: SndSeg): Cause {
    if s.xmit == 0 then First
    else if TimeDiff(k.clock.current, s.resendts) >= 0 then Timeout
    else if s.fastack >= Resent(k) && (I32(s.xmit) <= k.cfg.fastlimit || k.cfg.fastlimit <= 0) then Fast
    else Keep
  }

  function Transmit(k: Kcb, s: SndSeg): SndSeg {
    var now := k.clock.current;
    var sent := s.(xmit := U32(s.xmit + 1), ts := now, wnd := WndUnused(k), una := k.rcv.nxt);
    match SendCause(k, s)
    case Keep => s
    case First =>
      var rtomin := if k.cfg.nodelay then 0 else k.rtt.rto / 8;
      sent.(rto := k.rtt.rto, resendts := U32(now + k.rtt.rto + rtomin))
    case Timeout =>
      var rto := U32(s.rto + (if k.cfg.nodelay then k.rtt.rto / 2 else k.rtt.rto));
      sent.(rto := rto, resendts := U32(now + rto))
    case Fast =>
      sent.(fastack := 0, resendts := U32(now + s.rto))
  }

  function PushPacket(conv: int, s: SndSeg): Packet {
    Packet(conv, IKCP_CMD_PUSH, s.frg, s.wnd, s.ts, s.sn, s.una, s.data)
  }

  /** What a stretch of the send buffer contributes to a flush. */
  datatype FlushOut = FlushOut(buf: seq<SndSeg>, ps: seq<Packet>, lost: bool, change: bool, dead: bool, xmit: int)

  const NOTHING: FlushOut := FlushOut([], [], false, false, false, 0)

  function Join(a: FlushOut, b: FlushOut): FlushOut {
    FlushOut(a.buf + b.buf, a.ps + b.ps, a.lost || b.lost, a.change || b.change, a.dead || b.dead, a.xmit + b.xmit)
  }

  function FlushOne(k: Kcb, s: SndSeg): FlushOut {
    var cause, seg := SendCause(k, s), Transmit(k, s);
    FlushOut([seg], if cause.Keep? then [] else [PushPacket(k.cfg.conv, seg)], cause.Timeout?, cause.Fast?,
             !cause.Keep? && seg.xmit >= k.cfg.deadLink, if cause.Timeout? then 1 else 0)
  }

  /** The last loop of ikcp_flush over the send buffer. */
  function FlushBuf(k: Kcb, buf: seq<SndSeg>): FlushOut {
    if buf == [] then NOTHING else Join(FlushOne(k, buf[0]), FlushBuf(k, buf[1..]))
  }

  function AfterFlush(w: Width, k: Kcb, lost: bool, change: bool, cwnd: int): Cong {
    var inflight := Wrap(w, k.snd.nxt - k.snd.una);
    var thresh := Max(inflight / 2, IKCP_THRESH_MIN);
    var c := if change
             then k.cong.(ssthresh := thresh, cwnd := U32(thresh + Resent(k)),
                          incr := U32(U32(thresh + Resent(k)) * k.cfg.mss))
             else k.cong;
    if lost then c.(ssthresh := Max(cwnd / 2, IKCP_THRESH_MIN), cwnd := 1, incr := k.cfg.mss)
    else if c.cwnd < 1 then c.(cwnd := 1, incr := k.cfg.mss)
    else c
  }

  /** The acks and probes that go out ahead of the data. */
  function ControlPackets(k: Kcb, probe: Probe): seq<Packet> {
    AckPackets(k, k.rcv.acks) + ProbePackets(k, probe, LastAck(k.rcv.acks))
  }

  /** The block once `out` has been sent from the send half `snd`. */
  function Flushed(w: Width, k: Kcb, probe: Probe, snd: Snd, out: FlushOut, cwnd: int): Kcb {
    var k1 := Kcb(k.cfg, snd.(buf := out.buf), k.rcv.(acks := []), k.cong, k.rtt,
                  probe.(askSend := false, askTell := false), k.clock, k.dead || out.dead, U32(k.xmit + out.xmit));
    k1.(cong := AfterFlush(w, k1, out.lost, out.change, cwnd))
  }

  /** ikcp_flush: the new block and every segment sent, in order. */
  function Flush(w: Width, k: Kcb): (Kcb, seq<Packet>) {
    if !k.clock.updated then (k, [])
    else
      var probe := ProbeWindow(k.probe, k.cong.rmtWnd, k.clock.current);
      var cwnd := SendWindow(k);
      var snd := FillWindow(w, k, k.snd, cwnd);
      var out := FlushBuf(k, snd.buf);
      (Flushed(w, k, probe, snd, out, cwnd), ControlPackets(k, probe) + out.ps)
  }

  // ---------------------------------------------------------------- time

  /** The clock part of ikcp_update, and whether it flushes. */
  function Tick(c: Clock, interval: int, current: int): (Clock, bool) {
    var start := if c.updated then c.tsFlush else current;
    var diff := TimeDiff(current, start);
    var reset := diff >= 10000 || diff < -10000;
    var ts := if reset then current else start;
    var slap := if reset then 0 else diff;
    if slap < 0 then (Clock(current, ts, true), false)
    else
      var next := U32(ts + interval);
      (Clock(current, if TimeDiff(current, next) >= 0 then U32(current + interval) else next, true), true)
  }

  function Update(w: Width, k: Kcb, current: int): (Kcb, seq<Packet>) {
    var (clock, due) := Tick(k.clock, k.cfg.interval, current);
    var k1 := k.(clock := clock);
    if due then Flush(w, k1) else (k1, [])
  }

  datatype Wait = Due | In(ms: int)

  /** The scan of ikcp_check: stops at a segment whose resend time has come. */
  function ResendWait(buf: seq<SndSeg>, current: int, soonest: int): Wait {
    if buf == [] then In(soonest)
    else
      var diff := TimeDiff(buf[0].resendts, current);
      if diff <= 0 then Due else ResendWait(buf[1..], current, Min(diff, soonest))
  }

  /** ikcp_check: when ikcp_update should next be called. */
  function Check(k: Kcb, current: int): int {
    var late := TimeDiff(current, k.clock.tsFlush);
    if !k.clock.updated || late >= 10000 || late < -10000 || late >= 0 then current
    else
      match ResendWait(k.snd.buf, current, TWO31 - 1)
      case Due => current
      case In(packet) => U32(current + Min(Min(packet, TimeDiff(k.clock.tsFlush, current)), k.cfg.interval))
  }
}
