/** Which round-trip times are sampled: in every run of the program the estimator holds exactly what the
    acknowledgements that came in make of it, one sample each, in order. */
module Sampling {
  import opened Bytes
  import opened Serial
  import opened Kcp
  import opened Wire
  import opened Connection
  import opened ByteRuns
  import opened Timing
  import opened Acknowledgements
  import opened TimingRuns

  /** The times from when each acknowledged segment was sent to `current`, but for those that lie ahead. */
  function Samples(current: int, ps: seq<Packet>): seq<int> {
    if ps == [] then []
    else
      (if ps[0].cmd == IKCP_CMD_ACK && TimeDiff(current, ps[0].ts) >= 0 then [TimeDiff(current, ps[0].ts)] else [])
      + Samples(current, ps[1..])
  }

  /** The estimator of RFC 6298 after each of the samples in turn. */
  function Estimates(cfg: Cfg, t: Rtt, samples: seq<nat>): (t': Rtt)
    requires t.srtt >= 0 && t.rttval >= 0
    ensures t'.srtt >= 0 && t'.rttval >= 0
  {
    if samples == [] then t
    else Estimate(cfg, Estimates(cfg, t, samples[..|samples| - 1]), samples[|samples| - 1])
  }

  lemma UpdateAcksOne(cfg: Cfg, t: Rtt, sample: int)
    ensures UpdateAcks(cfg, t, [sample]) == UpdateAck(cfg, t, sample)
  {
    hide UpdateAck;
    assert [sample][..0] == [];
    assert UpdateAcks(cfg, t, []) == t;
  }

  lemma {:induction false} UpdateAcksConcat(cfg: Cfg, t: Rtt, a: seq<int>, b: seq<int>)
    ensures UpdateAcks(cfg, t, a + b) == UpdateAcks(cfg, UpdateAcks(cfg, t, a), b)
  {
    hide UpdateAck;
    if b == [] {
      assert a + b == a;
    } else {
      UpdateAcksConcat(cfg, t, a, b[..|b| - 1]);
      assert (a + b)[..|a + b| - 1] == a + b[..|b| - 1];
    }
  }

  /** Samples that fit: the machine's estimates are the estimator's. */
  lemma {:induction false} UpdateAcksAreEstimates(cfg: Cfg, t: Rtt, samples: seq<nat>, r: int)
    requires ValidCfg(cfg) && 1 <= r < 0x1000_0000 && RttIn(t, r)
    requires forall i :: 0 <= i < |samples| ==> samples[i] <= r
    ensures UpdateAcks(cfg, t, samples) == Estimates(cfg, t, samples) && RttIn(Estimates(cfg, t, samples), r)
  {
    hide UpdateAck, Estimate, ValidCfg;
    if samples != [] {
      var front := samples[..|samples| - 1];
      UpdateAcksAreEstimates(cfg, t, front, r);
      UpdateAckIsEstimate(cfg, UpdateAcks(cfg, t, front), samples[|samples| - 1], r);
    }
  }

  // ---------------------------------------------------------------- one datagram

  lemma SamplesMore(current: int, p: Packet, ps: seq<Packet>)
    ensures Samples(current, [p] + ps) == Samples(current, [p]) + Samples(current, ps)
  {
    assert ([p] + ps)[1..] == ps && [p][1..] == [];
    hide TimeDiff;
    assert Samples(current, []) == [];
  }

  /** A segment is a sample if it is an acknowledgement of something sent no later than now, and no sample otherwise.
      */
  lemma PacketSampled(k: Kcb, p: Packet)
    ensures var k' := InputPacket(Bits32, k, p);
      k'.rtt == UpdateAcks(k.cfg, k.rtt, Samples(k.clock.current, [p])) && k'.cfg == k.cfg && k'.clock == k.clock
  {
    hide UpdateAck, ApplyUna, ApplyAck, InputPush, TimeDiff;
    assert [p][1..] == [] && Samples(k.clock.current, []) == [];
    UpdateAcksOne(k.cfg, k.rtt, TimeDiff(k.clock.current, p.ts));
    assert UpdateAcks(k.cfg, k.rtt, []) == k.rtt;
  }

  lemma FinishKeepsRtt(st: InputState, prevUna: int)
    requires st.k.cfg.mss >= 1
    ensures FinishInput(Bits32, st, prevUna).rtt == st.k.rtt
  {
    hide GrowCwnd, ParseFastack;
  }

  /** Whatever the bytes: the samples are those of the segments taken from them. */
  lemma {:induction false} InputSampled(st: InputState, b: seq<byte>, prevUna: int)
    requires st.k.cfg.mss >= 1
    ensures InputLoop(st, b, prevUna).0.rtt
            == UpdateAcks(st.k.cfg, st.k.rtt, Samples(st.k.clock.current, Segments(st.k.cfg.conv, b)))
    decreases |b|
  {
    hide InputPacket, DecodeHeader, FinishInput, UpdateAck, TimeDiff;
    if |b| < IKCP_OVERHEAD {
      FinishKeepsRtt(st, prevUna);
    } else {
      var (h, len) := DecodeHeader(b);
      var body := b[IKCP_OVERHEAD..];
      if h.conv == st.k.cfg.conv && len <= |body| && I32(len) >= 0 && KnownCmd(h.cmd) {
        var p := h.(data := body[..len]);
        var rest := Segments(st.k.cfg.conv, body[len..]);
        PacketSampled(st.k, p);
        InputSampled(InputState(InputPacket(Bits32, st.k, p), InputAck(Bits32, st.ack, p)), body[len..], prevUna);
        SamplesMore(st.k.clock.current, p, rest);
        UpdateAcksConcat(st.k.cfg, st.k.rtt, Samples(st.k.clock.current, [p]), Samples(st.k.clock.current, rest));
      }
    }
  }

  // ---------------------------------------------------------------- a run

  /** The samples that an action brings in. */
  function SampledBy(x: End32, wire: seq<seq<byte>>, a: Action): seq<int> {
    if a.Deliver? && a.i < |wire| then Samples(x.kcb.clock.current, Segments(x.kcb.cfg.conv, wire[a.i])) else []
  }

  /** All samples of `side` in a run, in order. */
  function Sampled(ca: Cfg, cb: Cfg, es: seq<Event>, side: Side): seq<int>
    requires Compatible(ca, cb)
  {
    if es == [] then []
    else
      var front, e := es[..|es| - 1], es[|es| - 1];
      var n := Run32(Start32(ca, cb), front);
      Sampled(ca, cb, front, side)
      + if e.side == side then SampledBy(EndOf(n, side), EndOf(n, Other(side)).out, e.action) else []
  }

  lemma ShortSamples(k: Kcb, b: seq<byte>)
    ensures |b| < IKCP_OVERHEAD ==> Samples(k.clock.current, Segments(k.cfg.conv, b)) == []
  {
  }

  lemma StepSampled(x: End32, wire: seq<seq<byte>>, a: Action)
    requires x.kcb.cfg.mss >= 1
    ensures StepEnd32(x, wire, a).kcb.rtt == UpdateAcks(x.kcb.cfg, x.kcb.rtt, SampledBy(x, wire, a))
  {
    hide InputLoop, Segments, MoveReady, Tick, FillWindow, FlushBuf, ProbeWindow, Fragments, AfterFlush,
         UpdateAck, Samples;
    assert UpdateAcks(x.kcb.cfg, x.kcb.rtt, []) == x.kcb.rtt;
    if a.Deliver? && a.i < |wire| {
      InputSampled(InputState(x.kcb, NoAck), wire[a.i], x.kcb.snd.una);
      ShortSamples(x.kcb, wire[a.i]);
    }
  }

  /** In every run the estimator is at any point what all samples so far, in order, make of its first state. */
  lemma {:induction false} RttIsSampled(ca: Cfg, cb: Cfg, es: seq<Event>, side: Side)
    requires Compatible(ca, cb)
    ensures var k := EndOf(Run32(Start32(ca, cb), es), side).kcb;
      k.rtt == UpdateAcks(k.cfg, Rtt(0, 0, 200), Sampled(ca, cb, es, side))
  {
    if es != [] {
      hide StepEnd32, SampledBy, UpdateAcks;
      var front, e := es[..|es| - 1], es[|es| - 1];
      RttIsSampled(ca, cb, front, side);
      var n := Run32(Start32(ca, cb), front);
      if e.side == side {
        var x, wire := EndOf(n, side), EndOf(n, Other(side)).out;
        StepSampled(x, wire, e.action);
        UpdateAcksConcat(x.kcb.cfg, Rtt(0, 0, 200), Sampled(ca, cb, front, side), SampledBy(x, wire, e.action));
      } else {
        assert Sampled(ca, cb, es, side) == Sampled(ca, cb, front, side);
      }
    }
  }

  // ---------------------------------------------------------------- as estimates

  lemma {:induction false} SamplesFresh(current: int, ps: seq<Packet>, r: int)
    requires FreshIn(current, ps, r)
    ensures forall i :: 0 <= i < |Samples(current, ps)| ==> 0 <= Samples(current, ps)[i] <= r
  {
    hide TimeDiff;
    if ps != [] {
      assert ps[0] in ps && forall p :: p in ps[1..] ==> p in ps;
      SamplesFresh(current, ps[1..], r);
    }
  }

  lemma {:induction false} RunSamplesFresh(ca: Cfg, cb: Cfg, es: seq<Event>, side: Side, r: int)
    requires Compatible(ca, cb) && FreshRun(ca, cb, es, side, r)
    ensures forall i :: 0 <= i < |Sampled(ca, cb, es, side)| ==> 0 <= Sampled(ca, cb, es, side)[i] <= r
  {
    hide Run32, FreshIn, Segments, Samples;
    if es != [] {
      var front, e := es[..|es| - 1], es[|es| - 1];
      RunSamplesFresh(ca, cb, front, side, r);
      var n := Run32(Start32(ca, cb), front);
      var x, wire := EndOf(n, side), EndOf(n, Other(side)).out;
      if e.side == side && e.action.Deliver? && e.action.i < |wire| {
        SamplesFresh(x.kcb.clock.current, Segments(x.kcb.cfg.conv, wire[e.action.i]), r);
      }
    }
  }

  /** In every run in which no acknowledgement comes in more than `r` milliseconds after what it acknowledges was
      sent, the estimator is that of RFC 6298 over all samples so far. */
  lemma RttIsEstimated(ca: Cfg, cb: Cfg, es: seq<Event>, side: Side, r: int)
    requires Compatible(ca, cb) && 1 <= r < 0x1000_0000 && FreshRun(ca, cb, es, side, r)
    ensures var k, samples := EndOf(Run32(Start32(ca, cb), es), side).kcb, Sampled(ca, cb, es, side);
      && (forall i :: 0 <= i < |samples| ==> samples[i] >= 0)
      && k.rtt == Estimates(k.cfg, Rtt(0, 0, 200), samples)
  {
    hide Run32, UpdateAcks, Estimates, FreshRun, Sampled;
    RttIsSampled(ca, cb, es, side);
    RunSamplesFresh(ca, cb, es, side, r);
    CfgKept(ca, cb, es, side);
    var k, samples := EndOf(Run32(Start32(ca, cb), es), side).kcb, Sampled(ca, cb, es, side);
    UpdateAcksAreEstimates(k.cfg, Rtt(0, 0, 200), samples, r);
  }

  lemma CfgKept(ca: Cfg, cb: Cfg, es: seq<Event>, side: Side)
    requires Compatible(ca, cb)
    ensures ValidCfg(EndOf(Run32(Start32(ca, cb), es), side).kcb.cfg)
  {
  }
}
