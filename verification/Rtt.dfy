// The retransmission timer's estimate of the round-trip time, in 16-bit signed arithmetic
// (core/tcp_in.c, core/tcp.c), in ticks of the slow timer.
module Rtt {
  import opened SeqNum

  // The signed 16-bit number that a value becomes.
  function S16(x: int): int {
    if -0x8000 <= x < 0x8000 then x else (x + 0x8000) % 0x1_0000 - 0x8000
  }

  // pcb->sa is eight times the smoothed time, pcb->sv four times the mean deviation.
  datatype Estimate = Estimate(sa: int, sv: int, rto: int)

  // tcp_alloc: 3000 / TCP_SLOW_INTERVAL
  const FIRST := Estimate(0, 6, 6)

  const BACKOFF := [1, 2, 3, 4, 5, 6, 7, 7, 7, 7, 7, 7, 7]

  function Abs(x: int): nat {
    if x < 0 then -x else x
  }

  function Shift(x: int, n: nat): int {
    if n == 0 then x else 2 * Shift(x, n - 1)
  }

  // One measurement, as it would be without a limit to the numbers.
  function Measured(e: Estimate, m: int): Estimate {
    var err := m - e.sa / 8;
    var sa, sv := e.sa + err, e.sv + (Abs(err) - e.sv / 4);
    Estimate(sa, sv, sa / 8 + sv)
  }

  function Run(e: Estimate, samples: seq<int>): Estimate
    decreases |samples|
  {
    if samples == [] then e else Run(Measured(e, samples[0]), samples[1..])
  }

  predicate Bounded(e: Estimate, max: int) {
    0 <= e.sa <= 8 * max + 7 && 0 <= e.sv <= 4 * max + 3
  }

  lemma MeasuredBounded(e: Estimate, m: int, max: int)
    requires 1 <= max && Bounded(e, max) && 0 <= m <= max
    ensures Bounded(Measured(e, m), max) && 0 <= Measured(e, m).rto <= 5 * max + 3
  {
    assert 0 <= e.sa / 8 <= max && 0 <= e.sv / 4 <= max;
  }

  // However many measurements of at most `max` ticks there are, the estimate stays within its bounds.
  lemma {:induction false} RunBounded(e: Estimate, samples: seq<int>, max: int)
    requires 1 <= max && Bounded(e, max) && forall m | m in samples :: 0 <= m <= max
    ensures Bounded(Run(e, samples), max)
    decreases |samples|
  {
    if samples != [] {
      assert samples[0] in samples && forall m | m in samples[1..] :: m in samples;
      MeasuredBounded(e, samples[0], max);
      RunBounded(Measured(e, samples[0]), samples[1..], max);
    }
  }

  // ----- the estimate follows what is measured -----------------------------------------------

  // A measurement moves the smoothed time towards itself, and the deviation towards its own error.
  lemma MovesTowards(e: Estimate, m: int)
    requires 0 <= e.sa && 0 <= e.sv && 0 <= m
    ensures var e', err := Measured(e, m), Abs(m - e.sa / 8);
      && (e'.sa > e.sa <==> m > e.sa / 8) && (e'.sa < e.sa <==> m < e.sa / 8)
      && (e'.sv > e.sv <==> err > e.sv / 4) && (e'.sv < e.sv <==> err < e.sv / 4)
  {
  }

  // The timeout is never shorter than the round trip just measured.
  lemma CoversMeasurement(e: Estimate, m: int)
    requires 0 <= e.sa && 0 <= e.sv && 0 <= m
    ensures Measured(e, m).rto >= m
  {
    var a, v := e.sa / 8, e.sv / 4;
    var err := m - a;
    assert 0 <= a && 8 * a <= e.sa < 8 * a + 8 && 0 <= v <= e.sv;
    if err < 0 {
      assert (e.sa + err) / 8 >= a + err;
    } else {
      assert (e.sa + err) / 8 >= a;
    }
  }

  // How far the smoothed time is from a round trip of m ticks.
  function Distance(e: Estimate, m: int): nat {
    if e.sa < 8 * m then 8 * m - e.sa else if e.sa > 8 * m + 7 then e.sa - (8 * m + 7) else 0
  }

  lemma ComesCloser(e: Estimate, m: int)
    requires 0 <= m
    ensures var d, d' := Distance(e, m), Distance(Measured(e, m), m);
      if d > 0 then d' < d else d' == 0 && Measured(e, m).sv == e.sv - e.sv / 4
    ensures Distance(e, m) == 0 <==> e.sa / 8 == m
  {
    var a := e.sa / 8;
    assert 8 * a <= e.sa < 8 * a + 8;
  }

  lemma {:induction false} StaysSteady(e: Estimate, samples: seq<int>, m: int)
    requires Distance(e, m) == 0 && 0 <= m && 0 <= e.sv < |samples| + 3 && samples != []
    requires forall x | x in samples :: x == m
    ensures var e' := Run(e, samples); e'.sa / 8 == m && 0 <= e'.sv <= 3 && e'.rto == m + e'.sv
    decreases |samples|
  {
    var e' := Measured(e, m);
    assert samples[0] in samples && forall x | x in samples[1..] :: x in samples;
    ComesCloser(e, m);
    ComesCloser(e', m);
    assert e.sv > 3 ==> e.sv / 4 > 0;
    if |samples| > 1 {
      StaysSteady(e', samples[1..], m);
    }
  }

  // A steady round trip is learned: after enough measurements of m ticks the smoothed time is m, and
  // the timeout at most 3 ticks longer.
  lemma {:induction false} LearnsSteadyTime(e: Estimate, samples: seq<int>, m: int, max: int)
    requires 1 <= max && Bounded(e, max) && 0 <= m <= max && forall x | x in samples :: x == m
    requires |samples| > Distance(e, m) + 4 * max + 3
    ensures var e' := Run(e, samples); e'.sa / 8 == m && 0 <= e'.sv <= 3 && m <= e'.rto <= m + 3
    decreases |samples|
  {
    assert samples[0] in samples && forall x | x in samples[1..] :: x in samples;
    MeasuredBounded(e, m, max);
    ComesCloser(e, m);
    if Distance(e, m) == 0 {
      StaysSteady(e, samples, m);
    } else {
      LearnsSteadyTime(Measured(e, m), samples[1..], m, max);
    }
  }

  lemma {:induction false} ShiftGrows(x: nat, n: nat, k: nat)
    requires n <= k
    ensures 0 <= Shift(x, n) <= Shift(x, k)
    decreases k
  {
    if n < k { ShiftGrows(x, n, k - 1); } else if n > 0 { ShiftGrows(x, n - 1, k - 1); }
  }

  // A value of at most 255 ticks survives every back-off, and no greater one does.
  lemma BackoffFits(base: nat)
    ensures (forall n | 0 <= n < |BACKOFF| :: Shift(base, BACKOFF[n]) < 0x8000) <==> base <= 255
  {
    forall n: nat | n <= 7
      ensures Shift(base, n) <= Shift(base, 7) == 128 * base
    {
      ShiftGrows(base, n, 7);
      assert Shift(base, 1) == 2 * Shift(base, 0) && Shift(base, 2) == 2 * Shift(base, 1);
      assert Shift(base, 3) == 2 * Shift(base, 2) && Shift(base, 4) == 2 * Shift(base, 3);
      assert Shift(base, 5) == 2 * Shift(base, 4) && Shift(base, 6) == 2 * Shift(base, 5);
    }
    assert BACKOFF[12] == 7;
  }

  // With round trips of at most 50 ticks no back-off of the timeout leaves 16 signed bits.
  lemma TimeoutFits(samples: seq<int>, n: nat)
    requires n < |BACKOFF| && forall m | m in samples :: 0 <= m <= 50
    ensures var e := Run(FIRST, samples);
      0 <= Shift(e.sa / 8 + e.sv, BACKOFF[n]) < 0x8000
  {
    var e := Run(FIRST, samples);
    RunBounded(FIRST, samples, 50);
    BackoffFits(e.sa / 8 + e.sv);
    ShiftGrows(e.sa / 8 + e.sv, 0, BACKOFF[n]);
  }

  // The same in the code's 16-bit variables.
  function Measured16(e: Estimate, m: int): Estimate {
    var err := S16(S16(m) - e.sa / 8);
    var sa, sv := S16(e.sa + err), S16(e.sv + S16((if err < 0 then S16(-err) else err) - e.sv / 4));
    Estimate(sa, sv, S16(sa / 8 + sv))
  }

  // No step of a measurement of up to 4095 ticks leaves 16 signed bits.
  lemma Narrow(e: Estimate, m: int, max: int)
    requires Bounded(e, max) && 1 <= max && 8 * max + 7 < 0x8000 && 0 <= m <= max
    ensures Measured16(e, m) == Measured(e, m)
  {
    MeasuredBounded(e, m, max);
    assert 0 <= e.sa / 8 <= max && 0 <= e.sv / 4 <= max;
  }

  lemma MeasuresRight(e: Estimate, m: int)
    ensures forall max: int | Bounded(e, max) && 1 <= max && 8 * max + 7 < 0x8000 && 0 <= m <= max ::
      Measured16(e, m) == Measured(e, m) && Bounded(Measured(e, m), max)
  {
    forall max: int | Bounded(e, max) && 1 <= max && 8 * max + 7 < 0x8000 && 0 <= m <= max
      ensures Measured16(e, m) == Measured(e, m) && Bounded(Measured(e, m), max)
    {
      Narrow(e, m, max);
      MeasuredBounded(e, m, max);
    }
  }

  // pcb->rttest and pcb->rtseq: the segment that is timed, and since which tick; none is while that is 0.
  datatype Timing = Timing(since: u32, at: int)

  function Started(t: Timing, now: u32, at: int): Timing {
    if t.since == 0 then Timing(now, at) else t
  }

  function Stopped(t: Timing): Timing {
    t.(since := 0)
  }

  // The acknowledgement number is beyond the start of the segment that is timed.
  predicate Answers(t: Timing, ackno: u32) {
    t.since != 0 && SeqLt(Wrap(t.at), ackno)
  }

  class RttEstimator {
    var sa: int
    var sv: int
    var rto: int
    var rttest: u32
    var rtseq: u32

    function State(): Estimate
      reads this
    {
      Estimate(sa, sv, rto)
    }

    predicate Times(t: Timing)
      reads `rttest, `rtseq
    {
      rttest == t.since && rtseq == Wrap(t.at)
    }

    constructor ()
      ensures State() == FIRST && rttest == 0
    {
      sa, sv, rto := 0, 6, 6;
      rttest, rtseq := 0, 0;
    }

    // tcp_output_segment: the segment is timed if none is.
    method OutputSegment(seqno: u32, ticks: u32, ghost at: int, ghost t: Timing)
      requires Times(t) && seqno == Wrap(at)
      modifies `rttest, `rtseq
      ensures Times(Started(t, ticks, at))
    {
      if rttest == 0 {
        rttest, rtseq := ticks, seqno;
      }
    }

    // tcp_rexmit_rto, before it calls tcp_output
    method RexmitRto(ghost t: Timing)
      requires Times(t)
      modifies `rttest
      ensures Times(Stopped(t))
    {
      rttest := 0;
    }

    // The assignments, each to a 16-bit variable.
    method Update(elapsed: u32)
      modifies `sa, `sv, `rto
      ensures State() == Measured16(old(State()), elapsed)
    {
      ghost var e' := Measured16(State(), elapsed);
      var m := S16(elapsed);
      m := S16(m - sa / 8);
      ghost var err := m;
      sa := S16(sa + m);
      assert sa == e'.sa;
      if m < 0 {
        m := S16(-m);
      }
      assert m == if err < 0 then S16(-err) else err;
      m := S16(m - sv / 4);
      sv := S16(sv + m);
      assert sv == e'.sv;
      rto := S16(sa / 8 + sv);
    }

    // tcp_receive: an acknowledgement that covers the start of the timed segment measures it.
    method Measure(ackno: u32, ticks: u32, ghost t: Timing)
      requires Times(t)
      modifies this
      ensures !Answers(t, ackno) ==> State() == old(State()) && Times(t)
      ensures Answers(t, ackno) ==> Times(Stopped(t))
      ensures Answers(t, ackno) ==>
        var e, m := old(State()), Wrap(ticks - t.since);
        && State() == Measured16(e, m)
        && forall max: int | Bounded(e, max) && 1 <= max && 8 * max + 7 < 0x8000 && m <= max ::
             State() == Measured(e, m) && Bounded(State(), max)
    {
      if rttest != 0 && SeqLt(rtseq, ackno) {
        var elapsed := Wrap(ticks - rttest);
        MeasuresRight(State(), elapsed);
        Update(elapsed);
        rttest := 0;
      }
    }

    // tcp_slowtmr: the n-th retransmission of a segment backs off.
    method BackOff(nrtx: nat)
      requires Bounded(State(), 50) && nrtx < |BACKOFF|
      modifies this`rto
      ensures rto == Shift(sa / 8 + sv, BACKOFF[nrtx]) >= sa / 8 + sv
    {
      BackoffFits(sa / 8 + sv);
      ShiftGrows(sa / 8 + sv, 0, BACKOFF[nrtx]);
      rto := S16(Shift(sa / 8 + sv, BACKOFF[nrtx]));
    }
  }
}
