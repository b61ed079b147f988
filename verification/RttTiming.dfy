// Which round trips are measured.  The code means not to measure one after a retransmission
// (core/tcp_out.c, tcp_rexmit_rto); what it does measure is stated here for every run.
module RttTiming {
  import opened SeqNum
  import opened SendQueue
  import opened SendRuns
  import opened Conservation
  import opened Rtt

  // A send side, what it times, the slow timer's tick, and all segments transmitted so far.
  datatype Conn = Conn(side: Side, timing: Timing, now: u32, wire: seq<Tx>)

  // tcp_output_segment, for each segment in turn.
  function StartedBy(t: Timing, now: u32, sent: seq<Tx>): Timing
    decreases |sent|
  {
    if sent == [] then t else StartedBy(Started(t, now, sent[0].at), now, sent[1..])
  }

  // A timeout that requeues stops the timing before it retransmits.
  predicate Stops(c: Conn, ev: Event) {
    !c.side.down && ev.Timeout? && Expires(c.side, ev.wnd)
  }

  // What is timed once the segments of an event are out, and before its acknowledgement is looked at.
  function Timed(c: Conn, ev: Event): Timing {
    StartedBy(if Stops(c, ev) then Stopped(c.timing) else c.timing, c.now, Transmitted(c.side, ev))
  }

  // The event brings a measurement.
  predicate Measures(c: Conn, ev: Event) {
    !c.side.down && ev.Ack? && Answers(Timed(c, ev), ev.ackno)
  }

  // Time may pass before the next event.
  ghost predicate Step(c: Conn, ev: Event, c': Conn)
    requires 0 < c.side.mss && 0 <= c.side.st.oversize
  {
    && Next(c.side, ev, c'.side)
    && c'.timing == (if Measures(c, ev) then Stopped(Timed(c, ev)) else Timed(c, ev))
    && c'.wire == c.wire + Transmitted(c.side, ev)
  }

  // How often the segment that starts at x has been transmitted.
  function Times(wire: seq<Tx>, x: int): nat {
    if wire == [] then 0 else (if wire[0].at == x then 1 else 0) + Times(wire[1..], x)
  }

  lemma {:induction false} TimesConcat(a: seq<Tx>, b: seq<Tx>, x: int)
    ensures Times(a + b, x) == Times(a, x) + Times(b, x)
    decreases |a|
  {
    if a == [] {
      assert a + b == b;
    } else {
      assert (a + b)[1..] == a[1..] + b;
      TimesConcat(a[1..], b, x);
    }
  }

  lemma {:induction false} TimesNone(q: seq<Tx>, x: int)
    requires forall z | z in q :: z.at != x
    ensures Times(q, x) == 0
    decreases |q|
  {
    if q != [] {
      assert q[0] in q && forall z | z in q[1..] :: z in q;
      TimesNone(q[1..], x);
    }
  }

  lemma {:induction false} TimesSome(q: seq<Tx>, z: Tx)
    requires z in q
    ensures 1 <= Times(q, z.at)
    decreases |q|
  {
    if q[0] != z { TimesSome(q[1..], z); }
  }

  // Everything on the wire lies below snd_nxt, everything queued below it has been sent, and what is
  // timed has been, and is not waiting to be sent again.
  ghost predicate Inv(c: Conn) {
    match c
    case Conn(side, timing, now, wire) =>
      && Conserved(side.st)
      && (forall z | z in wire :: z.at < side.st.nxt)
      && (forall q | q in side.st.unacked + side.st.unsent && q.at < side.st.nxt :: 1 <= Times(wire, q.at))
      && (timing.since != 0 ==>
            && timing.at < side.st.nxt && 1 <= Times(wire, timing.at)
            && forall q | q in side.st.unsent :: timing.at < q.at)
  }

  // The timed segment has been transmitted just once before the acknowledgement is looked at.
  predicate Once(c: Conn, ev: Event) {
    Times(c.wire + Transmitted(c.side, ev), Timed(c, ev).at) == 1
  }

  // The fast retransmission of the segment that is timed.
  predicate Resent(c: Conn, ev: Event) {
    && !c.side.down && ev.Ack? && FastRetransmits(c.side, ev.ackno, ev.plain)
    && c.side.st.unacked != [] && c.side.st.unacked[0].at == c.timing.at
  }

  // Whether it has, where `before` says whether it had been: timing goes on until the very segment is
  // sent again by a fast retransmit; and only in tcp_output does it begin with a new segment, when the
  // first one to be sent is at snd_nxt.
  predicate Clean(c: Conn, ev: Event, before: bool) {
    if c.timing.since != 0 && !Stops(c, ev) then before && !Resent(c, ev)
    else ev.Send? && c.side.st.unsent != [] && c.side.st.unsent[0].at == c.side.st.nxt
  }

  // ----- one event ---------------------------------------------------------------------------

  lemma {:induction false} StartedByFirst(t: Timing, now: u32, sent: seq<Tx>)
    ensures t.since != 0 ==> StartedBy(t, now, sent) == t
    ensures t.since == 0 && StartedBy(t, now, sent).since != 0 ==>
      sent != [] && StartedBy(t, now, sent) == Timing(now, sent[0].at)
    decreases |sent|
  {
    if sent != [] { StartedByFirst(Started(t, now, sent[0].at), now, sent[1..]); }
  }

  lemma TimesFirst(q: seq<Tx>)
    requires Apart(q) && q != []
    ensures Times(q, q[0].at) == 1
  {
    var rest := q[1..];
    forall z | z in rest ensures z.at != q[0].at {
      var j :| 0 <= j < |rest| && rest[j] == z;
      assert q[j + 1] == z && Behind(q[j + 1], q[0]);
    }
    TimesNone(rest, q[0].at);
  }

  // What an event transmits: a stretch of the queues, from the first unsent segment on, or from the
  // first of all.
  lemma BatchOf(c: Side, ev: Event, sent: seq<Tx>)
    requires Conserved(c.st) && sent == Transmitted(c, ev) && sent != []
    ensures !c.down && Apart(sent)
    ensures match ev
      case Send(_) => sent <= c.st.unsent
      case Timeout(wnd) => Expires(c, wnd) && sent <= c.st.unacked + c.st.unsent
      case Ack(ackno, plain) => FastRetransmits(c, ackno, plain) && c.st.unacked != [] && sent == [c.st.unacked[0]]
      case _ => false
  {
    var q, n := c.st.unacked + c.st.unsent, |c.st.unacked|;
    QueuesApart(c.st);
    match ev
    case Send(wnd) =>
      var k := Fitting(c.st.unsent, c.st.una, wnd);
      ApartPart(q, n, n + k, sent);
    case Timeout(wnd) =>
      ApartPart(q, 0, |sent|, sent);
    case _ =>
  }

  // From a state in which nothing is timed.
  lemma BeginsOnce(c: Conn, ev: Event)
    requires Inv(c) && 0 < c.side.mss && Timed(c, ev).since != 0 && (c.timing.since == 0 || Stops(c, ev))
    ensures Once(c, ev) <==> Clean(c, ev, false)
    ensures Transmitted(c.side, ev) != [] && Timed(c, ev).at == Transmitted(c.side, ev)[0].at
  {
    var sent, st := Transmitted(c.side, ev), c.side.st;
    StartedByFirst(if Stops(c, ev) then Stopped(c.timing) else c.timing, c.now, sent);
    BatchOf(c.side, ev, sent);
    TimesConcat(c.wire, sent, sent[0].at);
    TimesFirst(sent);
    QueuesApart(st);
    if ev.Send? {
      assert sent[0] == st.unsent[0] && st.unsent[0] in st.unacked + st.unsent;
      if st.unsent[0].at == st.nxt { TimesNone(c.wire, sent[0].at); }
    } else {
      assert sent[0] == st.unacked[0] && st.unacked[0] in st.unacked && st.unacked[0] in st.unacked + st.unsent;
    }
  }

  lemma GoesOnOnce(c: Conn, ev: Event)
    requires Inv(c) && 0 < c.side.mss && c.timing.since != 0 && !Stops(c, ev)
    ensures Timed(c, ev) == c.timing
    ensures Once(c, ev) <==> Clean(c, ev, Times(c.wire, c.timing.at) == 1)
  {
    var sent, at := Transmitted(c.side, ev), c.timing.at;
    StartedByFirst(c.timing, c.now, sent);
    TimesConcat(c.wire, sent, at);
    if sent != [] {
      BatchOf(c.side, ev, sent);
      if ev.Send? {
        assert forall z | z in sent :: z in c.side.st.unsent;
        TimesNone(sent, at);
      } else {
        assert sent[1..] == [];
      }
    }
  }

  // What is timed has been transmitted just once exactly under that condition.
  lemma StepOnce(c: Conn, ev: Event)
    requires Inv(c) && 0 < c.side.mss && Timed(c, ev).since != 0
    ensures Once(c, ev) <==> Clean(c, ev, Times(c.wire, c.timing.at) == 1)
  {
    if c.timing.since == 0 || Stops(c, ev) {
      BeginsOnce(c, ev);
    } else {
      GoesOnOnce(c, ev);
    }
  }

  // ----- every run ---------------------------------------------------------------------------

  // Everything queued below snd_nxt has been sent.
  ghost predicate AllSent(st: Snd, wire: seq<Tx>) {
    forall q | q in st.unacked + st.unsent && q.at < st.nxt :: 1 <= Times(wire, q.at)
  }

  lemma SentMore(st: Snd, wire: seq<Tx>, sent: seq<Tx>)
    requires AllSent(st, wire)
    ensures AllSent(st, wire + sent)
  {
    forall q | q in st.unacked + st.unsent && q.at < st.nxt ensures 1 <= Times(wire + sent, q.at) {
      TimesConcat(wire, sent, q.at);
    }
  }

  lemma BelowTheLast(a: seq<Tx>, b: seq<Tx>, k: nat, nxt: int, x: Tx)
    requires Apart(a + b) && (forall z | z in a :: z.at < nxt) && 0 < k <= |b|
    requires x in a + b && nxt <= x.at < b[k - 1].End()
    ensures x in b[..k]
  {
    var i :| 0 <= i < |a + b| && (a + b)[i] == x;
    assert |a| <= i;
    assert (a + b)[|a| + k - 1] == b[k - 1];
    assert x == b[..k][i - |a|];
  }

  lemma OutputAllSent(st: Snd, wnd: int, wire: seq<Tx>)
    requires Conserved(st) && AllSent(st, wire)
    ensures AllSent(Output(st, wnd), wire + st.unsent[..Fitting(st.unsent, st.una, wnd)])
  {
    var k := Fitting(st.unsent, st.una, wnd);
    var sent, st' := st.unsent[..k], Output(st, wnd);
    QueuesApart(st);
    SentMore(st, wire, sent);
    BoundaryMoved(st.unacked, st.unsent, k);
    assert forall z | z in st.unacked :: z in st.unacked + st.unsent;
    forall x | x in st.unacked + st.unsent && st.nxt <= x.at < st'.nxt ensures 1 <= Times(wire + sent, x.at) {
      BelowTheLast(st.unacked, st.unsent, k, st.nxt, x);
      TimesSome(sent, x);
      TimesConcat(wire, sent, x.at);
    }
  }

  // The last segment of a queue grows, and others follow it.
  lemma GrownPlaces(init: seq<Tx>, last: Tx, added: seq<Tx>, s: Stream, s': Stream, from: int, x: Tx)
    requires SendQueue.Carries(init + [last], s, from) && SendQueue.Carries(init + added, s', from)
    requires added != [] && |last.data| <= |added[0].data| && x in init + added
    ensures s.End() <= x.at || x in init || x.at == last.at
  {
    CarriesSplit(init, [last], s, from);
    CarriesSplit(init, added, s', from);
    CarriesAll([last], s, LastEnd(init, from));
    CarriesAll(added[1..], s', added[0].End());
    assert added == [added[0]] + added[1..];
  }

  lemma WrittenGrows(st: Snd, bytes: seq<byte>, mss: u16, st': Snd)
    requires Conserved(st) && 0 < mss && Written(st, bytes, mss, st') && st.unsent != []
    ensures var added := st'.unsent[|Init(st.unsent)|..];
      added != [] && |Tail(st.unsent)| <= |added[0].data|
  {
    QueuesApart(st);
    PayloadIn(st'.unsent[|Init(st.unsent)|..]);
    var last := st.unsent[|st.unsent| - 1];
    assert last in st.unacked + st.unsent && Tail(st.unsent) != [];
  }

  // A write changes no place of a segment, and new segments begin at the end of the stream.
  lemma WrittenPlaces(st: Snd, bytes: seq<byte>, mss: u16, st': Snd, x: Tx)
    requires Conserved(st) && 0 < mss && Written(st, bytes, mss, st') && x in st'.unsent
    ensures st.stream.End() <= x.at || x in Init(st.unsent)
      || (st.unsent != [] && x.at == st.unsent[|st.unsent| - 1].at)
  {
    var s, init, from := st.stream, Init(st.unsent), First(st.unsent, st.stream);
    if st.unsent == [] {
      CarriesAll(st'.unsent, st'.stream, from);
    } else {
      var last, added := st.unsent[|init|], st'.unsent[|init|..];
      WrittenGrows(st, bytes, mss, st');
      CarriesSplit(st.unacked, st.unsent, s, First(st.unacked + st.unsent, s));
      assert st.unsent == init + [last] && st'.unsent == init + added;
      GrownPlaces(init, last, added, s, st'.stream, from, x);
    }
  }

  lemma AckLeaves(st: Snd, ackno: u32)
    ensures var st' := Acknowledge(st, ackno);
      && st'.nxt == st.nxt && (forall x | x in st'.unsent :: x in st.unsent)
      && forall x | x in st'.unacked :: x in st.unacked
  {
    DropAckedPart(st.unacked, Position(st, ackno));
    DropUnsentPart(st.unsent, st, Position(st, ackno));
  }

  lemma StepAllSent(c: Conn, ev: Event, c': Conn)
    requires Inv(c) && 0 < c.side.mss && Step(c, ev, c')
    ensures AllSent(c'.side.st, c'.wire)
  {
    var st, st', sent := c.side.st, c'.side.st, Transmitted(c.side, ev);
    assert AllSent(st, c.wire);
    SentMore(st, c.wire, sent);
    if !c.side.down {
      match ev
      case Send(wnd) => OutputAllSent(st, wnd, c.wire);
      case Timeout(wnd) => RequeueInv(st, 1); if Stops(c, ev) { OutputAllSent(Requeue(st), wnd, c.wire); }
      case Ack(ackno, _) => AckLeaves(st, ackno);
      case Write(bytes) =>
        if st' != st {
          forall x | x in st'.unsent && x.at < st'.nxt ensures 1 <= Times(c'.wire, x.at) {
            WrittenPlaces(st, bytes, c.side.mss, st', x);
            var y := if x in Init(st.unsent) then x else st.unsent[|st.unsent| - 1];
            assert y in st.unsent && y in st.unacked + st.unsent;
          }
        }
      case SetMss(_) =>
    }
  }

  lemma StepWire(c: Conn, ev: Event, c': Conn)
    requires Inv(c) && 0 < c.side.mss && Step(c, ev, c')
    ensures forall z | z in c'.wire :: z.at < c'.side.st.nxt
  {
    StepConserves(c.side, ev, c'.side);
    forall z | z in c'.wire ensures z.at < c'.side.st.nxt {
      if z in Transmitted(c.side, ev) {
        WireCarriesTheStream(c.side, ev, z);
        WireBelowNext(c.side, ev, c'.side, z);
      }
    }
  }

  // What is timed lies before everything that waits to be sent.
  ghost predicate Ahead(at: int, q: seq<Tx>) {
    forall x | x in q :: at < x.at
  }

  lemma GoesOnAhead(c: Conn, ev: Event, c': Conn)
    requires Inv(c) && 0 < c.side.mss && Step(c, ev, c') && c.timing.since != 0 && !Stops(c, ev)
    ensures Ahead(c.timing.at, c'.side.st.unsent)
  {
    var st, st', at := c.side.st, c'.side.st, c.timing.at;
    if !c.side.down {
      match ev
      case Ack(ackno, _) => AckLeaves(st, ackno);
      case Write(bytes) =>
        if st' != st {
          forall x | x in st'.unsent ensures at < x.at {
            WrittenPlaces(st, bytes, c.side.mss, st', x);
            assert x in Init(st.unsent) ==> x in st.unsent;
          }
        }
      case _ =>
    }
  }

  lemma ApartAhead(q: seq<Tx>, k: nat)
    requires Apart(q) && 0 < k <= |q|
    ensures Ahead(q[0].at, q[k..])
  {
  }

  lemma UnackedAhead(st: Snd)
    requires Conserved(st) && st.unacked != []
    ensures Ahead(st.unacked[0].at, st.unsent)
  {
    var q := st.unacked + st.unsent;
    QueuesApart(st);
    ApartAhead(q, |st.unacked|);
    assert q[|st.unacked|..] == st.unsent && q[0] == st.unacked[0];
  }

  lemma OutputAhead(st: Snd, wnd: int)
    requires Conserved(st) && 0 < Fitting(st.unsent, st.una, wnd)
    ensures Ahead(st.unsent[0].at, Output(st, wnd).unsent)
  {
    var q, n := st.unacked + st.unsent, |st.unacked|;
    QueuesApart(st);
    ApartPart(q, n, |q|, st.unsent);
    ApartAhead(st.unsent, Fitting(st.unsent, st.una, wnd));
  }

  lemma BeginsAhead(c: Conn, ev: Event, c': Conn)
    requires Inv(c) && 0 < c.side.mss && Step(c, ev, c') && Transmitted(c.side, ev) != []
    ensures Ahead(Transmitted(c.side, ev)[0].at, c'.side.st.unsent)
  {
    var st := c.side.st;
    match ev
    case Send(wnd) => OutputAhead(st, wnd);
    case Timeout(wnd) => RequeueInv(st, 1); OutputAhead(Requeue(st), wnd);
    case Ack(ackno, _) => UnackedAhead(st); AckLeaves(st, ackno);
    case _ =>
  }

  lemma StepTiming(c: Conn, ev: Event, c': Conn)
    requires Inv(c) && 0 < c.side.mss && Step(c, ev, c') && c'.timing.since != 0
    ensures var at := c'.timing.at;
      at < c'.side.st.nxt && 1 <= Times(c'.wire, at) && Ahead(at, c'.side.st.unsent)
  {
    StepWire(c, ev, c');
    StepConserves(c.side, ev, c'.side);
    if c.timing.since != 0 && !Stops(c, ev) {
      GoesOnOnce(c, ev);
      GoesOnAhead(c, ev, c');
      TimesConcat(c.wire, Transmitted(c.side, ev), c.timing.at);
    } else {
      BeginsOnce(c, ev);
      BeginsAhead(c, ev, c');
      TimesSome(c'.wire, Transmitted(c.side, ev)[0]);
    }
  }

  lemma StepInv(c: Conn, ev: Event, c': Conn)
    requires Inv(c) && 0 < c.side.mss && Step(c, ev, c') && Conserved(c'.side.st)
    ensures Inv(c')
  {
    StepWire(c, ev, c');
    StepAllSent(c, ev, c');
    if c'.timing.since != 0 { StepTiming(c, ev, c'); }
  }

  ghost predicate Run(run: seq<Conn>, evs: seq<Event>) {
    && |run| == |evs| + 1
    && (forall c | c in run :: 0 < c.side.mss && Conserved(c.side.st))
    && forall i | 0 <= i < |evs| :: Step(run[i], evs[i], run[i + 1])
  }

  // Whether what is timed at event n has been transmitted only once, told from the events alone.
  predicate CleanAt(run: seq<Conn>, evs: seq<Event>, n: nat)
    requires n < |evs| < |run|
    decreases n
  {
    Clean(run[n], evs[n], n > 0 && CleanAt(run, evs, n - 1))
  }

  lemma {:induction false} RunInv(run: seq<Conn>, evs: seq<Event>, n: nat)
    requires Run(run, evs) && n < |run| && Inv(run[0])
    ensures Inv(run[n])
    decreases n
  {
    if n > 0 {
      assert run[n - 1] in run && run[n] in run;
      RunInv(run, evs, n - 1);
      StepInv(run[n - 1], evs[n - 1], run[n]);
    }
  }

  // Over every run that starts with nothing timed, the round trip that an acknowledgement measures is
  // that of a segment transmitted only once exactly when the timing began in tcp_output with a segment
  // at snd_nxt and no fast retransmit has sent that very segment again.
  lemma {:induction false} MeasuresOnce(run: seq<Conn>, evs: seq<Event>, n: nat)
    requires Run(run, evs) && n < |evs| && Inv(run[0]) && run[0].timing.since == 0
    requires Timed(run[n], evs[n]).since != 0
    ensures Once(run[n], evs[n]) <==> CleanAt(run, evs, n)
    decreases n
  {
    RunInv(run, evs, n);
    StepOnce(run[n], evs[n]);
    if run[n].timing.since != 0 {
      assert run[n].timing == Timed(run[n - 1], evs[n - 1]);
      MeasuresOnce(run, evs, n - 1);
    }
  }

  lemma AnswersBeyond(st: Snd, t: Timing, ackno: u32)
    requires t.since != 0 && st.una - 0xffff <= t.at <= st.una < Position(st, ackno)
    requires Position(st, ackno) <= st.nxt <= st.una + TCP_SND_BUF
    ensures Answers(t, ackno)
  {
    Located(st.una, ackno);
    DiffWrap(t.at, Position(st, ackno));
  }

  lemma TimeoutBegins(c: Conn, wnd: int)
    requires Inv(c) && !c.side.down && c.now != 0 && Expires(c.side, wnd)
    requires c.side.st.unacked[0].End() - c.side.st.una <= wnd
    ensures Timed(c, Timeout(wnd)) == Timing(c.now, c.side.st.unacked[0].at)
    ensures Transmitted(c.side, Timeout(wnd)) != []
    ensures TimedOut(c.side, wnd).st.una == c.side.st.una && !TimedOut(c.side, wnd).down
  {
    var sent := Transmitted(c.side, Timeout(wnd));
    assert sent != [] && sent[0] == c.side.st.unacked[0] by { RequeueInv(c.side.st, 1); }
    StartedByFirst(Started(Stopped(c.timing), c.now, sent[0].at), c.now, sent[1..]);
  }

  // So the intent is missed whenever a timeout retransmits: the timing starts again with the segment
  // that is sent again, and the next acknowledgement of anything new measures it.
  lemma TimeoutTimesAgain(c: Conn, wnd: int, c': Conn, ackno: u32)
    requires Inv(c) && 0 < c.side.mss && !c.side.down && c.now != 0 && Step(c, Timeout(wnd), c')
    requires Expires(c.side, wnd) && c.side.st.unacked[0].End() - c.side.st.una <= wnd
    requires c'.side.st.una < Position(c'.side.st, ackno) <= c'.side.st.nxt
    ensures c'.timing == Timing(c.now, c.side.st.unacked[0].at) && 2 <= Times(c'.wire, c'.timing.at)
    ensures Measures(c', Ack(ackno, true))
  {
    var ev, st' := Timeout(wnd), c'.side.st;
    TimeoutBegins(c, wnd);
    BeginsOnce(c, ev);
    StepConserves(c.side, ev, c'.side);
    StepInv(c, ev, c');
    assert c.side.st.una - 0xffff <= c.side.st.unacked[0].at <= c.side.st.una by {
      var q := c.side.st.unacked + c.side.st.unsent;
      assert q[0] == c.side.st.unacked[0] && q[0] in q;
    }
    AnswersBeyond(st', c'.timing, ackno);
    StartedByFirst(c'.timing, c'.now, Transmitted(c'.side, Ack(ackno, true)));
  }
}
