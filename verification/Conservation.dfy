// What every run of the send side conserves, and what that says about this fork's changes to
// tcp_output and to fast retransmit.
module Conservation {
  import opened SeqNum
  import opened SendQueue
  import opened SendRuns

  // ----- one connection's send side ----------------------------------------------------------

  // Besides the queues: the current mss_local, whether the retransmission timer runs (rtime >= 0), the
  // duplicate ACKs counted, and whether a segment that is not there has been handed to
  // tcp_output_segment.
  datatype Side = Side(st: Snd, mss: u16, timer: bool, dupacks: nat, down: bool)

  datatype Event =
    | Write(bytes: seq<byte>)             // tcp_write, which may fail
    | Send(wnd: int)                      // tcp_output
    | Ack(ackno: u32, plain: bool)        // tcp_receive; `plain`: no text, and the window is unchanged
    | Timeout(wnd: int)                   // the retransmission timer of tcp_slowtmr expires
    | SetMss(mss: u16)                    // tcp_parseopt, or a larger window than ever before

  function Sent(c: Side, wnd: int): Side {
    c.(st := Output(c.st, wnd), timer := c.timer || 0 < Fitting(c.st.unsent, c.st.una, wnd))
  }

  // The five tests for a duplicate ACK.
  predicate Duplicate(c: Side, ackno: u32, plain: bool) {
    plain && c.timer && Position(c.st, ackno) == c.st.una
  }

  predicate FastRetransmits(c: Side, ackno: u32, plain: bool) {
    Duplicate(c, ackno, plain) && c.dupacks == 2
  }

  function Acked(c: Side, ackno: u32, plain: bool): Side {
    var a, st := Position(c.st, ackno), Acknowledge(c.st, ackno);
    if a <= c.st.una then
      c.(st := st, dupacks := if Duplicate(c, ackno, plain) then Min(c.dupacks + 1, 255) else 0,
         down := c.down || (FastRetransmits(c, ackno, plain) && c.st.unacked == []))
    else if a <= c.st.nxt then c.(st := st, dupacks := 0, timer := st.unacked != [])
    else c.(st := st)
  }

  // While the window is closed the persist timer runs in place of this one.
  predicate Expires(c: Side, wnd: int) {
    c.st.unacked != [] && c.timer && 0 < wnd
  }

  function TimedOut(c: Side, wnd: int): Side {
    if Expires(c, wnd) then Sent(c.(st := Requeue(c.st)), wnd) else c
  }

  ghost predicate Next(c: Side, ev: Event, c': Side)
    requires 0 < c.mss && 0 <= c.st.oversize
  {
    if c.down then c' == c
    else match ev
      case Write(bytes) => c' == c || (c' == c.(st := c'.st) && Written(c.st, bytes, c.mss, c'.st))
      case Send(wnd) => c' == Sent(c, wnd)
      case Ack(ackno, plain) => c' == Acked(c, ackno, plain)
      case Timeout(wnd) => c' == TimedOut(c, wnd)
      case SetMss(mss) => c' == c.(mss := mss) && 0 < mss
  }

  ghost predicate Trace(run: seq<Side>, evs: seq<Event>) {
    && |run| == |evs| + 1
    && (forall i | 0 <= i < |run| :: 0 < run[i].mss && 0 <= run[i].st.oversize)
    && forall i | 0 <= i < |evs| :: Next(run[i], evs[i], run[i + 1])
  }

  // ----- what every run conserves ------------------------------------------------------------

  ghost predicate Held(c: Side) {
    !c.down && Conserved(c.st)
  }

  ghost predicate Good(c: Side) {
    !c.down && Inv(c.st, c.mss)
  }

  // An ACK from half the sequence space away that the signed comparisons misread.
  predicate Misread(st: Snd, ev: Event) {
    ev.Ack? && st.unsent != [] && Opposite(st, st.unsent[0], Position(st, ev.ackno))
  }

  // Fast retransmit with nothing unacknowledged: the code does not look.
  predicate NullSegment(c: Side, ev: Event) {
    !c.down && ev.Ack? && FastRetransmits(c, ev.ackno, ev.plain) && c.st.unacked == []
  }

  // The stream starts where it did and only grows, and neither snd_una nor snd_nxt moves back.
  predicate Advances(st: Snd, st': Snd) {
    && st'.stream.base == st.stream.base && st.stream.bytes <= st'.stream.bytes
    && st.una <= st'.una && st.nxt <= st'.nxt
  }

  lemma SendConserves(c: Side, wnd: int)
    requires Conserved(c.st)
    ensures Conserved(Sent(c, wnd).st) && Sent(c, wnd).down == c.down && Advances(c.st, Sent(c, wnd).st)
  {
    OutputInv(c.st, 1, wnd);
  }

  lemma TimeoutConserves(c: Side, wnd: int)
    requires Conserved(c.st)
    ensures Conserved(TimedOut(c, wnd).st) && TimedOut(c, wnd).down == c.down && Advances(c.st, TimedOut(c, wnd).st)
  {
    RequeueInv(c.st, 1);
    SendConserves(c.(st := Requeue(c.st)), wnd);
  }

  lemma AckConserves(c: Side, ackno: u32, plain: bool)
    requires Conserved(c.st) && !c.down
    ensures var c' := Acked(c, ackno, plain);
      && (Conserved(c'.st) <==> !Misread(c.st, Ack(ackno, plain)))
      && (c'.down <==> NullSegment(c, Ack(ackno, plain)))
      && Advances(c.st, c'.st)
  {
    AcknowledgeInv(c.st, 1, ackno);
  }

  lemma StepConserves(c: Side, ev: Event, c': Side)
    requires 0 < c.mss && Conserved(c.st) && Next(c, ev, c')
    ensures Conserved(c'.st) <==> c.down || !Misread(c.st, ev)
    ensures c'.down <==> c.down || NullSegment(c, ev)
    ensures c'.st.stream.base == c.st.stream.base && c.st.stream.bytes <= c'.st.stream.bytes
    ensures c.st.una <= c'.st.una && c.st.nxt <= c'.st.nxt
  {
    if !c.down {
      match ev
      case Write(bytes) => if c' != c { WrittenInv(c.st, bytes, c.mss, c'.st); }
      case Send(wnd) => SendConserves(c, wnd);
      case Ack(ackno, plain) => AckConserves(c, ackno, plain);
      case Timeout(wnd) => TimeoutConserves(c, wnd);
      case SetMss(mss) =>
    }
  }

  // In every interleaving the two queues together hold exactly the unacknowledged stream, in one
  // piece, with the accounts right, whatever maximum segment sizes the peer announces, as long as
  // and exactly when no ACK is misread and no fast retransmit finds nothing to send.
  lemma {:induction false} QueuesConserve(run: seq<Side>, evs: seq<Event>)
    requires Trace(run, evs) && Held(run[0])
    ensures (forall c | c in run :: Held(c))
       <==> (forall i | 0 <= i < |evs| :: !Misread(run[i].st, evs[i]) && !NullSegment(run[i], evs[i]))
    decreases |evs|
  {
    if evs != [] {
      StepConserves(run[0], evs[0], run[1]);
      assert run == [run[0]] + run[1..];
      if Held(run[1]) {
        QueuesConserve(run[1..], evs[1..]);
        assert forall i | 0 < i < |evs| :: run[i] == run[1..][i - 1] && evs[i] == evs[1..][i - 1];
      } else {
        assert run[1] in run;
      }
    }
  }

  // ----- segments within mss_local -----------------------------------------------------------

  // A maximum segment size is announced that something queued, or the room behind the last
  // segment, exceeds.
  ghost predicate Outgrown(c: Side, ev: Event) {
    ev.SetMss? && !Roomy(c.st, ev.mss)
  }

  lemma StepRoomy(c: Side, ev: Event, c': Side)
    requires 0 < c.mss && Good(c) && Next(c, ev, c') && Held(c')
    ensures Good(c') <==> !Outgrown(c, ev)
  {
    match ev
    case Write(bytes) => if c' != c { WrittenInv(c.st, bytes, c.mss, c'.st); }
    case Send(wnd) => OutputInv(c.st, c.mss, wnd);
    case Ack(ackno, plain) => AcknowledgeInv(c.st, c.mss, ackno);
    case Timeout(wnd) => RequeueInv(c.st, c.mss); OutputInv(Requeue(c.st), c.mss, wnd);
    case SetMss(mss) =>
  }

  // No segment is longer than mss_local as long as and exactly when that never shrinks below what is
  // queued.
  lemma {:induction false} SizesKept(run: seq<Side>, evs: seq<Event>)
    requires Trace(run, evs) && Good(run[0]) && forall c | c in run :: Held(c)
    ensures (forall c | c in run :: Good(c)) <==> (forall i | 0 <= i < |evs| :: !Outgrown(run[i], evs[i]))
    decreases |evs|
  {
    if evs != [] {
      assert run[1] in run;
      StepRoomy(run[0], evs[0], run[1]);
      assert run == [run[0]] + run[1..];
      if Good(run[1]) {
        SizesKept(run[1..], evs[1..]);
        assert forall i | 0 < i < |evs| :: run[i] == run[1..][i - 1] && evs[i] == evs[1..][i - 1];
      }
    }
  }

  // Then a write makes the last segment longer still: the room it computes has wrapped.
  lemma OutgrownGrows(tail: nat, len: nat, mss: u16)
    requires mss < tail && tail + len <= 0xffff
    ensures Growth(tail, 0, len, mss) == len
  {
  }

  // ----- the retransmission timer ------------------------------------------------------------

  predicate Timed(c: Side) {
    c.timer <==> c.st.unacked != []
  }

  // The timer expires, everything is requeued, and the window does not let the first segment go.
  predicate Stalled(c: Side, ev: Event) {
    && !c.down && ev.Timeout? && Expires(c, ev.wnd)
    && ev.wnd < c.st.unacked[0].End() - c.st.una
  }

  // The timer runs just while something is unacknowledged, until a timeout leaves it running over
  // an empty queue.
  lemma TimerStep(c: Side, ev: Event, c': Side)
    requires 0 < c.mss && 0 <= c.st.oversize && Timed(c) && Next(c, ev, c')
    ensures Timed(c') <==> !Stalled(c, ev)
    ensures !NullSegment(c, ev)
  {
  }

  // No fast retransmit is ever called with nothing unacknowledged, unless after such a timeout.
  lemma {:induction false} NeverNull(run: seq<Side>, evs: seq<Event>)
    requires Trace(run, evs) && Timed(run[0]) && forall i | 0 <= i < |evs| :: !Stalled(run[i], evs[i])
    ensures forall i | 0 <= i < |evs| :: !NullSegment(run[i], evs[i])
    decreases |evs|
  {
    if evs != [] {
      TimerStep(run[0], evs[0], run[1]);
      assert forall i | 0 < i < |evs| :: run[i] == run[1..][i - 1] && evs[i] == evs[1..][i - 1];
      NeverNull(run[1..], evs[1..]);
    }
  }

  // One segment written, and nothing sent.
  function Holding(st: Snd, x: Tx): Snd {
    st.(stream := st.stream.(bytes := st.stream.bytes + x.data), unsent := [x],
        sndBuf := st.sndBuf - |x.data|, queuelen := 1)
  }

  lemma FirstWrite(c: Side, x: Tx)
    requires Good(c) && c.st.unacked == c.st.unsent == [] && 0 < |x.data| <= c.mss && |x.data| <= c.st.sndBuf
    requires x == Tx(c.st.stream.End(), x.data, 1)
    ensures Next(c, Write(x.data), c.(st := Holding(c.st, x)))
  {
    var st := Holding(c.st, x);
    assert [x][1..] == [] && st.unsent[|Init(c.st.unsent)|..] == [x] && c.st.unacked + c.st.unsent == [];
    assert (c.st.stream.bytes + x.data)[|c.st.stream.bytes|..] == x.data;
    assert Pbufs([x]) == x.pbufs + Pbufs([x][1..]);
    assert Written(c.st, x.data, c.mss, st);
  }

  // The same after it has been sent once and requeued.
  function Requeued(c: Side, x: Tx): Side {
    c.(st := Holding(c.st, x).(nxt := x.End()), timer := true)
  }

  lemma SentAndStalled(c: Side, x: Tx, wnd: int)
    requires c.st.unacked == c.st.unsent == [] && c.st.oversize == 0 && !c.down && 0 < c.mss
    requires c.st.una == c.st.nxt == x.at && 0 < wnd < |x.data|
    ensures var sent := Sent(c.(st := Holding(c.st, x)), |x.data|);
      && sent.mss == c.mss && sent.st.oversize == 0 && !sent.down
      && Next(sent, Timeout(wnd), Requeued(c, x))
  {
    assert [x][1..] == [] && [x][..1] == [x] && [x][..0] == [] && [x][0..] == [x];
    assert [] + [x] == [x] && [x] + [] == [x];
  }

  lemma OldAckIgnored(st: Snd)
    requires st.una <= st.nxt < st.una + HALF && (st.unsent != [] ==> st.una < st.unsent[0].End() <= st.una + HALF)
    ensures Position(st, Wrap(st.una)) == st.una && Acknowledge(st, Wrap(st.una)) == st
  {
    LocateWrap(st.una, st.una);
  }

  predicate Proper(c: Side) {
    0 < c.mss && 0 <= c.st.oversize
  }

  lemma TraceFrom(c: Side, e: Event, run: seq<Side>, evs: seq<Event>)
    requires Proper(c) && Trace(run, evs) && Next(c, e, run[0])
    ensures Trace([c] + run, [e] + evs)
  {
    var r, v := [c] + run, [e] + evs;
    forall i | 0 <= i < |v| ensures Next(r[i], v[i], r[i + 1]) {
      if i > 0 { assert r[i] == run[i - 1] && v[i] == evs[i - 1]; }
    }
  }

  // With the timer left running over an empty queue, the third duplicate ACK is fatal.
  lemma ThreeDuplicates(c: Side, ackno: u32) returns (run: seq<Side>)
    requires c.timer && !c.down && c.dupacks == 0 && c.st.unacked == [] && Proper(c)
    requires Position(c.st, ackno) == c.st.una && Acknowledge(c.st, ackno) == c.st
    ensures var ack := Ack(ackno, true); Trace(run, [ack, ack, ack]) && run[0] == c && run[3].down
  {
    var ack := Ack(ackno, true);
    var once, twice := c.(dupacks := 1), c.(dupacks := 2);
    var faulted := c.(dupacks := 3, down := true);
    TraceFrom(twice, ack, [faulted], []);
    TraceFrom(once, ack, [twice] + [faulted], [ack] + []);
    run := [once] + ([twice] + [faulted]);
    TraceFrom(c, ack, run, [ack] + ([ack] + []));
    run := [c] + run;
    assert [ack] + ([ack] + ([ack] + [])) == [ack, ack, ack];
  }

  // It does happen after one: a segment is sent, the peer shrinks its window below the segment's
  // end, and the timer expires.  Three duplicate ACKs later there is a fast retransmit of nothing.
  lemma StalledTimeoutFaults(c: Side, x: Tx, wnd: int) returns (run: seq<Side>)
    requires Good(c) && c.st.unacked == c.st.unsent == [] && c.dupacks == 0 && 0 < c.mss
    requires 0 < |x.data| <= c.mss && |x.data| <= c.st.sndBuf && x == Tx(c.st.stream.End(), x.data, 1)
    requires 0 < wnd < |x.data|
    ensures var ack := Ack(Wrap(c.st.una), true);
      Trace(run, [Write(x.data), Send(|x.data|), Timeout(wnd), ack, ack, ack]) && run[0] == c && run[6].down
  {
    var ack := Ack(Wrap(c.st.una), true);
    FirstWrite(c, x);
    SentAndStalled(c, x, wnd);
    var written, stalled := c.(st := Holding(c.st, x)), Requeued(c, x);
    OldAckIgnored(stalled.st);
    run := ThreeDuplicates(stalled, Wrap(c.st.una));
    var sent := Sent(written, |x.data|);
    var evs := [ack, ack, ack];
    TraceFrom(sent, Timeout(wnd), run, evs);
    run, evs := [sent] + run, [Timeout(wnd)] + evs;
    TraceFrom(written, Send(|x.data|), run, evs);
    run, evs := [written] + run, [Send(|x.data|)] + evs;
    TraceFrom(c, Write(x.data), run, evs);
    run, evs := [c] + run, [Write(x.data)] + evs;
    assert evs == [Write(x.data), Send(|x.data|), Timeout(wnd), ack, ack, ack];
  }

  // ----- what goes on the wire ---------------------------------------------------------------

  function Transmitted(c: Side, ev: Event): seq<Tx> {
    if c.down then []
    else match ev
    case Send(wnd) => c.st.unsent[..Fitting(c.st.unsent, c.st.una, wnd)]
    case Timeout(wnd) =>
      var st := Requeue(c.st);
      if Expires(c, wnd) then st.unsent[..Fitting(st.unsent, st.una, wnd)] else []
    case Ack(ackno, plain) =>
      if FastRetransmits(c, ackno, plain) && c.st.unacked != [] then [c.st.unacked[0]] else []
    case _ => []
  }

  // What is sent lies below snd_nxt afterwards.
  lemma OutputReaches(st: Snd, wnd: int, x: Tx)
    requires Conserved(st) && x in st.unsent[..Fitting(st.unsent, st.una, wnd)]
    ensures x.End() <= Output(st, wnd).nxt
  {
    var out := Output(st, wnd);
    OutputInv(st, 1, wnd);
    assert x in out.unacked;
  }

  // Every transmission and retransmission is a piece of what the application wrote, at its place.
  lemma WireCarriesTheStream(c: Side, ev: Event, x: Tx)
    requires Conserved(c.st) && x in Transmitted(c, ev)
    ensures c.st.stream.base <= x.at < x.End() <= c.st.stream.End()
    ensures x.data == c.st.stream.bytes[x.at - c.st.stream.base..x.End() - c.st.stream.base]
    ensures |x.data| <= 0xffff && (Roomy(c.st, c.mss) ==> |x.data| <= c.mss)
  {
    var q := c.st.unacked + c.st.unsent;
    CarriesAll(q, c.st.stream, First(q, c.st.stream));
    assert x in q;
  }

  // And afterwards it lies below snd_nxt.
  lemma WireBelowNext(c: Side, ev: Event, c': Side, x: Tx)
    requires 0 < c.mss && Conserved(c.st) && Next(c, ev, c') && x in Transmitted(c, ev)
    ensures x.End() <= c'.st.nxt
  {
    match ev
    case Send(wnd) => OutputReaches(c.st, wnd, x);
    case Timeout(wnd) => RequeueInv(c.st, c.mss); OutputReaches(Requeue(c.st), wnd, x);
    case Ack(ackno, plain) => assert c.st.unacked[0] in c.st.unacked;
  }

  // ----- the fork's tail append --------------------------------------------------------------

  // The walk to a segment's sorted place, shared by the insertion that is commented out in
  // tcp_output and by tcp_rexmit.
  function InsertWalk(q: seq<Tx>, seg: Tx): seq<Tx> {
    if q != [] && SeqLt(Wrap(q[0].at), Wrap(seg.at)) then [q[0]] + InsertWalk(q[1..], seg) else [seg] + q
  }

  // The insertion into `unacked` that is commented out in tcp_output.
  function SortedInsert(unacked: seq<Tx>, seg: Tx): seq<Tx> {
    if unacked == [] then [seg]
    else if SeqLt(Wrap(seg.at), Wrap(unacked[|unacked| - 1].at)) then InsertWalk(unacked, seg)
    else unacked + [seg]
  }

  function SendSorted(unacked: seq<Tx>, q: seq<Tx>): seq<Tx>
    decreases |q|
  {
    if q == [] then unacked else SendSorted(SortedInsert(unacked, q[0]), q[1..])
  }

  // Segments in transit lie close enough together for the signed comparison to order them.
  lemma InSpan(st: Snd)
    requires Conserved(st)
    ensures forall x, y | x in st.unacked && y in st.unsent :: x.at < y.at < x.at + HALF
    ensures forall x, y | x in st.unacked + st.unsent && y in st.unacked + st.unsent :: -HALF < x.at - y.at < HALF
  {
    var q := st.unacked + st.unsent;
    var from := First(q, st.stream);
    CarriesAll(q, st.stream, from);
    CarriesSplit(st.unacked, st.unsent, st.stream, from);
    CarriesAll(st.unsent, st.stream, LastEnd(st.unacked, from));
    assert q != [] ==> q[0] in q;
    assert forall x | x in st.unacked :: x in q;
    assert forall y | y in st.unsent :: y in q;
  }

  lemma {:induction false} SendSortedAppends(a: seq<Tx>, b: seq<Tx>)
    requires forall x, y | x in a + b && y in a + b :: -HALF < x.at - y.at < HALF
    requires Apart(a + b)
    ensures SendSorted(a, b) == a + b
    decreases |b|
  {
    var q := a + b;
    if b == [] {
      assert q == a;
    } else {
      assert q[|a|] == b[0] && b[0] in q;
      if a != [] {
        assert q[|a| - 1] == a[|a| - 1] && a[|a| - 1] in q;
        DiffWrap(b[0].at, a[|a| - 1].at);
      }
      var next := a + [b[0]];
      assert SortedInsert(a, b[0]) == next;
      assert next + b[1..] == q;
      SendSortedAppends(next, b[1..]);
    }
  }

  // In every reachable state the fork's tail append leaves `unacked` as sorted insertion would.
  lemma TailAppendIsSorted(st: Snd, wnd: int)
    requires Conserved(st)
    ensures Output(st, wnd).unacked == SendSorted(st.unacked, st.unsent[..Fitting(st.unsent, st.una, wnd)])
  {
    var k := Fitting(st.unsent, st.una, wnd);
    var q := st.unacked + st.unsent[..k];
    InSpan(st);
    OutputInv(st, 1, wnd);
    var whole := st.unacked + st.unsent;
    assert forall x | x in q :: x in whole;
    QueuesApart(st);
    ApartPart(whole, 0, |q|, q);
    SendSortedAppends(st.unacked, st.unsent[..k]);
  }

  // tcp_rexmit: the fast retransmit this fork replaced.
  function Rexmit(st: Snd): Snd {
    if st.unacked == [] then st
    else st.(unacked := st.unacked[1..], unsent := InsertWalk(st.unsent, st.unacked[0]))
  }

  // The two changes belong together: had fast retransmit gone on requeueing the first unacked
  // segment, the next transmission would need the sorted insertion whenever another one is in
  // flight.
  lemma RequeueingNeedsSorting(st: Snd)
    requires Conserved(st) && |st.unacked| >= 2
    ensures var st' := Rexmit(st);
      && st'.unsent[0] == st.unacked[0]
      && SortedInsert(st'.unacked, st'.unsent[0]) == st.unacked
      && st'.unacked + [st'.unsent[0]] != st.unacked
  {
    var seg, rest := st.unacked[0], st.unacked[1..];
    var q := st.unacked + st.unsent;
    InSpan(st);
    QueuesApart(st);
    assert q[0] == seg && q[1] == rest[0] && q[|st.unacked| - 1] == rest[|rest| - 1];
    assert seg in st.unacked && rest[0] in q && seg in q && rest[|rest| - 1] in q;
    if st.unsent != [] {
      assert st.unsent[0] in st.unsent;
      DiffWrap(st.unsent[0].at, seg.at);
    }
    DiffWrap(seg.at, rest[|rest| - 1].at);
    DiffWrap(rest[0].at, seg.at);
  }
}
