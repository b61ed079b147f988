// Every run of the receive side of one connection: segments arriving in any order, duplicated,
// overlapping, with any allocation failing, interleaved with the application's reads, with our own
// transmissions and with the loss of the out-of-order queue.
module ReceiveRuns {
  import opened SeqNum
  import opened Reassembly
  import opened Delivery

  datatype Event =
    | Arrive(seg: Segment, copied: bool, acked: bool)  // tcp_receive
    | Recved(len: u16, output: bool)                 // tcp_recved by the application
    | Output(sent: bool)                             // any segment of ours leaves
    | DropQueue                                      // pbuf_free_ooseq, or the slow timer
    | FinTaken                                       // tcp_input gives the FIN's byte back

  // As it comes from the network, at the place where the comparisons with rcv_nxt see it
  // (`SeqNum.Locate`): the header accounts for the text it carries.
  type Segment = s: Slice | |s.data| == s.len <= 0xffff witness Slice(0, 0, [], false)

  // What tcp_update_rcv_ann_wnd returns.
  function Inflation(st: Rcv, mss: u16): int {
    if MoreToAnnounce(st.nxt, st.wnd, st.annEdge, mss) then st.nxt + st.wnd - st.annEdge else 0
  }

  // tcp_recved, which holds the inflation in an int
  function Read(st: Rcv, mss: u16, len: u16, output: bool): Rcv
    requires st.annEdge <= st.nxt + 0xffff
  {
    var wnd: u16 := Min(Wrap16(st.wnd + len), TCP_WND);
    var st' := st.(wnd := wnd, annWnd := AnnouncedWindow(st.nxt, wnd, st.annEdge, mss));
    Announce(st', output && TCP_WND / 4 <= Inflation(st', mss) < HALF)
  }

  function Step(st: Rcv, mss: u16, ev: Event): (Rcv, seq<byte>)
    requires Structure(st)
  {
    match ev
    case Arrive(s, copied, acked) =>
      var (st', data, fin) := Receive(st, mss, s, copied, acked); (st', data)
    case Recved(len, output) => (Read(st, mss, len, output), [])
    case Output(sent) => (Announce(st, sent), [])
    case DropQueue => (st.(ooseq := []), [])
    case FinTaken => (if st.wnd != TCP_WND then st.(wnd := Wrap16(st.wnd + 1)) else st, [])
  }

  // The window is closed, and a segment is about to be queued half the sequence space ahead.
  predicate Plants(st: Rcv, ev: Event) {
    ev.Arrive? && Planted(st, ev.seg, ev.copied)
  }

  lemma StepStructure(st: Rcv, mss: u16, ev: Event)
    requires Structure(st)
    ensures Structure(Step(st, mss, ev).0) <==> !Plants(st, ev)
  {
    if ev.Arrive? { QueueInvariant(st, mss, ev.seg, ev.copied, ev.acked); }
  }

  // The last state of a run, and everything the application was handed in it.  A run goes no
  // further than a segment planted beyond any window.
  function Run(st: Rcv, mss: u16, evs: seq<Event>): (Rcv, seq<byte>)
    requires Structure(st)
    decreases |evs|
  {
    if evs == [] then (st, [])
    else
      StepStructure(st, mss, evs[0]);
      var (st', data) := Step(st, mss, evs[0]);
      if Plants(st, evs[0]) then (st', data)
      else
        var (last, more) := Run(st', mss, evs[1..]);
        (last, data + more)
  }

  // ----- what the application receives -------------------------------------------------------

  ghost predicate Good(p: Peer, st: Rcv) {
    && Structure(st) && Honest(p, st.ooseq)
    && p.base <= st.nxt && (if st.open then st.nxt <= p.Fin() else st.nxt == p.Fin() + 1)
  }

  // The text that is to be delivered or queued, and whether it will be.
  function Taken(st: Rcv, s: Segment): Slice {
    Trimmed(st, s)
  }

  predicate Accepted(st: Rcv, s: Segment) {
    st.open && 0 < s.TcpLen() && SeemsInWindow(st, Taken(st, s))
  }

  // Text is about to be accepted that the peer did not send for the place where it is seen.
  predicate Forged(p: Peer, st: Rcv, ev: Event) {
    ev.Arrive? && Accepted(st, ev.seg) && !p.Sent(Taken(st, ev.seg))
  }

  // A segment is about to be appended to the out-of-order queue, and the unsigned overrun test
  // is about to cut it although it ends inside the window.
  predicate Spurious(st: Rcv, ev: Event) {
    && ev.Arrive? && ev.copied && Accepted(st, ev.seg)
    && var s := Taken(st, ev.seg);
      st.nxt < s.at && SpuriousCut(st.ooseq, s, st.nxt + st.wnd)
  }

  lemma FreshSent(p: Peer, st: Rcv, s: Slice)
    requires p.Sent(s)
    ensures p.Sent(Fresh(st, s)) && (0 < s.TcpLen() ==> 0 < Fresh(st, s).TcpLen())
  {
    if s.at < st.nxt < s.Next() { FromSent(p, s, st.nxt); }
  }

  lemma EnqueueHonest(p: Peer, q: seq<Slice>, s: Slice, right: int)
    requires Chained(q) && Honest(p, q) && p.Sent(s) && s.at <= right <= s.at + 0xffff
    ensures Honest(p, Enqueue(q, s, right)) <==> !SpuriousCut(q, s, right)
  {
    if q != [] { PlaceHonest(p, q, s, right); }
  }

  // From `st` to `st'` the application was handed `data`: the stream from `st.nxt` to `st'.nxt`.
  ghost predicate Continued(p: Peer, st: Rcv, st': Rcv, data: seq<byte>) {
    && st'.nxt == st.nxt + |data| + (if st.open && !st'.open then 1 else 0)
    && (st'.open ==> st.open)
    && (st.open && !st'.open ==> st.nxt + |data| == p.Fin())
    && (st.open ==> p.base <= st.nxt && st.nxt + |data| <= p.Fin()
                    && data == p.Bytes(st.nxt, st.nxt + |data|))
    && (!st.open ==> data == [])
  }

  lemma ContinuedOn(p: Peer, st: Rcv, mid: Rcv, last: Rcv, data: seq<byte>, more: seq<byte>)
    requires Continued(p, st, mid, data) && Continued(p, mid, last, more)
    ensures Continued(p, st, last, data + more)
  {
    if mid.open {
      BytesConcat(p, st.nxt, mid.nxt, mid.nxt + |more|);
    }
  }

  // What one event hands up continues the stream, and leaves a good state.
  ghost predicate Sound(p: Peer, st: Rcv, mss: u16, ev: Event)
    requires Structure(st)
  {
    Good(p, Step(st, mss, ev).0) && Continued(p, st, Step(st, mss, ev).0, Step(st, mss, ev).1)
  }

  lemma InOrderArrival(p: Peer, st: Rcv, mss: u16, s: Segment, copied: bool, acked: bool)
    requires Good(p, st) && Accepted(st, s) && p.Sent(Taken(st, s)) && Taken(st, s).at == st.nxt
    ensures Sound(p, st, mss, Arrive(s, copied, acked))
  {
    StepStructure(st, mss, Arrive(s, copied, acked));
    InOrderContent(p, st, Taken(st, s));
  }

  // The state after a segment was queued inside the window, or half the sequence space ahead.
  function Queued(st: Rcv, s: Slice, copied: bool, acked: bool): Rcv
    requires Structure(st)
  {
    Announce(st, acked).(ooseq := if copied then Enqueue(st.ooseq, s, st.nxt + st.wnd) else st.ooseq)
  }

  lemma RequeuedGood(p: Peer, st: Rcv, st': Rcv, ok: bool)
    requires Good(p, st) && Structure(st') && st' == st.(ooseq := st'.ooseq, annEdge := st'.annEdge)
    requires Honest(p, st'.ooseq) <==> ok
    ensures Good(p, st') <==> ok
  {
  }

  lemma QueuedGood(p: Peer, st: Rcv, s: Slice, copied: bool, acked: bool)
    requires Good(p, st) && p.Sent(s) && st.nxt < s.at < st.nxt + st.wnd
    requires Structure(Queued(st, s, copied, acked))
    ensures Good(p, Queued(st, s, copied, acked)) <==> !(copied && SpuriousCut(st.ooseq, s, st.nxt + st.wnd))
  {
    var right := st.nxt + st.wnd;
    EnqueueHonest(p, st.ooseq, s, right);
    RequeuedGood(p, st, Queued(st, s, copied, acked), !(copied && SpuriousCut(st.ooseq, s, right)));
  }

  lemma NothingQueued(p: Peer, st: Rcv, s: Slice, copied: bool, acked: bool)
    requires Good(p, st) && st.open && 0 < s.TcpLen() && HalfAhead(st, s) && !Planted(st, s, copied)
    ensures Good(p, Queued(st, s, copied, acked))
  {
    HalfAheadQueued(st, s);
  }

  lemma QueuedStep(st: Rcv, mss: u16, s: Segment, copied: bool, acked: bool)
    requires Structure(st) && Accepted(st, s) && st.nxt < Taken(st, s).at
    ensures Step(st, mss, Arrive(s, copied, acked)) == (Queued(st, Taken(st, s), copied, acked), [])
    ensures Taken(st, s) == s
  {
  }

  lemma QueuedArrival(p: Peer, st: Rcv, mss: u16, s: Segment, copied: bool, acked: bool)
    requires Good(p, st) && Accepted(st, s) && p.Sent(Taken(st, s)) && st.nxt < Taken(st, s).at
    ensures var ev := Arrive(s, copied, acked); Sound(p, st, mss, ev) <==> !Plants(st, ev) && !Spurious(st, ev)
  {
    StepStructure(st, mss, Arrive(s, copied, acked));
    QueuedStep(st, mss, s, copied, acked);
    if Planted(st, s, copied) {
    } else if HalfAhead(st, Taken(st, s)) {
      NothingQueued(p, st, Taken(st, s), copied, acked);
    } else {
      QueuedGood(p, st, Taken(st, s), copied, acked);
    }
  }

  // Whatever arrives, from the peer or not: as long as nothing is accepted that the peer did not
  // send there, an event is sound exactly when it neither plants a segment nor cuts one
  // spuriously.
  lemma StepContent(p: Peer, st: Rcv, mss: u16, ev: Event)
    requires Good(p, st) && !Forged(p, st, ev)
    ensures Sound(p, st, mss, ev) <==> !Plants(st, ev) && !Spurious(st, ev)
  {
    StepStructure(st, mss, ev);
    if ev.Arrive? && Accepted(st, ev.seg) {
      if st.nxt < Taken(st, ev.seg).at {
        QueuedArrival(p, st, mss, ev.seg, ev.copied, ev.acked);
      } else {
        InOrderArrival(p, st, mss, ev.seg, ev.copied, ev.acked);
      }
    }
  }

  // ----- segments of the peer ----------------------------------------------------------------

  // What arrives is a piece of the peer's stream, and is seen where it belongs.
  predicate Genuine(p: Peer, ev: Event) {
    ev.Arrive? ==> p.Sent(ev.seg)
  }

  // One old byte, from exactly half the sequence space behind, is about to be taken for the next
  // one, which is a different one.
  predicate Mistaken(p: Peer, st: Rcv, ev: Event)
    requires p.base <= st.nxt
  {
    && ev.Arrive? && Misplaced(st, ev.seg)
    && (p.Fin() <= st.nxt || ev.seg.data != p.Bytes(st.nxt, st.nxt + 1))
  }

  predicate Clean(p: Peer, st: Rcv, ev: Event)
    requires p.base <= st.nxt
  {
    !Mistaken(p, st, ev) && !Plants(st, ev) && !Spurious(st, ev)
  }

  lemma GenuineForged(p: Peer, st: Rcv, ev: Event)
    requires Good(p, st) && Genuine(p, ev)
    ensures Forged(p, st, ev) <==> Mistaken(p, st, ev)
  {
    if ev.Arrive? {
      var s := ev.seg;
      FreshSent(p, st, s);
      if HalfBehind(st, s) && st.open {
        assert s.len == 1 && !s.fin;
      }
    }
  }

  lemma MergeOne(s: Slice, q: seq<Slice>)
    requires Chained(q) && (q == [] || s.at < q[0].at) && s.len == |s.data| == 1
    ensures Merge(s, q)[0].data == s.data
  {
    if !s.fin && q != [] && q[0].End() <= s.End() {
      assert q[0].fin && q[1..] == [];
      assert Merge(s, q) == [s.(fin := true)];
    }
  }

  lemma {:induction false} DrainFirst(s: Slice, q: seq<Slice>)
    requires Chained(q) && (q == [] || s.at < q[0].at) && s.len == |s.data| == 1 && !s.fin
    ensures var d := Drain(s.at, Merge(s, q)); d.data != [] && d.data[..1] == s.data && d.nxt >= s.at + 1
  {
    MergeChained(s, q);
    var m := Merge(s, q);
    assert m[1..] != [] ==> m[1..][0] in m[1..];
    MergeOne(s, q);
    DrainStructure(m[0].Next(), m[1..]);
  }

  // Data that begins with a byte which is not the peer's next one does not continue the stream.
  lemma WrongByte(p: Peer, st: Rcv, st': Rcv, data: seq<byte>)
    requires Good(p, st) && st.open && data != []
    requires p.Fin() <= st.nxt || data[..1] != p.Bytes(st.nxt, st.nxt + 1)
    ensures !Continued(p, st, st', data)
  {
    if st.nxt + |data| <= p.Fin() {
      assert p.Bytes(st.nxt, st.nxt + |data|)[..1] == p.Bytes(st.nxt, st.nxt + 1);
    }
  }

  // The wrong byte is handed up.
  lemma MistakenBreaks(p: Peer, st: Rcv, mss: u16, ev: Event)
    requires Good(p, st) && Genuine(p, ev) && Mistaken(p, st, ev)
    ensures !Sound(p, st, mss, ev)
  {
    var s := ev.seg.(at := st.nxt);
    AheadOf(st.nxt, st.ooseq);
    DrainFirst(s, st.ooseq);
    assert FitWindow(st, s) == s;
    WrongByte(p, st, Step(st, mss, ev).0, Step(st, mss, ev).1);
  }

  // For what the peer sent, an event is sound exactly when none of the three mistakes is made.
  lemma GenuineStep(p: Peer, st: Rcv, mss: u16, ev: Event)
    requires Good(p, st) && Genuine(p, ev)
    ensures Sound(p, st, mss, ev) <==> Clean(p, st, ev)
  {
    GenuineForged(p, st, ev);
    if Mistaken(p, st, ev) {
      MistakenBreaks(p, st, mss, ev);
    } else {
      StepContent(p, st, mss, ev);
    }
  }

  // ----- runs --------------------------------------------------------------------------------

  ghost predicate AlwaysSound(p: Peer, st: Rcv, mss: u16, evs: seq<Event>)
    requires Structure(st)
    decreases |evs|
  {
    evs == [] || (Sound(p, st, mss, evs[0]) && AlwaysSound(p, Step(st, mss, evs[0]).0, mss, evs[1..]))
  }

  ghost predicate AlwaysClean(p: Peer, st: Rcv, mss: u16, evs: seq<Event>)
    requires Structure(st)
    decreases |evs|
  {
    evs == [] || (
      var st' := Step(st, mss, evs[0]).0;
      && p.base <= st.nxt && Clean(p, st, evs[0])
      && Structure(st') && AlwaysClean(p, st', mss, evs[1..]))
  }

  // A run in which everything that arrives is a piece of one peer's stream hands up that stream,
  // and queues only pieces of it, exactly when none of the three mistakes is made.
  lemma {:induction false} SoundIffClean(p: Peer, st: Rcv, mss: u16, evs: seq<Event>)
    requires Good(p, st) && forall e | e in evs :: Genuine(p, e)
    ensures AlwaysSound(p, st, mss, evs) <==> AlwaysClean(p, st, mss, evs)
    decreases |evs|
  {
    if evs != [] {
      GenuineStep(p, st, mss, evs[0]);
      StepStructure(st, mss, evs[0]);
      if Clean(p, st, evs[0]) {
        SoundIffClean(p, Step(st, mss, evs[0]).0, mss, evs[1..]);
      }
    }
  }

  // Any segments at all: nothing is accepted but what the peer sent for that place, and neither of
  // the other two mistakes is made.
  ghost predicate Unspoilt(p: Peer, st: Rcv, mss: u16, evs: seq<Event>)
    requires Structure(st)
    decreases |evs|
  {
    evs == [] || (
      StepStructure(st, mss, evs[0]);
      && !Forged(p, st, evs[0]) && !Plants(st, evs[0]) && !Spurious(st, evs[0])
      && Unspoilt(p, Step(st, mss, evs[0]).0, mss, evs[1..]))
  }

  lemma {:induction false} CleanUnspoilt(p: Peer, st: Rcv, mss: u16, evs: seq<Event>)
    requires Good(p, st) && AlwaysClean(p, st, mss, evs) && forall e | e in evs :: Genuine(p, e)
    ensures Unspoilt(p, st, mss, evs)
    decreases |evs|
  {
    if evs != [] {
      GenuineForged(p, st, evs[0]);
      GenuineStep(p, st, mss, evs[0]);
      CleanUnspoilt(p, Step(st, mss, evs[0]).0, mss, evs[1..]);
    }
  }

  // Then the application has been handed exactly the stream from the first `rcv_nxt` to the last
  // one, the FIN counting as one number.
  lemma {:induction false} DeliveredIsTheStream(p: Peer, st: Rcv, mss: u16, evs: seq<Event>)
    requires Good(p, st) && Unspoilt(p, st, mss, evs)
    ensures Good(p, Run(st, mss, evs).0)
    ensures Continued(p, st, Run(st, mss, evs).0, Run(st, mss, evs).1)
    decreases |evs|
  {
    if evs != [] {
      StepContent(p, st, mss, evs[0]);
      var (st', data) := Step(st, mss, evs[0]);
      DeliveredIsTheStream(p, st', mss, evs[1..]);
      var (last, more) := Run(st', mss, evs[1..]);
      ContinuedOn(p, st, st', last, data, more);
    }
  }

  // The cut does happen.  The peer has sent ten bytes from 0xfffffff0 on; bytes 2-3 arrive, then
  // bytes 5-6, then bytes 0-4.  The application is handed seven bytes, and yet `rcv_nxt` is past
  // the peer's FIN: 4096 numbers are acknowledged.
  const TEN := Peer(0xffff_fff0, [0, 1, 2, 3, 4, 5, 6, 7, 8, 9])

  function Piece(lo: nat, hi: nat): Segment
    requires lo <= hi <= 10
  {
    Slice(TEN.base + lo, hi - lo, TEN.bytes[lo..hi], false)
  }

  const BEFORE := Rcv(TEN.base, 4096, 4096, TEN.base + 4096, [], true)

  // The second segment, cut to more than it is.
  const LONG := Slice(TEN.base + 5, 4091, TEN.bytes[5..7], false)

  lemma CutLong()
    ensures Place([Piece(2, 4)], Piece(5, 7), TEN.base + 4096) == [Piece(2, 4), LONG]
  {
    assert Piece(5, 7).Resized(4091) == LONG;
  }

  lemma DrainLong()
    ensures var d := InOrder(BEFORE.(ooseq := [Piece(2, 4), LONG]), Piece(0, 5));
      d.nxt == TEN.base + 4096 && |d.data| == 7
  {
    var a, c := Piece(2, 4), Piece(0, 5);
    assert Merge(c, [a, LONG]) == [c, LONG] by {
      assert [a, LONG][1..] == [LONG];
      assert Merge(c, [LONG]) == [c] + [LONG];
    }
    assert [c, LONG][1..] == [LONG] && [LONG][1..] == [];
    assert Drain(LONG.Next(), []) == Delivery(LONG.Next(), [], false, []);
    assert Drain(LONG.at, [LONG]).data == LONG.data + [];
  }

  // Three events, the first two of which hand up nothing.
  lemma RunOfThree(st: Rcv, st1: Rcv, st2: Rcv, mss: u16, a: Event, b: Event, c: Event)
    requires Structure(st) && Structure(st1) && Structure(st2)
    requires Step(st, mss, a) == (st1, []) && Step(st1, mss, b) == (st2, [])
    ensures Run(st, mss, [a, b, c]) == Step(st2, mss, c)
  {
    StepStructure(st, mss, a);
    StepStructure(st1, mss, b);
    var last := Step(st2, mss, c);
    assert [a, b, c][1..] == [b, c] && [b, c][1..] == [c] && [c][1..] == [];
    assert Run(st2, mss, [c]) == last by { assert last.1 + [] == last.1; }
    assert Run(st1, mss, [b, c]) == last by { assert [] + last.1 == last.1; }
    assert [] + last.1 == last.1;
  }

  lemma SpuriousCutLosesData()
    ensures var evs := [Arrive(Piece(2, 4), true, true), Arrive(Piece(5, 7), true, true),
                        Arrive(Piece(0, 5), true, true)];
      && Good(TEN, BEFORE) && (forall e | e in evs :: Genuine(TEN, e))
      && |Run(BEFORE, 1500, evs).1| == 7
      && Run(BEFORE, 1500, evs).0.nxt == TEN.base + 4096 > TEN.Fin()
  {
    var a, b, c := Piece(2, 4), Piece(5, 7), Piece(0, 5);
    var st1, st2 := BEFORE.(ooseq := [a]), BEFORE.(ooseq := [a, LONG]);
    assert [a][1..] == [] && [LONG][1..] == [] && [a, LONG][1..] == [LONG];
    assert Step(st1, 1500, Arrive(b, true, true)) == (st2, []) by { CutLong(); }
    RunOfThree(BEFORE, st1, st2, 1500, Arrive(a, true, true), Arrive(b, true, true), Arrive(c, true, true));
    DrainLong();
  }
}
