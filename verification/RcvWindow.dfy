// The receive window (core/tcp.c, tcp_update_rcv_ann_wnd and tcp_recved) over runs in which the
// peer stays inside it: section 4.2.3.3 of RFC 1122 (no silly window), and section 4.2.2.16 (the
// right edge does not move left).
module RcvWindow {
  import opened SeqNum
  import opened Reassembly
  import opened Delivery
  import opened ReceiveRuns

  ghost predicate Below(q: seq<Slice>, edge: int) {
    forall r | r in q :: r.Next() <= edge
  }

  function Right(st: Rcv): int {
    st.nxt + st.wnd
  }

  // The step by which the announced edge may advance: SWS avoidance.
  function Threshold(mss: u16): int {
    Min(TCP_WND / 2, mss)
  }

  // An edge may be announced that is worth announcing, or that `rcv_nxt` itself has passed.
  ghost predicate WorthAnnouncing(edge: int, edge': int, nxt: int, mss: u16) {
    edge' == edge || edge' >= edge + Threshold(mss) || edge < edge' == nxt
  }

  ghost predicate WindowOk(st: Rcv, mss: u16) {
    && st.wnd <= TCP_WND
    && Below(st.ooseq, Right(st))
    && st.annEdge <= st.nxt + st.annWnd <= Right(st)
    && WorthAnnouncing(st.annEdge, st.nxt + st.annWnd, st.nxt, mss)
  }

  // The peer sends nothing beyond the window, its FIN included, and the application gives back
  // no more than `rcv_wnd` can count (asserted in tcp_recved).
  predicate Respects(st: Rcv, ev: Event) {
    && (ev.Arrive? ==> ev.seg.Next() <= Right(st))
    && (ev.Recved? ==> st.wnd + ev.len <= 0xffff)
  }

  // ----- nothing queued reaches beyond the window --------------------------------------------

  lemma BelowCons(s: Slice, q: seq<Slice>, edge: int)
    ensures Below([s] + q, edge) <==> s.Next() <= edge && Below(q, edge)
  {
    assert s in [s] + q;
    assert forall r | r in q :: r in [s] + q;
  }

  // The merge gives a segment that ends at the edge the FIN of what it covers, one number too many.
  predicate Overruns(q: seq<Slice>, s: Slice, edge: int) {
    s.End() == edge && !s.fin && q != [] && Last(q).fin && s.at <= Last(q).at
  }

  lemma {:induction false} MergeBelow(s: Slice, rest: seq<Slice>, edge: int)
    requires Chained(rest) && (rest == [] || s.at <= rest[0].at)
    requires s.Next() <= edge && Below(rest, edge)
    ensures Below(Merge(s, rest), edge) <==> !(s.End() == edge && !s.fin && rest != [] && Last(rest).fin)
    ensures !Below(Merge(s, rest), edge) ==> Merge(s, rest) == [s.(fin := true)]
    decreases |rest|
  {
    if s.fin || rest == [] {
      assert s in [s];
    } else {
      assert rest[0] in rest;
      if rest[0].End() > s.End() {
        assert Last(rest) in rest;
        BelowCons(if rest[0].at < s.End() then s.CutAt(rest[0].at) else s, rest, edge);
      } else if rest[0].fin {
        assert s.(fin := true) in [s.(fin := true)];
      } else {
        assert |rest| > 1 ==> rest[1..][0] in rest[1..];
        if |rest| > 1 { LastOfTail(rest); }
        MergeBelow(s, rest[1..], edge);
      }
    }
  }

  lemma CutBelow(s: Slice, right: int, edge: int)
    requires s.at <= right <= s.at + 0xffff && s.Next() <= edge <= right
    ensures CutToWindow(s, right).Next() <= edge <==> edge == right || !(SeemsToOverrun(s, right) && s.Next() < right)
  {
  }

  // A queue that keeps its first segment has no FIN beyond one that ends at the edge.
  lemma KeepsShorter(q: seq<Slice>, s: Slice, edge: int)
    requires Chained(q) && q != [] && s.at == q[0].at && s.len <= q[0].len && Below(q, edge)
    ensures !Overruns(q, s, edge)
  {
    assert q[0] in q && Last(q) in q;
    if |q| > 1 {
      LastOfTail(q);
      assert Last(q[1..]) in q[1..];
    }
  }

  // The queue stays below the edge, exactly unless a FIN overruns it or, short of the window's own
  // edge, the spurious cut makes a segment reach further.
  lemma {:induction false} PlaceBelow(q: seq<Slice>, s: Slice, right: int, edge: int)
    requires Chained(q) && q != [] && s.at <= right <= s.at + 0xffff
    requires s.Next() <= edge <= right && Below(q, edge)
    ensures Below(Place(q, s, right), edge) <==> !Overruns(q, s, edge) && (edge == right || !SpuriousCut(q, s, right))
    decreases |q|
  {
    assert q[0] in q && Last(q) in q;
    if s.at <= q[0].at {
      StartsLast(q, Last(q));
      if s.at < q[0].at || q[0].len < s.len {
        MergeBelow(s, q, edge);
      } else {
        KeepsShorter(q, s, edge);
      }
    } else if q[0].fin {
      assert |q| == 1 + |q[1..]|;
    } else if |q| == 1 {
      CutBelow(s, right, edge);
      BelowCons(q[0].YieldTo(s.at), [CutToWindow(s, right)], edge);
      assert CutToWindow(s, right) in [CutToWindow(s, right)];
    } else {
      LastOfTail(q);
      assert q[1..][0] in q[1..];
      PlaceBelow(q[1..], s, right, edge);
      BelowCons(q[0].YieldTo(s.at), Place(q[1..], s, right), edge);
    }
  }

  lemma {:induction false} DrainBelow(nxt: int, q: seq<Slice>, edge: int)
    requires nxt <= edge && Below(q, edge)
    ensures Drain(nxt, q).nxt <= edge && Below(Drain(nxt, q).rest, edge)
    decreases |q|
  {
    if q != [] && q[0].at == nxt {
      assert q[0] in q;
      DrainBelow(q[0].Next(), q[1..], edge);
    }
  }

  // The same for what is drained and what stays queued after an in-order segment.
  lemma InOrderBelow(st: Rcv, s: Slice, edge: int)
    requires Structure(st) && s.at == st.nxt && 0 < s.TcpLen() && 0 < st.wnd
    requires s.Next() <= edge <= Right(st) && Below(st.ooseq, edge)
    ensures if Overruns(st.ooseq, s, edge) then InOrder(st, s).nxt == edge + 1
            else InOrder(st, s).nxt <= edge && Below(InOrder(st, s).rest, edge)
  {
    AheadOf(st.nxt, st.ooseq);
    assert FitWindow(st, s) == s;
    if st.ooseq != [] { StartsLast(st.ooseq, Last(st.ooseq)); }
    MergeBelow(s, st.ooseq, edge);
    if Overruns(st.ooseq, s, edge) {
      assert [s.(fin := true)][1..] == [];
      assert Drain(edge + 1, []).nxt == edge + 1;
    } else {
      DrainBelow(st.nxt, Merge(s, st.ooseq), edge);
    }
  }

  // ----- one event ---------------------------------------------------------------------------

  // The right edge of the real window and of the announced one never move left, and the announced
  // one moves only by a step worth announcing.
  ghost predicate EdgesAdvance(st: Rcv, st': Rcv, mss: u16) {
    && Right(st) <= Right(st')
    && st.nxt <= st'.nxt
    && st.annEdge <= st'.annEdge
    && WorthAnnouncing(st.annEdge, st'.annEdge, st'.nxt, mss)
  }

  // The announced window after an update.
  lemma UpdatedWindow(st: Rcv, mss: u16)
    requires st.annEdge <= Right(st) && st.wnd <= TCP_WND && Below(st.ooseq, Right(st))
    requires st.annWnd == AnnouncedWindow(st.nxt, st.wnd, st.annEdge, mss)
    ensures WindowOk(st, mss)
  {
  }

  lemma QueuedBelow(st: Rcv, s: Slice, edge: int)
    requires Structure(st) && Below(st.ooseq, edge)
    requires st.nxt <= s.at && s.Next() <= edge <= Right(st)
    ensures Below(Enqueue(st.ooseq, s, Right(st)), edge)
       <==> !Overruns(st.ooseq, s, edge) && (edge == Right(st) || !SpuriousCut(st.ooseq, s, Right(st)))
  {
    if st.ooseq == [] {
      assert [s] + [] == [s];
      BelowCons(s, [], edge);
    } else {
      PlaceBelow(st.ooseq, s, Right(st), edge);
    }
  }

  // What is accepted of a segment that ends below an edge ends there too.
  lemma TakenBelow(st: Rcv, seg: Segment, edge: int)
    requires Accepted(st, seg) && seg.Next() <= edge && st.nxt <= edge <= Right(st)
    ensures InWindow(st, Taken(st, seg)) && 0 < Taken(st, seg).TcpLen() && Taken(st, seg).len <= seg.len
    ensures Taken(st, seg).Next() <= edge <==> st.nxt < edge || !Misplaced(st, seg)
  {
  }

  // A segment inside the window is about to be given a FIN that lies outside.
  predicate Overfills(st: Rcv, seg: Segment, copied: bool) {
    && Accepted(st, seg) && Overruns(st.ooseq, Taken(st, seg), Right(st))
    && (Taken(st, seg).at == st.nxt || copied)
  }

  lemma InOrderWindow(st: Rcv, mss: u16, seg: Segment, copied: bool, acked: bool)
    requires Structure(st) && WindowOk(st, mss) && seg.Next() <= Right(st)
    requires Accepted(st, seg) && Taken(st, seg).at == st.nxt
    ensures var st' := Receive(st, mss, seg, copied, acked).0;
      if Overfills(st, seg, copied) then st'.wnd == 0xffff
      else WindowOk(st', mss) && EdgesAdvance(st, st', mss) && Right(st') == Right(st)
  {
    var s := Taken(st, seg);
    TakenBelow(st, seg, Right(st));
    InOrderStructure(st, s);
    InOrderBelow(st, s, Right(st));
    if !Overfills(st, seg, copied) {
      UpdatedWindow(Receive(st, mss, seg, copied, acked).0, mss);
    }
  }

  // Any segment inside the window, from an honest peer or not, keeps the window and moves no edge
  // left, exactly unless it overfills it.
  lemma ArriveWindow(st: Rcv, mss: u16, seg: Segment, copied: bool, acked: bool)
    requires Structure(st) && WindowOk(st, mss) && seg.Next() <= Right(st)
    ensures var st' := Receive(st, mss, seg, copied, acked).0;
      && (WindowOk(st', mss) <==> !Overfills(st, seg, copied))
      && (WindowOk(st', mss) ==> EdgesAdvance(st, st', mss) && Right(st') == Right(st))
  {
    if Accepted(st, seg) {
      TakenBelow(st, seg, Right(st));
      if st.nxt < Taken(st, seg).at {
        QueuedBelow(st, Taken(st, seg), Right(st));
      } else {
        InOrderWindow(st, mss, seg, copied, acked);
      }
    }
  }

  // It does happen: a segment with a FIN is queued whose last number is the last of the window, and one
  // without that covers it fills the window.  `rcv_wnd` becomes 65535.
  lemma OverfilledWindow(text: seq<byte>, late: Slice)
    requires |text| == 10 && late == Slice(5, 1, text[5..6], true)
    ensures var st, seg := Rcv(0, 10, 10, 10, [late], true), Slice(0, 10, text, false);
      && Structure(st) && WindowOk(st, 1500) && seg.Next() <= Right(st)
      && Receive(st, 1500, seg, true, true).0.wnd == 0xffff
  {
    var st, seg := Rcv(0, 10, 10, 10, [late], true), Slice(0, 10, text, false);
    assert [late][1..] == [];
    assert Structure(st) && WindowOk(st, 1500);
    assert Taken(st, seg) == seg && Overfills(st, seg, true);
    InOrderWindow(st, 1500, seg, true, true);
  }

  // An honest peer does not overfill its window: it sends nothing beyond its FIN.
  lemma HonestNeverOverfills(p: Peer, st: Rcv, seg: Segment, copied: bool)
    requires Honest(p, st.ooseq) && Below(st.ooseq, Right(st)) && p.Sent(Taken(st, seg))
    ensures !Overfills(st, seg, copied)
  {
    assert st.ooseq != [] ==> Last(st.ooseq) in st.ooseq;
  }

  lemma ReadWindow(st: Rcv, mss: u16, len: u16, output: bool)
    requires Structure(st) && WindowOk(st, mss) && st.wnd + len <= 0xffff
    ensures var st' := Read(st, mss, len, output);
      WindowOk(st', mss) && EdgesAdvance(st, st', mss)
  {
    var wnd: u16 := Min(Wrap16(st.wnd + len), TCP_WND);
    var st' := st.(wnd := wnd, annWnd := AnnouncedWindow(st.nxt, wnd, st.annEdge, mss));
    UpdatedWindow(st', mss);
  }

  predicate Overfilling(st: Rcv, ev: Event) {
    ev.Arrive? && Overfills(st, ev.seg, ev.copied)
  }

  lemma StepWindow(st: Rcv, mss: u16, ev: Event)
    requires Structure(st) && WindowOk(st, mss) && Respects(st, ev)
    ensures var st' := Step(st, mss, ev).0;
      && (WindowOk(st', mss) <==> !Overfilling(st, ev))
      && (WindowOk(st', mss) ==> EdgesAdvance(st, st', mss) && (ev.Arrive? ==> Right(st') == Right(st)))
  {
    match ev
    case Arrive(seg, copied, acked) => ArriveWindow(st, mss, seg, copied, acked);
    case Recved(len, output) => ReadWindow(st, mss, len, output);
    case _ =>
  }

  // ----- what must be announced --------------------------------------------------------------

  // The other half of the silly window law: from an announced edge `edge` on, everything is announced
  // that is worth it, and nothing else; what is kept back is less than the step worth announcing.
  ghost predicate FullyAnnounced(st: Rcv, edge: int, mss: u16) {
    && (Threshold(mss) <= Right(st) - edge < HALF ==> st.nxt + st.annWnd == Right(st))
    && (Right(st) - edge < Threshold(mss) ==> st.nxt + st.annWnd == if st.nxt < edge then edge else st.nxt)
    && (Right(st) - edge < HALF && 0 < mss ==> Right(st) - (st.nxt + st.annWnd) < Threshold(mss))
  }

  // The application has taken text: the window opens, up to TCP_WND, and when the announced edge may
  // move by a quarter of that the peer is told at once.
  lemma ReadOpens(st: Rcv, mss: u16, len: u16, output: bool)
    requires Structure(st) && WindowOk(st, mss) && st.wnd + len <= 0xffff
    ensures var st' := Step(st, mss, Recved(len, output)).0;
      && st'.wnd == Min(st.wnd + len, TCP_WND) && FullyAnnounced(st', st.annEdge, mss)
      && (var gain := Right(st') - st.annEdge;
          gain < HALF ==>
            st'.annEdge == if output && Threshold(mss) <= gain && TCP_WND / 4 <= gain then Right(st') else st.annEdge)
      && st' == st.(wnd := st'.wnd, annWnd := st'.annWnd, annEdge := st'.annEdge)
  {
  }

  // Once everything has been read at least half the window is announced: the peer is never left
  // stalled.
  lemma NeverStalled(st: Rcv, mss: u16, len: u16, output: bool)
    requires Structure(st) && WindowOk(st, mss) && TCP_WND <= st.wnd + len <= 0xffff
    requires st.nxt + TCP_WND - st.annEdge < HALF
    ensures Step(st, mss, Recved(len, output)).0.annWnd >= TCP_WND / 2
  {
  }

  lemma TrimmedPlace(st: Rcv, seg: Segment)
    requires Structure(st) && Accepted(st, seg) && Taken(st, seg).at <= st.nxt
    ensures Taken(st, seg).at == st.nxt && 0 < Taken(st, seg).TcpLen() && 0 < st.wnd
  {
  }

  // New text moves `rcv_nxt`, and with it what is announced.
  lemma DeliveryAnnounces(st: Rcv, mss: u16, seg: Segment, copied: bool, acked: bool)
    requires Structure(st)
    ensures var st' := Receive(st, mss, seg, copied, acked).0;
      st.nxt < st'.nxt ==> FullyAnnounced(st', st.annEdge, mss) && st'.annEdge == st.annEdge
  {
    if st.nxt < Receive(st, mss, seg, copied, acked).0.nxt { TrimmedPlace(st, seg); }
  }

  // Every other event announces what has been computed before, if it sends anything.
  lemma OthersAnnounce(st: Rcv, mss: u16, ev: Event)
    requires Structure(st) && !ev.Arrive? && !ev.Recved?
    ensures var st' := Step(st, mss, ev).0;
      && (ev.Output? ==> st' == st.(annEdge := if ev.sent then st.nxt + st.annWnd else st.annEdge))
      && (ev.DropQueue? ==> st' == st.(ooseq := []))
      && (ev.FinTaken? && st.wnd <= TCP_WND ==> st' == st.(wnd := if st.wnd < TCP_WND then st.wnd + 1 else TCP_WND))
  {
  }

  // ----- every run ---------------------------------------------------------------------------

  // A segment that ends inside the window is never planted beyond it.
  lemma RespectsStructure(st: Rcv, mss: u16, ev: Event)
    requires Structure(st) && Respects(st, ev)
    ensures Structure(Step(st, mss, ev).0)
  {
    StepStructure(st, mss, ev);
  }

  ghost predicate AllRespect(st: Rcv, mss: u16, evs: seq<Event>)
    requires Structure(st)
    decreases |evs|
  {
    evs == [] || (
      && Respects(st, evs[0])
      && (RespectsStructure(st, mss, evs[0]); AllRespect(Step(st, mss, evs[0]).0, mss, evs[1..])))
  }

  ghost predicate NeverOverfills(st: Rcv, mss: u16, evs: seq<Event>)
    requires Structure(st)
    decreases |evs|
  {
    evs == [] || (
      var st' := Step(st, mss, evs[0]).0;
      !Overfilling(st, evs[0]) && (Structure(st') ==> NeverOverfills(st', mss, evs[1..])))
  }

  // After every event the window is in order, and no edge has moved left.
  ghost predicate KeepsWindow(st: Rcv, mss: u16, evs: seq<Event>)
    requires Structure(st)
    decreases |evs|
  {
    evs == [] || (
      var st' := Step(st, mss, evs[0]).0;
      WindowOk(st', mss) && EdgesAdvance(st, st', mss) && (Structure(st') ==> KeepsWindow(st', mss, evs[1..])))
  }

  // Over every run of a peer that stays within the window, whatever it sends: the window never
  // under- or overflows, everything queued fits into it, and neither edge moves left, exactly while
  // nothing overfills it.
  lemma {:induction false} WindowKept(st: Rcv, mss: u16, evs: seq<Event>)
    requires Structure(st) && WindowOk(st, mss) && AllRespect(st, mss, evs)
    ensures KeepsWindow(st, mss, evs) <==> NeverOverfills(st, mss, evs)
    ensures NeverOverfills(st, mss, evs) ==>
      var last := Run(st, mss, evs).0;
      && WindowOk(last, mss)
      && Right(st) <= Right(last) && st.nxt <= last.nxt && st.annEdge <= last.annEdge
    decreases |evs|
  {
    if evs != [] {
      RespectsStructure(st, mss, evs[0]);
      StepStructure(st, mss, evs[0]);
      StepWindow(st, mss, evs[0]);
      if !Overfilling(st, evs[0]) {
        WindowKept(Step(st, mss, evs[0]).0, mss, evs[1..]);
      }
    }
  }

  // ----- a peer that stays at or below the announced edge ------------------------------------

  predicate Heeds(st: Rcv, ev: Event) {
    (ev.Arrive? ==> ev.seg.Next() <= st.annEdge) && (ev.Recved? ==> st.wnd + ev.len <= 0xffff)
  }

  // Nothing received lies beyond an edge.
  ghost predicate ReceivedBelow(st: Rcv, edge: int) {
    st.nxt <= edge && Below(st.ooseq, edge)
  }

  // A segment that ends at or below the announced edge is about to reach further: it is moved from
  // 2^31 behind onto it, it is given a FIN beyond it, or it is cut to more than it is.
  predicate Oversteps(st: Rcv, seg: Segment, copied: bool) {
    Accepted(st, seg) && (
      || (Misplaced(st, seg) && st.nxt == st.annEdge)
      || (Overruns(st.ooseq, Taken(st, seg), st.annEdge) && (Taken(st, seg).at == st.nxt || copied))
      || (copied && st.annEdge < Right(st) && st.nxt < Taken(st, seg).at
          && SpuriousCut(st.ooseq, Taken(st, seg), Right(st))))
  }

  lemma ArriveHeeded(st: Rcv, mss: u16, seg: Segment, copied: bool, acked: bool)
    requires Structure(st) && WindowOk(st, mss) && ReceivedBelow(st, st.annEdge) && seg.Next() <= st.annEdge
    ensures ReceivedBelow(Receive(st, mss, seg, copied, acked).0, st.annEdge) <==> !Oversteps(st, seg, copied)
  {
    if Accepted(st, seg) {
      TakenBelow(st, seg, st.annEdge);
      var s := Taken(st, seg);
      if st.nxt < s.at {
        QueuedBelow(st, s, st.annEdge);
      } else {
        InOrderStructure(st, s);
        if s.Next() <= st.annEdge { InOrderBelow(st, s, st.annEdge); }
      }
    }
  }

  predicate Overstepping(st: Rcv, ev: Event) {
    ev.Arrive? && Oversteps(st, ev.seg, ev.copied)
  }

  lemma OverfillsOversteps(st: Rcv, mss: u16, seg: Segment, copied: bool)
    requires Structure(st) && WindowOk(st, mss) && seg.Next() <= st.annEdge && st.nxt <= st.annEdge
    ensures Overfills(st, seg, copied) ==> Oversteps(st, seg, copied)
  {
    if Overfills(st, seg, copied) { TakenBelow(st, seg, st.annEdge); }
  }

  lemma StepHeeded(st: Rcv, mss: u16, ev: Event)
    requires Structure(st) && WindowOk(st, mss) && ReceivedBelow(st, st.annEdge) && Heeds(st, ev)
    ensures var st' := Step(st, mss, ev).0;
      && (ReceivedBelow(st', st.annEdge) <==> !Overstepping(st, ev))
      && (ReceivedBelow(st', st.annEdge) ==> WindowOk(st', mss) && ReceivedBelow(st', st'.annEdge))
  {
    if ev.Arrive? {
      ArriveHeeded(st, mss, ev.seg, ev.copied, ev.acked);
      if !Overstepping(st, ev) {
        OverfillsOversteps(st, mss, ev.seg, ev.copied);
        StepWindow(st, mss, ev);
      }
    } else {
      StepWindow(st, mss, ev);
    }
  }

  ghost predicate AllHeed(st: Rcv, mss: u16, evs: seq<Event>)
    requires Structure(st)
    decreases |evs|
  {
    evs == [] || (
      var st' := Step(st, mss, evs[0]).0;
      Heeds(st, evs[0]) && (Structure(st') ==> AllHeed(st', mss, evs[1..])))
  }

  ghost predicate NeverOversteps(st: Rcv, mss: u16, evs: seq<Event>)
    requires Structure(st)
    decreases |evs|
  {
    evs == [] || (
      var st' := Step(st, mss, evs[0]).0;
      !Overstepping(st, evs[0]) && (Structure(st') ==> NeverOversteps(st', mss, evs[1..])))
  }

  // After every event what has been received lies at or below the edge announced before it.
  ghost predicate StaysBelow(st: Rcv, mss: u16, evs: seq<Event>)
    requires Structure(st)
    decreases |evs|
  {
    evs == [] || (
      var st' := Step(st, mss, evs[0]).0;
      ReceivedBelow(st', st.annEdge) && (Structure(st') ==> StaysBelow(st', mss, evs[1..])))
  }

  // Over every run of a peer that stays at or below the announced edge, `rcv_nxt` does not overtake
  // it, exactly while nothing oversteps it: what `TcpReceiver.Receiver` requires as `Recent`.
  lemma {:induction false} NeverOvertaken(st: Rcv, mss: u16, evs: seq<Event>)
    requires Structure(st) && WindowOk(st, mss) && ReceivedBelow(st, st.annEdge) && AllHeed(st, mss, evs)
    ensures StaysBelow(st, mss, evs) <==> NeverOversteps(st, mss, evs)
    ensures NeverOversteps(st, mss, evs) ==> var last := Run(st, mss, evs).0; last.nxt <= last.annEdge
    decreases |evs|
  {
    if evs != [] {
      StepStructure(st, mss, evs[0]);
      StepHeeded(st, mss, evs[0]);
      if !Overstepping(st, evs[0]) {
        NeverOvertaken(Step(st, mss, evs[0]).0, mss, evs[1..]);
      }
    }
  }
}
