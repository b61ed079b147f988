// What a receiver must accept: new text is never turned away while the window is open.
module ReceiveProgress {
  import opened SeqNum
  import opened Reassembly
  import opened Delivery
  import opened ReceiveRuns

  // ----- a segment that reaches beyond rcv_nxt -----------------------------------------------

  lemma DrainReaches(s: Slice, rest: seq<Slice>)
    requires Chained(rest) && forall r | r in rest :: s.Next() <= r.at
    ensures Drain(s.at, [s] + rest).nxt >= s.Next()
  {
    assert ([s] + rest)[1..] == rest;
    if rest != [] { assert rest[0] in rest; }
    DrainStructure(s.Next(), rest);
  }

  // Where the segment meets the next one, the queue goes on.
  lemma DrainReachesOn(s: Slice, rest: seq<Slice>)
    requires Chained(rest) && rest != [] && s.Next() == rest[0].at
    ensures Drain(s.at, [s] + rest).nxt >= rest[0].Next()
  {
    var q := [s] + rest;
    assert q[1..] == rest;
    if |rest| > 1 { assert rest[1..][0] in rest[1..]; }
    DrainStructure(rest[0].Next(), rest[1..]);
  }

  // Whatever the queue holds, a segment at its front is drained whole.
  lemma {:induction false} MergeReaches(s: Slice, rest: seq<Slice>)
    requires Chained(rest) && (rest == [] || s.at <= rest[0].at)
    ensures Drain(s.at, Merge(s, rest)).nxt >= s.Next()
    decreases |rest|
  {
    if s.fin || rest == [] {
      assert [s] + [] == [s];
      DrainReaches(s, []);
    } else if rest[0].End() <= s.End() {
      assert |rest| > 1 ==> rest[1..][0] in rest[1..];
      MergeReaches(s.(fin := rest[0].fin), rest[1..]);
    } else if rest[0].at < s.End() {
      DrainReachesOn(s.CutAt(rest[0].at), rest);
    } else {
      assert rest == [rest[0]] + rest[1..];
      DrainReaches(s, rest);
    }
  }

  // While the window is open, everything new in a segment that starts at or before `rcv_nxt` is handed
  // up, as far as the window reaches, from an honest peer or not.
  lemma NewTextAccepted(st: Rcv, mss: u16, seg: Segment, copied: bool, acked: bool)
    requires Structure(st) && st.open && 0 < st.wnd && seg.at <= st.nxt < seg.Next()
    ensures Receive(st, mss, seg, copied, acked).0.nxt >= Min(seg.Next(), st.nxt + st.wnd)
  {
    TrimmedIsNew(st, seg);
    var s := NewText(st.nxt, seg);
    AheadOf(st.nxt, st.ooseq);
    MergeReaches(FitWindow(st, s), st.ooseq);
  }

  // A number of the segment that lies below an edge.
  predicate Carries(seg: Slice, x: int, edge: int) {
    seg.at <= x < Min(seg.Next(), edge)
  }

  lemma FitsBelow(st: Rcv, seg: Segment, x: int)
    requires 0 < st.wnd && seg.at <= st.nxt < seg.Next() && st.nxt <= x
    ensures Within(FitWindow(st, NewText(st.nxt, seg)), x) <==> Carries(seg, x, st.nxt + st.wnd)
  {
  }

  // From an honest peer: `rcv_nxt` comes to rest at the first number that neither the segment carries
  // inside the window nor the queue holds, and the queue keeps just what they hold beyond it.
  lemma RestsAtFirstGap(p: Peer, st: Rcv, mss: u16, seg: Segment, copied: bool, acked: bool, x: int)
    requires Good(p, st) && st.open && 0 < st.wnd && p.Sent(seg) && seg.at <= st.nxt < seg.Next() && st.nxt <= x
    ensures var st' := Receive(st, mss, seg, copied, acked).0;
      && (x < st'.nxt ==> Carries(seg, x, st.nxt + st.wnd) || Has(st.ooseq, x))
      && (x == st'.nxt ==> !Carries(seg, x, st.nxt + st.wnd) && !Has(st.ooseq, x))
      && (Has(st'.ooseq, x) <==> st'.nxt <= x && (Carries(seg, x, st.nxt + st.wnd) || Has(st.ooseq, x)))
  {
    TrimmedIsNew(st, seg);
    FromSent(p, seg, st.nxt);
    FitsBelow(st, seg, x);
    DeliversAllItCan(p, st, NewText(st.nxt, seg), x);
  }

  // ----- a segment that starts later ---------------------------------------------------------

  lemma AheadIsQueued(st: Rcv, mss: u16, seg: Segment, copied: bool, acked: bool)
    requires Structure(st) && st.open && 0 < seg.TcpLen() && st.nxt < seg.at < st.nxt + st.wnd
    ensures var q := if copied then Enqueue(st.ooseq, seg, st.nxt + st.wnd) else st.ooseq;
      Receive(st, mss, seg, copied, acked)
      == (st.(ooseq := q, annEdge := if acked then st.nxt + st.annWnd else st.annEdge), [], false)
  {
  }

  lemma EnqueueHas(p: Peer, q: seq<Slice>, s: Slice, right: int, x: int)
    requires Chained(q) && Honest(p, q) && p.Sent(s)
    ensures Refused(q, s) ==> Enqueue(q, s, right) == q
    ensures !Refused(q, s) ==>
      (Has(Enqueue(q, s, right), x) <==> Within(Kept(q, s, right), x) || (Has(q, x) && !Yielded(q, s, x)))
  {
    if q == [] {
      HasCons(s, [], x);
      assert [s] + [] == [s];
    } else {
      PlaceHas(p, q, s, right, x);
    }
  }

  // What the append branch keeps of a segment reaches to the right edge, unless it is cut spuriously.
  lemma KeptBelow(q: seq<Slice>, s: Slice, right: int, x: int)
    requires s.at < right <= s.at + 0xffff && !SpuriousCut(q, s, right)
    requires !Refused(q, s)
    ensures Carries(s, x, right) ==> Within(Kept(q, s, right), x)
  {
  }

  // From the queue `q` to the queue `q'`: every number of the segment below the right edge is held, and
  // all that was, but for what yields to it; and nothing else is.
  ghost predicate Gains(q: seq<Slice>, q': seq<Slice>, seg: Slice, right: int, x: int) {
    && (Carries(seg, x, right) && !SpuriousCut(q, seg, right) ==> Has(q', x))
    && (Has(q, x) && !Yielded(q, seg, x) ==> Has(q', x))
    && (Has(q', x) ==> Within(Kept(q, seg, right), x) || Has(q, x))
  }

  lemma EnqueueGains(p: Peer, q: seq<Slice>, s: Slice, right: int, x: int)
    requires Chained(q) && Honest(p, q) && p.Sent(s) && s.at < right <= s.at + 0xffff && !Refused(q, s)
    ensures Gains(q, Enqueue(q, s, right), s, right, x)
  {
    EnqueueHas(p, q, s, right, x);
    if !SpuriousCut(q, s, right) { KeptBelow(q, s, right, x); }
  }

  // That is what a segment inside the window does when there is memory for it and the queue does not
  // keep what it has at its place; otherwise the queue stays as it is.
  lemma AheadGains(p: Peer, st: Rcv, mss: u16, seg: Segment, copied: bool, acked: bool, x: int)
    requires Good(p, st) && st.open && p.Sent(seg) && 0 < seg.TcpLen() && st.nxt < seg.at < st.nxt + st.wnd
    ensures var q' := Receive(st, mss, seg, copied, acked).0.ooseq;
      if copied && !Refused(st.ooseq, seg) then Gains(st.ooseq, q', seg, st.nxt + st.wnd, x) else q' == st.ooseq
  {
    var q, right := st.ooseq, st.nxt + st.wnd;
    AheadIsQueued(st, mss, seg, copied, acked);
    if copied {
      if Refused(q, seg) {
        EnqueueHas(p, q, seg, right, x);
      } else {
        EnqueueGains(p, q, seg, right, x);
      }
    }
  }

  // What is refused would bring no text: the queue holds it already.
  lemma RefusedIsHeld(p: Peer, q: seq<Slice>, s: Slice, x: int)
    requires Honest(p, q) && p.Sent(s) && Refused(q, s) && s.at <= x < s.End()
    ensures Has(q, x)
  {
    if exists r :: r in q && r.at == s.at && s.len <= r.len {
      var r :| r in q && r.at == s.at && s.len <= r.len;
      assert r.at <= x < r.Next();
    } else {
      assert Last(q) in q && Last(q).at <= x < Last(q).Next();
    }
  }

  // So, where there is memory, all text that starts inside the window is held afterwards, as far as the
  // window reaches and nothing is cut off spuriously.
  lemma AheadIsHeld(p: Peer, st: Rcv, mss: u16, seg: Segment, acked: bool, x: int)
    requires Good(p, st) && st.open && p.Sent(seg) && 0 < seg.TcpLen() && st.nxt < seg.at < st.nxt + st.wnd
    requires seg.at <= x < Min(seg.End(), st.nxt + st.wnd) && !SpuriousCut(st.ooseq, seg, st.nxt + st.wnd)
    ensures Has(Receive(st, mss, seg, true, acked).0.ooseq, x)
  {
    AheadGains(p, st, mss, seg, true, acked, x);
    if Refused(st.ooseq, seg) { RefusedIsHeld(p, st.ooseq, seg, x); }
  }

  // ----- any other segment -------------------------------------------------------------------

  // Nothing changes but what an acknowledgement announces.
  lemma OnlyAnswered(st: Rcv, mss: u16, seg: Segment, copied: bool, acked: bool)
    requires Structure(st)
    requires !(st.open && 0 < seg.TcpLen() && 0 < st.wnd && seg.at < st.nxt + st.wnd && st.nxt < seg.Next())
    requires !Misplaced(st, seg) && !Planted(st, seg, copied)
    ensures var answers := st.open && 0 < seg.TcpLen() && acked;
      Receive(st, mss, seg, copied, acked)
      == (st.(annEdge := if answers then st.nxt + st.annWnd else st.annEdge), [], false)
  {
    ReceiveAsIntended(st, mss, seg, copied, acked);
  }

  // The connection is told of the FIN exactly when it has been reached.
  lemma FinReported(st: Rcv, mss: u16, seg: Segment, copied: bool, acked: bool)
    requires Structure(st)
    ensures var (st', data, fin) := Receive(st, mss, seg, copied, acked); fin <==> st.open && !st'.open
  {
  }
}
