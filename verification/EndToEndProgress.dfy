// What both sides of a connection together must do: whatever has been lost before, one retransmission
// that gets through and is answered moves the sender on.
module EndToEndProgress {
  import opened SeqNum
  import opened Reassembly
  import opened SendQueue
  import opened EndToEnd
  import Conservation
  import ReceiveProgress
  import ReceiveRuns
  import SendProgress
  import SendRuns

  // The first segment of a queue that carries the unacknowledged stream reaches beyond snd_una.
  lemma FirstReaches(st: Snd)
    requires Conserved(st) && st.unacked != []
    ensures var x := st.unacked[0];
      && x.at <= st.una < x.End() <= st.nxt && 0 < |x.data| <= 0xffff
      && x in st.unacked + st.unsent && (st.unacked + st.unsent)[0] == x
  {
    var q := st.unacked + st.unsent;
    assert q[0] == st.unacked[0] && q[0] in q && st.unacked[0] in st.unacked;
  }

  // When that segment arrives, the receiver has all of it afterwards, as far as its window reaches.
  lemma ArrivalCounts(p: Pair, mss: u16, x: Tx, copied: bool, acked: bool)
    requires Sound(p) && 0 < p.rcv.wnd && |x.data| <= 0xffff && x.at <= p.rcv.nxt && p.rcv.nxt - HALF < x.at
    requires Sent(p.snd).Sent(OnWire(x))
    ensures var ev := SegmentArrives(x, copied, acked);
      ReceiveRuns.Step(p.rcv, mss, Receiving(p, ev)).0.nxt >= Min(x.End(), p.rcv.nxt + p.rcv.wnd)
  {
    var ev, seg := SegmentArrives(x, copied, acked), OnWire(x);
    SeenInPlace(p, ev);
    if p.rcv.nxt < seg.Next() {
      ReceiveProgress.NewTextAccepted(p.rcv, mss, seg, copied, acked);
    } else {
      ReceiveProgress.OnlyAnswered(p.rcv, mss, seg, copied, acked);
    }
  }

  // An acknowledgement of something sent moves snd_una to it.
  lemma AckCounts(c: Conservation.Side, num: int, plain: bool)
    requires Conserved(c.st) && !c.down && c.st.una < num <= c.st.nxt
    ensures Conservation.Acked(c, Wrap(num), plain).st.una == num
  {
    LocateWrap(c.st.una, num);
    SendProgress.HeadInSpan(c.st);
    SendProgress.TakesWhatIsAcknowledged(c.st, Wrap(num));
  }

  // After a timeout the first unacknowledged segment is in flight again.
  lemma TimeoutSendsFirst(c: Conservation.Side, wnd: int, x: Tx)
    requires 0 < c.mss && Conserved(c.st) && !c.down && Conservation.Expires(c, wnd) && x == c.st.unacked[0]
    requires x.End() - c.st.una <= wnd
    ensures x in Conservation.Transmitted(c, Conservation.Timeout(wnd))
    ensures var c' := Conservation.TimedOut(c, wnd);
      && c'.st.una == c.st.una && Conserved(c'.st) && c'.down == c.down
      && c'.st.stream == c.st.stream && x.End() <= c'.st.nxt
  {
    var q := c.st.unacked + c.st.unsent;
    assert q[0] == x;
    SendProgress.TimeoutRetransmits(c, wnd, q);
    Conservation.TimeoutConserves(c, wnd);
    var out := Conservation.Transmitted(c, Conservation.Timeout(wnd));
    assert out[0] == x && out[0] in out;
    Conservation.WireBelowNext(c, Conservation.Timeout(wnd), Conservation.TimedOut(c, wnd), x);
  }

  // The retransmission timer expires ...
  lemma TimeoutStep(p: Pair, mss: u16, wnd: int, p': Pair, x: Tx)
    requires Sound(p) && !p.snd.down && Conservation.Expires(p.snd, wnd) && x == p.snd.st.unacked[0]
    requires x.End() - p.snd.st.una <= wnd && Next(p, mss, Local(Conservation.Timeout(wnd)), p')
    ensures Sound(p') && !p'.snd.down && p'.rcv == p.rcv && p'.snd.st.una == p.snd.st.una
    ensures |x.data| <= 0xffff && Sent(p'.snd).Sent(OnWire(x))
  {
    var ev := Conservation.Timeout(wnd);
    TimeoutSendsFirst(p.snd, wnd, x);
    SenderStep(p, mss, Local(ev), p');
    TransmittedIsSent(p.snd, ev, p'.snd, x);
  }

  // ... its first segment arrives ...
  lemma ArrivalStep(p: Pair, mss: u16, x: Tx, copied: bool, acked: bool, p': Pair)
    requires Sound(p) && 0 < p.rcv.wnd && |x.data| <= 0xffff && Sent(p.snd).Sent(OnWire(x))
    requires x.at <= p.snd.st.una < x.End() && Next(p, mss, SegmentArrives(x, copied, acked), p')
    ensures Sound(p') && p'.snd == p.snd && p'.rcv.nxt >= Min(x.End(), p.rcv.nxt + p.rcv.wnd)
  {
    var ev := SegmentArrives(x, copied, acked);
    SentWithin(p.snd.st);
    SeenInPlace(p, ev);
    ArrivalCounts(p, mss, x, copied, acked);
    ReceiverStep(p, mss, ev, p');
  }

  // ... and so does what acknowledges it.
  lemma AckStep(p: Pair, mss: u16, plain: bool, p': Pair)
    requires Sound(p) && !p.snd.down && p.snd.st.una < p.rcv.nxt && Next(p, mss, AckArrives(p.rcv.nxt, plain), p')
    ensures p'.snd.st.una == p.rcv.nxt
  {
    AckCounts(p.snd, p.rcv.nxt, plain);
  }

  // From every sound state, whatever was lost on the way there: after one such round snd_una has moved
  // on, past the segment or to the end of the receiver's window.
  lemma OneRoundMovesOn(p0: Pair, p1: Pair, p2: Pair, p3: Pair, mss: u16, wnd: int, copied: bool, acked: bool,
                        plain: bool)
    requires Sound(p0) && !p0.snd.down && Conservation.Expires(p0.snd, wnd) && 0 < p0.rcv.wnd
    requires p0.snd.st.unacked[0].End() - p0.snd.st.una <= wnd
    requires Next(p0, mss, Local(Conservation.Timeout(wnd)), p1)
    requires WellFormed(p1) && Next(p1, mss, SegmentArrives(p0.snd.st.unacked[0], copied, acked), p2)
    requires WellFormed(p2) && Next(p2, mss, AckArrives(p2.rcv.nxt, plain), p3)
    ensures p3.snd.st.una > p0.snd.st.una
    ensures p3.snd.st.una >= Min(p0.snd.st.unacked[0].End(), p0.rcv.nxt + p0.rcv.wnd)
  {
    var x := p0.snd.st.unacked[0];
    FirstReaches(p0.snd.st);
    TimeoutStep(p0, mss, wnd, p1, x);
    ArrivalStep(p1, mss, x, copied, acked, p2);
    AckStep(p2, mss, plain, p3);
  }
}
