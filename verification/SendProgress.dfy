// What a sender must do: send all that the window lets go, take off the queues all that is
// acknowledged, and retransmit when the timer or three duplicates say so.
module SendProgress {
  import opened SeqNum
  import opened SendQueue
  import opened SendRuns
  import opened Conservation

  // ----- transmission ------------------------------------------------------------------------

  lemma {:induction false} FittingExact(q: seq<Tx>, una: int, wnd: int)
    requires Apart(q)
    ensures forall i | 0 <= i < |q| :: q[i].End() - una <= wnd <==> i < Fitting(q, una, wnd)
    decreases |q|
  {
    if q != [] && q[0].End() - una <= wnd {
      var rest := q[1..];
      FittingExact(rest, una, wnd);
      assert forall i | 0 < i < |q| :: q[i] == rest[i - 1];
    }
  }

  // Just the first segments of a queue, as far as they end inside the window.
  ghost predicate JustWhatFits(q: seq<Tx>, out: seq<Tx>, una: int, wnd: int) {
    && |out| <= |q| && out == q[..|out|]
    && forall i | 0 <= i < |q| :: q[i].End() - una <= wnd <==> i < |out|
  }

  lemma FittingJust(q: seq<Tx>, una: int, wnd: int)
    requires Apart(q)
    ensures JustWhatFits(q, q[..Fitting(q, una, wnd)], una, wnd)
  {
    FittingExact(q, una, wnd);
  }

  // tcp_output sends exactly the segments that end inside the window, and counts them as sent.
  lemma SendsWhatFits(st: Snd, wnd: int) returns (sent: seq<Tx>)
    requires Conserved(st)
    ensures JustWhatFits(st.unsent, sent, st.una, wnd)
    ensures Output(st, wnd) == st.(
      unacked := st.unacked + sent,
      unsent := st.unsent[|sent|..],
      nxt := if sent != [] && st.nxt < sent[|sent| - 1].End() then sent[|sent| - 1].End() else st.nxt,
      oversize := if |sent| < |st.unsent| then st.oversize else 0)
  {
    QueuesApart(st);
    FittingJust(st.unsent, st.una, wnd);
    sent := st.unsent[..Fitting(st.unsent, st.una, wnd)];
  }

  // ----- acknowledgements --------------------------------------------------------------------

  // What is left of a queue is what is not acknowledged whole, in its order.
  ghost predicate Remains(q: seq<Tx>, r: seq<Tx>, a: int) {
    && |r| <= |q| && r == q[|q| - |r|..]
    && forall i | 0 <= i < |q| :: q[i].End() <= a <==> i < |q| - |r|
  }

  lemma {:induction false} DroppedExact(q: seq<Tx>, a: int)
    requires Apart(q)
    ensures Remains(q, DropAcked(q, a), a)
    decreases |q|
  {
    if q != [] && q[0].End() <= a {
      var rest := q[1..];
      DroppedExact(rest, a);
      assert forall i | 0 < i < |q| :: q[i] == rest[i - 1];
    }
  }

  // A new acknowledgement moves snd_una there and frees exactly the segments it covers; any other,
  // unless it is misread, changes nothing.
  lemma TakesWhatIsAcknowledged(st: Snd, ackno: u32)
    requires Conserved(st) && (st.unsent != [] ==> !Opposite(st, st.unsent[0], Position(st, ackno)))
    ensures var a, st' := Position(st, ackno), Acknowledge(st, ackno);
      if st.una < a <= st.nxt then
        && st'.una == a && st'.sndBuf == st.sndBuf + (a - st.una)
        && Remains(st.unacked, st'.unacked, a) && Remains(st.unsent, st'.unsent, a)
        && st'.queuelen == Pbufs(st'.unacked) + Pbufs(st'.unsent)
        && st'.oversize == (if st'.unsent == [] then 0 else st.oversize)
        && st'.stream == st.stream && st'.nxt == st.nxt
      else st' == st
  {
    var a := Position(st, ackno);
    if st.una < a <= st.nxt {
      QueuesApart(st);
      DropUnsentNew(st.unsent, st, a);
      DroppedExact(st.unacked, a);
      DroppedExact(st.unsent, a);
      PbufsConcat(st.unacked, st.unsent);
    } else {
      OtherAck(st, ackno);
    }
  }

  // ----- duplicate acknowledgements ----------------------------------------------------------

  // The same number again, n times.
  function Duplicates(c: Side, ackno: u32, n: nat): Side {
    if n == 0 then c else Acked(Duplicates(c, ackno, n - 1), ackno, true)
  }

  lemma HeadInSpan(st: Snd)
    requires Conserved(st)
    ensures st.unsent != [] ==> st.una < st.unsent[0].End() <= st.una + HALF
  {
    var q, n := st.unacked + st.unsent, |st.unacked|;
    if st.unsent != [] {
      QueuesApart(st);
      CarriesAll(q, st.stream, First(q, st.stream));
      assert q[n] == st.unsent[0] && q[n] in q;
      assert q[0].End() <= q[n].End();
    }
  }

  lemma DuplicateIgnored(st: Snd, ackno: u32)
    requires Conserved(st) && Position(st, ackno) == st.una
    ensures Acknowledge(st, ackno) == st
  {
    HeadInSpan(st);
    OtherAck(st, ackno);
  }

  // With something in flight the third duplicate, and no other, sends the first segment again, and
  // none of them moves anything.
  lemma {:induction false} ThirdDuplicateRetransmits(c: Side, ackno: u32, n: nat)
    requires Conserved(c.st) && !c.down && c.timer && c.st.unacked != [] && c.dupacks <= 255
    requires Position(c.st, ackno) == c.st.una
    ensures Duplicates(c, ackno, n) == c.(dupacks := Min(c.dupacks + n, 255))
    ensures Transmitted(Duplicates(c, ackno, n), Ack(ackno, true))
         == if c.dupacks + n == 2 then [c.st.unacked[0]] else []
    decreases n
  {
    if n > 0 {
      ThirdDuplicateRetransmits(c, ackno, n - 1);
      DuplicateIgnored(c.st, ackno);
    }
  }

  // A duplicate adds to a count of k; an acknowledgement that is none, unless it is beyond snd_nxt,
  // starts it again; nothing else matters.
  function Counted(c: Side, ev: Event, k: nat): nat {
    match ev
    case Ack(ackno, plain) =>
      if Duplicate(c, ackno, plain) then k + 1
      else if Position(c.st, ackno) <= Max(c.st.una, c.st.nxt) then 0 else k
    case _ => k
  }

  function InARow(run: seq<Side>, evs: seq<Event>, n: nat): nat
    requires |run| == |evs| + 1 && n <= |evs|
  {
    if n == 0 then run[0].dupacks else Counted(run[n - 1], evs[n - 1], InARow(run, evs, n - 1))
  }

  lemma CountStep(c: Side, ev: Event, c': Side, k: nat)
    requires 0 < c.mss && 0 <= c.st.oversize && Next(c, ev, c') && !c.down && c.dupacks == Min(k, 255)
    ensures c'.dupacks == Min(Counted(c, ev, k), 255)
  {
  }

  // Over every run the counter counts just the duplicates in a row, whatever else happens in between,
  // and a fast retransmit is called for exactly the third.
  lemma {:induction false} CountsInARow(run: seq<Side>, evs: seq<Event>, n: nat)
    requires Trace(run, evs) && n <= |evs| && run[0].dupacks <= 255 && !run[n].down
    ensures run[n].dupacks == Min(InARow(run, evs, n), 255)
    ensures n < |evs| && evs[n].Ack? && Duplicate(run[n], evs[n].ackno, evs[n].plain) ==>
      (FastRetransmits(run[n], evs[n].ackno, evs[n].plain) <==> InARow(run, evs, n + 1) == 3)
    decreases n
  {
    if n > 0 {
      assert Next(run[n - 1], evs[n - 1], run[n]);
      CountsInARow(run, evs, n - 1);
      CountStep(run[n - 1], evs[n - 1], run[n], InARow(run, evs, n - 1));
    }
  }

  // ----- the retransmission timer ------------------------------------------------------------

  // A send side and its pcb->rtime, -1 while the timer is stopped.
  datatype Clock = Clock(side: Side, rtime: int)

  // One tick of tcp_slowtmr while the window is open.
  function Tick(c: Clock, rto: nat, wnd: int): Clock {
    var r := if c.rtime >= 0 then c.rtime + 1 else c.rtime;
    if c.side.st.unacked != [] && r >= rto then Clock(TimedOut(c.side, wnd), 0) else c.(rtime := r)
  }

  function Ticks(c: Clock, rto: nat, wnd: int, k: nat): Clock {
    if k == 0 then c else Tick(Ticks(c, rto, wnd, k - 1), rto, wnd)
  }

  // The first tick at which `r` ticks have become `rto`.
  predicate DueAt(r: int, rto: nat, k: nat) {
    0 < k && r + k >= rto && (k == 1 || r + k - 1 < rto)
  }

  // With nothing but ticks, a running timer over something unacknowledged counts them, and requeues at
  // the first that makes `rto`, not before and not later; a stopped one does nothing.
  lemma {:induction false} ExpiresOnTime(c: Clock, rto: nat, wnd: int, k: nat)
    requires c.side.st.unacked != []
    ensures 0 <= c.rtime && (k == 0 || c.rtime + k < rto) ==> Ticks(c, rto, wnd, k) == c.(rtime := c.rtime + k)
    ensures 0 <= c.rtime && DueAt(c.rtime, rto, k) ==> Ticks(c, rto, wnd, k) == Clock(TimedOut(c.side, wnd), 0)
    ensures c.rtime < 0 ==> Ticks(c, rto, wnd, k) == c
    decreases k
  {
    if k > 0 {
      ExpiresOnTime(c, rto, wnd, k - 1);
    }
  }

  lemma OutputFirst(st: Snd, wnd: int)
    requires Conserved(st) && st.unacked == []
    ensures var k := Fitting(st.unsent, st.una, wnd);
      Output(st, wnd).unacked == st.unsent[..k] && Output(st, wnd).unsent == st.unsent[k..]
  {
  }

  lemma TimeoutSends(c: Side, wnd: int, st: Snd)
    requires !c.down && Expires(c, wnd) && st == Requeue(c.st) && Conserved(st) && st.unacked == []
    ensures var out, c' := Transmitted(c, Timeout(wnd)), TimedOut(c, wnd);
      && JustWhatFits(st.unsent, out, st.una, wnd)
      && c'.st.unacked == out && c'.st.unsent == st.unsent[|out|..]
  {
    QueuesApart(st);
    FittingJust(st.unsent, st.una, wnd);
    OutputFirst(st, wnd);
  }

  // A timeout sends from the first unacknowledged segment on all that fits, and that is what is in
  // flight afterwards.
  lemma TimeoutRetransmits(c: Side, wnd: int, q: seq<Tx>)
    requires Conserved(c.st) && !c.down && Expires(c, wnd) && q == c.st.unacked + c.st.unsent
    ensures var out, c' := Transmitted(c, Timeout(wnd)), TimedOut(c, wnd);
      && JustWhatFits(q, out, c.st.una, wnd)
      && c'.st.unacked == out && c'.st.unsent == q[|out|..]
  {
    RequeueInv(c.st, 1);
    TimeoutSends(c, wnd, Requeue(c.st));
  }
}
