// The receive side of a TCP control block as core/tcp_in.c and core/tcp.c run it: 32-bit wrapping
// sequence numbers and 16-bit windows, updated in place.  Every method is proved to do what
// `Reassembly` says over unbounded numbers.
module TcpReceiver {
  import opened SeqNum
  import opened Reassembly
  import opened OosQueue
  import ReceiveRuns

  // ----- the two tests an arriving segment meets ----------------------------------------------

  // A segment as the comparisons with rcv_nxt place it.
  function Seen(nxt: int, c: TcpSeg): Slice {
    Slice(Locate(nxt, c.seqno), c.len, c.payload, c.fin)
  }

  // The one number at which the signed difference cannot be right: x - y is half the space.
  lemma CompareHalf(x: int, y: int)
    requires x - y == HALF
    ensures SeqLeq(Wrap(x), Wrap(y)) && !SeqGeq(Wrap(x), Wrap(y))
  {
    WrapShift(x, -1);
    DiffWrap(x - MODULUS, y);
  }

  lemma CompareLow(x: int, y: int)
    requires -HALF <= x - y < HALF
    ensures SeqGeq(Wrap(x), Wrap(y)) <==> x >= y
  {
    DiffWrap(x, y);
  }

  lemma FrontTest(st: Rcv, g: Slice)
    requires -HALF <= g.at - st.nxt < HALF && 0 < g.TcpLen() <= 0x1_0000
    ensures SeqBetween(Wrap(st.nxt), Wrap(Wrap(g.at) + 1), Wrap(Wrap(g.at) + g.TcpLen() - 1))
       <==> g.at < st.nxt < g.Next() || HalfBehind(st, g)
  {
    var nxt := st.nxt;
    WrapAdd(g.at, 1);
    WrapAdd(g.at, g.TcpLen() - 1);
    CompareLow(nxt, g.at + 1);
    if g.at == nxt - HALF && g.TcpLen() == 1 {
      CompareHalf(nxt, g.at);
    } else if g.at < nxt {
      Compare(nxt, g.Next() - 1);
    }
  }

  lemma WindowTest(st: Rcv, s: Slice)
    requires -HALF <= s.at - st.nxt < HALF
    ensures SeqBetween(Wrap(s.at), Wrap(st.nxt), Wrap(Wrap(st.nxt) + st.wnd - 1)) <==> SeemsInWindow(st, s)
  {
    var nxt, at := st.nxt, s.at;
    WrapAdd(nxt, st.wnd - 1);
    CompareLow(at, nxt);
    if HalfAhead(st, s) {
      CompareHalf(at, nxt - 1);
    } else if nxt <= at {
      Compare(at, nxt + st.wnd - 1);
    }
  }

  // The offset of the front test, in the 16 bits the code keeps of it: none at all from half the
  // sequence space behind.
  lemma SmallOffset(nxt: int, g: Slice)
    requires g.at == nxt - HALF || (g.at < nxt < g.Next() && g.TcpLen() <= 0x1_0000)
    ensures Wrap16(Wrap(Wrap(nxt) - Wrap(g.at))) == if g.at == nxt - HALF then 0 else nxt - g.at
  {
    if g.at == nxt - HALF {
      Length16(nxt, g.at);
    } else {
      SmallDiff(nxt, g.at);
    }
  }

  // The windows once rcv_nxt has come from st.nxt to `nxt`.
  predicate Accounted(st: Rcv, mss: u16, nxt: int, wnd: u16, annWnd: u16)
    requires st.annEdge <= nxt + 0xffff
  {
    match st
    case Rcv(first, was, _, annEdge, _, _) =>
      wnd == Wrap16(was - (nxt - first)) && annWnd == AnnouncedWindow(nxt, wnd, annEdge, mss)
  }

  // Counting a 16-bit window down in two steps.
  lemma WindowLeft(st: Rcv, mss: u16, mid: int, wnd: u16, annWnd: u16, nxt: int, wnd': u16, annWnd': u16)
    requires st.annEdge <= mid + 0xffff && st.annEdge <= nxt + 0xffff && Accounted(st, mss, mid, wnd, annWnd)
    requires wnd' == Wrap16(wnd - (nxt - mid)) && annWnd' == AnnouncedWindow(nxt, wnd', st.annEdge, mss)
    ensures Accounted(st, mss, nxt, wnd', annWnd')
  {
    Wrap16Sub(st.wnd, mid - st.nxt, nxt - mid);
  }

  lemma DeliveredState(st: Rcv, mss: u16, d: Delivery, st': Rcv)
    requires st'.nxt == d.nxt && st'.ooseq == d.rest && st'.open == !d.fin && st'.annEdge == st.annEdge
    requires st.annEdge <= d.nxt + 0xffff && Accounted(st, mss, st'.nxt, st'.wnd, st'.annWnd)
    ensures st' == Delivered(st, mss, d)
  {
  }

  // What an IPv4 datagram has room for behind the two headers.
  const MAX_TEXT := 0xffff - 40

  // ----- the control block -------------------------------------------------------------------

  class Receiver {
    var rcvNxt: u32
    var rcvWnd: u16
    var rcvAnnWnd: u16
    var rcvAnnRightEdge: u32
    var ooseq: seq<TcpSeg>
    var open: bool           // below CLOSE_WAIT: segment text is still wanted
    const mss: u16

    ghost var nxt: int
    ghost var annEdge: int
    ghost var queue: seq<Slice>

    ghost function State(): Rcv
      reads this
    {
      Rcv(nxt, rcvWnd, rcvAnnWnd, annEdge, queue, open)
    }

    // The fields represent `State()`.
    ghost predicate Mirrors()
      reads this
    {
      rcvNxt == Wrap(nxt) && rcvAnnRightEdge == Wrap(annEdge) && RepAll(ooseq, queue)
    }

    ghost predicate Valid()
      reads this
    {
      Mirrors() && Structure(State())
    }

    // What we announced last is less than half the sequence space behind anything that one segment
    // can complete: tcp_update_rcv_ann_wnd asserts as much.
    ghost predicate Recent()
      reads this
    {
      nxt + 0x1_ffff < annEdge + HALF
    }

    constructor (irs: u32, mss: u16)
      ensures Valid() && Recent()
      ensures State() == Rcv(irs + 1, TCP_WND, TCP_WND, irs + 1, [], true) && this.mss == mss
    {
      this.mss := mss;
      rcvNxt, rcvWnd, rcvAnnWnd := Wrap(irs + 1), TCP_WND, TCP_WND;
      rcvAnnRightEdge, ooseq, open := Wrap(irs + 1), [], true;
      nxt, annEdge, queue := irs + 1, irs + 1, [];
    }

    // tcp_update_rcv_ann_wnd
    method UpdateAnnouncedWindow() returns (inflation: u32)
      requires rcvNxt == Wrap(nxt) && rcvAnnRightEdge == Wrap(annEdge)
      requires annEdge <= nxt + 0xffff && nxt < annEdge + HALF
      modifies this`rcvAnnWnd
      ensures rcvAnnWnd == AnnouncedWindow(nxt, rcvWnd, annEdge, mss)
      ensures inflation == ReceiveRuns.Inflation(State(), mss)
      ensures var step, gain := Min(TCP_WND / 2, mss), nxt + rcvWnd - annEdge;
        && (step <= gain < HALF ==> rcvAnnWnd == rcvWnd && inflation == gain)
        && (gain < step ==> nxt + rcvAnnWnd == (if nxt < annEdge then annEdge else nxt) && inflation == 0)
    {
      var newRightEdge := Wrap(rcvNxt + rcvWnd);
      var threshold := Min(TCP_WND / 2, mss);
      EdgeTests(nxt, rcvWnd, annEdge, mss);
      if SeqGeq(newRightEdge, Wrap(rcvAnnRightEdge + threshold)) {
        rcvAnnWnd := rcvWnd;
        Inflation(nxt, rcvWnd, annEdge);
        return Wrap(newRightEdge - rcvAnnRightEdge);
      }
      if SeqGt(rcvNxt, rcvAnnRightEdge) {
        rcvAnnWnd := 0;
      } else {
        SmallDiff(annEdge, nxt);
        rcvAnnWnd := Wrap16(Wrap(rcvAnnRightEdge - rcvNxt));
      }
      return 0;
    }

    // The effect on the announced edge of any segment we send; `sent` is whether the pbuf for
    // its header could be allocated.
    method Announce(sent: bool)
      requires Valid()
      modifies this`rcvAnnRightEdge, this`annEdge
      ensures Valid() && State() == Reassembly.Announce(old(State()), sent)
    {
      if sent {
        WrapAdd(nxt, rcvAnnWnd);
        rcvAnnRightEdge := Wrap(rcvNxt + rcvAnnWnd);
        annEdge := nxt + rcvAnnWnd;
      }
    }

    // tcp_recved
    method Recved(len: u16, output: bool)
      requires Valid() && Recent()
      modifies this
      ensures Valid() && State() == ReceiveRuns.Read(old(State()), mss, len, output)
      ensures old(rcvWnd) + len <= 0xffff ==> rcvWnd == Min(old(rcvWnd) + len, TCP_WND)
      ensures var gain := nxt + rcvWnd - old(annEdge);
        gain < HALF && output && Min(TCP_WND / 2, mss) <= gain && TCP_WND / 4 <= gain ==> annEdge == nxt + rcvWnd
    {
      rcvWnd := Wrap16(rcvWnd + len);
      if rcvWnd > TCP_WND {
        rcvWnd := TCP_WND;
      }
      var inflation := UpdateAnnouncedWindow();
      if TCP_WND / 4 <= inflation < HALF {    // as an int
        Announce(output);
      }
    }

    // pbuf_free_ooseq, and the ooseq timeout of tcp_slowtmr
    method DropQueue()
      requires Valid()
      modifies this`ooseq, this`queue
      ensures Valid() && State() == ReceiveRuns.Step(old(State()), mss, ReceiveRuns.DropQueue).0
    {
      ooseq, queue := [], [];
    }

    // tcp_input gives back the number the FIN took: no tcp_recved will.
    method FinTaken()
      requires Valid()
      modifies this`rcvWnd
      ensures Valid() && State() == ReceiveRuns.Step(old(State()), mss, ReceiveRuns.FinTaken).0
    {
      if rcvWnd != TCP_WND {
        rcvWnd := Wrap16(rcvWnd + 1);
      }
    }

    // What may still be queued when `rcv_nxt` has come from `first` to `nxt`.
    ghost predicate Remaining(first: int)
      reads this
    {
      && rcvNxt == Wrap(nxt) && rcvAnnRightEdge == Wrap(annEdge)
      && RepAll(ooseq, queue) && Chained(queue)
      && first <= nxt <= first + 0x1_ffff
      && (forall r | r in queue :: nxt <= r.at <= first + 0xffff && r.len <= 0xffff)
      && annEdge <= first + 0xffff && first + 0x1_ffff < annEdge + HALF
    }

    lemma RemainingHead(first: int)
      requires Remaining(first) && queue != []
      ensures nxt <= queue[0].at <= first + 0xffff && queue[0].len <= 0xffff
      ensures ooseq[0].seqno == rcvNxt <==> queue[0].at == nxt
      ensures Rep(ooseq[0], queue[0]) && RepAll(ooseq[1..], queue[1..])
      ensures forall r | r in queue[1..] :: queue[0].Next() <= r.at
    {
      assert queue[0] in queue;
      Compare(queue[0].at, nxt);
    }

    // rcv_nxt += tcplen, rcv_wnd -= tcplen, and the announced window follows.
    method Consume(c: TcpSeg, ghost s: Slice, ghost first: int)
      requires Rep(c, s) && s.at == nxt && s.Next() <= first + 0x1_ffff
      requires rcvNxt == Wrap(nxt) && rcvAnnRightEdge == Wrap(annEdge)
      requires first <= nxt && annEdge <= first + 0xffff && first + 0x1_ffff < annEdge + HALF
      modifies this`rcvNxt, this`nxt, this`rcvWnd, this`rcvAnnWnd
      ensures nxt == s.Next() && rcvNxt == Wrap(nxt)
      ensures rcvWnd == Wrap16(old(rcvWnd) - (nxt - old(nxt)))
      ensures rcvAnnWnd == AnnouncedWindow(nxt, rcvWnd, annEdge, mss)
    {
      EndWrap(c, s);
      rcvNxt := Wrap(rcvNxt + c.TcpLen());
      rcvWnd := Wrap16(rcvWnd - c.TcpLen());
      nxt := s.Next();
      var _ := UpdateAnnouncedWindow();
    }

    method TakeHead(ghost first: int) returns (cseg: TcpSeg)
      requires Remaining(first) && queue != [] && queue[0].at == nxt
      modifies this`rcvNxt, this`nxt, this`rcvWnd, this`rcvAnnWnd, this`ooseq, this`queue
      ensures Remaining(first) && Rep(cseg, old(queue)[0])
      ensures ooseq == old(ooseq)[1..] && queue == old(queue)[1..] && nxt == old(queue)[0].Next()
      ensures rcvWnd == Wrap16(old(rcvWnd) - (nxt - old(nxt)))
      ensures rcvAnnWnd == AnnouncedWindow(nxt, rcvWnd, annEdge, mss)
    {
      RemainingHead(first);
      cseg := ooseq[0];
      Consume(cseg, queue[0], first);
      ooseq, queue := ooseq[1..], queue[1..];
    }

    // One round: the head of the queue has come into sequence.
    method DrainHead(data: seq<byte>, fin: bool, ghost d: Delivery, ghost st: Rcv)
      returns (recvData: seq<byte>, gotFin: bool)
      requires Remaining(st.nxt) && Draining(d, data, fin, nxt, queue) && queue != [] && queue[0].at == nxt
      requires annEdge == st.annEdge && Accounted(st, mss, nxt, rcvWnd, rcvAnnWnd)
      modifies this`rcvNxt, this`nxt, this`rcvWnd, this`rcvAnnWnd, this`ooseq, this`queue
      ensures Remaining(st.nxt) && Draining(d, recvData, gotFin, nxt, queue) && ooseq == old(ooseq)[1..]
      ensures Accounted(st, mss, nxt, rcvWnd, rcvAnnWnd)
    {
      RemainingHead(st.nxt);
      DrainOne(d, data, fin, queue);
      var cseg := TakeHead(st.nxt);
      WindowLeft(st, mss, old(nxt), old(rcvWnd), old(rcvAnnWnd), nxt, rcvWnd, rcvAnnWnd);
      recvData, gotFin := data + cseg.payload, fin || cseg.fin;
    }

    // What has come into sequence at the head of the queue is handed up.
    method DrainQueue(data: seq<byte>, fin: bool, ghost d: Delivery, ghost st: Rcv)
      returns (recvData: seq<byte>, gotFin: bool)
      requires Remaining(st.nxt) && Draining(d, data, fin, nxt, queue)
      requires annEdge == st.annEdge && Accounted(st, mss, nxt, rcvWnd, rcvAnnWnd)
      modifies this`rcvNxt, this`nxt, this`rcvWnd, this`rcvAnnWnd, this`ooseq, this`queue
      ensures Remaining(st.nxt) && d == Delivery(nxt, recvData, gotFin, queue)
      ensures Accounted(st, mss, nxt, rcvWnd, rcvAnnWnd)
    {
      recvData, gotFin := data, fin;
      while ooseq != [] && ooseq[0].seqno == rcvNxt
        invariant Remaining(st.nxt) && Draining(d, recvData, gotFin, nxt, queue)
        invariant Accounted(st, mss, nxt, rcvWnd, rcvAnnWnd)
        decreases |ooseq|
      {
        RemainingHead(st.nxt);
        recvData, gotFin := DrainHead(recvData, gotFin, d, st);
      }
      if queue != [] { RemainingHead(st.nxt); }
      DrainEnd(d, recvData, gotFin, nxt, queue);
    }

    // The segment itself, cut to the window and adjusted to the queue.
    method Admit(inseg: TcpSeg, ghost s: Slice) returns (c: TcpSeg)
      requires Valid() && Recent() && 0 < rcvWnd
      requires Rep(inseg, s) && s.at == nxt && 0 < s.TcpLen() && s.len <= 0xffff
      modifies this`ooseq, this`queue
      ensures var m := Merge(FitWindow(old(State()), s), old(queue));
        && Rep(c, m[0]) && queue == m[1..] && RepAll(ooseq, queue)
    {
      c := inseg;
      AheadOf(nxt, queue);
      if c.TcpLen() > rcvWnd {
        c := c.(fin := false).Realloc(rcvWnd);
      }
      ghost var fit := FitWindow(State(), s);
      c, ooseq := AdjustToQueue(c, ooseq, fit, queue);
      RepTail([c] + ooseq, Merge(fit, queue));
      queue := Merge(fit, queue)[1..];
    }

    // The segment in sequence is accounted for; what the queue connects to it is still to come.
    method Begin(inseg: TcpSeg, ghost s: Slice) returns (c: TcpSeg)
      requires Valid() && Recent() && 0 < rcvWnd
      requires Rep(inseg, s) && s.at == nxt && 0 < s.TcpLen() && s.len <= 0xffff
      modifies this`rcvNxt, this`nxt, this`rcvWnd, this`rcvAnnWnd, this`ooseq, this`queue
      ensures Remaining(old(nxt))
      ensures Draining(InOrder(old(State()), s), c.payload, c.fin, nxt, queue)
      ensures Accounted(old(State()), mss, nxt, rcvWnd, rcvAnnWnd)
    {
      ghost var st := State();
      MergedHead(st, s);
      ghost var m := Merge(FitWindow(st, s), st.ooseq);
      DrainMerged(st, s, m);
      c := Admit(inseg, s);
      Consume(c, m[0], st.nxt);
    }

    // The next segment in sequence, handed up together with what it connects to.
    method DeliverInOrder(inseg: TcpSeg, ghost s: Slice) returns (recvData: seq<byte>, gotFin: bool)
      requires Valid() && Recent() && 0 < rcvWnd
      requires Rep(inseg, s) && s.at == nxt && 0 < s.TcpLen() && s.len <= 0xffff
      modifies this
      ensures Valid()
      ensures var d := InOrder(old(State()), s);
        && old(nxt) < d.nxt && recvData == d.data && gotFin == d.fin
        && State() == Delivered(old(State()), mss, d)
    {
      ghost var st := State();
      InOrderStructure(st, s);
      var c := Begin(inseg, s);
      recvData, gotFin := DrainQueue(c.payload, c.fin, InOrder(st, s), st);
      open := !gotFin;
      DeliveredState(st, mss, InOrder(st, s), State());
    }

    // The front of the segment that has been received already is hidden.
    method TrimFront(seg: TcpSeg, tcplen: nat) returns (inseg: TcpSeg)
      requires rcvNxt == Wrap(nxt) && |seg.payload| == seg.len && tcplen == seg.TcpLen() > 0
      ensures Rep(inseg, Trimmed(State(), Seen(nxt, seg)))
    {
      inseg := seg;
      ghost var g := Seen(nxt, seg);
      Located(nxt, seg.seqno);
      FrontTest(State(), g);
      if SeqBetween(rcvNxt, Wrap(seg.seqno + 1), Wrap(seg.seqno + tcplen - 1)) {
        SmallOffset(nxt, g);
        var off := Wrap16(Wrap(rcvNxt - seg.seqno));
        inseg := TcpSeg(rcvNxt, seg.len - off, seg.payload[off..], seg.fin);
      }
    }

    // An out-of-order segment is acknowledged and, when there is memory for a copy, queued.
    method QueueSegment(inseg: TcpSeg, copied: bool, acked: bool, ghost s: Slice)
      requires Valid() && Rep(inseg, s) && nxt < s.at < nxt + HALF
      modifies this`rcvAnnRightEdge, this`annEdge, this`ooseq, this`queue
      ensures Mirrors()
      ensures annEdge == Reassembly.Announce(old(State()), acked).annEdge
      ensures queue == if copied then Enqueue(old(queue), s, nxt + rcvWnd) else old(queue)
    {
      Announce(acked);
      if copied {
        ooseq, queue := QueueOn(inseg, ooseq, rcvNxt, rcvWnd, s, queue, nxt);
      }
    }

    // What is left of the segment is delivered, queued or turned away.
    method ReceiveTrimmed(inseg: TcpSeg, copied: bool, acked: bool, ghost s: Slice)
      returns (recvData: seq<byte>, gotFin: bool)
      requires Valid() && Recent() && Rep(inseg, s) && 0 < s.TcpLen() && -HALF <= s.at - nxt < HALF
      modifies this
      ensures Mirrors()
      ensures (State(), recvData, gotFin) ==
        Process(old(State()), mss, s, SeemsInWindow(old(State()), s), copied, acked)
    {
      recvData, gotFin := [], false;
      WindowTest(State(), s);
      if SeqBetween(inseg.seqno, rcvNxt, Wrap(rcvNxt + rcvWnd - 1)) {
        Compare(s.at, nxt);
        if rcvNxt == inseg.seqno {
          recvData, gotFin := DeliverInOrder(inseg, s);
        } else {
          QueueSegment(inseg, copied, acked, s);
        }
      } else {
        Announce(acked);
      }
    }

    // The text of a SYN-free segment, whatever its number.  `copied` and `acked` are whether
    // tcp_seg_copy and tcp_send_empty_ack find memory.
    method Receive(seg: TcpSeg, copied: bool, acked: bool) returns (recvData: seq<byte>, gotFin: bool)
      requires Valid() && Recent() && |seg.payload| == seg.len <= MAX_TEXT
      modifies this
      ensures Mirrors()
      ensures (State(), recvData, gotFin) ==
        Reassembly.Receive(old(State()), mss, Seen(old(nxt), seg), copied, acked)
      ensures Valid() <==> !Planted(old(State()), Seen(old(nxt), seg), copied)
    {
      recvData, gotFin := [], false;
      ghost var st, g := State(), Seen(nxt, seg);
      QueueInvariant(st, mss, g, copied, acked);
      var tcplen := seg.TcpLen();
      if tcplen > 0 && open {
        Located(nxt, seg.seqno);
        var inseg := TrimFront(seg, tcplen);
        recvData, gotFin := ReceiveTrimmed(inseg, copied, acked, Trimmed(st, g));
      }
    }
  }
}
