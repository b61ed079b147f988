// The send side of a TCP control block as core/tcp_out.c and core/tcp_in.c run it: segment lists and
// counters updated in place, 32-bit wrapping sequence numbers, allocations that may fail.
// Every method is proved to do what `SendQueue` says over unbounded numbers.
module TcpSender {
  import opened SeqNum
  import opened SendQueue
  import opened SendRuns
  import opened SendSteps
  import opened SendWrite
  import opened SendCost
  import Conservation
  import SendProgress

  const TCP_MSS := 1500
  const TCP_OVERSIZE := 1500
  const MEM_ALIGNMENT := 4

  datatype Err = OK | MEM | CONN

  // What tcp_rexmit_fast passes to tcp_output_segment, when it is called.
  datatype Fast = NotCalled | Resent(seg: TxSeg) | NullSegment

  function AlignSize(n: nat): nat {
    (n + MEM_ALIGNMENT - 1) / MEM_ALIGNMENT * MEM_ALIGNMENT
  }

  lemma SentNothing(c: Conservation.Side, wnd: int)
    requires Fitting(c.st.unsent, c.st.una, wnd) == 0 && (c.st.unsent == [] ==> c.st.oversize == 0)
    ensures Conservation.Sent(c, wnd) == c
  {
    OutputNothing(c.st, wnd);
  }

  lemma GrowthIs(tail: nat, oversize: nat, len: nat, mss: u16, used: nat, space: u16)
    requires used == Min(oversize, len) && space == Wrap16(mss - (tail + used))
    ensures Growth(tail, oversize, len, mss) == used + Min(space, len - used)
    ensures oversize + tail <= mss ==> space == mss - tail - used
  {
  }

  lemma AssembledFields(st: Snd, arg: seq<byte>, pos: nat, extra: nat, q: seq<Tx>, oversize: int)
    requires pos <= |arg|
    ensures var st' := Assembled(st, arg, pos, extra, q, oversize);
      && Wrap(st'.una) == Wrap(st.una) && Wrap(st'.nxt) == Wrap(st.nxt)
      && Wrap(st'.Lbb()) == Wrap(Wrap(st.Lbb()) + |arg|)
      && st'.unacked == st.unacked && st'.unsent == Assembled(st, arg, pos, extra, q, 0).unsent
      && st'.sndBuf == st.sndBuf - |arg| && st'.queuelen == st.queuelen + extra + Pbufs(q) && st'.oversize == oversize
  {
    WrapAdd(st.Lbb(), |arg|);
  }

  class Sender {
    var lastack: u32
    var sndNxt: u32
    var sndLbb: u32
    var unacked: seq<TxSeg>
    var unsent: seq<TxSeg>
    var sndBuf: u16
    var sndQueuelen: u16
    var unsentOversize: u16
    var mss: u16
    var sndWndMax: u16
    var nodelay: bool
    var rtime: int           // -1 while the retransmission timer is stopped
    var dupacks: nat
    var down: bool           // a NULL segment has been dereferenced

    // Whether there is memory, for each time that an allocator is asked; and how often it has been.
    const grant: nat -> bool
    var asked: nat

    // What the allocators have handed out to this connection and not got back.
    var livePbufs: nat
    var liveSegs: nat

    // The same state over unbounded numbers.
    ghost var st: Snd

    function MssLocal(): u16
      reads `mss, `sndWndMax
    {
      Min(mss, sndWndMax / 2)
    }

    // The fields represent `st`.
    ghost predicate Mirrors()
      reads `lastack, `sndNxt, `sndLbb, `unacked, `unsent, `sndBuf, `sndQueuelen, `unsentOversize, `st
    {
      match st
      case Snd(_, una, nxt, xs, ys, room, queuelen, oversize) =>
        && lastack == Wrap(una) && sndNxt == Wrap(nxt) && sndLbb == Wrap(st.Lbb())
        && RepAll(unacked, xs) && RepAll(unsent, ys)
        && sndBuf == room && sndQueuelen == queuelen && unsentOversize == oversize
    }

    // Nothing is allocated but what the queues hold.
    ghost predicate Valid()
      reads this
    {
      && Mirrors() && livePbufs == sndQueuelen && liveSegs == |unacked| + |unsent|
      && -1 <= rtime && dupacks <= 0xff
    }

    ghost predicate Held()
      reads this
    {
      Valid() && Conserved(st)
    }

    // No segment is longer than mss_local either.
    ghost predicate Consistent()
      reads this
    {
      Held() && Roomy(st, MssLocal())
    }

    ghost function Side(): Conservation.Side
      reads this
    {
      Conservation.Side(st, MssLocal(), rtime >= 0, dupacks, down)
    }

    ghost function Clock(): SendProgress.Clock
      reads this
    {
      SendProgress.Clock(Side(), rtime)
    }

    constructor (iss: u32, mss: u16, sndWndMax: u16, grant: nat -> bool)
      requires 0 < Min(mss, sndWndMax / 2)
      ensures Consistent() && Conservation.Timed(Side()) && !down
      ensures st == Snd(Stream(iss, []), iss, iss, [], [], TCP_SND_BUF, 0, 0)
      ensures this.mss == mss && this.sndWndMax == sndWndMax
    {
      lastack, sndNxt, sndLbb := iss, iss, iss;
      unacked, unsent := [], [];
      sndBuf, sndQueuelen, unsentOversize := TCP_SND_BUF, 0, 0;
      this.mss, this.sndWndMax, nodelay := mss, sndWndMax, false;
      this.grant, asked, livePbufs, liveSegs := grant, 0, 0, 0;
      rtime, dupacks, down := -1, 0, false;
      st := Snd(Stream(iss, []), iss, iss, [], [], TCP_SND_BUF, 0, 0);
    }

    // ----- tcp_output ------------------------------------------------------------------------

    // One segment goes from the unsent to the tail of the unacked queue.
    method SendHead() returns (seg: TxSeg)
      requires Valid() && unsent != []
      requires st.nxt - HALF < st.unsent[0].End() < st.nxt + HALF
      modifies this`unacked, this`unsent, this`sndNxt, this`rtime, this`st
      ensures Valid() && Rep(seg, old(st).unsent[0])
      ensures |unsent| < old(|unsent|)
      ensures st == Step(old(st)) && rtime == if old(rtime) == -1 then 0 else old(rtime)
    {
      seg := unsent[0];
      ghost var x := st.unsent[0];
      RepTail(unsent, st.unsent);
      RepConcat(unacked, [seg], st.unacked, [x]);
      WrapAdd(x.at, |seg.data|);
      DiffWrap(st.nxt, x.End());
      if rtime == -1 {
        rtime := 0;
      }
      var end := Wrap(seg.seqno + |seg.data|);
      if SeqLt(sndNxt, end) {
        sndNxt := end;
      }
      unacked := unacked + [seg];
      unsent := unsent[1..];
      st := Step(st);
    }

    // The loop: `out` is what was passed to tcp_output_segment, just what joins the unacked queue.
    method SendWhileFits(wnd: u16) returns (out: seq<TxSeg>)
      requires Valid() && Near(st)
      modifies this`unacked, this`unsent, this`sndNxt, this`rtime, this`st
      ensures Valid() && st == SendAll(old(st), wnd)
      ensures |old(st).unacked| <= |st.unacked| && RepAll(out, st.unacked[|old(st).unacked|..])
      ensures rtime == if old(rtime) == -1 && |old(st).unacked| < |st.unacked| then 0 else old(rtime)
    {
      out := [];
      ghost var was, n := st, |st.unacked|;
      assert st.unacked[n..] == [];
      while unsent != [] && Fits(unsent[0], lastack, wnd)
        invariant Valid() && Near(st)
        invariant SendAll(st, wnd) == SendAll(was, wnd)
        invariant n <= |st.unacked| && RepAll(out, st.unacked[n..])
        invariant rtime == if old(rtime) == -1 && n < |st.unacked| then 0 else old(rtime)
        decreases |unsent|
      {
        HeadFits(st, unsent[0], wnd);
        ghost var sent, x := st.unacked, st.unsent[0];
        var seg := SendHead();
        Appended(sent, x, n);
        RepConcat(out, [seg], sent[n..], [x]);
        out := out + [seg];
      }
      if unsent != [] {
        HeadFits(st, unsent[0], wnd);
      }
    }

    method OutputQueues(wnd: u16) returns (out: seq<TxSeg>)
      requires Valid() && Near(st)
      modifies this`unacked, this`unsent, this`sndNxt, this`unsentOversize, this`rtime, this`st
      ensures Valid() && st == SentAll(old(st), wnd)
      ensures |old(st).unacked| <= |st.unacked| && RepAll(out, st.unacked[|old(st).unacked|..])
      ensures rtime == if old(rtime) == -1 && |old(st).unacked| < |st.unacked| then 0 else old(rtime)
    {
      out := SendWhileFits(wnd);
      if unsent == [] {
        unsentOversize := 0;
        st := st.(oversize := 0);
      }
    }

    method SendData(wnd: u16) returns (out: seq<TxSeg>)
      requires Held()
      modifies this`unacked, this`unsent, this`sndNxt, this`unsentOversize, this`rtime, this`st
      ensures Held() && Side() == Conservation.Sent(old(Side()), wnd)
      ensures old(Roomy(st, MssLocal())) ==> Consistent()
      ensures |old(st).unacked| <= |st.unacked| && RepAll(out, st.unacked[|old(st).unacked|..])
      ensures rtime == if old(rtime) == -1 && out != [] then 0 else old(rtime)
    {
      ghost var was := st;
      Ends(st);
      out := OutputQueues(wnd);
      SendAllIsOutput(was, wnd);
      OutputCount(was, wnd);
      OutputInv(was, MssLocal(), wnd);
    }

    // tcp_output.  `ackNow` is whether an ACK is owed: when no data can carry it, an empty one is
    // sent and nothing else is done.
    method Output(wnd: u16, ackNow: bool) returns (out: seq<TxSeg>, emptyAck: bool)
      requires Held()
      modifies this`unacked, this`unsent, this`sndNxt, this`unsentOversize, this`rtime, this`st
      ensures Held() && Side() == Conservation.Sent(old(Side()), wnd)
      ensures old(Roomy(st, MssLocal())) ==> Consistent()
      ensures |old(st).unacked| <= |st.unacked| && RepAll(out, st.unacked[|old(st).unacked|..])
      ensures emptyAck <==> ackNow && Fitting(old(st).unsent, old(st).una, wnd) == 0
      ensures rtime == if old(rtime) == -1 && out != [] then 0 else old(rtime)
    {
      if unsent != [] {
        Ends(st);
        HeadFits(st, unsent[0], wnd);
      }
      emptyAck := ackNow && (unsent == [] || !Fits(unsent[0], lastack, wnd));
      if emptyAck {
        SentNothing(Side(), wnd);
        out := [];
        assert st.unacked[|st.unacked|..] == [];
      } else {
        out := SendData(wnd);
      }
    }

    // ----- tcp_receive: the acknowledgement number -------------------------------------------

    method FreeUnacked()
      requires Valid() && unacked != [] && unacked[0].pbufs <= sndQueuelen
      modifies this`unacked, this`sndQueuelen, this`livePbufs, this`liveSegs, this`st
      ensures Valid() && st == AckStep(old(st))
    {
      var seg := unacked[0];
      RepTail(unacked, st.unacked);
      unacked := unacked[1..];
      sndQueuelen := Wrap16(sndQueuelen - seg.pbufs);
      livePbufs, liveSegs := livePbufs - seg.pbufs, liveSegs - 1;
      st := AckStep(st);
    }

    method FreeUnsent()
      requires Valid() && unsent != [] && unsent[0].pbufs <= sndQueuelen
      modifies this`unsent, this`sndQueuelen, this`unsentOversize, this`livePbufs, this`liveSegs, this`st
      ensures Valid() && st == UnsentStep(old(st))
    {
      var seg := unsent[0];
      RepTail(unsent, st.unsent);
      unsent := unsent[1..];
      if unsent == [] {
        unsentOversize := 0;
      }
      sndQueuelen := Wrap16(sndQueuelen - seg.pbufs);
      livePbufs, liveSegs := livePbufs - seg.pbufs, liveSegs - 1;
      st := UnsentStep(st);
    }

    method FreeAcked(ackno: u32, ghost base: int, ghost a: int)
      requires Valid() && ackno == Wrap(a) && base < a <= base + TCP_SND_BUF
      requires Ahead(st.unacked, base) && Pbufs(st.unacked) + Pbufs(st.unsent) <= sndQueuelen
      modifies this`unacked, this`sndQueuelen, this`livePbufs, this`liveSegs, this`st
      ensures Valid() && st == AckLoop(old(st), a)
      ensures Pbufs(st.unsent) <= sndQueuelen
      ensures st.unsent == old(st).unsent && st.nxt == old(st).nxt && st.una == old(st).una
    {
      ghost var was := st;
      while unacked != [] && Acked(unacked[0], ackno)
        invariant Valid() && AckLoop(st, a) == AckLoop(was, a)
        invariant Ahead(st.unacked, base) && Pbufs(st.unacked) + Pbufs(st.unsent) <= sndQueuelen
        invariant st.unsent == was.unsent && st.nxt == was.nxt && st.una == was.una
        decreases |unacked|
      {
        AckedTest(unacked[0], st.unacked[0], base, a);
        FreeUnacked();
      }
      if unacked != [] {
        AckedTest(unacked[0], st.unacked[0], base, a);
      }
    }

    method FreeAckedUnsent(ackno: u32, ghost was: Snd, ghost a: int)
      requires Valid() && ackno == Wrap(a) && -HALF <= a - was.una < HALF
      requires st.nxt == was.nxt && was.una <= was.nxt <= was.una + TCP_SND_BUF
      requires Ahead(st.unsent, was.una) && Pbufs(st.unsent) <= sndQueuelen
      modifies this`unsent, this`sndQueuelen, this`unsentOversize, this`livePbufs, this`liveSegs, this`st
      ensures Valid() && st == UnsentLoop(old(st), was, a)
    {
      ghost var before := st;
      while unsent != [] && AckedUnsent(unsent[0], ackno, sndNxt)
        invariant Valid() && UnsentLoop(st, was, a) == UnsentLoop(before, was, a)
        invariant st.nxt == was.nxt
        invariant Ahead(st.unsent, was.una) && Pbufs(st.unsent) <= sndQueuelen
        decreases |unsent|
      {
        AckedUnsentTest(unsent[0], st.unsent[0], was, a);
        FreeUnsent();
      }
      if unsent != [] {
        AckedUnsentTest(unsent[0], st.unsent[0], was, a);
      }
    }

    // tcp_rexmit_fast of this fork: the first unacked segment goes out again and stays where it is.
    // There is no test that there is one.
    method RexmitFast() returns (fast: Fast)
      requires Valid()
      modifies this`down
      ensures down <==> old(down) || unacked == []
      ensures if unacked == [] then fast == NullSegment else fast.Resent? && Rep(fast.seg, st.unacked[0])
    {
      if unacked == [] {
        down, fast := true, NullSegment;
      } else {
        fast := Resent(unacked[0]);
      }
    }

    // The number acknowledges nothing new: it may be the third duplicate.
    method CountDuplicate(ackno: u32, plain: bool) returns (fast: Fast)
      requires Valid()
      modifies this`dupacks, this`down
      ensures Valid()
      ensures var twice := plain && rtime >= 0 && ackno == lastack;
        && dupacks == (if twice then Min(old(dupacks) + 1, 255) else 0)
        && (down <==> old(down) || fast.NullSegment?)
        && (if twice && old(dupacks) == 2 then
              if unacked == [] then fast.NullSegment? else fast.Resent? && Rep(fast.seg, st.unacked[0])
            else fast.NotCalled?)
    {
      var found := false;
      fast := NotCalled;
      if plain && rtime >= 0 && lastack == ackno {
        found := true;
        if (dupacks + 1) % 0x100 > dupacks {
          dupacks := dupacks + 1;
        }
        if dupacks == 3 {
          fast := RexmitFast();
        }
      }
      if !found {
        dupacks := 0;
      }
    }

    // The number acknowledges new data.
    method TakeAck(ackno: u32, ghost a: int) returns (acked: u16)
      requires Valid() && Accountable(st) && ackno == Wrap(a) && st.una < a <= st.nxt
      modifies this`lastack, this`sndBuf, this`unacked, this`sndQueuelen, this`livePbufs, this`liveSegs
      modifies this`dupacks, this`rtime, this`st
      ensures Valid() && st == AckTaken(old(st), a)
      ensures st.una == old(st).una + acked && st.unsent == old(st).unsent && st.nxt == old(st).nxt
      ensures Pbufs(st.unsent) <= sndQueuelen
      ensures dupacks == 0 && rtime == if st.unacked != [] then 0 else -1
    {
      SmallDiff(a, st.una);
      ghost var una := st.una;
      acked := Wrap16(Wrap(ackno - lastack));
      sndBuf := Wrap16(sndBuf + acked);
      dupacks := 0;
      lastack := ackno;
      st := st.(una := a, sndBuf := st.sndBuf + (a - st.una));
      FreeAcked(ackno, una, a);
      rtime := if unacked == [] then -1 else 0;
    }

    // What the number means for lastack, the duplicate count, the timer and the unacked queue.
    method TakeNumber(ackno: u32, plain: bool) returns (acked: u16, fast: Fast)
      requires Valid() && Accountable(st)
      modifies this`lastack, this`sndBuf, this`unacked, this`sndQueuelen, this`livePbufs, this`liveSegs
      modifies this`dupacks, this`rtime, this`down, this`st
      ensures Valid() && st == AckTaken(old(st), Position(old(st), ackno))
      ensures st.una == old(st).una + acked && st.unsent == old(st).unsent && st.nxt == old(st).nxt
      ensures Pbufs(st.unsent) <= sndQueuelen
      ensures var c, c' := old(Side()), Conservation.Acked(old(Side()), ackno, plain);
        && dupacks == c'.dupacks && down == c'.down && MssLocal() == c.mss
        && (rtime == if !(c.st.una < Position(c.st, ackno) <= c.st.nxt) then old(rtime)
                     else if st.unacked != [] then 0 else -1)
        && (if Conservation.FastRetransmits(c, ackno, plain) then
              if c.st.unacked == [] then fast.NullSegment? else fast.Resent? && Rep(fast.seg, c.st.unacked[0])
            else fast.NotCalled?)
    {
      PositionWrap(st, ackno);
      AckDecision(st, ackno);
      acked, fast := 0, NotCalled;
      if SeqLeq(ackno, lastack) {
        fast := CountDuplicate(ackno, plain);
      } else if SeqBetween(ackno, Wrap(lastack + 1), sndNxt) {
        acked := TakeAck(ackno, Position(st, ackno));
      }
    }

    // An acknowledgement number arrives; `acked` is what the sent callback will be told.  `plain` is
    // whether the segment carries no text and leaves the window unchanged.
    method Acknowledge(ackno: u32, plain: bool) returns (acked: u16, fast: Fast)
      requires Held()
      modifies this`lastack, this`sndBuf, this`unacked, this`unsent, this`sndQueuelen, this`unsentOversize
      modifies this`livePbufs, this`liveSegs, this`dupacks, this`rtime, this`down, this`st
      ensures Valid() && Side() == Conservation.Acked(old(Side()), ackno, plain)
      ensures Held() <==> !Conservation.Misread(old(st), Conservation.Ack(ackno, plain))
      ensures Held() && old(Roomy(st, MssLocal())) ==> Consistent()
      ensures st.una == old(st).una + acked
      ensures rtime == if acked == 0 then old(rtime) else if unacked != [] then 0 else -1
      ensures if Conservation.FastRetransmits(old(Side()), ackno, plain) then
                if old(st).unacked == [] then fast.NullSegment? else fast.Resent? && Rep(fast.seg, old(st).unacked[0])
              else fast.NotCalled?
    {
      ghost var was := st;
      Accounts(was);
      PositionWrap(was, ackno);
      acked, fast := TakeNumber(ackno, plain);
      FreeAckedUnsent(ackno, was, Position(was, ackno));
      LoopsAcknowledge(was, ackno);
      AcknowledgeInv(was, MssLocal(), ackno);
    }

    // ----- retransmission --------------------------------------------------------------------

    method RequeueUnacked()
      requires Valid() && unacked != []
      modifies this`unacked, this`unsent, this`st
      ensures Valid() && st == Requeue(old(st))
    {
      RepConcat(unacked, unsent, st.unacked, st.unsent);
      unsent, unacked := unacked + unsent, [];
      st := Requeue(st);
    }

    // tcp_rexmit_rto: everything unacknowledged goes back to the front of the unsent queue.
    method RexmitRto(wnd: u16, ackNow: bool) returns (out: seq<TxSeg>)
      requires Held() && rtime >= 0 && 0 < wnd
      modifies this`unacked, this`unsent, this`sndNxt, this`unsentOversize, this`rtime, this`st
      ensures Held() && Side() == Conservation.TimedOut(old(Side()), wnd)
      ensures old(Roomy(st, MssLocal())) ==> Consistent()
      ensures if old(unacked) == [] then out == [] else RepAll(out, st.unacked)
      ensures rtime == old(rtime)
    {
      if unacked == [] {
        return [];
      }
      RequeueInv(st, MssLocal());
      RequeueUnacked();
      var emptyAck;
      out, emptyAck := Output(wnd, ackNow);
      assert st.unacked[0..] == st.unacked;
    }

    // One tick of tcp_slowtmr, while the window is open and the persist timer off.
    method SlowTimer(rto: nat, wnd: u16, ackNow: bool) returns (out: seq<TxSeg>)
      requires Held() && 0 < wnd
      modifies this`unacked, this`unsent, this`sndNxt, this`unsentOversize, this`rtime, this`st
      ensures Held() && (old(Roomy(st, MssLocal())) ==> Consistent())
      ensures Clock() == SendProgress.Tick(old(Clock()), rto, wnd)
      ensures var expires := old(unacked) != [] && old(rtime) >= 0 && old(rtime) + 1 >= rto;
        && rtime == (if expires then 0 else if old(rtime) >= 0 then old(rtime) + 1 else -1)
        && Side() == (if expires then Conservation.TimedOut(old(Side()), wnd) else old(Side()))
        && (if expires then RepAll(out, st.unacked) else out == [])
    {
      out := [];
      if rtime >= 0 {
        rtime := rtime + 1;
      }
      if unacked != [] && rtime >= rto {
        rtime := 0;
        out := RexmitRto(wnd, ackNow);
      }
    }

    // The peer announces a window, which may be the largest so far.
    method NoteWindow(wnd: u16)
      requires Held()
      modifies this`sndWndMax
      ensures Held() && MssLocal() >= old(MssLocal()) && Side() == old(Side()).(mss := MssLocal())
      ensures old(Roomy(st, MssLocal())) ==> Consistent()
      ensures sndWndMax == if old(sndWndMax) < wnd then wnd else old(sndWndMax)
    {
      if sndWndMax < wnd {
        sndWndMax := wnd;
      }
    }

    // tcp_parseopt: any segment may carry a maximum segment size, and a smaller one.
    method ParseMss(option: u16)
      requires Held()
      modifies this`mss
      ensures Held() && 0 < mss <= TCP_MSS && Side() == old(Side()).(mss := MssLocal())
      ensures mss == if 0 < option <= TCP_MSS then option else TCP_MSS
    {
      mss := if option > TCP_MSS || option == 0 then TCP_MSS else option;
    }

    // ----- tcp_write -------------------------------------------------------------------------

    // Some request from the `from`-th on, before the `to`-th, was turned down.
    ghost predicate Denied(from: nat, to: nat) {
      exists i | from <= i < to :: !grant(i)
    }

    // An allocator that may fail.
    method PbufAlloc() returns (ok: bool)
      modifies this`asked, this`livePbufs
      ensures ok == grant(old(asked)) && asked == old(asked) + 1
      ensures livePbufs == old(livePbufs) + if ok then 1 else 0
    {
      ok := grant(asked);
      asked := asked + 1;
      if ok {
        livePbufs := livePbufs + 1;
      }
    }

    // Whether the segment will not be sent at once: the application or the Nagle algorithm defers it.
    predicate Defers(more: bool, first: bool)
      reads this
    {
      more || (!nodelay && (!first || unsent != [] || unacked != []))
    }

    // tcp_pbuf_prealloc: a pbuf of `length` bytes, and how many more it has room for.
    method PbufPrealloc(length: u16, maxLength: u16, more: bool, first: bool) returns (ok: bool, oversize: u16)
      requires length <= maxLength
      modifies this`asked, this`livePbufs
      ensures ok == grant(old(asked)) && asked == old(asked) + 1
      ensures livePbufs == old(livePbufs) + if ok then 1 else 0
      ensures length + oversize <= maxLength
      ensures if Defers(more, first) then oversize >= Min(maxLength - length, TCP_OVERSIZE) else oversize == 0
    {
      var alloc := length;
      if length < maxLength {
        if Defers(more, first) {
          alloc := Min(maxLength, AlignSize(length + TCP_OVERSIZE));
        }
      }
      ok := PbufAlloc();
      oversize := alloc - length;
    }

    // tcp_create_segment, which frees the pbufs when it fails.
    method CreateSegment(data: seq<byte>, pbufs: nat, seqno: u32) returns (ok: bool, seg: TxSeg)
      requires pbufs <= livePbufs
      modifies this`asked, this`livePbufs, this`liveSegs
      ensures ok == grant(old(asked)) && asked == old(asked) + 1
      ensures ok ==> seg == TxSeg(seqno, data, pbufs) && liveSegs == old(liveSegs) + 1 && livePbufs == old(livePbufs)
      ensures !ok ==> liveSegs == old(liveSegs) && livePbufs == old(livePbufs) - pbufs
    {
      ok := grant(asked);
      asked := asked + 1;
      seg := TxSeg(seqno, data, pbufs);
      if ok {
        liveSegs := liveSegs + 1;
      } else {
        livePbufs := livePbufs - pbufs;
      }
    }

    // Phases 1 and 2: the room left in the last segment's pbuf, then one more pbuf for it.  The space
    // is a 16-bit difference, and wraps when the segment is longer than mss_local.
    method ExtendTail(arg: seq<byte>, mssLocal: u16, copy: bool, more: bool)
      returns (ok: bool, oversize: u16, used: u16, concat: seq<byte>)
      requires unsent != [] && |arg| < 0x1_0000 && 0 < |unsent[|unsent| - 1].data|
      modifies this`asked, this`livePbufs
      ensures old(asked) <= asked && (ok <==> !Denied(old(asked), asked))
      ensures livePbufs == old(livePbufs) + if ok && concat != [] then 1 else 0
      ensures var tail := |unsent[|unsent| - 1].data|;
        ok ==> var pos := used + |concat|;
          && used == Min(unsentOversize, |arg|) && pos == Growth(tail, unsentOversize, |arg|, mssLocal)
          && concat == arg[used..pos] && (pos < |arg| ==> oversize == 0)
          && (unsentOversize + tail <= mssLocal ==> oversize + tail + pos <= mssLocal)
    {
      var last := unsent[|unsent| - 1];
      var space := Wrap16(mssLocal - |last.data|);
      oversize, used, concat, ok := unsentOversize, 0, [], true;
      if oversize > 0 {
        used := if oversize < |arg| then oversize else |arg|;
        oversize, space := oversize - used, Wrap16(space - used);
      }
      Wrap16Sub(mssLocal, |last.data|, used);
      GrowthIs(|last.data|, unsentOversize, |arg|, mssLocal, used, space);
      if used < |arg| && space > 0 && |last.data| > 0 {
        var seglen: u16 := if space < |arg| - used then space else |arg| - used;
        if copy {
          ok, oversize := PbufPrealloc(seglen, space, more, true);
        } else {
          ok := PbufAlloc();
        }
        if ok {
          concat := arg[used..used + seglen];
        }
      }
    }

    // One segment of phase 3.
    method MakeSegment(data: seq<byte>, seqno: u32, mssLocal: u16, copy: bool, more: bool, first: bool, queuelen: u16,
                       room: u16)
      returns (ok: bool, seg: TxSeg, oversize: u16, queuelen': u16)
      requires |data| <= mssLocal && queuelen <= TCP_SND_QUEUELEN && room == 0
      modifies this`asked, this`livePbufs, this`liveSegs
      ensures old(asked) <= asked
      ensures ok <==> !Denied(old(asked), asked) && queuelen + Cost(1, copy) <= TCP_SND_QUEUELEN
      ensures !ok ==> livePbufs == old(livePbufs) && liveSegs == old(liveSegs)
      ensures ok ==>
        && seg == TxSeg(seqno, data, if copy then 1 else 2)
        && livePbufs == old(livePbufs) + seg.pbufs && liveSegs == old(liveSegs) + 1
        && queuelen' == queuelen + seg.pbufs <= TCP_SND_QUEUELEN
        && oversize + |data| <= mssLocal && (|data| == mssLocal ==> oversize == 0) && (!copy ==> oversize == 0)
    {
      seg, oversize, queuelen' := TxSeg(seqno, data, 1), room, queuelen;
      var pbufs: u16 := 1;
      if copy {
        ok, oversize := PbufPrealloc(|data|, mssLocal, more, first);
        if !ok {
          return;
        }
      } else {
        ok := PbufAlloc();
        if !ok {
          return;
        }
        ok := PbufAlloc();
        if !ok {
          livePbufs := livePbufs - 1;
          return;
        }
        pbufs := 2;
      }
      queuelen' := queuelen' + pbufs;
      if queuelen' > TCP_SND_QUEUELEN {
        livePbufs, ok := livePbufs - pbufs, false;
        return;
      }
      ok, seg := CreateSegment(data, pbufs, seqno);
    }

    // The segment that starts at `pos` joins the queue.
    method CutNext(queue: seq<TxSeg>, arg: seq<byte>, pos0: u16, pos: u16, mssLocal: u16, copy: bool, more: bool,
                   queuelen: u16, oversize: u16, ghost s: Stream, ghost q: seq<Tx>, ghost room: u16, ghost was: u16)
      returns (ok: bool, queue': seq<TxSeg>, pos': u16, oversize': u16, queuelen': u16, ghost q': seq<Tx>)
      requires 0 < mssLocal && pos0 <= pos < |arg| < 0x1_0000 && sndLbb == Wrap(s.End())
      requires RepAll(queue, q) && Laid(q, s, arg, pos0, pos, mssLocal, room, oversize, was, queuelen)
      modifies this`asked, this`livePbufs, this`liveSegs
      ensures RepAll(queue', q')
      ensures livePbufs - Pbufs(q') == old(livePbufs) - Pbufs(q) && liveSegs - |queue'| == old(liveSegs) - |queue|
      ensures old(asked) <= asked
      ensures ok <==> !Denied(old(asked), asked) && queuelen + Cost(1, copy) <= TCP_SND_QUEUELEN
      ensures !ok ==> q' == q
      ensures ok ==> |q'| == |q| + 1 && queuelen' == queuelen + Cost(1, copy)
      ensures ok ==> pos < pos' <= |arg| && Laid(q', s, arg, pos0, pos', mssLocal, room, oversize', was, queuelen')
    {
      var left: u16 := |arg| - pos;
      var seglen: u16 := if left > mssLocal then mssLocal else left;
      var seg;
      var piece := arg[pos..pos + seglen];
      ok, seg, oversize', queuelen' := MakeSegment(piece, Wrap(sndLbb + pos), mssLocal, copy, more, queue == [],
                                                   queuelen, oversize);
      pos' := pos + seglen;
      queue', q' := queue, q;
      if ok {
        WrapAdd(s.End(), pos);
        ghost var x := Tx(s.End() + pos, piece, seg.pbufs);
        assert Rep(seg, x) && NextOf(x, s, arg, pos, mssLocal);
        q' := LaidOne(q, s, arg, pos0, pos, mssLocal, room, was, x, oversize', pos', queuelen');
        RepConcat(queue, [seg], q, [x]);
        queue' := queue + [seg];
      }
    }

    // Phase 3: new segments for what is left.
    method CutSegments(arg: seq<byte>, pos0: u16, mssLocal: u16, copy: bool, more: bool, room: u16, queuelen: u16,
                       ghost s: Stream)
      returns (ok: bool, queue: seq<TxSeg>, oversize: u16, queuelen': u16, ghost q: seq<Tx>)
      requires 0 < mssLocal && pos0 <= |arg| < 0x1_0000 && queuelen <= TCP_SND_QUEUELEN
      requires pos0 < |arg| ==> room == 0
      requires sndLbb == Wrap(s.End())
      modifies this`asked, this`livePbufs, this`liveSegs
      ensures RepAll(queue, q)
      ensures livePbufs == old(livePbufs) + Pbufs(q) && liveSegs == old(liveSegs) + |queue|
      ensures ok ==> Laid(q, s, arg, pos0, |arg|, mssLocal, room, oversize, queuelen, queuelen')
      ensures old(asked) <= asked
      ensures ok <==> !Denied(old(asked), asked)
                      && queuelen + Cost(|Chop(arg[pos0..], mssLocal)|, copy) <= TCP_SND_QUEUELEN
    {
      var pos := pos0;
      queue, q, oversize, queuelen', ok := [], [], room, queuelen, true;
      CutNone(s, arg, pos0, mssLocal);
      ghost var all := |Chop(arg[pos0..], mssLocal)|;
      while ok && pos < |arg|
        invariant old(asked) <= asked
        invariant ok ==> !Denied(old(asked), asked) && queuelen' == queuelen + Cost(|q|, copy)
        invariant !ok ==> Denied(old(asked), asked) || queuelen + Cost(all, copy) > TCP_SND_QUEUELEN
        invariant pos0 <= pos <= |arg| && RepAll(queue, q)
        invariant ok ==> Laid(q, s, arg, pos0, pos, mssLocal, room, oversize, queuelen, queuelen')
        invariant livePbufs == old(livePbufs) + Pbufs(q) && liveSegs == old(liveSegs) + |queue|
        decreases |arg| - pos, ok
      {
        var next;
        ChopsLeft(q, s, arg, pos0, pos, mssLocal);
        ok, queue, next, oversize, queuelen', q :=
          CutNext(queue, arg, pos0, pos, mssLocal, copy, more, queuelen', oversize, s, q, room, queuelen);
        if ok {
          pos := next;
        }
      }
      if ok { ChopsLeft(q, s, arg, pos0, pos, mssLocal); }
    }

    // tcp_segs_free
    method SegsFree(queue: seq<TxSeg>, ghost q: seq<Tx>)
      requires RepAll(queue, q) && Pbufs(q) <= livePbufs && |queue| <= liveSegs
      modifies this`livePbufs, this`liveSegs
      ensures livePbufs == old(livePbufs) - Pbufs(q) && liveSegs == old(liveSegs) - |queue|
    {
      var rest := queue;
      ghost var r := q;
      while rest != []
        invariant RepAll(rest, r) && Pbufs(r) <= livePbufs && |rest| <= liveSegs
        invariant livePbufs - Pbufs(r) == old(livePbufs) - Pbufs(q)
        invariant liveSegs - |rest| == old(liveSegs) - |queue|
        decreases |rest|
      {
        RepTail(rest, r);
        livePbufs, liveSegs := livePbufs - rest[0].pbufs, liveSegs - 1;
        rest, r := rest[1..], r[1..];
      }
    }

    // tcp_write_checks
    function WriteChecks(len: u16, connected: bool): Err
      reads this
    {
      if !connected then CONN
      else if len == 0 then OK
      else if len > sndBuf then MEM
      else if sndQueuelen >= TCP_SND_QUEUELEN then MEM
      else OK
    }

    // The last unsent segment with what phases 1 and 2 give it.
    method GrowTail(arg: seq<byte>, used: u16, concat: seq<byte>)
      requires RepAll(unsent, st.unsent) && unsent != []
      requires used + |concat| <= |arg| && concat == arg[used..used + |concat|]
      modifies this`unsent
      ensures |unsent| == old(|unsent|)
      ensures var x := st.unsent[|st.unsent| - 1];
        RepAll(unsent, Init(st.unsent) + [Extended(x, arg[..used + |concat|], Extra(concat))])
    {
      var n := |unsent| - 1;
      var last := unsent[n];
      ghost var x := Extended(st.unsent[n], arg[..used + |concat|], Extra(concat));
      if used > 0 {
        last := last.(data := last.data + arg[..used]);
      }
      if concat != [] {
        last := last.(data := last.data + concat, pbufs := last.pbufs + 1);
      }
      assert arg[..used] + concat == arg[..used + |concat|];
      assert last.data == x.data;
      RepConcat(unsent[..n], [last], Init(st.unsent), [x]);
      unsent := unsent[..n] + [last];
    }

    // What the three phases have prepared, with all that they have allocated for it.
    ghost predicate Ready(arg: seq<byte>, used: u16, concat: seq<byte>, queue: seq<TxSeg>, queuelen: u16, q: seq<Tx>)
      reads this
    {
      match st
      case Snd(_, _, _, _, _, _, _, _) =>
        && Mirrors() && RepAll(queue, q) && |arg| <= sndBuf && -1 <= rtime && dupacks <= 0xff
        && used + |concat| <= |arg| && concat == arg[used..used + |concat|]
        && (unsent == [] ==> used == 0 && concat == [])
        && queuelen == sndQueuelen + Extra(concat) + Pbufs(q) == livePbufs
        && liveSegs == |unacked| + |unsent| + |queue|
    }

    // The new segments behind the last one as it has grown.
    method Join(arg: seq<byte>, used: u16, concat: seq<byte>, queue: seq<TxSeg>, ghost q: seq<Tx>)
      requires RepAll(unsent, st.unsent) && RepAll(queue, q)
      requires used + |concat| <= |arg| && concat == arg[used..used + |concat|]
      requires unsent == [] ==> used == 0 && concat == []
      modifies this`unsent
      ensures |unsent| == old(|unsent|) + |queue|
      ensures RepAll(unsent, Assembled(st, arg, used + |concat|, Extra(concat), q, 0).unsent)
    {
      if unsent != [] {
        ghost var grown := [Extended(st.unsent[|st.unsent| - 1], arg[..used + |concat|], Extra(concat))];
        GrowTail(arg, used, concat);
        RepConcat(unsent, queue, Init(st.unsent) + grown, q);
        assert Init(st.unsent) + grown + q == Init(st.unsent) + (grown + q);
        unsent := unsent + queue;
      } else {
        unsent := queue;
      }
    }

    // The accounts, once the queues are as in st'.
    method Account(len: u16, queuelen: u16, oversize: u16, ghost st': Snd)
      requires lastack == Wrap(st'.una) && sndNxt == Wrap(st'.nxt) && Wrap(sndLbb + len) == Wrap(st'.Lbb())
      requires RepAll(unacked, st'.unacked) && RepAll(unsent, st'.unsent)
      requires len <= sndBuf && st'.sndBuf == sndBuf - len && st'.queuelen == queuelen && st'.oversize == oversize
      modifies this`sndLbb, this`sndBuf, this`sndQueuelen, this`unsentOversize, this`st
      ensures Mirrors() && st == st' && sndQueuelen == queuelen
    {
      sndLbb := Wrap(sndLbb + len);
      sndBuf, sndQueuelen, unsentOversize := sndBuf - len, queuelen, oversize;
      st := st';
    }

    // The end of tcp_write, when every allocation has succeeded.
    method Commit(arg: seq<byte>, used: u16, concat: seq<byte>, queue: seq<TxSeg>, oversize: u16, queuelen: u16,
                  ghost q: seq<Tx>)
      requires Ready(arg, used, concat, queue, queuelen, q)
      modifies this`unsent, this`sndLbb, this`sndBuf, this`sndQueuelen, this`unsentOversize, this`st
      ensures Valid() && st == Assembled(old(st), arg, used + |concat|, Extra(concat), q, oversize)
    {
      ghost var st' := Assembled(st, arg, used + |concat|, Extra(concat), q, oversize);
      AssembledFields(st, arg, used + |concat|, Extra(concat), q, oversize);
      Join(arg, used, concat, queue, q);
      Account(|arg|, queuelen, oversize, st');
    }

    // Phases 1 and 2, when there is a last unsent segment.
    method StageTail(arg: seq<byte>, mssLocal: u16, copy: bool, more: bool)
      returns (ok: bool, used: u16, concat: seq<byte>, room: u16, queuelen: u16)
      requires Mirrors() && |arg| < 0x1_0000
      requires Prepared(st) && (arg != [] ==> sndQueuelen < TCP_SND_QUEUELEN)
      modifies this`asked, this`livePbufs
      ensures ok ==> TailStaged(st, arg, mssLocal, used, concat, room)
      ensures ok ==> queuelen == sndQueuelen + Extra(concat) <= TCP_SND_QUEUELEN
      ensures old(asked) <= asked && (ok <==> !Denied(old(asked), asked))
      ensures ok ==> if unsent == [] then used + |concat| == 0
                     else used + |concat| == Growth(|Tail(st.unsent)|, unsentOversize, |arg|, mssLocal)
                          && used == Min(unsentOversize, |arg|)
      ensures livePbufs == old(livePbufs) + if ok then Extra(concat) else 0
    {
      room, used, concat, queuelen, ok := 0, 0, [], sndQueuelen, true;
      if unsent != [] {
        assert Tail(st.unsent) == unsent[|unsent| - 1].data;
        ok, room, used, concat := ExtendTail(arg, mssLocal, copy, more);
        if ok && concat != [] {
          queuelen := queuelen + 1;
        }
      }
    }

    // Phase 3, and the end of it all when it fails.
    method StageRest(arg: seq<byte>, mssLocal: u16, copy: bool, more: bool, used: u16, concat: seq<byte>, room: u16,
                     n: u16)
      returns (ok: bool, queue: seq<TxSeg>, oversize: u16, queuelen: u16, ghost q: seq<Tx>)
      requires Mirrors() && 0 < mssLocal && |arg| < 0x1_0000 && used + |concat| <= |arg|
      requires used + |concat| < |arg| ==> room == 0
      requires n <= TCP_SND_QUEUELEN && Extra(concat) <= livePbufs
      modifies this`asked, this`livePbufs, this`liveSegs
      ensures old(asked) <= asked
      ensures ok <==> !Denied(old(asked), asked)
                      && n + Cost(|Chop(arg[used + |concat|..], mssLocal)|, copy) <= TCP_SND_QUEUELEN
      ensures !ok ==> livePbufs == old(livePbufs) - Extra(concat) && liveSegs == old(liveSegs)
      ensures ok ==> RepAll(queue, q)
      ensures ok ==> Laid(q, st.stream, arg, used + |concat|, |arg|, mssLocal, room, oversize, n, queuelen)
      ensures ok ==> livePbufs - queuelen == old(livePbufs) - n && liveSegs == old(liveSegs) + |queue|
    {
      ok, queue, oversize, queuelen, q := CutSegments(arg, used + |concat|, mssLocal, copy, more, room, n, st.stream);
      if !ok {
        if concat != [] {
          livePbufs := livePbufs - 1;
        }
        SegsFree(queue, q);
      }
    }

    // The three phases, recorded in local variables; when one fails, all they allocated is freed.
    method Stage(arg: seq<byte>, mssLocal: u16, copy: bool, more: bool)
      returns (ok: bool, used: u16, concat: seq<byte>, queue: seq<TxSeg>, oversize: u16, queuelen: u16,
               ghost q: seq<Tx>)
      requires Mirrors() && 0 < mssLocal && |arg| < 0x1_0000
      requires Prepared(st) && (arg != [] ==> sndQueuelen < TCP_SND_QUEUELEN)
      modifies this`asked, this`livePbufs, this`liveSegs
      ensures !ok ==> livePbufs == old(livePbufs) && liveSegs == old(liveSegs)
      ensures ok ==> RepAll(queue, q) && Staged(st, arg, mssLocal, used, concat, q, oversize, queuelen)
      ensures ok ==> livePbufs - queuelen == old(livePbufs) - sndQueuelen && liveSegs == old(liveSegs) + |queue|
      ensures old(asked) <= asked && (ok <==> !Denied(old(asked), asked) && HasRoom(st, arg, mssLocal, copy))
    {
      var room, n;
      queue, q, oversize, queuelen := [], [], 0, 0;
      ok, used, concat, room, n := StageTail(arg, mssLocal, copy, more);
      if ok {
        ok, queue, oversize, queuelen, q := StageRest(arg, mssLocal, copy, more, used, concat, room, n);
        if ok {
          LaidIsStaged(st, arg, mssLocal, used, concat, q, room, oversize, n, queuelen);
        }
      }
    }

    // The last segment's 16-bit length can count what the write adds to it.
    predicate Countable(len: u16)
      reads `unsent, `unsentOversize, `mss, `sndWndMax
    {
      unsent != [] ==>
        |unsent[|unsent| - 1].data| + Growth(|unsent[|unsent| - 1].data|, unsentOversize, len, MssLocal()) <= 0xffff
    }

    // Where no segment is too long, every length can be counted.
    lemma RoomyCountable(len: u16)
      requires Consistent()
      ensures Countable(len)
    {
      if unsent != [] {
        assert Tail(st.unsent) == unsent[|unsent| - 1].data;
        GrowthFits(|Tail(st.unsent)|, unsentOversize, len, MssLocal());
      }
    }

    // What tcp_write starts from, but for what has been allocated.
    ghost predicate Writable(arg: seq<byte>)
      reads `lastack, `sndNxt, `sndLbb, `unacked, `unsent, `sndBuf, `sndQueuelen, `unsentOversize, `st
      reads `rtime, `dupacks, `mss, `sndWndMax
    {
      match st
      case Snd(_, _, _, _, _, _, _, _) =>
        && Mirrors() && Conserved(st) && -1 <= rtime && dupacks <= 0xff
        && 0 < MssLocal() && |arg| <= sndBuf && Countable(|arg|)
        && (arg != [] ==> sndQueuelen < TCP_SND_QUEUELEN)
    }

    lemma StagedReady(arg: seq<byte>, used: u16, concat: seq<byte>, queue: seq<TxSeg>, q: seq<Tx>, oversize: u16,
                      queuelen: u16)
      requires Writable(arg) && 0 < MssLocal() && RepAll(queue, q)
      requires Staged(st, arg, MssLocal(), used, concat, q, oversize, queuelen)
      requires queuelen == livePbufs && liveSegs == |unacked| + |unsent| + |queue|
      ensures Ready(arg, used, concat, queue, queuelen, q)
    {
    }

    lemma StagedCountable(arg: seq<byte>, used: u16, concat: seq<byte>, q: seq<Tx>, oversize: u16, queuelen: u16)
      requires Writable(arg) && 0 < MssLocal() && Staged(st, arg, MssLocal(), used, concat, q, oversize, queuelen)
      ensures st.unsent != [] ==> |Tail(st.unsent)| + (used + |concat|) <= 0xffff
    {
      assert st.unsent != [] ==> Tail(st.unsent) == unsent[|unsent| - 1].data;
    }

    lemma StagedIsWritten(arg: seq<byte>, used: u16, concat: seq<byte>, q: seq<Tx>, oversize: u16, queuelen: u16)
      requires Writable(arg) && 0 < MssLocal() && Staged(st, arg, MssLocal(), used, concat, q, oversize, queuelen)
      ensures Written(st, arg, MssLocal(), Assembled(st, arg, used + |concat|, Extra(concat), q, oversize))
    {
      StagedCountable(arg, used, concat, q, oversize, queuelen);
      AssembledIsWritten(st, arg, MssLocal(), used + |concat|, Extra(concat), q, oversize);
    }

    // What the phases have prepared is written.
    method Finish(arg: seq<byte>, used: u16, concat: seq<byte>, queue: seq<TxSeg>, oversize: u16, queuelen: u16,
                  ghost q: seq<Tx>)
      requires Writable(arg) && 0 < MssLocal() && RepAll(queue, q)
      requires Staged(st, arg, MssLocal(), used, concat, q, oversize, queuelen)
      requires queuelen == livePbufs && liveSegs == |unacked| + |unsent| + |queue|
      modifies this`unsent, this`sndLbb, this`sndBuf, this`sndQueuelen, this`unsentOversize, this`st
      ensures Valid() && Written(old(st), arg, MssLocal(), st)
    {
      StagedIsWritten(arg, used, concat, q, oversize, queuelen);
      StagedReady(arg, used, concat, queue, q, oversize, queuelen);
      Commit(arg, used, concat, queue, oversize, queuelen, q);
    }

    // What tcp_write does once it has passed its checks.
    method WriteChecked(arg: seq<byte>, copy: bool, more: bool) returns (ok: bool)
      requires Writable(arg) && 0 < MssLocal() && livePbufs == sndQueuelen && liveSegs == |unacked| + |unsent|
      modifies this`unsent, this`st, this`sndLbb, this`sndBuf, this`sndQueuelen, this`unsentOversize
      modifies this`asked, this`livePbufs, this`liveSegs
      ensures Valid() && old(asked) <= asked
      ensures ok <==> !Denied(old(asked), asked) && old(HasRoom(st, arg, MssLocal(), copy))
      ensures if ok then Written(old(st), arg, MssLocal(), st) else st == old(st) && unsent == old(unsent)
    {
      assert Prepared(st) by { UnsentCarries(st); }
      var used, concat, queue, oversize, queuelen;
      ghost var q;
      ok, used, concat, queue, oversize, queuelen, q := Stage(arg, MssLocal(), copy, more);
      if ok {
        Finish(arg, used, concat, queue, oversize, queuelen, q);
      }
    }

    // tcp_write: all of `arg` is unsent, or nothing has changed.
    method Write(arg: seq<byte>, copy: bool, more: bool, connected: bool) returns (err: Err)
      requires Held() && 0 < MssLocal() && |arg| < 0x1_0000 && Countable(|arg|)
      modifies this`unsent, this`st, this`sndLbb, this`sndBuf, this`sndQueuelen, this`unsentOversize
      modifies this`asked, this`livePbufs, this`liveSegs
      ensures Held() && (old(Roomy(st, MssLocal())) ==> Consistent())
      ensures err == OK ==> Written(old(st), arg, MssLocal(), st)
      ensures err != OK ==> st == old(st) && unsent == old(unsent)
      ensures err == CONN <==> !connected
      ensures connected ==>
        (err == OK <==>
          && |arg| <= old(sndBuf) && (arg == [] || old(sndQueuelen) < TCP_SND_QUEUELEN)
          && old(HasRoom(st, arg, MssLocal(), copy)) && !Denied(old(asked), asked))
    {
      err := WriteChecks(|arg|, connected);
      if err == OK {
        ghost var was := st;
        var ok := WriteChecked(arg, copy, more);
        if ok {
          WrittenInv(was, arg, MssLocal(), st);
        } else {
          err := MEM;
        }
      }
    }
  }
}
