// The tests and the loop steps of the send side, on 32-bit wrapping numbers, against the unbounded
// numbers of `SendQueue`.
module SendSteps {
  import opened SeqNum
  import opened SendQueue
  import opened SendRuns

  // struct tcp_seg: the payload of its pbufs, and how many of them there are.
  datatype TxSeg = TxSeg(seqno: u32, data: seq<byte>, pbufs: nat)

  ghost predicate Rep(c: TxSeg, x: Tx) {
    c.seqno == Wrap(x.at) && c.data == x.data && c.pbufs == x.pbufs
  }

  ghost predicate RepAll(cs: seq<TxSeg>, q: seq<Tx>) {
    |cs| == |q| && forall i | 0 <= i < |cs| :: Rep(cs[i], q[i])
  }

  lemma RepTail(cs: seq<TxSeg>, q: seq<Tx>)
    requires RepAll(cs, q) && cs != []
    ensures Rep(cs[0], q[0]) && RepAll(cs[1..], q[1..])
  {
  }

  lemma RepConcat(cs: seq<TxSeg>, ds: seq<TxSeg>, a: seq<Tx>, b: seq<Tx>)
    requires RepAll(cs, a) && RepAll(ds, b)
    ensures RepAll(cs + ds, a + b)
  {
  }

  // ----- the tests of the code ---------------------------------------------------------------

  // How far beyond lastack the segment ends, in 32 bits, against the window.
  predicate Fits(seg: TxSeg, lastack: u32, wnd: u16) {
    Wrap(Wrap(seg.seqno - lastack) + |seg.data|) <= wnd
  }

  lemma FitsTest(seg: TxSeg, x: Tx, una: int, wnd: u16)
    requires Rep(seg, x) && una < x.End() <= una + TCP_SND_BUF
    ensures Fits(seg, Wrap(una), wnd) <==> x.End() - una <= wnd
  {
    WrapSub(x.at, una);
    WrapAdd(x.at - una, |x.data|);
  }

  lemma PositionWrap(st: Snd, ackno: u32)
    ensures Wrap(Position(st, ackno)) == ackno
    ensures SeqLeq(ackno, Wrap(st.una)) <==> Position(st, ackno) <= st.una
    ensures ackno == Wrap(st.una) <==> Position(st, ackno) == st.una
    ensures -HALF <= Position(st, ackno) - st.una < HALF
  {
    Located(st.una, ackno);
  }

  lemma NewTest(st: Snd, a: int)
    requires st.una <= st.nxt <= st.una + TCP_SND_BUF && st.una < a < st.una + HALF
    ensures SeqBetween(Wrap(a), Wrap(Wrap(st.una) + 1), Wrap(st.nxt)) <==> a <= st.nxt
  {
    WrapAdd(st.una, 1);
    DiffWrap(a, st.una + 1);
    DiffWrap(a, st.nxt);
  }

  // The two tests that tell an acknowledgement of new data, and how much it acknowledges.
  lemma AckDecision(st: Snd, ackno: u32)
    requires st.una <= st.nxt <= st.una + TCP_SND_BUF
    ensures var a := Position(st, ackno);
      && Wrap(a) == ackno
      && (!SeqLeq(ackno, Wrap(st.una)) && SeqBetween(ackno, Wrap(Wrap(st.una) + 1), Wrap(st.nxt))
          <==> st.una < a <= st.nxt)
      && (st.una < a <= st.nxt ==> Wrap16(Wrap(ackno - Wrap(st.una))) == a - st.una)
  {
    var a := Position(st, ackno);
    PositionWrap(st, ackno);
    if st.una < a {
      NewTest(st, a);
      if a <= st.nxt { SmallDiff(a, st.una); }
    }
  }

  predicate Acked(seg: TxSeg, ackno: u32) {
    SeqLeq(Wrap(seg.seqno + |seg.data|), ackno)
  }

  lemma AckedTest(seg: TxSeg, x: Tx, una: int, a: int)
    requires Rep(seg, x) && una < x.End() <= una + TCP_SND_BUF && una < a <= una + TCP_SND_BUF
    ensures Acked(seg, Wrap(a)) <==> x.End() <= a
  {
    WrapAdd(x.at, |x.data|);
    DiffWrap(x.End(), a);
  }

  // The acknowledged number is at or after the end of the segment and not after snd_nxt.
  predicate AckedUnsent(seg: TxSeg, ackno: u32, sndNxt: u32) {
    SeqBetween(ackno, Wrap(seg.seqno + |seg.data|), sndNxt)
  }

  lemma WrappedDiff(x: int, y: int)
    requires -HALF - TCP_SND_BUF <= x - y < HALF
    ensures Diff(Wrap(x), Wrap(y)) == if -HALF <= x - y then x - y else x - y + MODULUS
  {
    DiffWrap(x, y);
    if x - y < -HALF {
      WrapShift(x, 1);
      DiffWrap(x + MODULUS, y);
    }
  }

  lemma AckedUnsentTest(seg: TxSeg, x: Tx, st: Snd, a: int)
    requires Rep(seg, x) && st.una < x.End() <= st.una + TCP_SND_BUF
    requires st.una <= st.nxt <= st.una + TCP_SND_BUF && -HALF <= a - st.una < HALF
    ensures AckedUnsent(seg, Wrap(a), Wrap(st.nxt)) <==> x.End() <= a <= st.nxt || Opposite(st, x, a)
  {
    WrapAdd(x.at, |x.data|);
    WrappedDiff(a, x.End());
    WrappedDiff(a, st.nxt);
  }

  // ----- the loops ---------------------------------------------------------------------------

  // Every end lies within a send buffer of `base`.
  ghost predicate Ahead(q: seq<Tx>, base: int) {
    forall x | x in q :: base < x.End() <= base + TCP_SND_BUF
  }

  // What the counters need so that freeing segments cannot make them wrap.
  ghost predicate Accountable(st: Snd) {
    && st.una <= st.nxt <= st.una + TCP_SND_BUF && st.sndBuf + (st.nxt - st.una) <= TCP_SND_BUF
    && Ahead(st.unacked, st.una) && Ahead(st.unsent, st.una) && Pbufs(st.unacked) + Pbufs(st.unsent) <= st.queuelen
  }

  function AckStep(st: Snd): Snd
    requires st.unacked != []
  {
    st.(unacked := st.unacked[1..], queuelen := st.queuelen - st.unacked[0].pbufs)
  }

  function AckLoop(st: Snd, a: int): Snd
    decreases |st.unacked|
  {
    if st.unacked != [] && st.unacked[0].End() <= a then AckLoop(AckStep(st), a) else st
  }

  function UnsentStep(st: Snd): Snd
    requires st.unsent != []
  {
    st.(unsent := st.unsent[1..], queuelen := st.queuelen - st.unsent[0].pbufs,
        oversize := if |st.unsent| == 1 then 0 else st.oversize)
  }

  function UnsentLoop(st: Snd, was: Snd, a: int): Snd
    decreases |st.unsent|
  {
    if st.unsent != [] && (st.unsent[0].End() <= a <= was.nxt || Opposite(was, st.unsent[0], a))
    then UnsentLoop(UnsentStep(st), was, a) else st
  }

  lemma {:induction false} AckLoopDrops(st: Snd, a: int)
    ensures AckLoop(st, a) == st.(unacked := DropAcked(st.unacked, a),
                                  queuelen := st.queuelen - (Pbufs(st.unacked) - Pbufs(DropAcked(st.unacked, a))))
    decreases |st.unacked|
  {
    if st.unacked != [] && st.unacked[0].End() <= a {
      AckLoopDrops(AckStep(st), a);
    }
  }

  lemma {:induction false} UnsentLoopDrops(st: Snd, was: Snd, a: int)
    ensures var rest := DropUnsent(st.unsent, was, a);
      UnsentLoop(st, was, a) == st.(unsent := rest, queuelen := st.queuelen - (Pbufs(st.unsent) - Pbufs(rest)),
                                    oversize := if rest == [] && st.unsent != [] then 0 else st.oversize)
    decreases |st.unsent|
  {
    if st.unsent != [] && (st.unsent[0].End() <= a <= was.nxt || Opposite(was, st.unsent[0], a)) {
      UnsentLoopDrops(UnsentStep(st), was, a);
    }
  }

  function AckTaken(st: Snd, a: int): Snd {
    if st.una < a <= st.nxt then AckLoop(st.(una := a, sndBuf := st.sndBuf + (a - st.una)), a) else st
  }

  lemma LoopsAcknowledge(st: Snd, ackno: u32)
    ensures var a := Position(st, ackno);
      && UnsentLoop(AckTaken(st, a), st, a) == SendQueue.Acknowledge(st, ackno)
      && AckTaken(st, a).una == SendQueue.Acknowledge(st, ackno).una
  {
    var a := Position(st, ackno);
    AckLoopDrops(st.(una := a, sndBuf := st.sndBuf + (a - st.una)), a);
    UnsentLoopDrops(AckTaken(st, a), st, a);
  }

  lemma Appended(was: seq<Tx>, x: Tx, n: nat)
    requires n <= |was|
    ensures (was + [x])[n..] == was[n..] + [x]
  {
  }

  lemma {:induction false} EndsBeyond(q: seq<Tx>, s: Stream, from: int)
    requires Carries(q, s, from) && q != []
    ensures forall x | x in q :: q[0].End() <= x.End()
    decreases |q|
  {
    assert q == [q[0]] + q[1..];
    if q[1..] != [] {
      EndsBeyond(q[1..], s, q[0].End());
    }
  }

  ghost predicate Increasing(q: seq<Tx>) {
    q == [] || ((forall x | x in q[1..] :: q[0].End() <= x.End()) && Increasing(q[1..]))
  }

  lemma {:induction false} EndsIncrease(q: seq<Tx>, s: Stream, from: int)
    requires Carries(q, s, from)
    ensures Increasing(q)
    decreases |q|
  {
    if q != [] {
      EndsIncrease(q[1..], s, q[0].End());
      CarriesAll(q[1..], s, q[0].End());
    }
  }

  // Everything unsent lies within a send buffer of `una`, in order.
  ghost predicate Near(st: Snd) {
    && st.una <= st.nxt <= st.una + TCP_SND_BUF
    && (forall x | x in st.unsent :: st.una < x.End() <= st.una + TCP_SND_BUF)
    && Increasing(st.unsent)
  }

  lemma Ends(st: Snd)
    requires Conserved(st)
    ensures forall x | x in st.unacked + st.unsent :: st.una < x.End() <= st.Lbb() <= st.una + TCP_SND_BUF
    ensures forall x | x in st.unacked :: x in st.unacked + st.unsent
    ensures forall x | x in st.unsent :: x in st.unacked + st.unsent
    ensures Near(st)
  {
    var q, from := st.unacked + st.unsent, First(st.unacked + st.unsent, st.stream);
    CarriesSplit(st.unacked, st.unsent, st.stream, from);
    EndsIncrease(st.unsent, st.stream, LastEnd(st.unacked, from));
    CarriesAll(q, st.stream, from);
    if q != [] { EndsBeyond(q, st.stream, from); }
  }

  lemma Accounts(st: Snd)
    requires Conserved(st)
    ensures Accountable(st)
  {
    Ends(st);
    PbufsConcat(st.unacked, st.unsent);
  }

  function Step(st: Snd): Snd
    requires st.unsent != []
  {
    st.(unacked := st.unacked + [st.unsent[0]], unsent := st.unsent[1..],
        nxt := Max(st.nxt, st.unsent[0].End()))
  }

  lemma HeadNear(st: Snd)
    requires Near(st) && st.unsent != []
    ensures st.una < st.unsent[0].End() <= st.una + TCP_SND_BUF
    ensures Near(Step(st))
  {
    assert st.unsent[0] in st.unsent;
  }

  // The test of the loop is the specification's, and Near is kept.
  lemma HeadFits(st: Snd, seg: TxSeg, wnd: u16)
    requires Near(st) && st.unsent != [] && Rep(seg, st.unsent[0])
    ensures st.una < st.unsent[0].End() <= st.una + TCP_SND_BUF
    ensures Fits(seg, Wrap(st.una), wnd) <==> st.unsent[0].End() - st.una <= wnd
    ensures Near(Step(st))
  {
    HeadNear(st);
    FitsTest(seg, st.unsent[0], st.una, wnd);
  }

  // The loop of tcp_output.
  function SendAll(st: Snd, wnd: int): Snd
    decreases |st.unsent|
  {
    if st.unsent != [] && st.unsent[0].End() - st.una <= wnd then SendAll(Step(st), wnd) else st
  }

  function Moved(st: Snd, k: nat): Snd
    requires k <= |st.unsent|
  {
    st.(unacked := st.unacked + st.unsent[..k], unsent := st.unsent[k..],
        nxt := Max(st.nxt, LastEnd(st.unsent[..k], st.nxt)))
  }

  lemma MovedNone(st: Snd)
    ensures Moved(st, 0) == st
  {
    assert st.unacked + st.unsent[..0] == st.unacked;
  }

  lemma MovedFurther(st: Snd, k: nat)
    requires Increasing(st.unsent) && 0 < k <= |st.unsent|
    ensures Moved(Step(st), k - 1) == Moved(st, k)
  {
    var x, rest := st.unsent[0], st.unsent[1..];
    var a, b := rest[..k - 1], st.unsent[..k];
    assert b == [x] + a && rest[k - 1..] == st.unsent[k..];
    assert st.unacked + b == st.unacked + [x] + a;
    if k > 1 {
      assert st.unsent[k - 1] == rest[k - 2];
      assert x.End() <= rest[k - 2].End();
      assert LastEnd(a, 0) == LastEnd(b, 0);
    }
  }

  lemma {:induction false} SendAllMoves(st: Snd, wnd: int)
    requires Increasing(st.unsent)
    ensures SendAll(st, wnd) == Moved(st, Fitting(st.unsent, st.una, wnd))
    decreases |st.unsent|
  {
    if Fitting(st.unsent, st.una, wnd) > 0 {
      SendAllMoves(Step(st), wnd);
      MovedFurther(st, Fitting(st.unsent, st.una, wnd));
    } else {
      MovedNone(st);
    }
  }

  function SentAll(st: Snd, wnd: int): Snd {
    var st' := SendAll(st, wnd);
    if st'.unsent == [] then st'.(oversize := 0) else st'
  }

  lemma SendAllIsOutput(st: Snd, wnd: int)
    requires Near(st)
    ensures SentAll(st, wnd) == SendQueue.Output(st, wnd)
  {
    SendAllMoves(st, wnd);
  }

  lemma OutputNothing(st: Snd, wnd: int)
    requires Fitting(st.unsent, st.una, wnd) == 0 && (st.unsent == [] ==> st.oversize == 0)
    ensures SendQueue.Output(st, wnd) == st
  {
    assert st.unacked + st.unsent[..0] == st.unacked;
  }

  lemma OutputCount(st: Snd, wnd: int)
    ensures |SendQueue.Output(st, wnd).unacked| == |st.unacked| + Fitting(st.unsent, st.una, wnd)
  {
  }
}
