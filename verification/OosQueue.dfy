// The out-of-order queue as core/tcp_in.c keeps it: a linked list of segments with 32-bit wrapping
// sequence numbers, walked and spliced by loops.  Every method is proved to do what `Reassembly`
// says over unbounded numbers.
module OosQueue {
  import opened SeqNum
  import opened Reassembly

  // struct tcp_seg with the fields of its header that matter here; `payload` is its pbuf's data.
  datatype TcpSeg = TcpSeg(seqno: u32, len: u16, payload: seq<byte>, fin: bool) {
    function TcpLen(): nat { len + if fin then 1 else 0 }

    function Realloc(newLen: u16): TcpSeg {
      this.(len := newLen, payload := if newLen < |payload| then payload[..newLen] else payload)
    }
  }

  ghost predicate Rep(c: TcpSeg, s: Slice) {
    c.seqno == Wrap(s.at) && c.len == s.len && c.payload == s.data && c.fin == s.fin
  }

  ghost predicate RepAll(cs: seq<TcpSeg>, q: seq<Slice>) {
    |cs| == |q| && forall i | 0 <= i < |cs| :: Rep(cs[i], q[i])
  }

  // ----- wrapping comparisons ----------------------------------------------------------------

  lemma Compare(x: int, y: int)
    requires -HALF < x - y < HALF
    ensures SeqLt(Wrap(x), Wrap(y)) <==> x < y
    ensures SeqLeq(Wrap(x), Wrap(y)) <==> x <= y
    ensures SeqGt(Wrap(x), Wrap(y)) <==> x > y
    ensures SeqGeq(Wrap(x), Wrap(y)) <==> x >= y
    ensures Wrap(x) == Wrap(y) <==> x == y
  {
    DiffWrap(x, y);
    WrapSub(x, y);
  }

  // Beyond half the sequence space the larger number is taken for the smaller one.
  lemma CompareFar(x: int, y: int)
    requires -HALF < x - y < MODULUS
    ensures SeqGeq(Wrap(x), Wrap(y)) <==> 0 <= x - y < HALF
  {
    DiffWrap(x, y);
    if HALF <= x - y {
      WrapShift(x, -1);
      DiffWrap(x - MODULUS, y);
    }
  }

  // seqno + len, as the code forms it.
  lemma EndWrap(c: TcpSeg, s: Slice)
    requires Rep(c, s)
    ensures Wrap(c.seqno + c.len) == Wrap(s.End())
    ensures Wrap(c.seqno + c.TcpLen()) == Wrap(s.Next())
  {
    WrapAdd(s.at, s.len);
    WrapAdd(s.at, s.TcpLen());
  }

  lemma CutRep(c: TcpSeg, s: Slice, e: int)
    requires Rep(c, s) && 0 <= e - s.at < 0x1_0000
    ensures Rep(c.Realloc(Wrap16(Wrap(Wrap(e) - c.seqno))), s.CutAt(e))
  {
    SmallDiff(e, s.at);
  }

  // Close enough to `at` for all comparisons with it, and with its neighbours.
  predicate Comparable(at: int, r: Slice) {
    at - HALF + 1 < r.at < at + 0x1_0000 && r.len <= 0xffff
  }

  ghost predicate Near(at: int, q: seq<Slice>) {
    forall r | r in q :: Comparable(at, r)
  }

  // The two tests by which a queued segment `n` is found covered, or overlapped, by `c`.
  predicate Covers(c: TcpSeg, n: TcpSeg) {
    SeqGeq(Wrap(c.seqno + c.len), Wrap(n.seqno + n.len))
  }

  predicate Overlaps(c: TcpSeg, n: TcpSeg) {
    SeqGt(Wrap(c.seqno + c.len), n.seqno)
  }

  lemma Tests(c: TcpSeg, s: Slice, n: TcpSeg, r: Slice)
    requires Rep(c, s) && Rep(n, r)
    requires s.at <= r.at < s.at + 0x1_0000 && r.len <= 0xffff
    ensures Covers(c, n) <==> r.End() <= s.End()
    ensures Overlaps(c, n) <==> r.at < s.End()
  {
    EndWrap(c, s);
    EndWrap(n, r);
    Compare(s.End(), r.End());
    Compare(s.End(), r.at);
  }

  lemma RepTail(cs: seq<TcpSeg>, q: seq<Slice>)
    requires RepAll(cs, q) && cs != []
    ensures Rep(cs[0], q[0]) && RepAll(cs[1..], q[1..])
  {
  }

  lemma RepCons(c: TcpSeg, s: Slice, cs: seq<TcpSeg>, q: seq<Slice>)
    requires Rep(c, s) && RepAll(cs, q)
    ensures RepAll([c] + cs, [s] + q)
  {
  }

  // ----- tcp_oos_insert_segment --------------------------------------------------------------

  // Merging `s` into `q` has come to merging `g`, held as `c`, into `rest`, held as `next`.
  ghost predicate Merging(s: Slice, q: seq<Slice>, c: TcpSeg, g: Slice, next: seq<TcpSeg>, rest: seq<Slice>)
  {
    && Rep(c, g) && RepAll(next, rest)
    && Chained(q) && (q == [] || s.at <= q[0].at)
    && Chained(rest) && Near(g.at, rest) && (rest == [] || g.at <= rest[0].at)
    && Merge(s, q) == Merge(g, rest)
    && (g.fin ==> rest == [])
  }

  // A covered segment is swallowed.
  lemma Swallow(s: Slice, q: seq<Slice>, c: TcpSeg, g: Slice, next: seq<TcpSeg>, rest: seq<Slice>)
    requires Merging(s, q, c, g, next, rest) && next != [] && rest[0].End() <= g.End()
    ensures Merging(s, q, c.(fin := next[0].fin), g.(fin := rest[0].fin), next[1..], rest[1..])
  {
    RepTail(next, rest);
    assert rest[0] in rest;
    assert |rest| > 1 ==> rest[1..][0] in rest[1..];
  }

  // Nothing more is covered: the rest stays, and what it overlaps is cut off.
  method CutToNext(c: TcpSeg, next: seq<TcpSeg>, ghost s: Slice, ghost q: seq<Slice>,
                   ghost g: Slice, ghost rest: seq<Slice>)
    returns (c': TcpSeg)
    requires Merging(s, q, c, g, next, rest) && (next != [] ==> g.End() < rest[0].End())
    ensures RepAll([c'] + next, Merge(s, q))
  {
    c' := c;
    ghost var g' := g;
    if next != [] {
      assert rest[0] in rest;
      Tests(c, g, next[0], rest[0]);
      if Overlaps(c, next[0]) {
        CutRep(c, g, rest[0].at);
        c' := c.Realloc(Wrap16(Wrap(next[0].seqno - c.seqno)));
        g' := g.CutAt(rest[0].at);
      }
    }
    RepCons(c', g', next, rest);
  }

  method OosInsertSegment(cseg: TcpSeg, queue: seq<TcpSeg>, ghost s: Slice, ghost q: seq<Slice>)
    returns (list: seq<TcpSeg>)
    requires Rep(cseg, s) && RepAll(queue, q)
    requires Chained(q) && Near(s.at, q) && (q == [] || s.at <= q[0].at)
    ensures RepAll(list, Merge(s, q))
  {
    if cseg.fin {
      return [cseg];
    }
    var c, next := cseg, queue;
    ghost var g, rest := s, q;
    while next != [] && Covers(c, next[0])
      invariant Merging(s, q, c, g, next, rest)
      decreases |next|
    {
      assert rest[0] in rest;
      Tests(c, g, next[0], rest[0]);
      Swallow(s, q, c, g, next, rest);
      if next[0].fin {
        c := c.(fin := true);
      }
      g, rest, next := g.(fin := rest[0].fin), rest[1..], next[1..];
    }
    if next != [] {
      assert rest[0] in rest;
      Tests(c, g, next[0], rest[0]);
    }
    c := CutToNext(c, next, s, q, g, rest);
    list := [c] + next;
  }

  // ----- queueing an out-of-order segment ----------------------------------------------------

  function YieldLast(q: seq<Slice>, at: int): seq<Slice>
    requires q != [] ==> q[|q| - 1].at <= at
  {
    if q == [] then [] else q[..|q| - 1] + [q[|q| - 1].YieldTo(at)]
  }

  // The segment just passed yields to the one that arrives at `seqno`.
  method TrimLast(passed: seq<TcpSeg>, seqno: u32, ghost g: seq<Slice>, ghost at: int)
    returns (trimmed: seq<TcpSeg>)
    requires RepAll(passed, g) && seqno == Wrap(at)
    requires g != [] ==> g[|g| - 1].at < at && Comparable(at, g[|g| - 1])
    ensures RepAll(trimmed, YieldLast(g, at))
  {
    trimmed := passed;
    if passed != [] {
      var prev := passed[|passed| - 1];
      EndWrap(prev, g[|g| - 1]);
      Compare(g[|g| - 1].End(), at);
      if SeqGt(Wrap(prev.seqno + prev.len), seqno) {
        CutRep(prev, g[|g| - 1], at);
        trimmed := passed[..|passed| - 1] + [prev.Realloc(Wrap16(Wrap(seqno - prev.seqno)))];
      }
    }
  }

  // What reaches beyond the window is cut off, as the unsigned comparison has it.
  method CheckOverrun(cseg: TcpSeg, rcvNxt: u32, rcvWnd: u16, ghost s: Slice, ghost nxt: int)
    returns (c: TcpSeg)
    requires Rep(cseg, s) && rcvNxt == Wrap(nxt)
    ensures Rep(c, CutToWindow(s, nxt + rcvWnd))
  {
    c := cseg;
    EndWrap(cseg, s);
    WrapAdd(nxt, rcvWnd);
    if Wrap(cseg.TcpLen() + cseg.seqno) > Wrap(rcvNxt + rcvWnd) {
      Length16(nxt + rcvWnd, s.at);
      c := c.(fin := false).Realloc(Wrap16(Wrap(Wrap(rcvNxt + rcvWnd) - cseg.seqno)));
    }
  }

  lemma RepSplit(cs: seq<TcpSeg>, ds: seq<TcpSeg>, a: seq<Slice>, b: seq<Slice>)
    requires RepAll(cs, a) && RepAll(ds, b)
    ensures RepAll(cs + ds, a + b)
  {
  }

  lemma RepSnoc(cs: seq<TcpSeg>, c: TcpSeg, a: seq<Slice>, s: Slice)
    requires RepAll(cs, a) && Rep(c, s)
    ensures RepAll(cs + [c], a + [s])
  {
  }

  lemma PlaceOrder(prev: Slice, s: Slice, next: Slice)
    requires prev.at < s.at && Comparable(s.at, prev) && Comparable(s.at, next)
    ensures SeqBetween(Wrap(s.at), Wrap(Wrap(prev.at) + 1), Wrap(Wrap(next.at) - 1)) <==> s.at < next.at
  {
    WrapAdd(prev.at, 1);
    WrapAdd(next.at, -1);
    Compare(s.at, prev.at + 1);
    Compare(s.at, next.at - 1);
  }

  // The walk stands between `passed` and `rest`; what it passed starts before `s` and ends before
  // the next segment starts.
  ghost predicate Walked(passed: seq<Slice>, rest: seq<Slice>, s: Slice) {
    && rest != [] && Chained(rest) && Near(s.at, rest)
    && (passed != [] ==>
          var last := passed[|passed| - 1];
          && last.at < s.at && Comparable(s.at, last)
          && last.End() <= rest[0].at)
  }

  lemma NoYield(passed: seq<Slice>, rest: seq<Slice>, s: Slice)
    requires Walked(passed, rest, s) && rest[0].at <= s.at
    ensures YieldLast(passed, s.at) == passed
  {
  }

  lemma YieldSnoc(passed: seq<Slice>, x: Slice, at: int)
    requires x.at <= at
    ensures YieldLast(passed + [x], at) == passed + [x.YieldTo(at)]
  {
  }

  lemma FinAlone(rest: seq<Slice>)
    requires Chained(rest) && rest != [] && rest[0].fin
    ensures |rest| == 1
  {
    assert |rest| == 1 + |rest[1..]|;
  }

  lemma YieldCons(x: Slice, q: seq<Slice>, at: int)
    requires q != [] && q[|q| - 1].at <= at
    ensures YieldLast([x] + q, at) == [x] + YieldLast(q, at)
  {
  }

  lemma PlaceStep(q: seq<Slice>, s: Slice, right: int)
    requires Chained(q) && |q| > 1 && q[0].at < s.at
    ensures Place(q, s, right) == [q[0].YieldTo(s.at)] + Place(q[1..], s, right)
    ensures q[1].at < s.at ==> q[0].YieldTo(s.at) == q[0]
  {
    if q[0].fin { FinAlone(q); }
    assert q[1] in q[1..];
  }

  // What has been passed stays as it is, but for the last of it.
  function Spliced(passed: seq<Slice>, rest: seq<Slice>, s: Slice, right: int): seq<Slice>
    requires passed != [] ==> passed[|passed| - 1].at <= s.at
    requires Chained(rest) && rest != []
  {
    YieldLast(passed, s.at) + Place(rest, s, right)
  }

  lemma SpliceStep(passed: seq<Slice>, rest: seq<Slice>, s: Slice, right: int)
    requires |passed| > 1 && passed[|passed| - 1].at <= s.at
    requires Chained(rest) && rest != []
    ensures Spliced(passed, rest, s, right) == [passed[0]] + Spliced(passed[1..], rest, s, right)
  {
    YieldCons(passed[0], passed[1..], s.at);
    assert passed == [passed[0]] + passed[1..];
  }

  lemma {:induction false} PlaceAt(q: seq<Slice>, passed: seq<Slice>, rest: seq<Slice>, s: Slice, right: int)
    requires Chained(q) && q == passed + rest && rest != [] && Chained(rest)
    requires forall d | d in passed :: d.at < s.at
    ensures Place(q, s, right) == Spliced(passed, rest, s, right)
    decreases |passed|
  {
    if passed == [] {
      assert q == rest;
    } else {
      PlaceStep(q, s, right);
      assert q[1..] == passed[1..] + rest;
      if |passed| == 1 {
        assert q[1..] == rest;
        assert YieldLast(passed, s.at) == [q[0].YieldTo(s.at)];
      } else {
        PlaceAt(q[1..], passed[1..], rest, s, right);
        SpliceStep(passed, rest, s, right);
      }
    }
  }

  // What becomes of the queue when the walk has come to its last segment.
  lemma SplicedLast(done: seq<Slice>, rest: seq<Slice>, s: Slice, right: int)
    requires |rest| == 1 && Walked(done, rest, s) && rest[0].at < s.at
    ensures Spliced(done, rest, s, right)
         == if rest[0].fin then done + rest else YieldLast(done + [rest[0]], s.at) + [CutToWindow(s, right)]
  {
    NoYield(done, rest, s);
    assert [rest[0]] == rest && rest[0] in rest;
    if !rest[0].fin {
      YieldSnoc(done, rest[0], s.at);
      var cut := CutToWindow(s, right);
      assert done + ([rest[0].YieldTo(s.at)] + [cut]) == done + [rest[0].YieldTo(s.at)] + [cut];
    }
  }

  // The branch at the end of the queue.
  method Append(inseg: TcpSeg, passed: seq<TcpSeg>, next: TcpSeg, rcvNxt: u32, rcvWnd: u16,
                ghost s: Slice, ghost done: seq<Slice>, ghost rest: seq<Slice>, ghost nxt: int)
    returns (list: seq<TcpSeg>, ghost r: seq<Slice>)
    requires RepAll(passed, done) && RepAll([next], rest) && Walked(done, rest, s) && rest[0].at < s.at
    requires Rep(inseg, s) && rcvNxt == Wrap(nxt)
    ensures RepAll(list, r) && r == Spliced(done, rest, s, nxt + rcvWnd)
  {
    SplicedLast(done, rest, s, nxt + rcvWnd);
    RepSplit(passed, [next], done, rest);
    if next.fin {
      return passed + [next], done + rest;
    }
    assert [rest[0]] == rest;
    var front := TrimLast(passed + [next], inseg.seqno, done + [rest[0]], s.at);
    var c := CheckOverrun(inseg, rcvNxt, rcvWnd, s, nxt);
    ghost var was, cut := YieldLast(done + [rest[0]], s.at), CutToWindow(s, nxt + rcvWnd);
    RepSnoc(front, c, was, cut);
    list, r := front + [c], was + [cut];
  }

  // One round of the loop: `prev` is the last of `passed`, `next` the first of `next`.
  method PlaceHere(inseg: TcpSeg, passed: seq<TcpSeg>, next: seq<TcpSeg>, rcvNxt: u32, rcvWnd: u16,
                   ghost s: Slice, ghost done: seq<Slice>, ghost rest: seq<Slice>, ghost nxt: int)
    returns (placed: bool, list: seq<TcpSeg>, ghost r: seq<Slice>)
    requires RepAll(passed, done) && RepAll(next, rest) && Walked(done, rest, s)
    requires Rep(inseg, s) && rcvNxt == Wrap(nxt)
    ensures placed ==> RepAll(list, r) && r == Spliced(done, rest, s, nxt + rcvWnd)
    ensures !placed ==> |rest| > 1 && rest[0].at < s.at
  {
    assert rest[0] in rest;
    Compare(s.at, rest[0].at);
    if inseg.seqno == next[0].seqno {
      NoYield(done, rest, s);
      var tail := next;
      if inseg.len > next[0].len {
        tail := OosInsertSegment(inseg, next, s, rest);
      }
      r := done + Place(rest, s, nxt + rcvWnd);
      RepSplit(passed, tail, done, Place(rest, s, nxt + rcvWnd));
      return true, passed + tail, r;
    }
    if passed == [] {
      if SeqLt(inseg.seqno, next[0].seqno) {
        var tail := OosInsertSegment(inseg, next, s, rest);
        RepSplit([], tail, [], Merge(s, rest));
        return true, [] + tail, [] + Merge(s, rest);
      }
    } else {
      PlaceOrder(done[|done| - 1], s, rest[0]);
      if SeqBetween(inseg.seqno, Wrap(passed[|passed| - 1].seqno + 1), Wrap(next[0].seqno - 1)) {
        var front := TrimLast(passed, inseg.seqno, done, s.at);
        var tail := OosInsertSegment(inseg, next, s, rest);
        RepSplit(front, tail, YieldLast(done, s.at), Merge(s, rest));
        return true, front + tail, YieldLast(done, s.at) + Merge(s, rest);
      }
    }
    placed, list, r := |next| == 1 && SeqGt(inseg.seqno, next[0].seqno), [], [];
    if placed {
      list, r := Append(inseg, passed, next[0], rcvNxt, rcvWnd, s, done, rest, nxt);
    }
  }

  // The walk passes one queued segment.
  lemma PassOne(passed: seq<Slice>, rest: seq<Slice>, s: Slice)
    requires Walked(passed, rest, s) && |rest| > 1 && rest[0].at < s.at
    ensures Walked(passed + [rest[0]], rest[1..], s)
    ensures passed + [rest[0]] + rest[1..] == passed + rest
  {
    if rest[0].fin { FinAlone(rest); }
    assert rest[1..][0] in rest[1..];
    assert rest[0] in rest;
  }

  ghost predicate Walking(q: seq<Slice>, passed: seq<TcpSeg>, next: seq<TcpSeg>,
                          done: seq<Slice>, rest: seq<Slice>, s: Slice)
  {
    && RepAll(passed, done) && RepAll(next, rest)
    && Walked(done, rest, s) && q == done + rest && forall d | d in done :: d.at < s.at
  }

  lemma Advance(q: seq<Slice>, passed: seq<TcpSeg>, next: seq<TcpSeg>,
                done: seq<Slice>, rest: seq<Slice>, s: Slice)
    requires Walking(q, passed, next, done, rest, s) && |rest| > 1 && rest[0].at < s.at
    ensures Walking(q, passed + [next[0]], next[1..], done + [rest[0]], rest[1..], s)
  {
    PassOne(done, rest, s);
    RepTail(next, rest);
    RepSplit(passed, [next[0]], done, [rest[0]]);
  }

  lemma Done(q: seq<Slice>, done: seq<Slice>, rest: seq<Slice>, s: Slice, right: int, r: seq<Slice>)
    requires Chained(q) && q == done + rest && Walked(done, rest, s)
    requires (forall d | d in done :: d.at < s.at) && r == Spliced(done, rest, s, right)
    ensures r == Place(q, s, right)
  {
    PlaceAt(q, done, rest, s, right);
  }

  // The `for` loop of tcp_receive over a queue that is not empty.
  method QueueOutOfOrder(inseg: TcpSeg, ooseq: seq<TcpSeg>, rcvNxt: u32, rcvWnd: u16,
                         ghost s: Slice, ghost q: seq<Slice>, ghost nxt: int)
    returns (list: seq<TcpSeg>, ghost r: seq<Slice>)
    requires ooseq != [] && RepAll(ooseq, q) && Chained(q) && Near(s.at, q)
    requires Rep(inseg, s) && rcvNxt == Wrap(nxt)
    ensures RepAll(list, r) && r == Place(q, s, nxt + rcvWnd)
  {
    var passed, next := [], ooseq;
    ghost var done, rest := [], q;
    while true
      invariant Walking(q, passed, next, done, rest, s)
      decreases |next|
    {
      var placed, l, r' := PlaceHere(inseg, passed, next, rcvNxt, rcvWnd, s, done, rest, nxt);
      if placed {
        Done(q, done, rest, s, nxt + rcvWnd, r');
        return l, r';
      }
      Advance(q, passed, next, done, rest, s);
      passed, next := passed + [next[0]], next[1..];
      done, rest := done + [rest[0]], rest[1..];
    }
  }

  lemma NearAhead(nxt: int, q: seq<Slice>, at: int)
    requires Ahead(nxt, q) && nxt < at < nxt + HALF
    ensures Near(at, q)
  {
  }

  // The copy of an out-of-order segment joins the queue.
  method QueueOn(inseg: TcpSeg, ooseq: seq<TcpSeg>, rcvNxt: u32, rcvWnd: u16,
                 ghost s: Slice, ghost q: seq<Slice>, ghost nxt: int)
    returns (list: seq<TcpSeg>, ghost r: seq<Slice>)
    requires RepAll(ooseq, q) && Chained(q) && Ahead(nxt, q) && nxt < s.at < nxt + HALF
    requires Rep(inseg, s) && rcvNxt == Wrap(nxt)
    ensures RepAll(list, r) && r == Enqueue(q, s, nxt + rcvWnd)
  {
    if ooseq == [] {
      list, r := [inseg], [s];
    } else {
      NearAhead(nxt, q, s.at);
      list, r := QueueOutOfOrder(inseg, ooseq, rcvNxt, rcvWnd, s, q, nxt);
    }
  }

  // ----- in-order delivery -------------------------------------------------------------------

  // A segment in sequence against the queue: `c` is what is left of the segment and `next` what is
  // left of the queue.
  method AdjustToQueue(inseg: TcpSeg, ooseq: seq<TcpSeg>, ghost s: Slice, ghost q: seq<Slice>)
    returns (c: TcpSeg, next: seq<TcpSeg>)
    requires Rep(inseg, s) && RepAll(ooseq, q)
    requires Chained(q) && Near(s.at, q) && (q == [] || s.at <= q[0].at)
    ensures RepAll([c] + next, Merge(s, q))
  {
    c, next := inseg, ooseq;
    if next == [] {
      return;
    }
    if c.fin {
      next := [];
      return;
    }
    var tcplen := c.TcpLen();
    ghost var g, rest := s, q;
    while next != [] && SeqGeq(Wrap(c.seqno + tcplen), Wrap(next[0].seqno + next[0].len))
      invariant Merging(s, q, c, g, next, rest) && tcplen == c.TcpLen()
      decreases |next|
    {
      assert rest[0] in rest;
      Tests(c, g, next[0], rest[0]);
      Swallow(s, q, c, g, next, rest);
      if next[0].fin {
        c := c.(fin := true);
        tcplen := c.TcpLen();
      }
      g, rest, next := g.(fin := rest[0].fin), rest[1..], next[1..];
    }
    if next != [] {
      assert rest[0] in rest;
      Tests(c, g, next[0], rest[0]);
    }
    c := CutToNext(c, next, s, q, g, rest);
  }

  lemma EdgeTests(nxt: int, wnd: u16, edge: int, mss: u16)
    requires edge <= nxt + 0xffff && nxt < edge + HALF
    ensures SeqGeq(Wrap(Wrap(nxt) + wnd), Wrap(Wrap(edge) + Min(TCP_WND / 2, mss)))
       <==> MoreToAnnounce(nxt, wnd, edge, mss)
    ensures SeqGt(Wrap(nxt), Wrap(edge)) <==> nxt > edge
  {
    var threshold := Min(TCP_WND / 2, mss);
    WrapAdd(nxt, wnd);
    WrapAdd(edge, threshold);
    CompareFar(nxt + wnd, edge + threshold);
    Compare(nxt, edge);
  }

  lemma Inflation(nxt: int, wnd: u16, edge: int)
    requires edge <= nxt + wnd < edge + MODULUS
    ensures Wrap(Wrap(Wrap(nxt) + wnd) - Wrap(edge)) == nxt + wnd - edge
  {
    WrapAdd(nxt, wnd);
    WrapSub(nxt + wnd, edge);
  }

  // After the merge the segment leads, and the rest of the queue lies beyond it.
  lemma MergedHead(st: Rcv, s: Slice)
    requires Structure(st) && s.at == st.nxt && 0 < s.TcpLen() && s.len <= 0xffff && 0 < st.wnd
    ensures st.ooseq == [] || s.at <= st.ooseq[0].at
    ensures var m := Merge(FitWindow(st, s), st.ooseq);
      && Chained(m[1..]) && m[0].at == st.nxt && m[0].Next() <= st.nxt + 0x1_0000
      && (forall r | r in m[1..] :: m[0].Next() <= r.at <= st.nxt + 0xffff && r.len <= 0xffff)
  {
    AheadOf(st.nxt, st.ooseq);
    MergeChained(FitWindow(st, s), st.ooseq);
  }

  // What is still to be drained from `q` completes `data` and `fin` to `d`.
  ghost predicate Draining(d: Delivery, data: seq<byte>, fin: bool, nxt: int, q: seq<Slice>) {
    var e := Drain(nxt, q);
    d == Delivery(e.nxt, data + e.data, fin || e.fin, e.rest)
  }

  lemma DrainOne(d: Delivery, data: seq<byte>, fin: bool, q: seq<Slice>)
    requires q != [] && Draining(d, data, fin, q[0].at, q)
    ensures Draining(d, data + q[0].data, fin || q[0].fin, q[0].Next(), q[1..])
  {
    var e := Drain(q[0].Next(), q[1..]);
    assert data + (q[0].data + e.data) == data + q[0].data + e.data;
  }

  lemma DrainEnd(d: Delivery, data: seq<byte>, fin: bool, nxt: int, q: seq<Slice>)
    requires Draining(d, data, fin, nxt, q) && (q != [] ==> q[0].at != nxt)
    ensures d == Delivery(nxt, data, fin, q)
  {
    assert data + [] == data;
  }

  lemma DrainStart(s: Slice, rest: seq<Slice>)
    ensures Draining(Drain(s.at, [s] + rest), s.data, s.fin, s.Next(), rest)
  {
    assert ([s] + rest)[1..] == rest;
  }

  // After the merge its head comes first, and the rest of it is drained from there.
  lemma DrainMerged(st: Rcv, s: Slice, m: seq<Slice>)
    requires Structure(st) && s.at == st.nxt && 0 < s.TcpLen() && s.len <= 0xffff && 0 < st.wnd
    requires (st.ooseq == [] || s.at <= st.ooseq[0].at) && m == Merge(FitWindow(st, s), st.ooseq)
    ensures Draining(InOrder(st, s), m[0].data, m[0].fin, m[0].Next(), m[1..])
  {
    assert [m[0]] + m[1..] == m;
    DrainStart(m[0], m[1..]);
  }
}
