// What the reassembly of `tcp_receive` is for: the bytes handed to the application are the bytes
// the peer sent, in order, with nothing missing and nothing twice.
module Delivery {
  import opened SeqNum
  import opened Reassembly

  // Every queued segment is a piece of the peer's stream, and its `len` is what its pbuf holds.
  ghost predicate Honest(p: Peer, q: seq<Slice>) {
    forall s | s in q :: p.Sent(s)
  }

  // Sequence number `x` is held by the queue.
  ghost predicate Has(q: seq<Slice>, x: int) {
    exists s | s in q :: s.at <= x < s.Next()
  }

  predicate Within(s: Slice, x: int) {
    s.at <= x < s.Next()
  }

  lemma HasCons(s: Slice, q: seq<Slice>, x: int)
    ensures Has([s] + q, x) <==> Within(s, x) || Has(q, x)
  {
    if Has(q, x) {
      var r :| r in q && r.at <= x < r.Next();
      assert r in [s] + q;
    }
    assert s in [s] + q;
  }

  lemma HasSplit(q: seq<Slice>, x: int)
    requires q != []
    ensures Has(q, x) <==> Within(q[0], x) || Has(q[1..], x)
  {
    assert q == [q[0]] + q[1..];
    HasCons(q[0], q[1..], x);
  }

  lemma HonestSplit(p: Peer, q: seq<Slice>)
    requires q != [] && Honest(p, q)
    ensures p.Sent(q[0]) && Honest(p, q[1..])
  {
    assert q[0] in q;
  }

  lemma CutSent(p: Peer, s: Slice, e: int)
    requires p.Sent(s) && s.at <= e <= s.End()
    ensures p.Sent(s.CutAt(e)) <==> !s.fin || e == s.End()
    ensures p.Sent(s.(fin := false).CutAt(e))
  {
    assert p.Bytes(s.at, s.End())[..e - s.at] == p.Bytes(s.at, e);
    if e == s.End() { assert s.CutAt(e) == s; }
  }

  lemma FromSent(p: Peer, s: Slice, e: int)
    requires p.Sent(s) && s.at <= e <= s.End()
    ensures p.Sent(s.From(e))
  {
    assert p.Bytes(s.at, s.End())[e - s.at..] == p.Bytes(e, s.End());
  }

  // ----- merging loses nothing and invents nothing -------------------------------------------

  lemma {:induction false} MergeHonest(p: Peer, s: Slice, rest: seq<Slice>)
    requires Chained(rest) && (rest == [] || s.at <= rest[0].at)
    requires p.Sent(s) && Honest(p, rest)
    ensures Honest(p, Merge(s, rest))
    decreases |rest|
  {
    if s.fin || rest == [] {
    } else {
      HonestSplit(p, rest);
      if rest[0].End() <= s.End() {
        assert |rest| > 1 ==> rest[1..][0] in rest[1..];
        MergeHonest(p, s.(fin := rest[0].fin), rest[1..]);
      } else if rest[0].at < s.End() {
        CutSent(p, s, rest[0].at);
      }
    }
  }

  lemma StartsLast(q: seq<Slice>, r: Slice)
    requires Chained(q) && r in q
    ensures q[0].at <= r.at
  {
    assert q == [q[0]] + q[1..];
  }

  lemma {:induction false} MergeHas(p: Peer, s: Slice, rest: seq<Slice>, x: int)
    requires Chained(rest) && (rest == [] || s.at <= rest[0].at)
    requires p.Sent(s) && Honest(p, rest)
    ensures Has(Merge(s, rest), x) <==> Within(s, x) || Has(rest, x)
    decreases |rest|
  {
    if s.fin || rest == [] {
      HasCons(s, [], x);
      assert [s] + [] == [s];
      if Has(rest, x) {
        var r :| r in rest && r.at <= x < r.Next();
        StartsLast(rest, r);
      }
    } else {
      HonestSplit(p, rest);
      HasSplit(rest, x);
      if rest[0].End() <= s.End() {
        assert |rest| > 1 ==> rest[1..][0] in rest[1..];
        MergeHas(p, s.(fin := rest[0].fin), rest[1..], x);
      } else {
        HasCons(if rest[0].at < s.End() then s.CutAt(rest[0].at) else s, rest, x);
      }
    }
  }

  // ----- out-of-order arrival ----------------------------------------------------------------

  // The arriving segment is appended behind a queue, and the unsigned overrun test of that branch
  // fires although the segment ends before the window does: only the right edge has wrapped.
  predicate SpuriousCut(q: seq<Slice>, s: Slice, right: int) {
    && q != [] && Last(q).at < s.at && !Last(q).fin
    && SeemsToOverrun(s, right) && s.Next() < right
  }

  lemma HonestCons(p: Peer, s: Slice, q: seq<Slice>)
    ensures Honest(p, [s] + q) <==> p.Sent(s) && Honest(p, q)
  {
    assert s in [s] + q;
    assert forall r | r in q :: r in [s] + q;
  }

  lemma CutHonest(p: Peer, s: Slice, right: int)
    requires p.Sent(s) && s.at <= right <= s.at + 0xffff
    ensures Honest(p, [CutToWindow(s, right)]) <==> !(SeemsToOverrun(s, right) && s.Next() < right)
  {
    var cut := CutToWindow(s, right);
    assert cut in [cut];
    if SeemsToOverrun(s, right) && right <= s.End() { CutSent(p, s, right); }
  }

  // The queue stays honest exactly when that cut does not happen.
  lemma {:induction false} PlaceHonest(p: Peer, q: seq<Slice>, s: Slice, right: int)
    requires Chained(q) && q != [] && Honest(p, q) && p.Sent(s) && s.at <= right <= s.at + 0xffff
    ensures Honest(p, Place(q, s, right)) <==> !SpuriousCut(q, s, right)
  {
    HonestSplit(p, q);
    if |q| > 1 {
      LastOfTail(q);
      assert q[1..][|q| - 2] in q[1..];
    }
    if s.at <= q[0].at {
      MergeHonest(p, s, q);
    } else if q[0].fin {
      assert |q| == 1 + |q[1..]|;
    } else {
      var head := q[0].YieldTo(s.at);
      if s.at < q[0].End() { CutSent(p, q[0], s.at); }
      if |q| == 1 {
        CutHonest(p, s, right);
        HonestCons(p, head, [CutToWindow(s, right)]);
      } else {
        PlaceHonest(p, q[1..], s, right);
        HonestCons(p, head, Place(q[1..], s, right));
      }
    }
  }

  // The queue keeps what it has: a segment with the same start is at least as long, or the
  // queue already ends with the peer's FIN.
  ghost predicate Refused(q: seq<Slice>, s: Slice) {
    || (exists r :: r in q && r.at == s.at && s.len <= r.len)
    || (q != [] && Last(q).fin && Last(q).at < s.at)
  }

  // `x` belongs to a queued segment that starts before `s` and reaches into or past it.
  ghost predicate Yielded(q: seq<Slice>, s: Slice, x: int) {
    exists r :: r in q && r.at < s.at <= x < r.Next()
  }

  lemma YieldedSplit(q: seq<Slice>, s: Slice, x: int)
    requires q != []
    ensures Yielded(q, s, x) <==> q[0].at < s.at <= x < q[0].Next() || Yielded(q[1..], s, x)
  {
    assert q == [q[0]] + q[1..];
  }

  lemma NotYielded(q: seq<Slice>, s: Slice, x: int)
    requires Chained(q) && q != [] && s.at <= q[0].at
    ensures !Yielded(q, s, x)
  {
    forall r | r in q ensures s.at <= r.at { StartsLast(q, r); }
  }

  lemma RefusedSplit(q: seq<Slice>, s: Slice)
    requires Chained(q) && q != [] && q[0].at < s.at && !q[0].fin
    ensures Refused(q, s) <==> Refused(q[1..], s)
  {
    assert q == [q[0]] + q[1..];
    if |q| > 1 { LastOfTail(q); }
  }

  lemma RefusedHead(q: seq<Slice>, s: Slice)
    requires Chained(q) && q != [] && s.at <= q[0].at
    ensures Refused(q, s) <==> s.at == q[0].at && s.len <= q[0].len
  {
    assert q[0] in q;
    assert q[|q| - 1] in q;
    StartsLast(q, q[|q| - 1]);
    forall r | r in q && r.at == s.at ensures r == q[0] {
      assert q == [q[0]] + q[1..];
    }
  }

  // What is queued of `s`: behind the last segment the overrun test cuts it.
  function Kept(q: seq<Slice>, s: Slice, right: int): Slice {
    if q != [] && Last(q).at < s.at then CutToWindow(s, right) else s
  }

  lemma KeptTail(q: seq<Slice>, s: Slice, right: int)
    requires |q| > 1
    ensures Kept(q, s, right) == Kept(q[1..], s, right)
  {
    LastOfTail(q);
  }

  lemma AppendHas(head: Slice, tail: Slice, x: int)
    ensures Has([head] + [tail], x) <==> Within(head, x) || Within(tail, x)
  {
    HasCons(head, [tail], x);
    HasCons(tail, [], x);
    assert [tail] + [] == [tail];
  }

  lemma PlaceHasFirst(p: Peer, q: seq<Slice>, s: Slice, right: int, x: int)
    requires Chained(q) && q != [] && Honest(p, q) && p.Sent(s) && s.at <= q[0].at
    ensures Refused(q, s) ==> Place(q, s, right) == q
    ensures !Refused(q, s) ==>
      (Has(Place(q, s, right), x) <==> Within(Kept(q, s, right), x) || (Has(q, x) && !Yielded(q, s, x)))
  {
    RefusedHead(q, s);
    NotYielded(q, s, x);
    assert Last(q) in q;
    StartsLast(q, Last(q));
    if !Refused(q, s) { MergeHas(p, s, q, x); }
  }

  lemma RefusedKeeps(q: seq<Slice>, s: Slice)
    requires Chained(q) && |q| > 1 && q[0].at < s.at && Refused(q[1..], s)
    ensures q[0].YieldTo(s.at) == q[0] && [q[0]] + q[1..] == q
  {
    LastOfTail(q);
    assert q[1..][|q| - 2] in q[1..];
  }

  // Exactly which sequence numbers are held after an out-of-order segment was queued.
  lemma {:induction false} PlaceHas(p: Peer, q: seq<Slice>, s: Slice, right: int, x: int)
    requires Chained(q) && q != [] && Honest(p, q) && p.Sent(s)
    ensures Refused(q, s) ==> Place(q, s, right) == q
    ensures !Refused(q, s) ==>
      (Has(Place(q, s, right), x) <==> Within(Kept(q, s, right), x) || (Has(q, x) && !Yielded(q, s, x)))
  {
    HonestSplit(p, q);
    if s.at <= q[0].at {
      PlaceHasFirst(p, q, s, right, x);
    } else if q[0].fin {
      assert |q| == 1 + |q[1..]|;
    } else {
      RefusedSplit(q, s);
      YieldedSplit(q, s, x);
      HasSplit(q, x);
      var head := q[0].YieldTo(s.at);
      if |q| == 1 {
        AppendHas(head, CutToWindow(s, right), x);
      } else {
        KeptTail(q, s, right);
        assert forall r | r in q[1..] :: q[0].End() <= r.at;
        PlaceHas(p, q[1..], s, right, x);
        HasCons(head, Place(q[1..], s, right), x);
        if Refused(q[1..], s) { RefusedKeeps(q, s); }
      }
    }
  }

  // An out-of-order segment costs the queue nothing it held, exactly when it is refused or no
  // queued segment reaches beyond what is kept of it from before it.
  lemma NothingHeldIsLost(p: Peer, q: seq<Slice>, s: Slice, right: int)
    requires Chained(q) && Honest(p, q) && p.Sent(s) && s.at <= right
    ensures (forall x | Has(q, x) :: Has(Enqueue(q, s, right), x))
       <==> Refused(q, s) || forall r | r in q && r.at < s.at :: r.Next() <= Kept(q, s, right).Next()
  {
    if q != [] {
      var q', k := Enqueue(q, s, right), Kept(q, s, right);
      forall x ensures Refused(q, s) ==> q' == q
        ensures !Refused(q, s) ==> (Has(q', x) <==> Within(k, x) || (Has(q, x) && !Yielded(q, s, x)))
      {
        PlaceHas(p, q, s, right, x);
      }
      if !Refused(q, s) && exists r :: r in q && r.at < s.at && k.Next() < r.Next() {
        var r :| r in q && r.at < s.at && k.Next() < r.Next();
        assert Has(q, k.Next()) && Yielded(q, s, k.Next()) && !Has(q', k.Next());
      }
    }
  }

  // ----- in-order arrival --------------------------------------------------------------------

  // `d` hands up the peer's stream from `nxt` to where it leaves off, the FIN counted as one.
  ghost predicate Continues(p: Peer, nxt: int, d: Delivery) {
    && p.base <= nxt && nxt + |d.data| <= p.Fin()
    && d.data == p.Bytes(nxt, nxt + |d.data|)
    && d.nxt == nxt + |d.data| + (if d.fin then 1 else 0)
    && (d.fin ==> nxt + |d.data| == p.Fin())
  }

  lemma BytesConcat(p: Peer, a: int, b: int, c: int)
    requires p.base <= a <= b <= c <= p.Fin()
    ensures p.Bytes(a, b) + p.Bytes(b, c) == p.Bytes(a, c)
  {
  }

  lemma DrainHead(p: Peer, s: Slice, d: Delivery, d': Delivery)
    requires p.Sent(s)
    requires if s.fin then d == Delivery(s.Next(), [], false, []) else Continues(p, s.Next(), d)
    requires d' == d.(data := s.data + d.data, fin := s.fin || d.fin)
    ensures Continues(p, s.at, d')
  {
    if !s.fin { BytesConcat(p, s.at, s.End(), s.End() + |d.data|); }
  }

  // Draining hands up the stream from `nxt` ...
  lemma {:induction false} DrainContent(p: Peer, nxt: int, q: seq<Slice>)
    requires Chained(q) && Honest(p, q) && (q != [] ==> nxt <= q[0].at) && p.base <= nxt <= p.Fin()
    ensures Continues(p, nxt, Drain(nxt, q)) && Honest(p, Drain(nxt, q).rest)
    decreases |q|
  {
    if q != [] && q[0].at == nxt {
      HonestSplit(p, q);
      assert q[1..] != [] ==> q[1..][0] in q[1..];
      if !q[0].fin {
        DrainContent(p, q[0].Next(), q[1..]);
      }
      DrainHead(p, q[0], Drain(q[0].Next(), q[1..]), Drain(nxt, q));
    }
  }

  // ... stops at the first number not held, and leaves the queue exactly what lies beyond.
  lemma {:induction false} DrainHas(nxt: int, q: seq<Slice>, x: int)
    requires Chained(q) && (q != [] ==> nxt <= q[0].at)
    ensures var d := Drain(nxt, q);
      && (nxt <= x < d.nxt ==> Has(q, x))
      && (x == d.nxt ==> !Has(q, x))
      && (Has(d.rest, x) <==> Has(q, x) && d.nxt <= x)
    decreases |q|
  {
    if q != [] {
      HasSplit(q, x);
      if q[0].at == nxt {
        assert q[1..] != [] ==> q[1..][0] in q[1..];
        DrainStructure(q[0].Next(), q[1..]);
        DrainHas(q[0].Next(), q[1..], x);
      } else if Has(q, x) {
        var r :| r in q && r.at <= x < r.Next();
        StartsLast(q, r);
      }
    }
  }

  lemma FitSent(p: Peer, st: Rcv, s: Slice)
    requires p.Sent(s) && 0 < st.wnd
    ensures p.Sent(FitWindow(st, s))
  {
    if s.TcpLen() > st.wnd { CutSent(p, s, s.at + st.wnd); }
  }

  // After an in-order segment `rcv_nxt` is the first number neither the segment (as far as it
  // fits the window) nor the queue holds, and the queue is what they hold beyond it.
  lemma DeliversAllItCan(p: Peer, st: Rcv, s: Slice, x: int)
    requires Structure(st) && Honest(p, st.ooseq) && p.Sent(s)
    requires s.at == st.nxt && 0 < s.TcpLen() && 0 < st.wnd
    ensures var d := InOrder(st, s);
      && (st.nxt <= x < d.nxt ==> Within(FitWindow(st, s), x) || Has(st.ooseq, x))
      && (x == d.nxt ==> !Within(FitWindow(st, s), x) && !Has(st.ooseq, x))
      && (Has(d.rest, x) <==> (Within(FitWindow(st, s), x) || Has(st.ooseq, x)) && d.nxt <= x)
  {
    AheadOf(st.nxt, st.ooseq);
    var s' := FitWindow(st, s);
    FitSent(p, st, s);
    MergeHas(p, s', st.ooseq, x);
    MergeChained(s', st.ooseq);
    DrainHas(st.nxt, Merge(s', st.ooseq), x);
  }

  lemma InOrderContent(p: Peer, st: Rcv, s: Slice)
    requires Structure(st) && Honest(p, st.ooseq) && p.Sent(s)
    requires s.at == st.nxt && 0 < s.TcpLen() && 0 < st.wnd
    ensures Continues(p, st.nxt, InOrder(st, s)) && Honest(p, InOrder(st, s).rest)
  {
    AheadOf(st.nxt, st.ooseq);
    var s' := FitWindow(st, s);
    FitSent(p, st, s);
    MergeHonest(p, s', st.ooseq);
    MergeChained(s', st.ooseq);
    DrainContent(p, st.nxt, Merge(s', st.ooseq));
  }
}
