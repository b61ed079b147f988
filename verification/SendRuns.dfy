// Every interleaving of tcp_write, tcp_output, arriving ACKs and retransmission timeouts.
module SendRuns {
  import opened SeqNum
  import opened SendQueue

  // ----- queues that carry the stream --------------------------------------------------------

  lemma {:induction false} CarriesSplit(a: seq<Tx>, b: seq<Tx>, s: Stream, from: int)
    requires Carries(a + b, s, from)
    ensures Carries(b, s, LastEnd(a, from)) && from <= LastEnd(a, from) <= s.End()
    ensures forall x | x in a :: from <= x.at < x.End() <= LastEnd(a, from)
    decreases |a|
  {
    if a == [] {
      assert a + b == b;
    } else {
      assert (a + b)[0] == a[0] && (a + b)[1..] == a[1..] + b;
      CarriesSplit(a[1..], b, s, a[0].End());
      assert a == [a[0]] + a[1..];
    }
  }

  // What a queue holds is the stream, at its place.
  lemma {:induction false} CarriesAll(q: seq<Tx>, s: Stream, from: int)
    requires Carries(q, s, from)
    ensures forall x | x in q :: from <= x.at < x.End() <= s.End() && s.base <= x.at
    ensures forall x | x in q :: x.data == s.bytes[x.at - s.base..x.End() - s.base]
    ensures LastEnd(q, from) == s.End()
    decreases |q|
  {
    if q != [] {
      CarriesAll(q[1..], s, q[0].End());
      assert q == [q[0]] + q[1..];
    }
  }

  // Replacing what follows `a`, under a stream that has only grown.
  lemma {:induction false} CarriesRegrown(a: seq<Tx>, b: seq<Tx>, b': seq<Tx>, s: Stream, s': Stream, from: int)
    requires Carries(a + b, s, from) && s'.base == s.base && s.bytes <= s'.bytes
    requires Carries(b', s', LastEnd(a, from))
    ensures Carries(a + b', s', from)
    decreases |a|
  {
    if a == [] {
      assert a + b' == b';
    } else {
      assert (a + b)[0] == a[0] && (a + b)[1..] == a[1..] + b;
      assert (a + b')[0] == a[0] && (a + b')[1..] == a[1..] + b';
      CarriesRegrown(a[1..], b, b', s, s', a[0].End());
    }
  }

  // One segment lies behind another.
  predicate Behind(y: Tx, x: Tx) {
    x.at < x.End() <= y.at < y.End()
  }

  ghost predicate Apart(q: seq<Tx>) {
    forall i, j | 0 <= i < j < |q| :: Behind(q[j], q[i])
  }

  lemma {:induction false} CarriesApart(q: seq<Tx>, s: Stream, from: int)
    requires Carries(q, s, from)
    ensures Apart(q)
    decreases |q|
  {
    if q != [] {
      var rest := q[1..];
      CarriesApart(rest, s, q[0].End());
      CarriesAll(rest, s, q[0].End());
      forall i, j | 0 <= i < j < |q| ensures Behind(q[j], q[i]) {
        assert q[j] == rest[j - 1] && rest[j - 1] in rest;
        if i > 0 { assert q[i] == rest[i - 1]; }
      }
    }
  }

  lemma ApartPart(q: seq<Tx>, i: nat, j: nat, part: seq<Tx>)
    requires Apart(q) && i <= j <= |q| && part == q[i..j]
    ensures Apart(part)
  {
    forall a, b | 0 <= a < b < |part| ensures Behind(part[b], part[a]) {
      assert part[a] == q[i + a] && part[b] == q[i + b];
    }
  }

  lemma QueuesApart(st: Snd)
    requires Conserved(st)
    ensures Apart(st.unacked + st.unsent) && Apart(st.unacked) && Apart(st.unsent)
    ensures forall x | x in st.unacked + st.unsent :: x.at < x.End()
    ensures st.unsent != [] ==> st.unsent[0].at <= st.nxt
  {
    var q, n := st.unacked + st.unsent, |st.unacked|;
    CarriesApart(q, st.stream, First(q, st.stream));
    CarriesAll(q, st.stream, First(q, st.stream));
    ApartPart(q, 0, n, st.unacked);
    ApartPart(q, n, |q|, st.unsent);
    CarriesSplit(st.unacked, st.unsent, st.stream, First(q, st.stream));
    if st.unacked != [] {
      assert st.unacked[n - 1] in st.unacked;
    } else {
      assert q == st.unsent;
    }
  }

  lemma {:induction false} PbufsConcat(a: seq<Tx>, b: seq<Tx>)
    ensures Pbufs(a + b) == Pbufs(a) + Pbufs(b)
    decreases |a|
  {
    if a == [] {
      assert a + b == b;
    } else {
      assert (a + b)[1..] == a[1..] + b;
      PbufsConcat(a[1..], b);
    }
  }

  // ----- transmission and retransmission -----------------------------------------------------

  lemma BoundaryMoved(a: seq<Tx>, b: seq<Tx>, k: nat)
    requires k <= |b|
    ensures (a + b[..k]) + b[k..] == a + b
  {
  }

  // tcp_output moves the boundary between the queues and nothing else.
  lemma OutputInv(st: Snd, mss: u16, wnd: int)
    requires Conserved(st)
    ensures Conserved(Output(st, wnd)) && (Roomy(st, mss) ==> Roomy(Output(st, wnd), mss))
    ensures Output(st, wnd).unacked + Output(st, wnd).unsent == st.unacked + st.unsent
  {
    var k := Fitting(st.unsent, st.una, wnd);
    var q := st.unacked + st.unsent;
    var sent := st.unacked + st.unsent[..k];
    BoundaryMoved(st.unacked, st.unsent, k);
    CarriesSplit(sent, st.unsent[k..], st.stream, First(q, st.stream));
    if k > 0 {
      assert sent[|sent| - 1] == st.unsent[k - 1];
      assert LastEnd(st.unsent[..k], st.nxt) == LastEnd(sent, First(q, st.stream));
    }
  }

  lemma RequeueRoomy(st: Snd, mss: u16)
    requires Roomy(st, mss) && Conserved(st)
    ensures Roomy(Requeue(st), mss)
  {
    if st.unacked != [] {
      var q := st.unacked + st.unsent;
      assert q[|q| - 1] in q;
      if st.unsent != [] { assert Tail(q) == Tail(st.unsent); }
    }
  }

  lemma SameQueues(st: Snd, st': Snd)
    requires Conserved(st) && st' == st.(unacked := st'.unacked, unsent := st'.unsent)
    requires st'.unacked + st'.unsent == st.unacked + st.unsent
    requires SentBelow(st'.unacked, st.nxt) && (st'.unsent == [] ==> st.unsent == [])
    ensures Conserved(st')
  {
  }

  // A retransmission timeout moves it back to the front.
  lemma RequeueInv(st: Snd, mss: u16)
    requires Conserved(st)
    ensures Conserved(Requeue(st)) && (Roomy(st, mss) ==> Roomy(Requeue(st), mss))
    ensures Requeue(st) == st.(unacked := [], unsent := st.unacked + st.unsent)
    ensures Requeue(st).unacked + Requeue(st).unsent == st.unacked + st.unsent
  {
    assert [] + st.unsent == st.unsent;
    if st.unacked != [] {
      if Roomy(st, mss) { RequeueRoomy(st, mss); }
      assert [] + (st.unacked + st.unsent) == st.unacked + st.unsent;
      SameQueues(st, Requeue(st));
    }
  }

  // ----- acknowledgements --------------------------------------------------------------------

  lemma {:induction false} DropAckedLine(q: seq<Tx>, s: Stream, una: int, a: int)
    requires Line(q, s, una) && una <= a <= s.End()
    ensures Line(DropAcked(q, a), s, a)
    decreases |q|
  {
    if q != [] && q[0].End() <= a {
      assert Carries(q[1..], s, q[0].End());
      assert First(q[1..], s) == q[0].End();
      DropAckedLine(q[1..], s, q[0].End(), a);
    }
  }

  lemma LaterNotAcked(a: seq<Tx>, b: seq<Tx>, s: Stream, from: int, ack: int)
    requires Carries(a + b, s, from) && a != [] && ack < a[0].End()
    ensures DropAcked(b, ack) == b
  {
    CarriesSplit(a, b, s, from);
    assert a[0] in a;
  }

  // Dropping from the two queues one after the other is dropping from the whole.
  lemma {:induction false} DropAckedConcat(a: seq<Tx>, b: seq<Tx>, s: Stream, from: int, ack: int)
    requires Carries(a + b, s, from)
    ensures DropAcked(a, ack) + DropAcked(b, ack) == DropAcked(a + b, ack)
    decreases |a|
  {
    var q := a + b;
    if a == [] {
      assert q == b;
    } else {
      assert q[0] == a[0] && q[1..] == a[1..] + b;
      if a[0].End() <= ack {
        DropAckedConcat(a[1..], b, s, a[0].End(), ack);
        assert DropAcked(q, ack) == DropAcked(q[1..], ack);
      } else {
        LaterNotAcked(a, b, s, from, ack);
        assert DropAcked(q, ack) == q;
      }
    }
  }

  lemma {:induction false} DropAckedPart(q: seq<Tx>, a: int)
    ensures Pbufs(DropAcked(q, a)) <= Pbufs(q)
    ensures forall x | x in DropAcked(q, a) :: x in q
    decreases |q|
  {
    if q != [] && q[0].End() <= a {
      DropAckedPart(q[1..], a);
    }
  }

  lemma {:induction false} DropUnsentNew(q: seq<Tx>, st: Snd, a: int)
    requires st.una < a <= st.nxt
    ensures DropUnsent(q, st, a) == DropAcked(q, a)
    decreases |q|
  {
    if q != [] && q[0].End() <= a {
      DropUnsentNew(q[1..], st, a);
    }
  }

  lemma {:induction false} DropAckedTail(q: seq<Tx>, a: int)
    ensures DropAcked(q, a) != [] ==> Tail(DropAcked(q, a)) == Tail(q)
    decreases |q|
  {
    if q != [] && q[0].End() <= a {
      DropAckedTail(q[1..], a);
      assert q[1..] != [] ==> q[1..][|q| - 2] == q[|q| - 1];
    }
  }

  lemma NewAck(st: Snd, mss: u16, ackno: u32)
    requires Conserved(st) && st.una < Position(st, ackno) <= st.nxt
    ensures Conserved(Acknowledge(st, ackno)) && (Roomy(st, mss) ==> Roomy(Acknowledge(st, ackno), mss))
  {
    var a, q := Position(st, ackno), st.unacked + st.unsent;
    var st' := Acknowledge(st, ackno);
    DropUnsentNew(st.unsent, st, a);
    DropAckedConcat(st.unacked, st.unsent, st.stream, First(q, st.stream), a);
    DropAckedLine(q, st.stream, st.una, a);
    DropAckedPart(st.unacked, a);
    DropAckedPart(st.unsent, a);
    PbufsConcat(st.unacked, st.unsent);
    PbufsConcat(st'.unacked, st'.unsent);
    DropAckedTail(st.unsent, a);
  }

  lemma {:induction false} DropUnsentPart(q: seq<Tx>, st: Snd, a: int)
    ensures forall x | x in DropUnsent(q, st, a) :: x in q
    decreases |q|
  {
    if q != [] && DropUnsent(q, st, a) != q {
      DropUnsentPart(q[1..], st, a);
    }
  }

  // A segment is taken off the unsent queue that the peer cannot have: a gap results.
  lemma OppositeAck(st: Snd, a: int)
    requires Conserved(st) && st.unsent != [] && Opposite(st, st.unsent[0], a)
    ensures !Line(st.unacked + DropUnsent(st.unsent, st, a), st.stream, st.una)
  {
    var s, from := st.stream, First(st.unacked + st.unsent, st.stream);
    var rest := DropUnsent(st.unsent, st, a);
    CarriesSplit(st.unacked, st.unsent, s, from);
    CarriesAll(st.unsent, s, LastEnd(st.unacked, from));
    var mid := st.unsent[0].End();
    assert Carries(st.unsent[1..], s, mid);
    CarriesAll(st.unsent[1..], s, mid);
    DropUnsentPart(st.unsent[1..], st, a);
    assert st.unsent[0] in st.unsent;
    assert forall x | x in rest :: mid <= x.at;
    assert st.unacked == [] ==> st.unacked + rest == rest;
    assert rest != [] ==> rest[0] in rest;
    if Line(st.unacked + rest, s, st.una) {
      CarriesSplit(st.unacked, rest, s, First(st.unacked + rest, s));
    }
  }

  lemma OtherAck(st: Snd, ackno: u32)
    requires Conserved(st) && !(st.una < Position(st, ackno) <= st.nxt)
    requires st.unsent != [] ==> !Opposite(st, st.unsent[0], Position(st, ackno))
    ensures Acknowledge(st, ackno) == st
  {
    var a, from := Position(st, ackno), First(st.unacked + st.unsent, st.stream);
    CarriesSplit(st.unacked, st.unsent, st.stream, from);
    assert st.unsent != [] ==> st.una < st.unsent[0].End() by {
      if st.unacked == [] { assert st.unacked + st.unsent == st.unsent; } else if st.unsent != [] {
        assert (st.unacked + st.unsent)[0] == st.unacked[0];
        assert st.unacked[0] in st.unacked;
      }
    }
    assert DropUnsent(st.unsent, st, a) == st.unsent;
  }

  // Any acknowledgement number at all keeps the queues, exactly when it is not that old one which
  // the signed comparisons take for an acknowledgement of data never sent.
  lemma AcknowledgeInv(st: Snd, mss: u16, ackno: u32)
    requires Conserved(st)
    ensures Conserved(Acknowledge(st, ackno))
       <==> !(st.unsent != [] && Opposite(st, st.unsent[0], Position(st, ackno)))
    ensures Conserved(Acknowledge(st, ackno)) && Roomy(st, mss) ==> Roomy(Acknowledge(st, ackno), mss)
  {
    var a := Position(st, ackno);
    if st.unsent != [] && Opposite(st, st.unsent[0], a) {
      OppositeAck(st, a);
    } else if st.una < a <= st.nxt {
      NewAck(st, mss, ackno);
    } else {
      OtherAck(st, ackno);
    }
  }

  // It does happen: one byte is waiting, nothing has ever been sent, and an acknowledgement 2^31 behind
  // takes it off the queue.
  lemma OldAckMisread()
    ensures var st := Snd(Stream(0, [7]), 0, 0, [], [Tx(0, [7], 1)], TCP_SND_BUF - 1, 1, 0);
      Inv(st, 1) && Acknowledge(st, 0x8000_0000).unsent == [] && !Conserved(Acknowledge(st, 0x8000_0000))
  {
    var x := Tx(0, [7], 1);
    var st := Snd(Stream(0, [7]), 0, 0, [], [x], TCP_SND_BUF - 1, 1, 0);
    assert [x][1..] == [] && [] + [x] == [x];
    assert Position(st, 0x8000_0000) == -HALF;
    assert DropUnsent([x][1..], st, -HALF) == [];
    AcknowledgeInv(st, 1, 0x8000_0000);
  }

  // ----- writing -----------------------------------------------------------------------------

  lemma RegrownLine(a: seq<Tx>, b: seq<Tx>, b': seq<Tx>, s: Stream, s': Stream, una: int)
    requires Line(a + b, s, una) && s'.base == s.base && s.bytes <= s'.bytes
    requires Carries(b', s', First(b, s))
    requires b != [] ==> b' != [] && b[0].End() <= b'[0].End()
    ensures Line(a + b', s', una)
  {
    var from := First(a + b, s);
    CarriesSplit(a, b, s, from);
    CarriesRegrown(a, b, b', s, s', from);
    if a == [] {
      assert a + b == b && a + b' == b';
    } else {
      assert (a + b)[0] == a[0] == (a + b')[0];
    }
  }

  lemma {:induction false} ChopSizes(b: seq<byte>, mss: nat)
    requires 0 < mss
    ensures forall c | c in Chop(b, mss) :: |c| <= mss
    ensures b != [] ==> Chop(b, mss) != [] && Chop(b, mss)[0] == b[..Min(|b|, mss)]
    decreases |b|
  {
    if |b| > mss { ChopSizes(b[mss..], mss); }
  }

  lemma {:induction false} PayloadIn(q: seq<Tx>)
    ensures |Payloads(q)| == |q|
    ensures forall i | 0 <= i < |q| :: Payloads(q)[i] == q[i].data
    decreases |q|
  {
    if q != [] { PayloadIn(q[1..]); }
  }

  // Room that is really there is filled.
  lemma GrowthFits(tail: nat, oversize: nat, len: nat, mss: u16)
    requires oversize + tail <= mss
    ensures Growth(tail, oversize, len, mss) == Min(mss - tail, len)
  {
  }

  // Where the old tail has had room, cutting tail and new bytes anew is what results.
  lemma RelaidIsChop(tail: seq<byte>, oversize: nat, bytes: seq<byte>, mss: u16)
    requires 0 < mss && oversize + |tail| <= mss
    ensures Relaid(tail, oversize, bytes, mss) == Chop(tail + bytes, mss)
  {
    var all := tail + bytes;
    if tail == [] {
      assert all == bytes;
    } else {
      GrowthFits(|tail|, oversize, |bytes|, mss);
      var k := Min(mss - |tail|, |bytes|);
      assert all[..|tail| + k] == tail + bytes[..k];
      assert all[|tail| + k..] == bytes[k..];
      if k == |bytes| {
        assert all[..|tail| + k] == all;
      }
    }
  }

  // The old tail has only been added to.
  lemma WrittenHead(st: Snd, bytes: seq<byte>, mss: u16, st': Snd)
    requires 0 < mss && 0 <= st.oversize && Written(st, bytes, mss, st') && st.unsent != []
    requires forall s | s in st.unsent :: s.data != []
    ensures st'.unsent != [] && st.unsent[0].End() <= st'.unsent[0].End()
  {
    var n := |Init(st.unsent)|;
    var added := st'.unsent[n..];
    PayloadIn(added);
    assert st.unsent[n] in st.unsent && Tail(st.unsent) != [];
    assert st'.unsent[n] == added[0];
    assert n > 0 ==> st'.unsent[0] == st.unsent[0];
    assert st'.unsent[0].at == st.unsent[0].at;
  }

  lemma RoomyTogether(a: seq<Tx>, b: seq<Tx>, c: seq<Tx>, mss: nat)
    requires (forall s | s in a :: |s.data| <= mss) && (forall s | s in b :: |s.data| <= mss)
    requires b <= c && forall i | 0 <= i < |c| - |b| :: |c[|b|..][i].data| <= mss
    ensures forall s | s in a + c :: |s.data| <= mss
  {
    forall i | 0 <= i < |c| ensures |c[i].data| <= mss {
      if i < |b| {
        assert c[i] == b[i] && b[i] in b;
      } else {
        assert c[i] == c[|b|..][i - |b|];
      }
    }
  }

  // No segment is too long.
  lemma WrittenRoomy(st: Snd, bytes: seq<byte>, mss: u16, st': Snd)
    requires 0 < mss && 0 <= st.oversize && Roomy(st, mss) && Written(st, bytes, mss, st')
    requires st.unsent == [] ==> st.oversize == 0
    ensures Roomy(st', mss)
  {
    var init := Init(st.unsent);
    var added := st'.unsent[|init|..];
    RelaidIsChop(Tail(st.unsent), st.oversize, bytes, mss);
    ChopSizes(Tail(st.unsent) + bytes, mss);
    PayloadIn(added);
    forall s | s in init ensures |s.data| <= mss { assert s in st.unacked + st.unsent; }
    forall s | s in st.unacked ensures |s.data| <= mss { assert s in st.unacked + st.unsent; }
    forall i | 0 <= i < |added| ensures |added[i].data| <= mss { assert added[i].data in Payloads(added); }
    RoomyTogether(st.unacked, init, st'.unsent, mss);
  }

  // A write keeps everything, whatever room the last segment has or seems to have.
  lemma WrittenInv(st: Snd, bytes: seq<byte>, mss: u16, st': Snd)
    requires Conserved(st) && 0 < mss && Written(st, bytes, mss, st')
    ensures Conserved(st') && (Roomy(st, mss) ==> Roomy(st', mss))
    ensures st'.unacked == st.unacked && st'.una == st.una
  {
    CarriesSplit(st.unacked, st.unsent, st.stream, First(st.unacked + st.unsent, st.stream));
    CarriesAll(st.unsent, st.stream, First(st.unsent, st.stream));
    if st.unsent != [] { WrittenHead(st, bytes, mss, st'); }
    RegrownLine(st.unacked, st.unsent, st'.unsent, st.stream, st'.stream, st.una);
    PbufsConcat(st.unacked, st.unsent);
    PbufsConcat(st'.unacked, st'.unsent);
    if Roomy(st, mss) { WrittenRoomy(st, bytes, mss, st'); }
  }
}
