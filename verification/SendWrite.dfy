// How tcp_write lays new bytes out over the tail of the unsent queue and new segments.
module SendWrite {
  import opened SeqNum
  import opened SendQueue
  import opened SendRuns

  function Grown(s: Stream, bytes: seq<byte>): Stream {
    s.(bytes := s.bytes + bytes)
  }

  // The last unsent segment with the first bytes of a write added to it.
  function Extended(x: Tx, bytes: seq<byte>, pbufs: nat): Tx {
    x.(data := x.data + bytes, pbufs := x.pbufs + pbufs)
  }

  // One more segment at the end of a queue.
  lemma CarriesOneMore(q: seq<Tx>, x: Tx, s: Stream, from: int)
    requires Carries(q, s, from) && s.base <= s.End()
    requires x.at == s.End() && x.data != [] && 0 < x.pbufs
    ensures Carries(q + [x], Grown(s, x.data), from)
  {
    var s' := Grown(s, x.data);
    assert q + [] == q;
    CarriesAll(q, s, from);
    assert x.data == s'.bytes[x.at - s.base..x.End() - s.base];
    assert [x][1..] == [];
    assert Carries([x], s', x.at);
    CarriesRegrown(q, [], [x], s, s', from);
  }

  lemma {:induction false} PayloadsConcat(a: seq<Tx>, b: seq<Tx>)
    ensures Payloads(a + b) == Payloads(a) + Payloads(b)
    decreases |a|
  {
    var q := a + b;
    if a == [] {
      assert q == b;
    } else {
      assert q[0] == a[0] && q[1..] == a[1..] + b;
      PayloadsConcat(a[1..], b);
    }
  }

  // `q` is what lies between `pos0` and `pos` of `arg`, cut for the end of the stream.
  ghost predicate Cut(q: seq<Tx>, s: Stream, arg: seq<byte>, pos0: nat, pos: nat, mss: nat)
    requires 0 < mss && pos0 <= pos <= |arg|
  {
    && Carries(q, Grown(s, arg[..pos]), s.End() + pos0)
    && Payloads(q) + Chop(arg[pos..], mss) == Chop(arg[pos0..], mss)
  }

  // The segment that phase 3 cuts at `pos`.
  predicate NextOf(x: Tx, s: Stream, arg: seq<byte>, pos: nat, mss: nat)
    requires pos < |arg|
  {
    x.at == s.End() + pos && x.data == arg[pos..pos + Min(mss, |arg| - pos)] && 0 < x.pbufs
  }

  lemma CutNone(s: Stream, arg: seq<byte>, pos: nat, mss: nat)
    requires 0 < mss && pos <= |arg|
    ensures Cut([], s, arg, pos, pos, mss)
  {
  }

  lemma ChopFirst(b: seq<byte>, mss: nat)
    requires 0 < mss && b != []
    ensures var n := Min(mss, |b|);
      Chop(b, mss) == [b[..n]] + Chop(b[n..], mss)
  {
    if |b| <= mss {
      assert b[|b|..] == [] && b[..|b|] == b;
    }
  }

  lemma CutPayloads(q: seq<Tx>, arg: seq<byte>, pos: nat, mss: nat, x: Tx)
    requires 0 < mss && pos < |arg| && x.data == arg[pos..pos + Min(mss, |arg| - pos)]
    ensures Payloads(q + [x]) + Chop(arg[pos + |x.data|..], mss) == Payloads(q) + Chop(arg[pos..], mss)
  {
    var left, rest := arg[pos..], Chop(arg[pos + |x.data|..], mss);
    ChopFirst(left, mss);
    assert left[|x.data|..] == arg[pos + |x.data|..] && left[..|x.data|] == x.data;
    PayloadsConcat(q, [x]);
    assert [x][1..] == [];
    assert Payloads(q) + [x.data] + rest == Payloads(q) + ([x.data] + rest);
  }

  // How far phase 3 has come, and the counters it keeps.
  ghost predicate Laid(q: seq<Tx>, s: Stream, arg: seq<byte>, pos0: nat, pos: nat, mss: nat, room: int, oversize: int,
                       queuelen: int, queuelen': int)
    requires 0 < mss && pos0 <= pos <= |arg|
  {
    match s
    case Stream(_, _) =>
      && Cut(q, s, arg, pos0, pos, mss)
      && queuelen' == queuelen + Pbufs(q) <= TCP_SND_QUEUELEN
      && (if q == [] then oversize == room && pos == pos0 else oversize + |Tail(q)| <= mss)
      && (pos < |arg| ==> oversize == 0)
  }

  lemma GrownTwice(s: Stream, a: seq<byte>, b: seq<byte>)
    ensures Grown(Grown(s, a), b) == Grown(s, a + b)
  {
    assert s.bytes + a + b == s.bytes + (a + b);
  }

  lemma CutCarries(q: seq<Tx>, s: Stream, arg: seq<byte>, from: int, pos: nat, x: Tx)
    requires pos + |x.data| <= |arg| && Carries(q, Grown(s, arg[..pos]), from)
    requires x.at == s.End() + pos && x.data == arg[pos..pos + |x.data|] && x.data != [] && 0 < x.pbufs
    ensures Carries(q + [x], Grown(s, arg[..pos + |x.data|]), from)
  {
    CarriesOneMore(q, x, Grown(s, arg[..pos]), from);
    GrownTwice(s, arg[..pos], x.data);
    assert arg[..pos] + x.data == arg[..pos + |x.data|];
  }

  lemma CutOne(q: seq<Tx>, s: Stream, arg: seq<byte>, pos0: nat, pos: nat, mss: nat, x: Tx)
    requires 0 < mss && pos0 <= pos < |arg| && Cut(q, s, arg, pos0, pos, mss)
    requires NextOf(x, s, arg, pos, mss)
    ensures Cut(q + [x], s, arg, pos0, pos + |x.data|, mss)
    ensures Pbufs(q + [x]) == Pbufs(q) + x.pbufs
  {
    CutCarries(q, s, arg, s.End() + pos0, pos, x);
    CutPayloads(q, arg, pos, mss, x);
    PbufsConcat(q, [x]);
    assert [x][1..] == [];
  }

  lemma LaidOne(q: seq<Tx>, s: Stream, arg: seq<byte>, pos0: nat, pos: nat, mss: nat, room: int, queuelen: int, x: Tx,
                oversize: int, pos': nat, queuelen': int) returns (q': seq<Tx>)
    requires 0 < mss && pos0 <= pos < |arg| && NextOf(x, s, arg, pos, mss)
    requires pos' == pos + |x.data| && queuelen' == queuelen + Pbufs(q) + x.pbufs <= TCP_SND_QUEUELEN
    requires Laid(q, s, arg, pos0, pos, mss, room, 0, queuelen, queuelen' - x.pbufs)
    requires oversize + |x.data| <= mss && (|x.data| == mss ==> oversize == 0)
    ensures q' == q + [x] && Pbufs(q') == Pbufs(q) + x.pbufs
    ensures Laid(q', s, arg, pos0, pos', mss, room, oversize, queuelen, queuelen')
  {
    q' := q + [x];
    CutOne(q, s, arg, pos0, pos, mss, x);
  }

  lemma SliceAcross(a: seq<byte>, b: seq<byte>, i: nat, pos: nat)
    requires i <= |a| && pos <= |b|
    ensures (a + b)[i..|a| + pos] == a[i..] + b[..pos]
  {
  }

  lemma ExtendedLast(last: Tx, s: Stream, bytes: seq<byte>, pos: nat, extra: nat, rest: seq<Tx>)
    requires s.base <= last.at < last.End() == s.End() && last.data == s.bytes[last.at - s.base..]
    requires 0 < last.pbufs && pos <= |bytes| && Carries(rest, Grown(s, bytes), s.End() + pos)
    ensures Carries([Extended(last, bytes[..pos], extra)] + rest, Grown(s, bytes), last.at)
  {
    var x, s' := Extended(last, bytes[..pos], extra), Grown(s, bytes);
    var b := [x] + rest;
    assert b[0] == x && b[1..] == rest;
    SliceAcross(s.bytes, bytes, last.at - s.base, pos);
  }

  lemma {:induction false} LastCarried(q: seq<Tx>, s: Stream, from: int)
    requires Carries(q, s, from) && q != []
    ensures var last := q[|q| - 1];
      && s.base <= last.at < last.End() == s.End() && last.data == s.bytes[last.at - s.base..]
      && 0 < last.pbufs && LastEnd(Init(q), from) == last.at
    decreases |q|
  {
    var rest := q[1..];
    if rest == [] {
      assert q[0].End() == s.End();
    } else {
      LastCarried(rest, s, q[0].End());
      assert rest[|rest| - 1] == q[|q| - 1];
      assert LastEnd(Init(q), from) == LastEnd(Init(rest), q[0].End());
    }
  }

  // The last segment of a queue that carries the stream, put back longer, and new ones behind it.
  lemma ExtendedCarries(q: seq<Tx>, s: Stream, from: int, bytes: seq<byte>, pos: nat, extra: nat, rest: seq<Tx>)
    requires Carries(q, s, from) && q != [] && pos <= |bytes|
    requires Carries(rest, Grown(s, bytes), s.End() + pos)
    ensures Carries(Init(q) + ([Extended(q[|q| - 1], bytes[..pos], extra)] + rest), Grown(s, bytes), from)
  {
    var last := q[|q| - 1];
    LastCarried(q, s, from);
    assert Init(q) + [last] == q;
    ExtendedLast(last, s, bytes, pos, extra, rest);
    CarriesRegrown(Init(q), [last], [Extended(last, bytes[..pos], extra)] + rest, s, Grown(s, bytes), from);
  }

  // What a write leaves behind, put together from its parts: `pos` bytes went to the last segment,
  // in `extra` new pbufs, and the others to the segments `rest`.
  function Assembled(st: Snd, bytes: seq<byte>, pos: nat, extra: nat, rest: seq<Tx>, oversize: int): Snd
    requires pos <= |bytes|
  {
    st.(stream := Grown(st.stream, bytes),
        unsent := if st.unsent == [] then rest
                  else Init(st.unsent) + ([Extended(st.unsent[|st.unsent| - 1], bytes[..pos], extra)] + rest),
        sndBuf := st.sndBuf - |bytes|,
        queuelen := st.queuelen + extra + Pbufs(rest),
        oversize := oversize)
  }

  lemma PbufsAround(a: seq<Tx>, x: Tx, b: seq<Tx>)
    ensures Pbufs(a + ([x] + b)) == Pbufs(a) + x.pbufs + Pbufs(b)
  {
    var c := [x] + b;
    assert c[1..] == b;
    PbufsConcat(a, c);
  }

  lemma ExtendedPbufs(init: seq<Tx>, last: Tx, bytes: seq<byte>, extra: nat, rest: seq<Tx>)
    ensures Pbufs(init + ([Extended(last, bytes, extra)] + rest)) == Pbufs(init + [last]) + extra + Pbufs(rest)
  {
    PbufsConcat(init, [last]);
    assert [last][1..] == [];
    PbufsAround(init, Extended(last, bytes, extra), rest);
  }

  lemma AssembledLine(st: Snd, bytes: seq<byte>, pos: nat, extra: nat, rest: seq<Tx>, oversize: int)
    requires pos <= |bytes| && (st.unsent == [] ==> pos == extra == 0)
    requires Carries(st.unsent, st.stream, First(st.unsent, st.stream))
    requires Carries(rest, Grown(st.stream, bytes), st.stream.End() + pos)
    ensures var st' := Assembled(st, bytes, pos, extra, rest, oversize);
      && Carries(st'.unsent, st'.stream, First(st.unsent, st.stream))
      && Pbufs(st'.unsent) == Pbufs(st.unsent) + extra + Pbufs(rest)
  {
    if st.unsent != [] {
      ExtendedCarries(st.unsent, st.stream, First(st.unsent, st.stream), bytes, pos, extra, rest);
      var init, last := Init(st.unsent), st.unsent[|st.unsent| - 1];
      assert init + [last] == st.unsent;
      ExtendedPbufs(init, last, bytes[..pos], extra, rest);
    }
  }

  // How many bytes phases 1 and 2 add to the last segment.
  predicate Added(unsent: seq<Tx>, oversize: nat, bytes: seq<byte>, mss: u16, pos: nat) {
    pos == if unsent == [] then 0 else Growth(|Tail(unsent)|, oversize, |bytes|, mss)
  }

  lemma AssembledPayloads(st: Snd, bytes: seq<byte>, mss: u16, pos: nat, extra: nat, rest: seq<Tx>, oversize: int)
    requires 0 < mss && 0 <= st.oversize && Added(st.unsent, st.oversize, bytes, mss, pos)
    requires Payloads(rest) == Chop(bytes[pos..], mss) && (st.unsent != [] ==> Tail(st.unsent) != [])
    ensures var st' := Assembled(st, bytes, pos, extra, rest, oversize);
      && Init(st.unsent) <= st'.unsent
      && Payloads(st'.unsent[|Init(st.unsent)|..]) == Relaid(Tail(st.unsent), st.oversize, bytes, mss)
  {
    var st' := Assembled(st, bytes, pos, extra, rest, oversize);
    var added := st'.unsent[|Init(st.unsent)|..];
    if st.unsent == [] {
      assert bytes[0..] == bytes;
      assert added == rest;
    } else {
      var x := Extended(st.unsent[|st.unsent| - 1], bytes[..pos], extra);
      assert added == [x] + rest;
      assert added[1..] == rest;
    }
  }

  lemma AssembledTail(st: Snd, bytes: seq<byte>, pos: nat, extra: nat, rest: seq<Tx>, oversize: int)
    requires pos <= |bytes|
    ensures var st' := Assembled(st, bytes, pos, extra, rest, oversize);
      && (st'.unsent == [] <==> st.unsent == [] && rest == [])
      && Tail(st'.unsent) == if rest != [] then Tail(rest)
                             else if st.unsent == [] then [] else Tail(st.unsent) + bytes[..pos]
  {
  }

  lemma AssembledNarrow(st: Snd, bytes: seq<byte>, mss: u16, pos: nat, extra: nat, rest: seq<Tx>, oversize: int)
    requires 0 < mss && Narrow(st.unacked + st.unsent) && pos <= |bytes| && Payloads(rest) == Chop(bytes[pos..], mss)
    requires st.unsent != [] ==> |Tail(st.unsent)| + pos <= 0xffff
    ensures Narrow(Assembled(st, bytes, pos, extra, rest, oversize).unsent)
  {
    ChopSizes(bytes[pos..], mss);
    PayloadIn(rest);
    forall s | s in rest ensures |s.data| <= 0xffff {
      var i :| 0 <= i < |rest| && rest[i] == s;
      assert Payloads(rest)[i] in Payloads(rest);
    }
    assert forall s | s in Init(st.unsent) :: s in st.unacked + st.unsent;
  }

  // What the three phases rely on.
  predicate Prepared(st: Snd) {
    && st.queuelen <= TCP_SND_QUEUELEN && 0 <= st.oversize
    && if st.unsent == [] then st.oversize == 0 else Tail(st.unsent) != []
  }

  lemma UnsentCarries(st: Snd)
    requires Conserved(st)
    ensures Prepared(st)
    ensures Carries(st.unsent, st.stream, First(st.unsent, st.stream))
    ensures st.unsent != [] ==> Tail(st.unsent) != []
  {
    CarriesSplit(st.unacked, st.unsent, st.stream, First(st.unacked + st.unsent, st.stream));
    if st.unsent != [] { LastCarried(st.unsent, st.stream, First(st.unsent, st.stream)); }
  }

  lemma AssembledRelays(st: Snd, bytes: seq<byte>, mss: u16, pos: nat, extra: nat, rest: seq<Tx>, oversize: int)
    requires 0 < mss && Conserved(st) && pos <= |bytes|
    requires Added(st.unsent, st.oversize, bytes, mss, pos) && (st.unsent == [] ==> extra == 0)
    requires Carries(rest, Grown(st.stream, bytes), st.stream.End() + pos) && Payloads(rest) == Chop(bytes[pos..], mss)
    requires st.unsent != [] ==> |Tail(st.unsent)| + pos <= 0xffff
    ensures Relays(st, bytes, mss, Assembled(st, bytes, pos, extra, rest, oversize))
  {
    UnsentCarries(st);
    AssembledLine(st, bytes, pos, extra, rest, oversize);
    AssembledNarrow(st, bytes, mss, pos, extra, rest, oversize);
    AssembledPayloads(st, bytes, mss, pos, extra, rest, oversize);
  }

  lemma AssembledCounts(st: Snd, bytes: seq<byte>, pos: nat, extra: nat, rest: seq<Tx>, oversize: int)
    requires Conserved(st) && pos <= |bytes| && (st.unsent == [] ==> pos == extra == 0)
    requires Carries(rest, Grown(st.stream, bytes), st.stream.End() + pos)
    ensures var st' := Assembled(st, bytes, pos, extra, rest, oversize);
      st'.queuelen == st.queuelen - Pbufs(st.unsent) + Pbufs(st'.unsent)
  {
    UnsentCarries(st);
    AssembledLine(st, bytes, pos, extra, rest, oversize);
  }

  // How many pbufs phase 2 adds to the last segment.
  function Extra(concat: seq<byte>): nat {
    if concat == [] then 0 else 1
  }

  // A growth of the last segment and segments behind it that lay out a write.
  ghost predicate Parts(st: Snd, bytes: seq<byte>, mss: u16, pos: nat, extra: nat, rest: seq<Tx>, oversize: int)
    requires 0 < mss && 0 <= st.oversize
  {
    match st
    case Snd(stream, una, nxt, unacked, unsent, sndBuf, queuelen, room) =>
      && pos <= |bytes| && Added(unsent, room, bytes, mss, pos) && (unsent == [] ==> extra == 0)
      && Carries(rest, Grown(stream, bytes), stream.End() + pos) && Payloads(rest) == Chop(bytes[pos..], mss)
      && queuelen + extra + Pbufs(rest) <= TCP_SND_QUEUELEN && 0 <= oversize
      && (if rest != [] then oversize + |Tail(rest)| <= mss
          else if unsent == [] then oversize == 0
          else Snug(st, mss) ==> oversize + |Tail(unsent)| + pos <= mss)
  }

  // What the three phases have prepared when none of them failed.
  ghost predicate Staged(st: Snd, arg: seq<byte>, mss: u16, used: nat, concat: seq<byte>, q: seq<Tx>, oversize: int,
                         queuelen: int)
    requires 0 < mss && 0 <= st.oversize
  {
    match st
    case Snd(_, _, _, _, _, _, _, _) =>
      var pos := used + |concat|;
      && pos <= |arg| && concat == arg[used..pos] && queuelen == st.queuelen + Extra(concat) + Pbufs(q)
      && Parts(st, arg, mss, pos, Extra(concat), q, oversize)
  }

  // A growth of the last segment that leaves `room` bytes beyond its end.
  predicate TailParts(st: Snd, bytes: seq<byte>, mss: u16, pos: nat, extra: nat, room: nat)
    requires 0 <= st.oversize
  {
    match st
    case Snd(stream, una, nxt, unacked, unsent, sndBuf, queued, oversize) =>
      && pos <= |bytes| && (pos < |bytes| ==> room == 0) && (unsent == [] ==> extra == 0)
      && Added(unsent, oversize, bytes, mss, pos)
      && (if unsent == [] then room == 0
          else oversize + |Tail(unsent)| <= mss ==> room + |Tail(unsent)| + pos <= mss)
  }

  // What phases 1 and 2 leave.
  predicate TailStaged(st: Snd, arg: seq<byte>, mss: u16, used: nat, concat: seq<byte>, room: nat)
    requires 0 <= st.oversize
  {
    var pos := used + |concat|;
    && pos <= |arg| && concat == arg[used..pos] && TailParts(st, arg, mss, pos, Extra(concat), room)
  }

  lemma CutWhole(q: seq<Tx>, s: Stream, arg: seq<byte>, pos: nat, mss: nat)
    requires 0 < mss && pos <= |arg| && Cut(q, s, arg, pos, |arg|, mss)
    ensures Carries(q, Grown(s, arg), s.End() + pos) && Payloads(q) == Chop(arg[pos..], mss)
  {
    assert arg[..|arg|] == arg && arg[|arg|..] == [];
    assert Payloads(q) + [] == Payloads(q);
  }

  lemma LaidParts(st: Snd, bytes: seq<byte>, mss: u16, pos: nat, extra: nat, q: seq<Tx>, room: nat, oversize: nat,
                  queuelen: int)
    requires 0 < mss && 0 <= st.oversize && pos <= |bytes| && TailParts(st, bytes, mss, pos, extra, room)
    requires Laid(q, st.stream, bytes, pos, |bytes|, mss, room, oversize, st.queuelen + extra, queuelen)
    ensures Parts(st, bytes, mss, pos, extra, q, oversize) && queuelen == st.queuelen + extra + Pbufs(q)
  {
    CutWhole(q, st.stream, bytes, pos, mss);
  }

  lemma LaidIsStaged(st: Snd, arg: seq<byte>, mss: u16, used: nat, concat: seq<byte>, q: seq<Tx>, room: nat,
                     oversize: nat, n: int, queuelen: int)
    requires 0 < mss && 0 <= st.oversize && TailStaged(st, arg, mss, used, concat, room)
    requires n == st.queuelen + Extra(concat)
    requires Laid(q, st.stream, arg, used + |concat|, |arg|, mss, room, oversize, n, queuelen)
    ensures Staged(st, arg, mss, used, concat, q, oversize, queuelen)
  {
    LaidParts(st, arg, mss, used + |concat|, Extra(concat), q, room, oversize, queuelen);
  }

  // The parts make a write of the specification.
  lemma AssembledIsWritten(st: Snd, bytes: seq<byte>, mss: u16, pos: nat, extra: nat, rest: seq<Tx>, oversize: int)
    requires 0 < mss && Conserved(st) && |bytes| <= st.sndBuf && pos <= |bytes|
    requires Parts(st, bytes, mss, pos, extra, rest, oversize)
    requires st.unsent != [] ==> |Tail(st.unsent)| + pos <= 0xffff
    ensures Written(st, bytes, mss, Assembled(st, bytes, pos, extra, rest, oversize))
  {
    var st' := Assembled(st, bytes, pos, extra, rest, oversize);
    assert Relays(st, bytes, mss, st') by { AssembledRelays(st, bytes, mss, pos, extra, rest, oversize); }
    assert st'.queuelen == st.queuelen - Pbufs(st.unsent) + Pbufs(st'.unsent) by {
      AssembledCounts(st, bytes, pos, extra, rest, oversize);
    }
    assert (st'.unsent == [] ==> oversize == 0) && (Snug(st, mss) ==> Snug(st', mss)) by {
      AssembledTail(st, bytes, pos, extra, rest, oversize);
    }
  }
}
