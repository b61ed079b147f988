// The receive side of `tcp_receive` (core/tcp_in.c) over unbounded sequence numbers.
//
// This module is the specification that `TcpReceiver` implements with wrapping 32-bit numbers.
// Unlike the code it has no list walk with a trailing pointer: the queue is rebuilt by recursion,
// and one function, `Merge`, serves both the in-order and the out-of-order branch.
module Reassembly {
  import opened SeqNum

  const TCP_WND := 4096

  // A received segment: `len` is what its header accounts for, `data` what its pbuf holds.
  datatype Slice = Slice(at: int, len: nat, data: seq<byte>, fin: bool) {
    function End(): int { at + len }

    function TcpLen(): nat { len + if fin then 1 else 0 }

    function Next(): int { at + TcpLen() }

    // A new `len`, and pbuf_realloc, which never grows a pbuf.
    function Resized(n: nat): Slice {
      this.(len := n, data := if n < |data| then data[..n] else data)
    }

    function CutAt(e: int): Slice
      requires at <= e
    {
      Resized(e - at)
    }

    // Front trimming: hide everything before `e`.
    function From(e: int): Slice
      requires at <= e <= End() && |data| == len
    {
      Slice(e, End() - e, data[e - at..], fin)
    }

    function YieldTo(e: int): Slice
      requires at <= e
    {
      if e < End() then CutAt(e) else this
    }
  }

  // Everything the peer ever sends: `bytes` from sequence number `base` on, then its FIN.
  datatype Peer = Peer(base: int, bytes: seq<byte>) {
    function Fin(): int { base + |bytes| }

    function Bytes(lo: int, hi: int): seq<byte>
      requires base <= lo <= hi <= Fin()
    {
      bytes[lo - base..hi - base]
    }

    predicate Sent(s: Slice) {
      && base <= s.at && s.End() <= Fin()
      && s.data == Bytes(s.at, s.End())
      && (s.fin ==> s.End() == Fin())
    }
  }

  datatype Rcv = Rcv(nxt: int, wnd: u16, annWnd: u16, annEdge: int, ooseq: seq<Slice>, open: bool)

  // ----- the out-of-order queue --------------------------------------------------------------

  function Last(q: seq<Slice>): Slice
    requires q != []
  {
    q[|q| - 1]
  }

  ghost predicate After(x: Slice, q: seq<Slice>) {
    forall r | r in q :: x.End() <= r.at && x.at < r.at
  }

  // Strictly increasing, pairwise disjoint, every element occupies sequence space, FIN only at
  // the end.
  ghost predicate Chained(q: seq<Slice>) {
    q == []
    || (&& 0 < q[0].TcpLen()
        && After(q[0], q[1..])
        && (q[0].fin ==> q[1..] == [])
        && Chained(q[1..]))
  }

  ghost predicate Ahead(nxt: int, q: seq<Slice>) {
    forall r | r in q :: nxt < r.at <= nxt + 0xffff && r.len <= 0xffff
  }

  ghost predicate Structure(st: Rcv) {
    && Chained(st.ooseq)
    && Ahead(st.nxt, st.ooseq)
    && st.annEdge <= st.nxt + 0xffff
  }

  // tcp_oos_insert_segment, and the same loop of the in-order branch: `s` goes before `rest`,
  // swallows what it covers (with the FIN found there), and yields where it only overlaps.
  function Merge(s: Slice, rest: seq<Slice>): (m: seq<Slice>)
    requires rest == [] || s.at <= rest[0].at
    requires Chained(rest)
    ensures m != [] && m[0].at == s.at
    decreases |rest|
  {
    if s.fin || rest == [] then [s]
    else if rest[0].End() <= s.End() then
      assert |rest| > 1 ==> rest[1..][0] in rest[1..];
      Merge(s.(fin := rest[0].fin), rest[1..])
    else if rest[0].at < s.End() then [s.CutAt(rest[0].at)] + rest
    else [s] + rest
  }

  // The overrun test of the append branch, as the code makes it: an unsigned comparison of
  // wrapped numbers.
  predicate SeemsToOverrun(s: Slice, right: int) {
    Wrap(s.Next()) > Wrap(right)
  }

  function CutToWindow(s: Slice, right: int): Slice {
    if SeemsToOverrun(s, right) then s.(fin := false).Resized(Wrap16(right - s.at)) else s
  }

  // Queueing an out-of-order segment into a queue that is not empty.
  function Place(q: seq<Slice>, s: Slice, right: int): (r: seq<Slice>)
    requires Chained(q) && q != []
    ensures r != []
  {
    if s.at == q[0].at && s.len <= q[0].len then q
    else if s.at <= q[0].at then Merge(s, q)
    else if q[0].fin then q
    else [q[0].YieldTo(s.at)] + if |q| == 1 then [CutToWindow(s, right)] else Place(q[1..], s, right)
  }

  function Enqueue(q: seq<Slice>, s: Slice, right: int): seq<Slice>
    requires Chained(q)
  {
    if q == [] then [s] else Place(q, s, right)
  }

  // In-order delivery: take from `q` as long as it continues at `nxt`.
  datatype Delivery = Delivery(nxt: int, data: seq<byte>, fin: bool, rest: seq<Slice>)

  function Drain(nxt: int, q: seq<Slice>): Delivery
    decreases |q|
  {
    if q != [] && q[0].at == nxt then
      var d := Drain(q[0].Next(), q[1..]);
      d.(data := q[0].data + d.data, fin := q[0].fin || d.fin)
    else Delivery(nxt, [], false, q)
  }

  // ----- one arriving segment ----------------------------------------------------------------

  // tcp_update_rcv_ann_wnd finds that it can announce more.  The comparison is signed: it misses
  // what has moved half the sequence space.
  predicate MoreToAnnounce(nxt: int, wnd: u16, annEdge: int, mss: u16) {
    0 <= nxt + wnd - (annEdge + Min(TCP_WND / 2, mss)) < HALF
  }

  function AnnouncedWindow(nxt: int, wnd: u16, annEdge: int, mss: u16): u16
    requires annEdge <= nxt + 0xffff
  {
    if MoreToAnnounce(nxt, wnd, annEdge, mss) then wnd
    else if nxt > annEdge then 0
    else annEdge - nxt
  }

  // The part of a segment that is not already received.
  function Fresh(st: Rcv, s: Slice): Slice
    requires |s.data| == s.len
  {
    if s.at < st.nxt < s.Next() then s.From(st.nxt) else s
  }

  predicate InWindow(st: Rcv, s: Slice) {
    st.nxt <= s.at < st.nxt + st.wnd
  }

  function FitWindow(st: Rcv, s: Slice): Slice {
    if s.TcpLen() > st.wnd then s.(fin := false).CutAt(s.at + st.wnd) else s
  }

  function Announce(st: Rcv, sent: bool): Rcv {
    if sent then st.(annEdge := st.nxt + st.annWnd) else st
  }

  lemma AheadOf(nxt: int, q: seq<Slice>)
    requires Ahead(nxt, q)
    ensures q != [] ==> nxt < q[0].at
  {
    if q != [] { assert q[0] in q; }
  }

  // An in-order segment, cut to the window, merged with the queue and drained.
  function InOrder(st: Rcv, s: Slice): Delivery
    requires Structure(st) && s.at == st.nxt
  {
    AheadOf(st.nxt, st.ooseq);
    Drain(st.nxt, Merge(FitWindow(st, s), st.ooseq))
  }

  function Delivered(st: Rcv, mss: u16, d: Delivery): Rcv
    requires st.annEdge <= d.nxt + 0xffff
  {
    var wnd := Wrap16(st.wnd - (d.nxt - st.nxt));
    Rcv(d.nxt, wnd, AnnouncedWindow(d.nxt, wnd, st.annEdge, mss), st.annEdge, d.rest, !d.fin)
  }

  lemma {:induction false} DrainStructure(nxt: int, q: seq<Slice>)
    requires Chained(q) && (q != [] ==> nxt <= q[0].at)
    ensures var d := Drain(nxt, q);
      && nxt <= d.nxt && Chained(d.rest) && From(d.rest, q)
      && (forall r | r in d.rest :: d.nxt < r.at)
      && (d.fin ==> d.rest == [])
    decreases |q|
  {
    if q != [] && q[0].at == nxt {
      assert q[1..] != [] ==> q[1..][0] in q[1..];
      DrainStructure(q[0].Next(), q[1..]);
    } else if q != [] {
      assert q == [q[0]] + q[1..];
    }
  }

  lemma {:induction false} MergeChained(s: Slice, rest: seq<Slice>)
    requires Chained(rest) && 0 < s.TcpLen()
    requires rest == [] || s.at < rest[0].at || (s.at == rest[0].at && rest[0].len < s.len)
    ensures var m := Merge(s, rest);
      Chained(m) && m[0].len <= s.len && From(m[1..], rest)
    decreases |rest|
  {
    if s.fin || rest == [] {
      assert [s][1..] == [];
    } else if rest[0].End() <= s.End() {
      assert |rest| > 1 ==> rest[1..][0] in rest[1..];
      MergeChained(s.(fin := rest[0].fin), rest[1..]);
    } else {
      var s' := if rest[0].at < s.End() then s.CutAt(rest[0].at) else s;
      assert ([s'] + rest)[1..] == rest;
    }
  }

  lemma InOrderStructure(st: Rcv, s: Slice)
    requires Structure(st) && s.at == st.nxt && 0 < s.TcpLen() && 0 < st.wnd
    ensures var d := InOrder(st, s);
      && st.nxt < d.nxt && Chained(d.rest) && Ahead(d.nxt, d.rest) && (d.fin ==> d.rest == [])
  {
    AheadOf(st.nxt, st.ooseq);
    var s' := FitWindow(st, s);
    MergeChained(s', st.ooseq);
    var m := Merge(s', st.ooseq);
    assert m[1..] != [] ==> m[1..][0] in m[1..];
    DrainStructure(m[0].Next(), m[1..]);
  }

  // What `tcp_receive` does with the text of a segment, trimmed at its front to `s`.  `copied` and
  // `acked` are the outcomes of the allocations in `tcp_seg_copy` and `tcp_send_empty_ack`.
  function Process(st: Rcv, mss: u16, s: Slice, inWindow: bool, copied: bool, acked: bool): (Rcv, seq<byte>, bool)
    requires Structure(st) && (inWindow && s.at <= st.nxt ==> s.at == st.nxt && 0 < s.TcpLen() && 0 < st.wnd)
  {
    if !inWindow then (Announce(st, acked), [], false)
    else if s.at > st.nxt then
      var st' := Announce(st, acked);
      (if copied then st'.(ooseq := Enqueue(st.ooseq, s, st.nxt + st.wnd)) else st', [], false)
    else
      var d := InOrder(st, s);
      assert st.nxt < d.nxt by { InOrderStructure(st, s); }
      (Delivered(st, mss, d), d.data, d.fin)
  }

  // The part of a segment from `nxt` on.
  function NewText(nxt: int, seg: Slice): Slice
    requires seg.at <= nxt < seg.Next() && |seg.data| == seg.len
  {
    Slice(nxt, seg.End() - nxt, seg.data[nxt - seg.at..], seg.fin)
  }

  // What is meant, in section 3.9 of RFC 793: of a segment that reaches beyond `rcv_nxt` what is new is
  // delivered, one that starts later inside the window is kept, and any other is only answered.
  function Intended(st: Rcv, mss: u16, seg: Slice, copied: bool, acked: bool): (Rcv, seq<byte>, bool)
    requires Structure(st) && |seg.data| == seg.len
  {
    if seg.TcpLen() == 0 || !st.open then (st, [], false)
    else if seg.at <= st.nxt < seg.Next() && 0 < st.wnd then
      var d := InOrder(st, NewText(st.nxt, seg));
      assert st.nxt < d.nxt by { InOrderStructure(st, NewText(st.nxt, seg)); }
      (Delivered(st, mss, d), d.data, d.fin)
    else if st.nxt < seg.at < st.nxt + st.wnd && copied then
      (Announce(st, acked).(ooseq := Enqueue(st.ooseq, seg, st.nxt + st.wnd)), [], false)
    else (Announce(st, acked), [], false)
  }

  // ----- the two numbers that the signed tests get wrong -------------------------------------

  // One number, from exactly half the sequence space behind: the front test takes it for a segment
  // that reaches up to rcv_nxt, and moves it there.
  predicate HalfBehind(st: Rcv, s: Slice) {
    s.at == st.nxt - HALF && s.TcpLen() == 1
  }

  // The window is closed, and the test against its last number, rcv_nxt - 1, passes.
  predicate HalfAhead(st: Rcv, s: Slice) {
    st.wnd == 0 && s.at == st.nxt + HALF - 1
  }

  function Trimmed(st: Rcv, s: Slice): Slice
    requires |s.data| == s.len
  {
    if HalfBehind(st, s) then s.(at := st.nxt) else Fresh(st, s)
  }

  predicate SeemsInWindow(st: Rcv, s: Slice) {
    InWindow(st, s) || HalfAhead(st, s)
  }

  // What the code does, for `seg` at the place where its comparisons with rcv_nxt see it.
  function Receive(st: Rcv, mss: u16, seg: Slice, copied: bool, acked: bool): (Rcv, seq<byte>, bool)
    requires Structure(st) && |seg.data| == seg.len
  {
    var s := Trimmed(st, seg);
    if seg.TcpLen() == 0 || !st.open then (st, [], false)
    else Process(st, mss, s, SeemsInWindow(st, s), copied, acked)
  }

  // It delivers what is half the sequence space old ...
  predicate Misplaced(st: Rcv, seg: Slice) {
    st.open && 0 < st.wnd && HalfBehind(st, seg)
  }

  // ... or queues what no window could hold.
  predicate Planted(st: Rcv, seg: Slice, copied: bool) {
    && st.open && 0 < seg.TcpLen() && copied && HalfAhead(st, seg)
    && (st.ooseq == [] || !Last(st.ooseq).fin)
  }

  // ----- structure is kept for any segment ---------------------------------------------------

  ghost predicate From(q: seq<Slice>, whole: seq<Slice>) {
    forall r | r in q :: r in whole
  }

  lemma ConsStructure(nxt: int, x: Slice, q: seq<Slice>)
    requires Chained(q) && Ahead(nxt, q) && q != [] && After(x, q) && 0 < x.TcpLen() && !x.fin
    requires nxt < x.at <= nxt + 0xffff && x.len <= 0xffff
    ensures Chained([x] + q) && Ahead(nxt, [x] + q)
  {
    assert ([x] + q)[1..] == q;
  }

  lemma PlaceBefore(nxt: int, q: seq<Slice>, s: Slice)
    requires Chained(q) && q != [] && Ahead(nxt, q)
    requires nxt < s.at <= nxt + 0xffff && 0 < s.TcpLen() && s.len <= 0xffff
    requires s.at < q[0].at || (s.at == q[0].at && q[0].len < s.len)
    ensures var m := Merge(s, q); Chained(m) && Ahead(nxt, m) && forall r | r in m :: s.at <= r.at
  {
    MergeChained(s, q);
    var m := Merge(s, q);
    assert m == [m[0]] + m[1..];
  }

  // The cut leaves something of a segment that starts inside the window.
  lemma CutKeeps(s: Slice, right: int)
    requires s.at < right <= s.at + 0xffff && 0 < s.TcpLen() && s.len <= 0xffff
    ensures var c := CutToWindow(s, right); c.at == s.at && 0 < c.TcpLen() && c.len <= 0xffff
  {
  }

  lemma {:induction false} PlaceStructure(nxt: int, q: seq<Slice>, s: Slice, right: int)
    requires Chained(q) && q != [] && Ahead(nxt, q)
    requires nxt < s.at < right <= nxt + 0xffff && 0 < s.TcpLen() && s.len <= 0xffff
    ensures var r := Place(q, s, right); Chained(r) && Ahead(nxt, r)
    ensures forall r | r in Place(q, s, right) :: Min(s.at, q[0].at) <= r.at
  {
    if s.at <= q[0].at {
      if s.at < q[0].at || q[0].len < s.len { PlaceBefore(nxt, q, s); }
    } else if !q[0].fin {
      var head := q[0].YieldTo(s.at);
      if |q| == 1 {
        CutKeeps(s, right);
        var tail := CutToWindow(s, right);
        assert [tail][1..] == [];
        ConsStructure(nxt, head, [tail]);
      } else {
        assert q[1..][0] in q[1..];
        PlaceStructure(nxt, q[1..], s, right);
        ConsStructure(nxt, head, Place(q[1..], s, right));
      }
    }
  }

  lemma LastOfTail(q: seq<Slice>)
    requires |q| > 1
    ensures Last(q) == Last(q[1..])
  {
  }

  lemma PlaceLast(x: Slice, s: Slice, right: int)
    requires Chained([x]) && x.at < s.at && x.End() <= s.at
    ensures Place([x], s, right) == if x.fin then [x] else [x, CutToWindow(s, right)]
  {
  }

  lemma PlaceLater(q: seq<Slice>, s: Slice, right: int)
    requires Chained(q) && |q| > 1 && q[0].at < s.at && q[0].End() <= s.at
    ensures !q[0].fin && Place(q, s, right) == [q[0]] + Place(q[1..], s, right)
  {
  }

  // Behind a queue that ends with a FIN nothing is queued; otherwise what starts beyond the last
  // segment comes after it.
  lemma {:induction false} PlaceBeyond(q: seq<Slice>, s: Slice, right: int)
    requires Chained(q) && q != [] && forall r | r in q :: r.at < s.at && r.End() <= s.at
    ensures if Last(q).fin then Place(q, s, right) == q else Last(Place(q, s, right)).at == s.at
  {
    assert q[0] in q;
    if |q| == 1 {
      assert q == [q[0]];
      PlaceLast(q[0], s, right);
    } else {
      LastOfTail(q);
      PlaceLater(q, s, right);
      PlaceBeyond(q[1..], s, right);
      LastOfTail([q[0]] + Place(q[1..], s, right));
    }
  }

  lemma BeyondQueued(q: seq<Slice>, s: Slice, right: int)
    requires Chained(q) && forall r | r in q :: r.at < s.at && r.End() <= s.at
    ensures if q != [] && Last(q).fin then Enqueue(q, s, right) == q
            else Enqueue(q, s, right) != [] && Last(Enqueue(q, s, right)).at == s.at
  {
    if q != [] {
      PlaceBeyond(q, s, right);
    }
  }

  lemma EnqueueStructure(nxt: int, q: seq<Slice>, s: Slice, right: int)
    requires Chained(q) && Ahead(nxt, q)
    requires nxt < s.at < right <= nxt + 0xffff && 0 < s.TcpLen() && s.len <= 0xffff
    ensures Chained(Enqueue(q, s, right)) && Ahead(nxt, Enqueue(q, s, right))
  {
    if q == [] {
      assert [s][1..] == [];
    } else {
      PlaceStructure(nxt, q, s, right);
    }
  }

  lemma HalfAheadQueued(st: Rcv, s: Slice)
    requires Structure(st) && HalfAhead(st, s)
    ensures var q := Enqueue(st.ooseq, s, st.nxt + st.wnd);
      if st.ooseq != [] && Last(st.ooseq).fin then q == st.ooseq else q != st.ooseq && !Ahead(st.nxt, q)
  {
    var q := Enqueue(st.ooseq, s, st.nxt + st.wnd);
    BeyondQueued(st.ooseq, s, st.nxt + st.wnd);
    assert q != [] ==> Last(q) in q;
  }

  // Any SYN-free segment, from an honest peer or not and at any number, leaves the queue sorted,
  // disjoint, beyond `rcv_nxt`, and with a FIN only at its end, but for one planted half the
  // sequence space ahead.
  lemma QueueInvariant(st: Rcv, mss: u16, seg: Slice, copied: bool, acked: bool)
    requires Structure(st) && |seg.data| == seg.len <= 0xffff
    ensures Structure(Receive(st, mss, seg, copied, acked).0) <==> !Planted(st, seg, copied)
  {
    var s := Trimmed(st, seg);
    if seg.TcpLen() == 0 || !st.open || !SeemsInWindow(st, s) {
    } else if HalfAhead(st, s) {
      HalfAheadQueued(st, s);
    } else if s.at > st.nxt {
      EnqueueStructure(st.nxt, st.ooseq, s, st.nxt + st.wnd);
    } else {
      InOrderStructure(st, s);
    }
  }

  lemma TrimmedIsNew(st: Rcv, seg: Slice)
    requires seg.at <= st.nxt < seg.Next() && |seg.data| == seg.len
    ensures Trimmed(st, seg) == NewText(st.nxt, seg)
  {
  }

  // A segment that has something new, and one that has not.
  lemma InOrderAsIntended(st: Rcv, mss: u16, seg: Slice, copied: bool, acked: bool)
    requires Structure(st) && |seg.data| == seg.len <= 0xffff && seg.at <= st.nxt < seg.Next()
    ensures Receive(st, mss, seg, copied, acked) == Intended(st, mss, seg, copied, acked)
    ensures !Misplaced(st, seg) && !Planted(st, seg, copied)
  {
    TrimmedIsNew(st, seg);
  }

  lemma OtherAsIntended(st: Rcv, mss: u16, seg: Slice, copied: bool, acked: bool)
    requires Structure(st) && |seg.data| == seg.len <= 0xffff && !(seg.at <= st.nxt < seg.Next())
    requires !HalfAhead(st, seg) && !Misplaced(st, seg)
    ensures Receive(st, mss, seg, copied, acked) == Intended(st, mss, seg, copied, acked)
  {
  }

  // The code does what is meant, exactly when neither number is met.
  lemma ReceiveAsIntended(st: Rcv, mss: u16, seg: Slice, copied: bool, acked: bool)
    requires Structure(st) && |seg.data| == seg.len <= 0xffff
    ensures Receive(st, mss, seg, copied, acked) == Intended(st, mss, seg, copied, acked)
       <==> !Misplaced(st, seg) && !Planted(st, seg, copied)
  {
    if seg.at <= st.nxt < seg.Next() {
      InOrderAsIntended(st, mss, seg, copied, acked);
    } else if HalfAhead(st, seg) {
      HalfAheadQueued(st, seg);
    } else if Misplaced(st, seg) {
      InOrderStructure(st, Trimmed(st, seg));
    } else {
      OtherAsIntended(st, mss, seg, copied, acked);
    }
  }

  // A byte from 2^31 numbers ago is handed up as the next one.
  lemma OldByteDelivered()
    ensures var st, seg := Rcv(HALF, 4096, 4096, HALF + 4096, [], true), Slice(0, 1, [7], false);
      Receive(st, 1500, seg, true, true).1 == [7] && Intended(st, 1500, seg, true, true).1 == []
  {
    var st, s := Rcv(HALF, 4096, 4096, HALF + 4096, [], true), Slice(HALF, 1, [7], false);
    assert Merge(s, []) == [s] && [s][1..] == [];
    assert Drain(HALF + 1, []) == Delivery(HALF + 1, [], false, []);
    assert InOrder(st, s).data == [7] + [];
  }

  // A closed window lets a segment into the queue that starts 2^31 - 1 numbers ahead.
  lemma FarSegmentQueued()
    ensures var st, seg := Rcv(0, 0, 0, 0, [], true), Slice(HALF - 1, 1, [7], false);
      Receive(st, 1500, seg, true, true).0.ooseq == [seg] && Intended(st, 1500, seg, true, true).0.ooseq == []
  {
    var st, seg := Rcv(0, 0, 0, 0, [], true), Slice(HALF - 1, 1, [7], false);
    assert Trimmed(st, seg) == seg == Fresh(st, seg) && SeemsInWindow(st, seg) && !InWindow(st, seg);
    assert Enqueue([], seg, 0) == [seg];
  }
}
