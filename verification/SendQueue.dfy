// The send queues of a TCP connection (core/tcp_out.c and the ACK processing of core/tcp_in.c)
// over unbounded sequence numbers, between the handshake and our FIN.
module SendQueue {
  import opened SeqNum

  const TCP_SND_BUF := 6000
  const TCP_SND_QUEUELEN := 16

  // A data segment of ours and the number of pbufs that hold it.
  datatype Tx = Tx(at: int, data: seq<byte>, pbufs: nat) {
    function End(): int { at + |data| }
  }

  // `stream` is everything tcp_write ever accepted; snd_lbb is where it ends.
  datatype Snd = Snd(stream: Stream, una: int, nxt: int, unacked: seq<Tx>, unsent: seq<Tx>,
                     sndBuf: int, queuelen: int, oversize: int) {
    function Lbb(): int { stream.End() }
  }

  function Pbufs(q: seq<Tx>): nat {
    if q == [] then 0 else q[0].pbufs + Pbufs(q[1..])
  }

  function Payloads(q: seq<Tx>): seq<seq<byte>> {
    if q == [] then [] else [q[0].data] + Payloads(q[1..])
  }

  // Bytes at their sequence numbers: `bytes` starts at `base`.
  datatype Stream = Stream(base: int, bytes: seq<byte>) {
    function End(): int { base + |bytes| }
  }

  // `q` carries, without gap or overlap, the stream from `from` to its end.
  ghost predicate Carries(q: seq<Tx>, s: Stream, from: int) {
    if q == [] then from == s.End()
    else
      && q[0].at == from && 0 < |q[0].data| && 0 < q[0].pbufs
      && s.base <= from && q[0].End() <= s.End()
      && q[0].data == s.bytes[from - s.base..q[0].End() - s.base]
      && Carries(q[1..], s, q[0].End())
  }

  function First(q: seq<Tx>, s: Stream): int {
    if q == [] then s.End() else q[0].at
  }

  // The queues, taken together, hold every byte from `una` on, and no segment that is
  // acknowledged whole.
  ghost predicate Line(q: seq<Tx>, s: Stream, una: int) {
    && Carries(q, s, First(q, s))
    && if q == [] then una == s.End() else q[0].at <= una < q[0].End()
  }

  ghost predicate SentBelow(q: seq<Tx>, nxt: int) {
    forall s | s in q :: s.End() <= nxt
  }

  function Tail(q: seq<Tx>): seq<byte> {
    if q == [] then [] else q[|q| - 1].data
  }

  // Every length fits the 16 bits it is kept in.
  ghost predicate Narrow(q: seq<Tx>) {
    forall s | s in q :: |s.data| <= 0xffff
  }

  // What every run keeps, whatever becomes of the maximum segment size.
  ghost predicate Conserved(st: Snd) {
    match st
    case Snd(stream, una, nxt, unacked, unsent, sndBuf, queuelen, oversize) =>
      && stream.base <= una <= nxt <= stream.End()
      && Line(unacked + unsent, stream, una) && Narrow(unacked + unsent)
      && SentBelow(unacked, nxt)
      && sndBuf + (stream.End() - una) == TCP_SND_BUF && 0 <= sndBuf
      && queuelen == Pbufs(unacked + unsent) <= TCP_SND_QUEUELEN
      && 0 <= oversize && (unsent == [] ==> oversize == 0)
  }

  // The last unsent segment leaves room for what was allocated beyond its end.
  predicate Snug(st: Snd, mss: nat) {
    st.unsent != [] ==> st.oversize + |Tail(st.unsent)| <= mss
  }

  // And no segment is longer than `mss`, which is mss_local: the smaller of the connection's maximum
  // segment size and half the largest window the peer ever announced.
  ghost predicate Roomy(st: Snd, mss: nat) {
    (forall s | s in st.unacked + st.unsent :: |s.data| <= mss) && Snug(st, mss)
  }

  ghost predicate Inv(st: Snd, mss: u16) {
    Conserved(st) && Roomy(st, mss)
  }

  // ----- the operations ----------------------------------------------------------------------

  // How many unsent segments the window lets go.
  function Fitting(q: seq<Tx>, una: int, wnd: int): (k: nat)
    ensures k <= |q|
  {
    if q != [] && q[0].End() - una <= wnd then 1 + Fitting(q[1..], una, wnd) else 0
  }

  function Max(a: int, b: int): int {
    if a < b then b else a
  }

  function LastEnd(q: seq<Tx>, x: int): int {
    if q == [] then x else q[|q| - 1].End()
  }

  // tcp_output: `wnd` is the smaller of the peer's and the congestion window.
  function Output(st: Snd, wnd: int): Snd {
    var k := Fitting(st.unsent, st.una, wnd);
    st.(unacked := st.unacked + st.unsent[..k], unsent := st.unsent[k..],
        nxt := Max(st.nxt, LastEnd(st.unsent[..k], st.nxt)),
        oversize := if st.unsent[k..] == [] then 0 else st.oversize)
  }

  // tcp_rexmit_rto up to its call of tcp_output
  function Requeue(st: Snd): Snd {
    if st.unacked == [] then st
    else st.(unacked := [], unsent := st.unacked + st.unsent)
  }

  function DropAcked(q: seq<Tx>, a: int): seq<Tx> {
    if q != [] && q[0].End() <= a then DropAcked(q[1..], a) else q
  }

  // The position an acknowledgement number stands for, as the signed comparisons read it.
  function Position(st: Snd, ackno: u32): int {
    Locate(st.una, ackno)
  }

  // An acknowledgement of old data, half the sequence space behind a point of the first unsent
  // segment that has never been sent: the signed comparisons take it for one of that segment.
  predicate Opposite(st: Snd, s: Tx, a: int) {
    a <= st.una && st.nxt <= a + HALF < s.End()
  }

  // The loop over `unsent`.
  function DropUnsent(q: seq<Tx>, st: Snd, a: int): seq<Tx> {
    if q != [] && (q[0].End() <= a <= st.nxt || Opposite(st, q[0], a)) then DropUnsent(q[1..], st, a) else q
  }

  function Acknowledge(st: Snd, ackno: u32): Snd {
    var a := Position(st, ackno);
    var isNew := st.una < a <= st.nxt;
    var unacked := if isNew then DropAcked(st.unacked, a) else st.unacked;
    var unsent := DropUnsent(st.unsent, st, a);
    st.(una := if isNew then a else st.una,
        unacked := unacked, unsent := unsent,
        sndBuf := if isNew then st.sndBuf + (a - st.una) else st.sndBuf,
        queuelen := st.queuelen - (Pbufs(st.unacked) - Pbufs(unacked)) - (Pbufs(st.unsent) - Pbufs(unsent)),
        oversize := if unsent == [] && st.unsent != [] then 0 else st.oversize)
  }

  // Cutting a byte string into segments of at most `mss` bytes.
  function Chop(b: seq<byte>, mss: nat): seq<seq<byte>>
    requires 0 < mss
  {
    if b == [] then [] else if |b| <= mss then [b] else [b[..mss]] + Chop(b[mss..], mss)
  }

  function Init(q: seq<Tx>): seq<Tx> {
    if q == [] then [] else q[..|q| - 1]
  }

  // How many bytes of a write the last segment takes: as many as were allocated beyond its end, and
  // as many more as 16-bit arithmetic makes it believe there is room for.
  function Growth(tail: nat, oversize: nat, len: nat, mss: u16): (k: nat)
    ensures k <= len
  {
    var used := Min(oversize, len);
    used + Min(Wrap16(mss - tail - used), len - used)
  }

  // The payloads from the last segment on.
  function Relaid(tail: seq<byte>, oversize: nat, bytes: seq<byte>, mss: u16): seq<seq<byte>>
    requires 0 < mss
  {
    if tail == [] then Chop(bytes, mss)
    else
      var k := Growth(|tail|, oversize, |bytes|, mss);
      [tail + bytes[..k]] + Chop(bytes[k..], mss)
  }

  // The unsent queue after a write of `bytes` that leaves every length within 16 bits.
  ghost predicate Relays(st: Snd, bytes: seq<byte>, mss: u16, st': Snd)
    requires 0 < mss && 0 <= st.oversize
  {
    match st'
    case Snd(stream, _, _, _, unsent, _, _, _) =>
      && Init(st.unsent) <= unsent
      && Payloads(unsent[|Init(st.unsent)|..]) == Relaid(Tail(st.unsent), st.oversize, bytes, mss)
      && Carries(unsent, stream, First(st.unsent, st.stream)) && Narrow(unsent)
  }

  // A successful tcp_write.
  ghost predicate Written(st: Snd, bytes: seq<byte>, mss: u16, st': Snd)
    requires 0 < mss && 0 <= st.oversize
  {
    match st'
    case Snd(stream, una, nxt, unacked, unsent, sndBuf, queuelen, oversize) =>
      && stream == st.stream.(bytes := st.stream.bytes + bytes)
      && una == st.una && nxt == st.nxt && unacked == st.unacked
      && Relays(st, bytes, mss, st')
      && sndBuf == st.sndBuf - |bytes| && 0 <= sndBuf
      && queuelen == st.queuelen - Pbufs(st.unsent) + Pbufs(unsent) <= TCP_SND_QUEUELEN
      && 0 <= oversize && (unsent == [] ==> oversize == 0)
      && (Snug(st, mss) ==> Snug(st', mss))
  }
}
