// How many pbufs a write needs, and whether the queues have room for them.
module SendCost {
  import opened SeqNum
  import opened SendQueue
  import opened SendWrite

  // The pbufs of n new segments: one each, or two when the text is not copied.
  function Cost(n: nat, copy: bool): nat {
    if copy then n else 2 * n
  }

  // How many pbufs a write adds to a queue whose last segment has `tail` bytes.
  function Needed(tail: nat, oversize: nat, arg: seq<byte>, mss: u16, copy: bool): nat
    requires 0 < mss
  {
    var k := if tail == 0 then 0 else Growth(tail, oversize, |arg|, mss);
    (if tail > 0 && k > oversize then 1 else 0) + Cost(|Chop(arg[k..], mss)|, copy)
  }

  // A write does not make the queues too long.
  predicate HasRoom(st: Snd, arg: seq<byte>, mss: u16, copy: bool)
    requires 0 < mss && 0 <= st.oversize
  {
    match st
    case Snd(_, _, _, _, unsent, _, queuelen, oversize) =>
      queuelen + Needed(|Tail(unsent)|, oversize, arg, mss, copy) <= TCP_SND_QUEUELEN
  }

  lemma {:induction false} PayloadsCount(q: seq<Tx>)
    ensures |Payloads(q)| == |q|
    decreases |q|
  {
    if q != [] { PayloadsCount(q[1..]); }
  }

  lemma ChopsLeft(q: seq<Tx>, s: Stream, arg: seq<byte>, pos0: nat, pos: nat, mss: nat)
    requires 0 < mss && pos0 <= pos <= |arg| && Cut(q, s, arg, pos0, pos, mss)
    ensures |Chop(arg[pos0..], mss)| == |q| + |Chop(arg[pos..], mss)|
    ensures pos < |arg| <==> Chop(arg[pos..], mss) != []
  {
    PayloadsCount(q);
  }
}
