// Both sides of one connection together.  What the sender transmits may be lost, repeated, delayed or
// reordered before it reaches the receiver, and so may the acknowledgements that come back: they
// carry what the receiver's rcv_nxt was when they were sent.
module EndToEnd {
  import opened SeqNum
  import opened Reassembly
  import opened Delivery
  import opened SendQueue
  import Conservation
  import ReceiveRuns
  import SendRuns

  // `app` is everything the receiving application has been handed.
  datatype Pair = Pair(snd: Conservation.Side, rcv: Rcv, app: seq<byte>)

  datatype Event =
    | Local(local: Conservation.Event)                // the sender writes, sends or times out
    | AckArrives(num: int, plain: bool)               // with rcv_nxt as it was when the ACK was sent
    | SegmentArrives(x: Tx, copied: bool, acked: bool)
    | Remote(remote: ReceiveRuns.Event)               // the receiver reads, sends or drops its queue

  function OnWire(x: Tx): ReceiveRuns.Segment
    requires |x.data| <= 0xffff
  {
    Slice(x.at, |x.data|, x.data, false)
  }

  // As the sender, and as the receiver, sees an event.
  function Sending(ev: Event): Conservation.Event
    requires ev.Local? || ev.AckArrives?
  {
    match ev
    case Local(e) => e
    case AckArrives(num, plain) => Conservation.Ack(Wrap(num), plain)
  }

  function Receiving(p: Pair, ev: Event): ReceiveRuns.Event
    requires (ev.SegmentArrives? && |ev.x.data| <= 0xffff) || ev.Remote?
  {
    match ev
    case SegmentArrives(x, copied, acked) =>
      ReceiveRuns.Arrive(OnWire(x).(at := Locate(p.rcv.nxt, Wrap(x.at))), copied, acked)
    case Remote(e) => e
  }

  ghost predicate WellFormed(p: Pair) {
    0 < p.snd.mss && 0 <= p.snd.st.oversize && Structure(p.rcv)
  }

  ghost predicate Next(p: Pair, mss: u16, ev: Event, p': Pair)
    requires WellFormed(p)
  {
    if ev.Local? || ev.AckArrives? then
      && (ev.Local? ==> !ev.local.Ack?)
      && Conservation.Next(p.snd, Sending(ev), p'.snd) && p'.rcv == p.rcv && p'.app == p.app
    else
      && (ev.Remote? ==> !ev.remote.Arrive?) && (ev.SegmentArrives? ==> |ev.x.data| <= 0xffff)
      && var (rcv, data) := ReceiveRuns.Step(p.rcv, mss, Receiving(p, ev));
      p'.snd == p.snd && p'.rcv == rcv && p'.app == p.app + data
  }

  // ----- what holds of both sides ------------------------------------------------------------

  // What the sender has transmitted at least once, as the receiving side sees its peer.
  function Sent(snd: Conservation.Side): Peer
    requires snd.st.stream.base <= snd.st.nxt <= snd.st.stream.End()
  {
    var s := snd.st.stream;
    Peer(s.base, s.bytes[..snd.st.nxt - s.base])
  }

  // The receiver holds and has handed up only what was sent; and everything that was acknowledged has
  // been handed up.
  ghost predicate Sound(p: Pair) {
    match p
    case Pair(snd, rcv, app) =>
      && 0 < snd.mss && Conserved(snd.st)
      && ReceiveRuns.Good(Sent(snd), rcv)
      && rcv.open && (forall r | r in rcv.ooseq :: !r.fin)
      && snd.st.una <= rcv.nxt <= snd.st.nxt
      && app == snd.st.stream.bytes[..rcv.nxt - snd.st.stream.base]
  }

  ghost predicate Extends(st: Snd, st': Snd) {
    match st'
    case Snd(stream, una, nxt, unacked, unsent, sndBuf, queuelen, oversize) =>
      st.nxt <= nxt && st.stream.base == stream.base && st.stream.bytes <= stream.bytes
  }

  // Nothing in `p` is undone in `p'`.
  ghost predicate Before(p: Pair, p': Pair) {
    p.rcv.nxt <= p'.rcv.nxt && Extends(p.snd.st, p'.snd.st)
  }

  lemma StillSent(p: Peer, longer: Peer, s: Slice)
    requires p.Sent(s) && !s.fin && longer.base == p.base && p.bytes <= longer.bytes
    ensures longer.Sent(s)
  {
    assert longer.Bytes(s.at, s.End()) == p.Bytes(s.at, s.End());
  }

  // What has been transmitted stays a piece of what is written and sent later.
  lemma SentLater(c: Conservation.Side, c': Conservation.Side, s: Slice)
    requires c.st.stream.base <= c.st.nxt <= c.st.stream.End() && c'.st.stream.base <= c'.st.nxt <= c'.st.stream.End()
    requires Extends(c.st, c'.st) && Sent(c).Sent(s) && !s.fin
    ensures Sent(c').Sent(s)
  {
    assert Sent(c).bytes <= Sent(c').bytes;
    StillSent(Sent(c), Sent(c'), s);
  }

  // No unsent segment reaches further than the send buffer.
  lemma HeadWithin(st: Snd)
    requires Conserved(st)
    ensures st.unsent != [] ==> st.unsent[0].End() <= st.una + TCP_SND_BUF
  {
    var q := st.unacked + st.unsent;
    SendRuns.CarriesAll(q, st.stream, First(q, st.stream));
    assert st.unsent != [] ==> st.unsent[0] in q;
  }

  // What is acknowledged is what it was, or what the ACK says.
  lemma UnaKept(p: Pair, mss: u16, ev: Event, p': Pair)
    requires Sound(p) && (ev.Local? || ev.AckArrives?) && Next(p, mss, ev, p')
    requires ev.AckArrives? ==> Position(p.snd.st, Wrap(ev.num)) == ev.num <= p.rcv.nxt
    ensures p'.snd.st.una <= p.rcv.nxt && 0 < p'.snd.mss
  {
  }

  lemma SenderStep(p: Pair, mss: u16, ev: Event, p': Pair)
    requires Sound(p) && (ev.Local? || ev.AckArrives?) && Next(p, mss, ev, p')
    requires ev.AckArrives? ==> ev.num <= p.rcv.nxt && p.snd.st.una - ev.num <= HALF - TCP_SND_BUF
    ensures Sound(p') && Before(p, p')
    ensures !Conservation.Misread(p.snd.st, Sending(ev))
  {
    var st := p.snd.st;
    if ev.AckArrives? {
      LocateWrap(st.una, ev.num);
      assert Position(st, Wrap(ev.num)) == ev.num;
      HeadWithin(st);
    }
    Conservation.StepConserves(p.snd, Sending(ev), p'.snd);
    UnaKept(p, mss, ev, p');
    forall r | r in p.rcv.ooseq ensures Sent(p'.snd).Sent(r) {
      SentLater(p.snd, p'.snd, r);
    }
  }

  // Two peers that end at different places cannot both have sent a FIN.
  lemma OpenStill(p: Peer, q: Peer, st: Rcv)
    requires ReceiveRuns.Good(p, st) && ReceiveRuns.Good(q, st) && p.Fin() != q.Fin()
    ensures st.open && forall r | r in st.ooseq :: !r.fin
  {
  }

  // A segment without FIN that starts neither half the sequence space behind nor beyond what was
  // sent makes none of the mistakes but the spurious cut.
  lemma NoMistake(peer: Peer, st: Rcv, mss: u16, e: ReceiveRuns.Event)
    requires ReceiveRuns.Good(peer, st) && st.open && ReceiveRuns.Genuine(peer, e) && !ReceiveRuns.Spurious(st, e)
    requires e.Arrive? ==> st.nxt - HALF < e.seg.at < st.nxt + HALF - 1
    ensures ReceiveRuns.Sound(peer, st, mss, e)
  {
    ReceiveRuns.GenuineStep(peer, st, mss, e);
  }

  // Nothing the receiver keeps depends on where its peer ends.
  lemma ReceiverKeeps(peer: Peer, st: Rcv, mss: u16, e: ReceiveRuns.Event)
    requires ReceiveRuns.Good(peer, st) && st.open && (forall r | r in st.ooseq :: !r.fin)
    requires ReceiveRuns.Genuine(peer, e) && !ReceiveRuns.Spurious(st, e)
    requires e.Arrive? ==> !e.seg.fin && st.nxt - HALF < e.seg.at < st.nxt + HALF - 1
    ensures ReceiveRuns.Sound(peer, st, mss, e)
    ensures var st' := ReceiveRuns.Step(st, mss, e).0; st'.open && forall r | r in st'.ooseq :: !r.fin
  {
    var longer := peer.(bytes := peer.bytes + [0]);
    forall r | r in st.ooseq ensures longer.Sent(r) {
      StillSent(peer, longer, r);
    }
    if e.Arrive? { StillSent(peer, longer, e.seg); }
    NoMistake(peer, st, mss, e);
    NoMistake(longer, st, mss, e);
    OpenStill(peer, longer, ReceiveRuns.Step(st, mss, e).0);
  }

  lemma HandedOn(s: Stream, sent: int, nxt: int, nxt': int)
    requires s.base <= nxt <= nxt' <= sent <= s.End()
    ensures s.bytes[..nxt - s.base] + s.bytes[..sent - s.base][nxt - s.base..nxt' - s.base] == s.bytes[..nxt' - s.base]
  {
  }

  lemma SentWithin(st: Snd)
    requires Conserved(st)
    ensures st.una <= st.nxt <= st.una + TCP_SND_BUF
  {
  }

  // The stream goes on where it stopped.
  lemma Continues(p: Pair, rcv: Rcv, data: seq<byte>)
    requires Sound(p) && ReceiveRuns.Good(Sent(p.snd), rcv) && rcv.open && forall r | r in rcv.ooseq :: !r.fin
    requires ReceiveRuns.Continued(Sent(p.snd), p.rcv, rcv, data)
    ensures Sound(p.(rcv := rcv, app := p.app + data)) && p.rcv.nxt <= rcv.nxt
  {
    HandedOn(p.snd.st.stream, p.snd.st.nxt, p.rcv.nxt, rcv.nxt);
  }

  // Where the receiver sees a segment that is not as old as half the sequence space.
  lemma SeenInPlace(p: Pair, ev: Event)
    requires Sound(p) && ev.SegmentArrives? && |ev.x.data| <= 0xffff
    requires Sent(p.snd).Sent(OnWire(ev.x)) && p.rcv.nxt - HALF < ev.x.at
    ensures Receiving(p, ev) == ReceiveRuns.Arrive(OnWire(ev.x), ev.copied, ev.acked)
    ensures ev.x.at < p.rcv.nxt + HALF - 1
  {
    SentWithin(p.snd.st);
    LocateWrap(p.rcv.nxt, ev.x.at);
  }

  lemma ReceiverStep(p: Pair, mss: u16, ev: Event, p': Pair)
    requires Sound(p) && (ev.SegmentArrives? || ev.Remote?) && Next(p, mss, ev, p')
    requires ev.SegmentArrives? ==> Sent(p.snd).Sent(OnWire(ev.x)) && p.rcv.nxt - HALF < ev.x.at
    requires !ReceiveRuns.Spurious(p.rcv, Receiving(p, ev))
    ensures Sound(p') && Before(p, p')
  {
    var e := Receiving(p, ev);
    var (rcv, data) := ReceiveRuns.Step(p.rcv, mss, e);
    if ev.SegmentArrives? { SeenInPlace(p, ev); }
    ReceiverKeeps(Sent(p.snd), p.rcv, mss, e);
    Continues(p, rcv, data);
    assert p' == p.(rcv := rcv, app := p.app + data);
  }

  // ----- runs --------------------------------------------------------------------------------

  ghost predicate Trace(run: seq<Pair>, mss: u16, evs: seq<Event>) {
    && |run| == |evs| + 1
    && forall i | 0 <= i < |evs| :: WellFormed(run[i]) ==> Next(run[i], mss, evs[i], run[i + 1])
  }

  // What arrives at step `k` was sent before.
  ghost predicate FromNetwork(run: seq<Pair>, evs: seq<Event>, k: nat)
    requires k < |evs| < |run|
  {
    && (evs[k].SegmentArrives? ==>
          exists i | 0 <= i < k && !evs[i].SegmentArrives? && !evs[i].Remote? ::
            evs[k].x in Conservation.Transmitted(run[i].snd, Sending(evs[i])))
    && (evs[k].AckArrives? ==> exists i | 0 <= i <= k :: evs[k].num == run[i].rcv.nxt)
  }

  // Nothing lives in the network while half the sequence space goes by: section 3.3 of RFC 793.
  predicate Lives(p: Pair, ev: Event) {
    && (ev.SegmentArrives? ==> p.rcv.nxt - HALF < ev.x.at)
    && (ev.AckArrives? ==> p.snd.st.una - ev.num <= HALF - TCP_SND_BUF)
  }

  predicate Spurious(p: Pair, ev: Event) {
    ev.SegmentArrives? && |ev.x.data| <= 0xffff && ReceiveRuns.Spurious(p.rcv, Receiving(p, ev))
  }

  predicate Carried(s: Stream, x: Tx) {
    s.base <= x.at < x.End() <= s.End() && x.data == s.bytes[x.at - s.base..x.End() - s.base]
  }

  lemma CarriedIsSent(c: Conservation.Side, x: Tx, c': Conservation.Side)
    requires Carried(c.st.stream, x) && |x.data| <= 0xffff && Extends(c.st, c'.st)
    requires x.End() <= c'.st.nxt <= c'.st.stream.End()
    ensures Sent(c').Sent(OnWire(x))
  {
    var s, s' := c.st.stream, c'.st.stream;
    assert s'.bytes[x.at - s.base..x.End() - s.base] == x.data;
    assert Sent(c').Bytes(x.at, x.End()) == x.data;
  }

  lemma TransmittedIsSent(c: Conservation.Side, ev: Conservation.Event, c': Conservation.Side, x: Tx)
    requires 0 < c.mss && Conserved(c.st) && Conservation.Next(c, ev, c') && x in Conservation.Transmitted(c, ev)
    requires Conserved(c'.st)
    ensures |x.data| <= 0xffff && Sent(c').Sent(OnWire(x))
  {
    assert Extends(c.st, c'.st) by { Conservation.StepConserves(c, ev, c'); }
    assert Carried(c.st.stream, x) && |x.data| <= 0xffff by { Conservation.WireCarriesTheStream(c, ev, x); }
    assert x.End() <= c'.st.nxt by { Conservation.WireBelowNext(c, ev, c', x); }
    CarriedIsSent(c, x, c');
  }

  // What arrives is a piece of what had been sent by then.
  lemma ArrivalIsSent(run: seq<Pair>, mss: u16, evs: seq<Event>, k: nat)
    requires Trace(run, mss, evs) && k < |evs| && evs[k].SegmentArrives? && FromNetwork(run, evs, k)
    requires Sound(run[k]) && forall i | 0 <= i <= k :: Sound(run[i]) && Before(run[i], run[k])
    ensures |evs[k].x.data| <= 0xffff && Sent(run[k].snd).Sent(OnWire(evs[k].x))
  {
    var i :| 0 <= i < k && !evs[i].SegmentArrives? && !evs[i].Remote?
             && evs[k].x in Conservation.Transmitted(run[i].snd, Sending(evs[i]));
    TransmittedIsSent(run[i].snd, Sending(evs[i]), run[i + 1].snd, evs[k].x);
    assert Before(run[i + 1], run[k]);
    SentLater(run[i + 1].snd, run[k].snd, OnWire(evs[k].x));
  }

  lemma OneStep(run: seq<Pair>, mss: u16, evs: seq<Event>, k: nat)
    requires Trace(run, mss, evs) && k < |evs| && FromNetwork(run, evs, k)
    requires forall i | 0 <= i <= k :: Sound(run[i]) && Before(run[i], run[k])
    requires Lives(run[k], evs[k]) && !Spurious(run[k], evs[k])
    ensures Sound(run[k + 1]) && Before(run[k], run[k + 1])
    ensures evs[k].AckArrives? ==> !Conservation.Misread(run[k].snd.st, Sending(evs[k]))
  {
    if evs[k].Local? || evs[k].AckArrives? {
      SenderStep(run[k], mss, evs[k], run[k + 1]);
    } else {
      if evs[k].SegmentArrives? { ArrivalIsSent(run, mss, evs, k); }
      ReceiverStep(run[k], mss, evs[k], run[k + 1]);
    }
  }

  lemma {:induction false} SoundUpTo(run: seq<Pair>, mss: u16, evs: seq<Event>, k: nat)
    requires Trace(run, mss, evs) && Sound(run[0]) && k < |run|
    requires forall i | 0 <= i < |evs| :: FromNetwork(run, evs, i) && Lives(run[i], evs[i]) && !Spurious(run[i], evs[i])
    ensures forall i | 0 <= i <= k :: Sound(run[i]) && Before(run[i], run[k])
    decreases k
  {
    if k > 0 {
      SoundUpTo(run, mss, evs, k - 1);
      OneStep(run, mss, evs, k - 1);
      forall i | 0 <= i <= k ensures Before(run[i], run[k]) {
        if i < k { assert Before(run[i], run[k - 1]); }
      }
    }
  }

  // Segments and acknowledgements lost, repeated, reordered or delayed, any allocation failing, in any
  // interleaving of both sides: no acknowledgement is misread, what the receiving application has been
  // handed is exactly what was written up to rcv_nxt, and everything acknowledged, that is everything
  // the sender no longer holds, is part of it.
  lemma ReceivedIsPrefixOfWritten(run: seq<Pair>, mss: u16, evs: seq<Event>, k: nat)
    requires Trace(run, mss, evs) && Sound(run[0]) && k < |run|
    requires forall i | 0 <= i < |evs| :: FromNetwork(run, evs, i) && Lives(run[i], evs[i]) && !Spurious(run[i], evs[i])
    ensures var st := run[k].snd.st;
      && run[k].app <= st.stream.bytes && |run[k].app| == run[k].rcv.nxt - st.stream.base
      && st.una - st.stream.base <= |run[k].app|
      && Line(st.unacked + st.unsent, st.stream, st.una)
    ensures k < |evs| && evs[k].AckArrives? ==> !Conservation.Misread(run[k].snd.st, Sending(evs[k]))
  {
    SoundUpTo(run, mss, evs, k);
    if k < |evs| { OneStep(run, mss, evs, k); }
  }

  // Where a connection starts: nothing sent and nothing received.
  lemma StartsSound(snd: Conservation.Side, rcv: Rcv)
    requires 0 < snd.mss && Conserved(snd.st) && snd.st.una == snd.st.nxt == snd.st.stream.base == rcv.nxt
    requires Structure(rcv) && rcv.open && rcv.ooseq == []
    ensures Sound(Pair(snd, rcv, []))
  {
  }
}
