// What becomes of packets that wait for an address: over every run of the cache's operations none
// is lost, sent twice or made up, and those that wait on one entry share their fate.
module ArpRuns {
  import opened SeqNum
  import opened ArpTable

  datatype Op =
    | Learn(netif: Netif, ip: u32, mac: Mac, findOnly: bool, tryHard: bool)   // etharp_update_arp_entry
    | Ask(ip: u32, query: Option<Packet>, taken: bool)                        // etharp_query
    | Send(ip: u32, p: Packet, asked: bool, taken: bool)                      // etharp_output
    | Timer                                                                   // etharp_tmr
    | Down(netif: Netif)                                                      // etharp_cleanup_netif

  function Step(c: Cache, op: Op, queueing: bool): (r: Cache)
    ensures |r.t| == |c.t|
  {
    match op
    case Learn(netif, ip, mac, findOnly, tryHard) => Update(c, netif, ip, mac, findOnly, tryHard)
    case Ask(ip, p, taken) => Query(c, ip, p, taken, queueing)
    case Send(ip, p, asked, taken) => Output(c, ip, p, asked, taken, queueing)
    case Timer => Tick(c, |c.t|)
    case Down(netif) => Cleanup(c, netif, |c.t|)
  }

  lemma StepInv(c: Cache, op: Op, queueing: bool)
    requires Inv(c.t, queueing)
    ensures Inv(Step(c, op, queueing).t, queueing)
  {
    match op
    case Learn(netif, ip, mac, findOnly, tryHard) => UpdateInv(c, netif, ip, mac, findOnly, tryHard, queueing);
    case Ask(ip, p, taken) => QueryInv(c, ip, p, taken, queueing);
    case Send(ip, p, asked, taken) => OutputInv(c, ip, p, asked, taken, queueing);
    case Timer => TickInv(c, queueing);
    case Down(netif) => CleanupInv(c, netif, queueing);
  }

  // ----- conservation ------------------------------------------------------------------------

  // How often a packet occurs in a queue, waiting in the table, and among the frames sent.
  function Count(q: seq<Packet>, x: Packet): nat {
    if q == [] then 0 else (if q[0] == x then 1 else 0) + Count(q[1..], x)
  }

  function Held(t: seq<Entry>, x: Packet): nat {
    if t == [] then 0 else Count(t[0].q, x) + Held(t[1..], x)
  }

  function Sent(w: seq<Frame>, x: Packet): nat {
    if w == [] then 0 else (if w[0].p == x then 1 else 0) + Sent(w[1..], x)
  }

  // How often a packet waits, was dropped or was sent, all together.
  function Total(c: Cache, x: Packet): nat {
    Held(c.t, x) + Count(c.dropped, x) + Sent(c.wire, x)
  }

  lemma {:induction false} HeldSet(t: seq<Entry>, i: nat, e: Entry, x: Packet)
    requires i < |t|
    ensures Held(t[i := e], x) == Held(t, x) - Count(t[i].q, x) + Count(e.q, x)
    decreases |t|
  {
    var t' := t[i := e];
    if i == 0 {
      assert t'[1..] == t[1..];
    } else {
      HeldSet(t[1..], i - 1, e, x);
      assert t'[1..] == t[1..][i - 1 := e];
    }
  }

  lemma {:induction false} CountConcat(a: seq<Packet>, b: seq<Packet>, x: Packet)
    ensures Count(a + b, x) == Count(a, x) + Count(b, x)
    decreases |a|
  {
    var q := a + b;
    if a == [] {
      assert q == b;
    } else {
      assert q[0] == a[0] && q[1..] == a[1..] + b;
      CountConcat(a[1..], b, x);
    }
  }

  lemma {:induction false} SentConcat(a: seq<Frame>, b: seq<Frame>, x: Packet)
    ensures Sent(a + b, x) == Sent(a, x) + Sent(b, x)
    decreases |a|
  {
    var q := a + b;
    if a == [] {
      assert q == b;
    } else {
      assert q[0] == a[0] && q[1..] == a[1..] + b;
      SentConcat(a[1..], b, x);
    }
  }

  lemma {:induction false} SentFrames(q: seq<Packet>, mac: Mac, x: Packet)
    ensures Sent(Frames(q, mac), x) == Count(q, x)
    decreases |q|
  {
    if q != [] {
      SentFrames(q[1..], mac, x);
      var w := Frames(q, mac);
      assert w[1..] == Frames(q[1..], mac);
    }
  }

  lemma FreeConserves(c: Cache, i: nat, x: Packet)
    requires i < |c.t|
    ensures Total(FreeEntry(c, i), x) == Total(c, x)
  {
    HeldSet(c.t, i, c.t[i].(state := Empty, q := []), x);
    CountConcat(c.dropped, c.t[i].q, x);
  }

  lemma ClaimConserves(c: Cache, i: nat, ip: u32, x: Packet)
    requires i < |c.t|
    ensures Total(Claim(c, i, ip), x) == Total(c, x)
  {
    HeldSet(c.t, i, c.t[i].(ip := ip, ctime := 0), x);
  }

  lemma FindConserves(c: Cache, ip: u32, findOnly: bool, tryHard: bool, x: Packet)
    ensures Total(Find(c, ip, findOnly, tryHard).c, x) == Total(c, x)
  {
    var e, v := FirstEmpty(c.t), Victim(c.t);
    if e < |c.t| {
      ClaimConserves(c, e, ip, x);
    } else if v < |c.t| {
      FreeConserves(c, v, x);
      ClaimConserves(FreeEntry(c, v), v, ip, x);
    }
  }

  lemma UpdateConserves(c: Cache, netif: Netif, ip: u32, mac: Mac, findOnly: bool, tryHard: bool, x: Packet)
    ensures Total(Update(c, netif, ip, mac, findOnly, tryHard), x) == Total(c, x)
  {
    var f := Find(c, ip, findOnly, tryHard);
    FindConserves(c, ip, findOnly, tryHard, x);
    if f.i >= 0 {
      var e := f.c.t[f.i];
      HeldSet(f.c.t, f.i, e.(state := Stable, netif := netif, mac := mac, ctime := 0, q := []), x);
      SentConcat(f.c.wire, Frames(e.q, mac), x);
      SentFrames(e.q, mac, x);
    }
  }

  lemma One(p: Packet, mac: Mac, x: Packet)
    ensures Count([p], x) == Sent([Frame(p, mac)], x) == if p == x then 1 else 0
  {
    assert [p][1..] == [] && [Frame(p, mac)][1..] == [];
  }

  lemma EnqueueConserves(c: Cache, i: nat, p: Packet, queueing: bool, x: Packet)
    requires i < |c.t|
    ensures Total(Enqueue(c, i, p, queueing), x) == Total(c, x) + if p == x then 1 else 0
  {
    HeldSet(c.t, i, c.t[i].(q := if queueing then c.t[i].q + [p] else [p]), x);
    CountConcat(c.t[i].q, [p], x);
    CountConcat(c.dropped, c.t[i].q, x);
    One(p, Mac(0), x);
  }

  lemma OnWire(c: Cache, f: Frame, x: Packet)
    ensures Total(c.(wire := c.wire + [f]), x) == Total(c, x) + if f.p == x then 1 else 0
  {
    SentConcat(c.wire, [f], x);
    One(f.p, f.to, x);
  }

  predicate QueryTakes(c: Cache, ip: u32, taken: bool) {
    var f := Find(c, ip, false, true);
    f.i >= 0 && (f.c.t[f.i].Resolved() || taken)
  }

  // Whether an operation takes a packet in, which it does unless it has no memory to keep it.
  predicate TakesIn(c: Cache, op: Op, x: Packet) {
    match op
    case Ask(ip, p, taken) => p == Some(x) && QueryTakes(c, ip, taken)
    case Send(ip, p, asked, taken) => p == x && (FirstResolved(c.t, ip) < |c.t| || QueryTakes(c, ip, taken))
    case _ => false
  }

  lemma QueryConserves(c: Cache, ip: u32, p: Option<Packet>, taken: bool, queueing: bool, x: Packet)
    ensures Total(Query(c, ip, p, taken, queueing), x)
         == Total(c, x) + if TakesIn(c, Ask(ip, p, taken), x) then 1 else 0
  {
    var f := Find(c, ip, false, true);
    FindConserves(c, ip, false, true, x);
    if f.i >= 0 {
      var e := f.c.t[f.i];
      var c' := if e.state == Empty then f.c.(t := f.c.t[f.i := e.(state := Pending)]) else f.c;
      assert Total(c', x) == Total(c, x) by { HeldSet(f.c.t, f.i, e.(state := Pending), x); }
      if p.Some? {
        if e.Resolved() {
          OnWire(c', Frame(p.value, e.mac), x);
        } else if taken {
          EnqueueConserves(c', f.i, p.value, queueing, x);
        }
      }
    }
  }

  lemma SendConserves(c: Cache, i: nat, p: Packet, asked: bool, x: Packet)
    requires i < |c.t|
    ensures Total(SendTo(c, i, p, asked), x) == Total(c, x) + if p == x then 1 else 0
  {
    var e := c.t[i];
    HeldSet(c.t, i, e.(state := Rerequesting), x);
    OnWire(c, Frame(p, e.mac), x);
  }

  lemma {:induction false} TickConserves(c: Cache, n: nat, x: Packet)
    requires n <= |c.t|
    ensures Total(Tick(c, n), x) == Total(c, x)
    decreases n
  {
    if n > 0 {
      var r, e := Tick(c, n - 1), c.t[n - 1];
      TickConserves(c, n - 1, x);
      HeldSet(r.t, n - 1, Aged(e), x);
      CountConcat(r.dropped, e.q, x);
    }
  }

  lemma {:induction false} CleanupConserves(c: Cache, netif: Netif, n: nat, x: Packet)
    requires n <= |c.t|
    ensures Total(Cleanup(c, netif, n), x) == Total(c, x)
    decreases n
  {
    if n > 0 {
      CleanupConserves(c, netif, n - 1, x);
      FreeConserves(Cleanup(c, netif, n - 1), n - 1, x);
    }
  }

  lemma StepConserves(c: Cache, op: Op, queueing: bool, x: Packet)
    ensures Total(Step(c, op, queueing), x) == Total(c, x) + if TakesIn(c, op, x) then 1 else 0
  {
    match op
    case Learn(netif, ip, mac, findOnly, tryHard) => UpdateConserves(c, netif, ip, mac, findOnly, tryHard, x);
    case Ask(ip, p, taken) => QueryConserves(c, ip, p, taken, queueing, x);
    case Send(ip, p, asked, taken) =>
      if FirstResolved(c.t, ip) < |c.t| {
        SendConserves(c, FirstResolved(c.t, ip), p, asked, x);
      } else {
        QueryConserves(c, ip, Some(p), taken, queueing, x);
      }
    case Timer => TickConserves(c, |c.t|, x);
    case Down(netif) => CleanupConserves(c, netif, |c.t|, x);
  }

  // ----- runs --------------------------------------------------------------------------------

  function Run(c: Cache, ops: seq<Op>, queueing: bool): Cache
    decreases |ops|
  {
    if ops == [] then c else Run(Step(c, ops[0], queueing), ops[1..], queueing)
  }

  // How often a run takes a packet in.
  function TimesTaken(c: Cache, ops: seq<Op>, queueing: bool, x: Packet): nat
    decreases |ops|
  {
    if ops == [] then 0
    else (if TakesIn(c, ops[0], x) then 1 else 0) + TimesTaken(Step(c, ops[0], queueing), ops[1..], queueing, x)
  }

  // After any run there is at most one entry per address, packets wait on pending entries only, and
  // no entry is too old; and a packet taken in waits, was sent or was dropped, once each time.
  lemma {:induction false} CacheInvariant(c: Cache, ops: seq<Op>, queueing: bool, x: Packet)
    requires Inv(c.t, queueing)
    ensures Inv(Run(c, ops, queueing).t, queueing)
    ensures Total(Run(c, ops, queueing), x) == Total(c, x) + TimesTaken(c, ops, queueing, x)
    decreases |ops|
  {
    if ops != [] {
      StepInv(c, ops[0], queueing);
      StepConserves(c, ops[0], queueing, x);
      CacheInvariant(Step(c, ops[0], queueing), ops[1..], queueing, x);
    }
  }

  // ----- the fate of a queue -----------------------------------------------------------------

  // The packets go on waiting, and at most one more joins them at the end.
  predicate Waits(q: seq<Packet>, ip: u32, e': Entry) {
    e'.state == Pending && e'.ip == ip && q <= e'.q && |e'.q| <= |q| + 1
  }

  // All are sent at once, in the order of their arrival, to the address just learned.
  predicate Delivered(c: Cache, q: seq<Packet>, c': Cache, e': Entry) {
    e'.state == Stable && e'.q == [] && c'.wire == c.wire + Frames(q, e'.mac) && c'.dropped == c.dropped
  }

  // All are dropped together, in one piece, and none of them is sent.
  ghost predicate Discarded(c: Cache, q: seq<Packet>, c': Cache) {
    && c'.wire == c.wire
    && exists a: seq<Packet>, b: seq<Packet> :: c'.dropped == c.dropped + a + q + b
  }

  lemma DiscardedBetween(c: Cache, q: seq<Packet>, c': Cache, a: seq<Packet>, b: seq<Packet>)
    requires c'.wire == c.wire && c'.dropped == c.dropped + a + q + b
    ensures Discarded(c, q, c')
  {
  }

  // Looking for an entry leaves an entry with packets alone, or recycles it.
  lemma FindFate(c: Cache, ip: u32, findOnly: bool, tryHard: bool, i: nat)
    requires i < |c.t| && c.t[i].q != [] && c.t[i].state == Pending
    ensures var f := Find(c, ip, findOnly, tryHard);
      || (f.c.t[i] == c.t[i] && (f.i == i ==> c.t[i].ip == ip && f.c == c))
      || (f.i == i && f.c.t[i].state == Empty && f.c.t[i].q == []
          && f.c.dropped == c.dropped + c.t[i].q && f.c.wire == c.wire)
  {
    VictimIs(c.t);
  }

  lemma LearnFate(c: Cache, netif: Netif, ip: u32, mac: Mac, findOnly: bool, tryHard: bool, i: nat)
    requires i < |c.t| && c.t[i].q != [] && c.t[i].state == Pending && Unique(c.t)
    ensures var c' := Update(c, netif, ip, mac, findOnly, tryHard);
      if c.t[i].ip == ip then c'.t[i].mac == mac && Delivered(c, c.t[i].q, c', c'.t[i])
      else Waits(c.t[i].q, c.t[i].ip, c'.t[i]) || Discarded(c, c.t[i].q, c')
  {
    var f, c' := Find(c, ip, findOnly, tryHard), Update(c, netif, ip, mac, findOnly, tryHard);
    FindFate(c, ip, findOnly, tryHard, i);
    if f.i == i && f.c.t[i].q == [] {
      assert c'.wire == c.wire + [] == c.wire;
      assert c'.dropped == c.dropped + [] + c.t[i].q + [];
      DiscardedBetween(c, c.t[i].q, c', [], []);
    }
  }

  lemma AskFate(c: Cache, ip: u32, p: Option<Packet>, taken: bool, queueing: bool, i: nat)
    requires i < |c.t| && c.t[i].q != [] && c.t[i].state == Pending
    ensures var c' := Query(c, ip, p, taken, queueing);
      Waits(c.t[i].q, c.t[i].ip, c'.t[i]) || Discarded(c, c.t[i].q, c')
  {
    var f, c', q := Find(c, ip, false, true), Query(c, ip, p, taken, queueing), c.t[i].q;
    FindFate(c, ip, false, true, i);
    if f.i >= 0 { QueryTable(c, ip, p, taken, queueing); }
    if f.i == i {
      if f.c.t[i].q == [] {
        assert q + [] == q;
        assert c'.dropped == c.dropped + [] + q + [];
        DiscardedBetween(c, q, c', [], []);
      } else if p.Some? && taken && !queueing {
        assert c'.dropped == c.dropped + [] + q + [];
        DiscardedBetween(c, q, c', [], []);
      }
    }
  }

  // The drops of a sweep only add up ...
  lemma {:induction false} TickAdds(c: Cache, n: nat) returns (a: seq<Packet>)
    requires n <= |c.t|
    ensures Tick(c, n).dropped == c.dropped + a
    decreases n
  {
    if n == 0 {
      a := [];
      assert c.dropped == c.dropped + [];
    } else {
      var e := c.t[n - 1];
      var front := TickAdds(c, n - 1);
      a := front + if Expires(e) then e.q else [];
      assert c.dropped + front + e.q == c.dropped + (front + e.q);
    }
  }

  lemma DropsOneMore(d: seq<Packet>, a: seq<Packet>, q: seq<Packet>, b: seq<Packet>, more: seq<Packet>)
    ensures d + a + q + b + more == d + a + q + (b + more)
  {
  }

  // ... and the queue of an entry that expires is one piece of them.
  lemma {:induction false} TickDrops(c: Cache, i: nat, n: nat) returns (a: seq<Packet>, b: seq<Packet>)
    requires i < n <= |c.t| && Expires(c.t[i])
    ensures Tick(c, n).dropped == c.dropped + a + c.t[i].q + b
    decreases n
  {
    var e := c.t[n - 1];
    if i == n - 1 {
      a := TickAdds(c, n - 1);
      b := [];
      assert c.dropped + a + e.q + [] == c.dropped + a + e.q;
    } else {
      a, b := TickDrops(c, i, n - 1);
      DropsOneMore(c.dropped, a, c.t[i].q, b, e.q);
      b := if Expires(e) then b + e.q else b;
    }
  }

  predicate Owned(e: Entry, netif: Netif) {
    e.state != Empty && e.netif == netif
  }

  lemma {:induction false} CleanupAdds(c: Cache, netif: Netif, n: nat) returns (a: seq<Packet>)
    requires n <= |c.t|
    ensures Cleanup(c, netif, n).dropped == c.dropped + a
    decreases n
  {
    if n == 0 {
      a := [];
      assert c.dropped == c.dropped + [];
    } else {
      var e := c.t[n - 1];
      var front := CleanupAdds(c, netif, n - 1);
      a := front + if Owned(e, netif) then e.q else [];
      assert c.dropped + front + e.q == c.dropped + (front + e.q);
    }
  }

  lemma {:induction false} CleanupDrops(c: Cache, netif: Netif, i: nat, n: nat) returns (a: seq<Packet>, b: seq<Packet>)
    requires i < n <= |c.t| && Owned(c.t[i], netif)
    ensures Cleanup(c, netif, n).dropped == c.dropped + a + c.t[i].q + b
    decreases n
  {
    var e := c.t[n - 1];
    if i == n - 1 {
      a := CleanupAdds(c, netif, n - 1);
      b := [];
      assert c.dropped + a + e.q + [] == c.dropped + a + e.q;
    } else {
      a, b := CleanupDrops(c, netif, i, n - 1);
      DropsOneMore(c.dropped, a, c.t[i].q, b, e.q);
      b := if Owned(e, netif) then b + e.q else b;
    }
  }

  // The packets that wait on one entry are all sent, in the order of their arrival, when the address
  // they wait for is learned, and to that; by anything else they go on waiting, or are all dropped.
  lemma QueueFate(c: Cache, op: Op, queueing: bool, i: nat)
    requires Inv(c.t, queueing) && i < SIZE && c.t[i].q != []
    ensures var c' := Step(c, op, queueing);
      if op.Learn? && op.ip == c.t[i].ip then c'.t[i].mac == op.mac && Delivered(c, c.t[i].q, c', c'.t[i])
      else Waits(c.t[i].q, c.t[i].ip, c'.t[i]) || Discarded(c, c.t[i].q, c')
  {
    var c', q := Step(c, op, queueing), c.t[i].q;
    match op
    case Learn(netif, ip, mac, findOnly, tryHard) => LearnFate(c, netif, ip, mac, findOnly, tryHard, i);
    case Ask(ip, p, taken) => AskFate(c, ip, p, taken, queueing, i);
    case Send(ip, p, asked, taken) =>
      if FirstResolved(c.t, ip) == |c.t| {
        AskFate(c, ip, Some(p), taken, queueing, i);
      }
    case Timer =>
      if Expires(c.t[i]) {
        var a, b := TickDrops(c, i, SIZE);
        DiscardedBetween(c, q, c', a, b);
      }
    case Down(netif) =>
      if Owned(c.t[i], netif) {
        var a, b := CleanupDrops(c, netif, i, SIZE);
        DiscardedBetween(c, q, c', a, b);
      }
  }
}
