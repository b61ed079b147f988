// What the ARP cache must do: learn an address and send what waits for it, keep what is asked for,
// send to the address learned, and forget on time.
module ArpProgress {
  import opened SeqNum
  import opened ArpTable
  import opened ArpRuns

  // ----- learning ----------------------------------------------------------------------------

  ghost predicate Known(t: seq<Entry>, ip: u32) {
    exists i :: 0 <= i < |t| && Matches(t[i], ip)
  }

  ghost predicate Full(t: seq<Entry>) {
    forall i | 0 <= i < |t| :: t[i].state != Empty
  }

  // Entry i may hold the address: it does already, or the address is new and the entry is free or, when
  // none is, recycled.
  ghost predicate PlaceFor(t: seq<Entry>, ip: u32, i: nat, tryHard: bool)
    requires i < |t|
  {
    Matches(t[i], ip) || (!Known(t, ip) && (t[i].state == Empty || (Full(t) && tryHard)))
  }

  // There is a place for an address exactly when it is known, or may be added and an entry is free or
  // may be recycled.
  lemma FindsPlace(c: Cache, ip: u32, findOnly: bool, tryHard: bool, queueing: bool)
    requires Inv(c.t, queueing)
    ensures var f := Find(c, ip, findOnly, tryHard);
      && (f.i >= 0 <==> Known(c.t, ip) || (!findOnly && (!Full(c.t) || tryHard)))
      && f.c.wire == c.wire
      && (f.i >= 0 ==> PlaceFor(c.t, ip, f.i, tryHard))
      && (f.i >= 0 && Matches(c.t[f.i], ip) ==> f.c == c)
      && (f.i >= 0 && !Matches(c.t[f.i], ip) ==>
            && f.c.t == c.t[f.i := c.t[f.i].(state := Empty, ip := ip, ctime := 0, q := [])]
            && f.c.dropped == c.dropped + c.t[f.i].q)
      && (f.i < 0 ==> f.c == c)
  {
    VictimIs(c.t);
    var m, e := Match(c.t, ip), FirstEmpty(c.t);
    assert m < |c.t| ==> Matches(c.t[m], ip);
    if m == |c.t| && !findOnly && e < |c.t| {
      assert c.t[e].q == [] && c.dropped + [] == c.dropped;
      assert c.t[e].(ip := ip, ctime := 0) == c.t[e].(state := Empty, ip := ip, ctime := 0, q := []);
    }
  }

  // From `c` to `c'` entry i has learned the address: it is resolved to the MAC, what waited for the
  // address has been sent there in its order, and nothing else has changed, but that a recycled entry
  // has dropped what waited on it.
  ghost predicate Learned(c: Cache, c': Cache, i: nat, netif: Netif, ip: u32, mac: Mac)
    requires i < |c.t|
  {
    && c'.t == c.t[i := Entry(Stable, ip, netif, mac, 0, [])]
    && (if Matches(c.t[i], ip)
        then c'.wire == c.wire + Frames(c.t[i].q, mac) && c'.dropped == c.dropped
        else c'.wire == c.wire && c'.dropped == c.dropped + c.t[i].q)
  }

  // An address is learned whenever there is a place for it.
  lemma LearnsAddress(c: Cache, netif: Netif, ip: u32, mac: Mac, findOnly: bool, tryHard: bool, queueing: bool)
    requires Inv(c.t, queueing)
    ensures var c' := Update(c, netif, ip, mac, findOnly, tryHard);
      if Known(c.t, ip) || (!findOnly && (!Full(c.t) || tryHard)) then
        exists i: nat | i < SIZE :: PlaceFor(c.t, ip, i, tryHard) && Learned(c, c', i, netif, ip, mac)
      else c' == c
  {
    var f := Find(c, ip, findOnly, tryHard);
    FindsPlace(c, ip, findOnly, tryHard, queueing);
    if f.i >= 0 {
      assert f.c.wire + [] == f.c.wire;
      assert f.c.t[f.i := Entry(Stable, ip, netif, mac, 0, [])] == c.t[f.i := Entry(Stable, ip, netif, mac, 0, [])];
      assert Learned(c, Update(c, netif, ip, mac, findOnly, tryHard), f.i, netif, ip, mac);
    }
  }

  // ----- asking ------------------------------------------------------------------------------

  // From `c` to `c'` entry i has been asked for the address.  If it is resolved the packet has been sent
  // to its MAC; otherwise it is pending, and the packet waits there when there was room: behind those
  // that wait already, or in place of them.
  ghost predicate Asked(c: Cache, c': Cache, i: nat, ip: u32, p: Option<Packet>, room: bool, queueing: bool)
    requires i < |c.t| == |c'.t|
  {
    var e, e' := c.t[i], c'.t[i];
    if Matches(e, ip) && e.Resolved() then
      c' == c.(wire := c.wire + if p.Some? then [Frame(p.value, e.mac)] else [])
    else
      var had := if Matches(e, ip) then e.q else [];
      && c'.wire == c.wire && c'.t == c.t[i := e']
      && e'.state == Pending && e'.ip == ip && e'.ctime == (if Matches(e, ip) then e.ctime else 0)
      && (if p.Some? && room then
            && e'.q == (if queueing then had else []) + [p.value]
            && c'.dropped == c.dropped + (if Matches(e, ip) then [] else e.q) + (if queueing then [] else had)
          else e'.q == had && c'.dropped == c.dropped + if Matches(e, ip) then [] else e.q)
  }

  lemma NothingMore<T>(a: seq<T>)
    ensures a + [] == a && [] + a == a
  {
  }

  lemma AsksFound(c: Cache, ip: u32, p: Option<Packet>, room: bool, queueing: bool, f: Found)
    requires Inv(c.t, queueing) && f == Find(c, ip, false, true) && 0 <= f.i < SIZE && Matches(c.t[f.i], ip) && f.c == c
    ensures Asked(c, Query(c, ip, p, room, queueing), f.i, ip, p, room, queueing)
  {
    NothingMore(c.wire);
    NothingMore(c.dropped);
    assert c.t[f.i := c.t[f.i]] == c.t;
    if p.Some? { NothingMore([p.value]); }
  }

  lemma AsksNew(c: Cache, ip: u32, p: Option<Packet>, room: bool, queueing: bool, f: Found)
    requires Inv(c.t, queueing) && f == Find(c, ip, false, true) && 0 <= f.i < SIZE && !Matches(c.t[f.i], ip)
    requires f.c.t == c.t[f.i := c.t[f.i].(state := Empty, ip := ip, ctime := 0, q := [])]
    requires f.c.wire == c.wire && f.c.dropped == c.dropped + c.t[f.i].q
    ensures Asked(c, Query(c, ip, p, room, queueing), f.i, ip, p, room, queueing)
  {
    NothingMore(f.c.dropped);
    if p.Some? { NothingMore([p.value]); }
    QueryTable(c, ip, p, room, queueing);
    var e' := Query(c, ip, p, room, queueing).t[f.i];
    assert f.c.t[f.i := e'] == c.t[f.i := e'];
  }

  // A query always finds a place.
  lemma AsksForAddress(c: Cache, ip: u32, p: Option<Packet>, room: bool, queueing: bool)
    requires Inv(c.t, queueing)
    ensures exists i: nat | i < SIZE ::
      PlaceFor(c.t, ip, i, true) && Asked(c, Query(c, ip, p, room, queueing), i, ip, p, room, queueing)
  {
    var f := Find(c, ip, false, true);
    FindsPlace(c, ip, false, true, queueing);
    if Matches(c.t[f.i], ip) {
      AsksFound(c, ip, p, room, queueing, f);
    } else {
      AsksNew(c, ip, p, room, queueing, f);
    }
    assert PlaceFor(c.t, ip, f.i, true);
  }

  // A packet for an address that is known goes to its MAC, whoever finds the entry; and an old entry is
  // asked for again when that is possible.  For any other address it is the query that counts.
  lemma SendsToAddress(c: Cache, ip: u32, p: Packet, granted: bool, room: bool, queueing: bool, j: nat)
    requires Inv(c.t, queueing) && j < SIZE && c.t[j].ip == ip
    ensures c.t[j].Resolved() ==>
      var ask := c.t[j].state == Stable && c.t[j].ctime >= AGE_REREQUEST && granted;
      Output(c, ip, p, granted, room, queueing)
      == c.(t := c.t[j := c.t[j].(state := if ask then Rerequesting else c.t[j].state)],
            wire := c.wire + [Frame(p, c.t[j].mac)])
    ensures (forall i | 0 <= i < SIZE && c.t[i].ip == ip :: !c.t[i].Resolved()) ==>
      Output(c, ip, p, granted, room, queueing) == Query(c, ip, Some(p), room, queueing)
  {
    var k := FirstResolved(c.t, ip);
    if c.t[j].Resolved() {
      assert k == j;
      assert c.t[j := c.t[j]] == c.t;
    }
  }

  // ----- ageing ------------------------------------------------------------------------------

  // The cache after n ticks of its timer, and nothing else.
  function Ticks(c: Cache, n: nat, queueing: bool): (r: Cache)
    ensures |r.t| == |c.t|
  {
    if n == 0 then c else Step(Ticks(c, n - 1, queueing), Timer, queueing)
  }

  function Lifetime(e: Entry): nat {
    if e.state == Pending then MAXPENDING else MAXAGE
  }

  // An entry stays as it is until its time has come, and is empty from then on.
  lemma {:induction false} LivesItsTime(c: Cache, n: nat, j: nat, queueing: bool)
    requires Inv(c.t, queueing) && j < SIZE && c.t[j].state != Empty
    ensures var e, e' := c.t[j], Ticks(c, n, queueing).t[j];
      if e.ctime + n < Lifetime(e)
      then e' == e.(ctime := e.ctime + n, state := if n > 0 && e.state == Rerequesting then Stable else e.state)
      else e'.state == Empty && e'.q == []
    decreases n
  {
    if n > 0 {
      LivesItsTime(c, n - 1, j, queueing);
      assert Ticks(c, n, queueing).t[j] == Aged(Ticks(c, n - 1, queueing).t[j]);
    }
  }
}
