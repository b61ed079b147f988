// The ARP cache of core/etharp.c: a fixed table of entries updated in place, with a one-slot hint.
module EthArp {
  import opened SeqNum
  import opened ArpTable

  const ERR_MEM := -1

  // The first empty entry among the first n; SIZE if there is none.
  predicate EmptySoFar(t: seq<Entry>, n: nat, empty: nat)
    requires n <= |t| == SIZE
  {
    if empty == SIZE then forall j | 0 <= j < n :: t[j].state != Empty
    else empty < n && t[empty].state == Empty && forall j | 0 <= j < empty :: t[j].state != Empty
  }

  // The candidates of the three classes among the first n.
  predicate Candidates(t: seq<Entry>, n: nat, stable: nat, ageStable: nat, pending: nat, agePending: nat,
                       queue: nat, ageQueue: nat)
    requires n <= |t|
  {
    && Candidate(t, Settled, n, stable, ageStable)
    && Candidate(t, Waiting, n, pending, agePending)
    && Candidate(t, Holding, n, queue, ageQueue)
  }

  // A used entry may become a candidate.
  method Consider(e: Entry, i: nat, stable: nat, ageStable: nat, pending: nat, agePending: nat, queue: nat,
                  ageQueue: nat,
                  ghost t: seq<Entry>)
    returns (stable': nat, ageStable': nat, pending': nat, agePending': nat, queue': nat, ageQueue': nat)
    requires i < |t| && e == t[i] && e.state != Empty
    requires Candidates(t, i, stable, ageStable, pending, agePending, queue, ageQueue)
    ensures Candidates(t, i + 1, stable', ageStable', pending', agePending', queue', ageQueue')
  {
    stable', ageStable', pending', agePending' := stable, ageStable, pending, agePending;
    queue', ageQueue' := queue, ageQueue;
    NextCandidate(t, Settled, i, stable, ageStable);
    NextCandidate(t, Waiting, i, pending, agePending);
    NextCandidate(t, Holding, i, queue, ageQueue);
    if e.state == Pending {
      if e.q != [] {
        if e.ctime >= ageQueue {
          queue', ageQueue' := i, e.ctime;
        }
      } else if e.ctime >= agePending {
        pending', agePending' := i, e.ctime;
      }
    } else if e.ctime >= ageStable {
      stable', ageStable' := i, e.ctime;
    }
  }

  lemma EmptyIsNone(t: seq<Entry>, i: nat, stable: nat, ageStable: nat, pending: nat, agePending: nat, queue: nat,
                    ageQueue: nat)
    requires i < |t| && t[i].state == Empty
    requires Candidates(t, i, stable, ageStable, pending, agePending, queue, ageQueue)
    ensures Candidates(t, i + 1, stable, ageStable, pending, agePending, queue, ageQueue)
  {
    NextCandidate(t, Settled, i, stable, ageStable);
    NextCandidate(t, Waiting, i, pending, agePending);
    NextCandidate(t, Holding, i, queue, ageQueue);
  }

  class ArpCache {
    const table: array<Entry>     // arp_table
    const queueing: bool          // ARP_QUEUEING
    var cached: nat               // etharp_cached_entry

    ghost var wire: seq<Frame>
    ghost var dropped: seq<Packet>

    ghost function State(): Cache
      reads this, table
    {
      Cache(table[..], wire, dropped)
    }

    ghost predicate Valid()
      reads this, table
    {
      Inv(table[..], queueing) && table.Length == SIZE && cached < SIZE
    }

    constructor (queueing: bool)
      ensures Valid() && fresh(table) && wire == [] && dropped == []
      ensures forall i | 0 <= i < SIZE :: table[i].state == Empty
    {
      var empty := Entry(Empty, 0, NONE, Mac(0), 0, []);
      table := new Entry[SIZE](i => empty);
      this.queueing, cached := queueing, 0;
      wire, dropped := [], [];
    }

    // etharp_free_entry
    method Free(i: nat)
      requires i < table.Length
      modifies this`dropped, table
      ensures State() == FreeEntry(old(State()), i)
    {
      ghost var c := State();
      dropped := dropped + table[i].q;
      table[i] := table[i].(state := Empty, q := []);
      assert table[..] == c.t[i := table[i]];
    }

    // The single sweep over the table: a match, or the candidates for a new entry.
    method Sweep(ip: u32) returns (match_: nat, empty: nat, stable: nat, pending: nat, queue: nat)
      requires table.Length == SIZE
      ensures match_ == Match(table[..], ip)
      ensures match_ == SIZE ==>
        && empty == FirstEmpty(table[..])
        && stable == Oldest(table[..], Settled, SIZE)
        && pending == Oldest(table[..], Waiting, SIZE)
        && queue == Oldest(table[..], Holding, SIZE)
    {
      ghost var t := table[..];
      match_, empty, stable, pending, queue := SIZE, SIZE, SIZE, SIZE, SIZE;
      var ageQueue, agePending, ageStable := 0, 0, 0;
      var i := 0;
      while i < SIZE
        invariant 0 <= i <= SIZE && forall j | 0 <= j < i :: !Matches(t[j], ip)
        invariant EmptySoFar(t, i, empty)
        invariant Candidates(t, i, stable, ageStable, pending, agePending, queue, ageQueue)
      {
        var e := table[i];
        if e.state != Empty {
          if e.ip == ip {
            match_ := i;
            return;
          }
          stable, ageStable, pending, agePending, queue, ageQueue :=
            Consider(e, i, stable, ageStable, pending, agePending, queue, ageQueue, t);
        } else {
          EmptyIsNone(t, i, stable, ageStable, pending, agePending, queue, ageQueue);
          if empty == SIZE {
            empty := i;
          }
        }
        i := i + 1;
      }
    }

    // etharp_find_entry
    method FindEntry(ip: u32, findOnly: bool, tryHard: bool) returns (i: int)
      requires table.Length == SIZE
      modifies this`dropped, table
      ensures Found(State(), i) == Find(old(State()), ip, findOnly, tryHard)
    {
      ghost var c := State();
      var match_, empty, stable, pending, queue := Sweep(ip);
      if match_ < SIZE {
        return match_;
      }
      if findOnly || (empty == SIZE && !tryHard) {
        return ERR_MEM;
      }
      if empty < SIZE {
        i := empty;
      } else {
        if stable < SIZE {
          i := stable;
        } else if pending < SIZE {
          i := pending;
        } else if queue < SIZE {
          i := queue;
        } else {
          return ERR_MEM;
        }
        Free(i);
      }
      ghost var c' := State();
      table[i] := table[i].(ip := ip, ctime := 0);
      assert table[..] == c'.t[i := table[i]];
    }

    // Pop and send what waits on an entry.
    method SendQueue(i: nat, mac: Mac)
      requires i < table.Length
      modifies this`wire, table
      ensures State() == old(State()).(t := old(table[..])[i := old(table[i]).(q := [])],
                                       wire := old(wire) + Frames(old(table[i].q), mac))
    {
      ghost var c := State();
      assert c.t == c.t[i := c.t[i].(q := c.t[i].q)];
      while table[i].q != []
        invariant table[..] == c.t[i := c.t[i].(q := table[i].q)] && dropped == c.dropped
        invariant wire + Frames(table[i].q, mac) == c.wire + Frames(c.t[i].q, mac)
        decreases |table[i].q|
      {
        ghost var q, was := table[i].q, table[..];
        var p := table[i].q[0];
        table[i] := table[i].(q := table[i].q[1..]);
        assert table[..] == was[i := table[i]];
        ghost var rest := Frames(q[1..], mac);
        assert wire + ([Frame(p, mac)] + rest) == wire + [Frame(p, mac)] + rest;
        wire := wire + [Frame(p, mac)];
      }
      assert wire + [] == wire;
    }

    // etharp_update_arp_entry; `unicast` says whether the address is one that may be cached.
    method UpdateEntry(netif: Netif, ip: u32, mac: Mac, unicast: bool, findOnly: bool, tryHard: bool) returns (ok: bool)
      requires Valid()
      modifies this, table
      ensures Valid() && cached == old(cached)
      ensures State() == if unicast then Update(old(State()), netif, ip, mac, findOnly, tryHard) else old(State())
      ensures ok <==> unicast && Find(old(State()), ip, findOnly, tryHard).i >= 0
    {
      if !unicast {
        return false;
      }
      UpdateInv(State(), netif, ip, mac, findOnly, tryHard, queueing);
      var i := FindEntry(ip, findOnly, tryHard);
      if i < 0 {
        return false;
      }
      ghost var c := State();
      table[i] := table[i].(state := Stable);
      table[i] := table[i].(netif := netif);
      table[i] := table[i].(mac := mac);
      table[i] := table[i].(ctime := 0);
      assert table[..] == c.t[i := table[i]];
      SendQueue(i, mac);
      assert c.t[i := c.t[i].(state := Stable, netif := netif, mac := mac, ctime := 0)][i := table[i]]
          == c.t[i := table[i]];
      ok := true;
    }

    method Append(i: nat, p: Packet)
      requires i < table.Length
      modifies this`dropped, table
      ensures State() == Enqueue(old(State()), i, p, queueing)
    {
      ghost var c := State();
      if queueing {
        table[i] := table[i].(q := table[i].q + [p]);
      } else {
        if table[i].q != [] {
          dropped := dropped + table[i].q;
        }
        table[i] := table[i].(q := [p]);
      }
      assert table[..] == c.t[i := table[i]];
    }

    // etharp_query; `given` is the packet, if there is one, and `room` whether there is memory to keep it.
    method QueryAddress(ip: u32, given: Option<Packet>, unicast: bool, room: bool)
      requires Valid()
      modifies this, table
      ensures Valid()
      ensures State() == if unicast then Query(old(State()), ip, given, room, queueing) else old(State())
    {
      if !unicast {
        return;
      }
      QueryInv(State(), ip, given, room, queueing);
      var i := FindEntry(ip, false, true);
      if i < 0 {
        return;
      }
      ghost var c := State();
      if table[i].state == Empty {
        table[i] := table[i].(state := Pending);
        assert table[..] == c.t[i := table[i]];
      }
      if given == None {
        return;
      }
      if table[i].Resolved() {
        cached := i;
        wire := wire + [Frame(given.value, table[i].mac)];
      } else if room {
        Append(i, given.value);
      }
    }

    // etharp_output_to_arp_index; `granted` is whether a new ARP request can be sent.
    method OutputTo(i: nat, p: Packet, granted: bool)
      requires i < table.Length
      modifies this`wire, table
      ensures State() == SendTo(old(State()), i, p, granted)
    {
      ghost var c := State();
      if table[i].state == Stable && table[i].ctime >= AGE_REREQUEST {
        if granted {
          table[i] := table[i].(state := Rerequesting);
          assert table[..] == c.t[i := table[i]];
        }
      }
      wire := wire + [Frame(p, table[i].mac)];
    }

    // The scan of etharp_output for an entry that knows the address.
    method Scan(ip: u32) returns (i: nat)
      requires table.Length == SIZE
      ensures i == FirstResolved(table[..], ip)
    {
      i := 0;
      while i < SIZE
        invariant 0 <= i <= SIZE && forall j | 0 <= j < i :: !(table[j].Resolved() && table[j].ip == ip)
      {
        if table[i].Resolved() && table[i].ip == ip {
          return;
        }
        i := i + 1;
      }
    }

    // etharp_output to a unicast address on the link: by the hint, by the scan, or by a query.
    method OutputPacket(ip: u32, p: Packet, granted: bool, room: bool)
      requires Valid()
      modifies this, table
      ensures Valid()
      ensures State() == Output(old(State()), ip, p, granted, room, queueing)
    {
      OutputInv(State(), ip, p, granted, room, queueing);
      if table[cached].Resolved() && table[cached].ip == ip {
        HintAgrees(table[..], queueing, cached, ip);
        OutputTo(cached, p, granted);
        return;
      }
      var i := Scan(ip);
      if i < SIZE {
        cached := i;
        OutputTo(i, p, granted);
        return;
      }
      QueryAddress(ip, Some(p), true, room);
    }

    method AgeEntry(i: nat)
      requires i < table.Length
      modifies this`dropped, table
      ensures State() == old(State()).(t := old(table[..])[i := Aged(old(table[i]))],
                                       dropped := if Expires(old(table[i])) then old(dropped) + old(table[i].q)
                                                   else old(dropped))
    {
      ghost var c := State();
      if table[i].state != Empty {
        table[i] := table[i].(ctime := table[i].ctime + 1);
        if table[i].ctime >= MAXAGE || (table[i].state == Pending && table[i].ctime >= MAXPENDING) {
          Free(i);
        } else if table[i].state == Rerequesting {
          table[i] := table[i].(state := Stable);
        }
      }
      assert table[..] == c.t[i := table[i]];
    }

    // etharp_tmr
    method Timer()
      requires Valid()
      modifies this`dropped, table
      ensures Valid() && State() == Tick(old(State()), SIZE)
    {
      ghost var c := State();
      TickInv(c, queueing);
      var i := 0;
      while i < SIZE
        invariant 0 <= i <= SIZE && State() == Tick(c, i)
      {
        AgeEntry(i);
        i := i + 1;
      }
    }

    // etharp_cleanup_netif
    method CleanupNetif(netif: Netif)
      requires Valid()
      modifies this`dropped, table
      ensures Valid() && State() == Cleanup(old(State()), netif, SIZE)
    {
      ghost var c := State();
      CleanupInv(c, netif, queueing);
      var i := 0;
      while i < SIZE
        invariant 0 <= i <= SIZE && State() == Cleanup(c, netif, i)
      {
        if table[i].state != Empty && table[i].netif == netif {
          Free(i);
        }
        i := i + 1;
      }
    }
  }
}
