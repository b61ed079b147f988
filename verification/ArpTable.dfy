// The ARP cache of core/etharp.c as a function of its table: what each operation makes of the
// entries, of the packets that wait on them and of the frames that have been sent.
module ArpTable {
  import opened SeqNum

  const SIZE := 10                      // ARP_TABLE_SIZE
  const MAXAGE := 240                   // ARP_MAXAGE
  const MAXPENDING := 2                 // ARP_MAXPENDING
  const AGE_REREQUEST := MAXAGE - 12    // ARP_AGE_REREQUEST_USED

  datatype Packet = Packet(id: nat)
  datatype Mac = Mac(address: nat)
  datatype Netif = NONE | Netif(number: nat)
  datatype Frame = Frame(p: Packet, to: Mac)
  datatype State = Empty | Pending | Stable | Rerequesting

  datatype Entry = Entry(state: State, ip: u32, netif: Netif, mac: Mac, ctime: nat, q: seq<Packet>) {
    // state >= ETHARP_STATE_STABLE
    predicate Resolved() { state == Stable || state == Rerequesting }
  }

  // `wire` and `dropped` are everything sent, and everything queued that was freed unsent.
  datatype Cache = Cache(t: seq<Entry>, wire: seq<Frame>, dropped: seq<Packet>)

  predicate Matches(e: Entry, ip: u32) {
    e.state != Empty && e.ip == ip
  }

  predicate Entries(t: seq<Entry>, queueing: bool) {
    forall i | 0 <= i < |t| ::
      && (t[i].state != Pending ==> t[i].q == [])
      && t[i].ctime <= MAXAGE
      && (t[i].state != Empty ==> t[i].ctime < MAXAGE)
      && (t[i].state == Pending ==> t[i].ctime < MAXPENDING)
      && (!queueing ==> |t[i].q| <= 1)
  }

  predicate Unique(t: seq<Entry>) {
    forall i, j | 0 <= i < j < |t| && t[i].state != Empty && t[j].state != Empty :: t[i].ip != t[j].ip
  }

  // What every run keeps: one entry per address, packets only on pending entries, no entry too old.
  predicate Inv(t: seq<Entry>, queueing: bool) {
    |t| == SIZE && Entries(t, queueing) && Unique(t)
  }

  // ----- searching ---------------------------------------------------------------------------

  function Match(t: seq<Entry>, ip: u32): (k: nat)
    ensures k <= |t| && (k < |t| ==> Matches(t[k], ip)) && forall j | 0 <= j < k :: !Matches(t[j], ip)
  {
    if t == [] || Matches(t[0], ip) then 0 else 1 + Match(t[1..], ip)
  }

  function FirstEmpty(t: seq<Entry>): (k: nat)
    ensures k <= |t| && (k < |t| ==> t[k].state == Empty) && forall j | 0 <= j < k :: t[j].state != Empty
  {
    if t == [] || t[0].state == Empty then 0 else 1 + FirstEmpty(t[1..])
  }

  function FirstResolved(t: seq<Entry>, ip: u32): (k: nat)
    ensures k <= |t| && (k < |t| ==> t[k].Resolved() && t[k].ip == ip)
    ensures forall j | 0 <= j < k :: !(t[j].Resolved() && t[j].ip == ip)
  {
    if t == [] || (t[0].Resolved() && t[0].ip == ip) then 0 else 1 + FirstResolved(t[1..], ip)
  }

  // From the least to the most important to keep.
  datatype Class = Settled | Waiting | Holding | Free

  function ClassOf(e: Entry): Class {
    if e.Resolved() then Settled
    else if e.state == Empty then Free
    else if e.q == [] then Waiting else Holding
  }

  // The oldest entry of a class among the first n, the last of them if there are several.
  function Oldest(t: seq<Entry>, c: Class, n: nat): (k: nat)
    requires n <= |t|
    ensures k < n || k == |t|
  {
    if n == 0 then |t|
    else
      var r := Oldest(t, c, n - 1);
      if ClassOf(t[n - 1]) == c && (r == |t| || t[n - 1].ctime >= t[r].ctime) then n - 1 else r
  }

  lemma {:induction false} OldestIs(t: seq<Entry>, c: Class, n: nat)
    requires n <= |t|
    ensures var k := Oldest(t, c, n);
      && (k < |t| ==> ClassOf(t[k]) == c)
      && (k < |t| ==> forall j | 0 <= j < n && ClassOf(t[j]) == c ::
          t[j].ctime < t[k].ctime || (t[j].ctime == t[k].ctime && j <= k))
      && (k == |t| ==> forall j | 0 <= j < n :: ClassOf(t[j]) != c)
    decreases n
  {
    if n > 0 { OldestIs(t, c, n - 1); }
  }

  // The oldest entry of a class so far, and its age; no entry is an entry of age 0.
  predicate Candidate(t: seq<Entry>, c: Class, n: nat, k: nat, age: nat)
    requires n <= |t|
  {
    k == Oldest(t, c, n) && age == if k < |t| then t[k].ctime else 0
  }

  lemma NextCandidate(t: seq<Entry>, c: Class, n: nat, k: nat, age: nat)
    requires n < |t| && Candidate(t, c, n, k, age)
    ensures if ClassOf(t[n]) == c && t[n].ctime >= age then Candidate(t, c, n + 1, n, t[n].ctime)
            else Candidate(t, c, n + 1, k, age)
  {
  }

  // The entry to recycle when none is empty.
  function Victim(t: seq<Entry>): (k: nat)
    ensures k <= |t|
  {
    var stable, waiting := Oldest(t, Settled, |t|), Oldest(t, Waiting, |t|);
    if stable < |t| then stable else if waiting < |t| then waiting else Oldest(t, Holding, |t|)
  }

  // ----- the operations ----------------------------------------------------------------------

  function FreeEntry(c: Cache, i: nat): Cache
    requires i < |c.t|
  {
    c.(t := c.t[i := c.t[i].(state := Empty, q := [])], dropped := c.dropped + c.t[i].q)
  }

  // An empty entry is given an address.
  function Claim(c: Cache, i: nat, ip: u32): Cache
    requires i < |c.t|
  {
    c.(t := c.t[i := c.t[i].(ip := ip, ctime := 0)])
  }

  datatype Found = Found(c: Cache, i: int)

  // etharp_find_entry; -1 is ERR_MEM.
  function Find(c: Cache, ip: u32, findOnly: bool, tryHard: bool): (f: Found)
    ensures -1 <= f.i < |f.c.t| == |c.t|
  {
    var m, e, v := Match(c.t, ip), FirstEmpty(c.t), Victim(c.t);
    if m < |c.t| then Found(c, m)
    else if findOnly then Found(c, -1)
    else if e < |c.t| then Found(Claim(c, e, ip), e)
    else if !tryHard || v == |c.t| then Found(c, -1)
    else Found(Claim(FreeEntry(c, v), v, ip), v)
  }

  function Frames(q: seq<Packet>, mac: Mac): (r: seq<Frame>)
    ensures |r| == |q| && forall k | 0 <= k < |q| :: r[k] == Frame(q[k], mac)
  {
    if q == [] then [] else [Frame(q[0], mac)] + Frames(q[1..], mac)
  }

  // etharp_update_arp_entry for a unicast address
  function Update(c: Cache, netif: Netif, ip: u32, mac: Mac, findOnly: bool, tryHard: bool): (r: Cache)
    ensures |r.t| == |c.t|
  {
    var f := Find(c, ip, findOnly, tryHard);
    if f.i < 0 then f.c
    else
      var e := f.c.t[f.i];
      f.c.(t := f.c.t[f.i := e.(state := Stable, netif := netif, mac := mac, ctime := 0, q := [])],
           wire := f.c.wire + Frames(e.q, mac))
  }

  // A packet is put on the queue of a pending entry, or in the place of the one that is there.
  function Enqueue(c: Cache, i: nat, p: Packet, queueing: bool): Cache
    requires i < |c.t|
  {
    if queueing then c.(t := c.t[i := c.t[i].(q := c.t[i].q + [p])])
    else c.(t := c.t[i := c.t[i].(q := [p])], dropped := c.dropped + c.t[i].q)
  }

  datatype Option<T> = None | Some(value: T)

  // etharp_query for a unicast address; `taken` says whether memory was found to keep the packet.
  function Query(c: Cache, ip: u32, p: Option<Packet>, taken: bool, queueing: bool): (r: Cache)
    ensures |r.t| == |c.t|
  {
    var f := Find(c, ip, false, true);
    if f.i < 0 then f.c
    else
      var e := f.c.t[f.i];
      var c' := if e.state == Empty then f.c.(t := f.c.t[f.i := e.(state := Pending)]) else f.c;
      if p == None then c'
      else if e.Resolved() then c'.(wire := c'.wire + [Frame(p.value, e.mac)])
      else if taken then Enqueue(c', f.i, p.value, queueing)
      else c'
  }

  // etharp_output_to_arp_index; `asked` says whether a new ARP request could be sent.
  function SendTo(c: Cache, i: nat, p: Packet, asked: bool): Cache
    requires i < |c.t|
  {
    var e := c.t[i];
    var ask := e.state == Stable && e.ctime >= AGE_REREQUEST && asked;
    c.(t := if ask then c.t[i := e.(state := Rerequesting)] else c.t, wire := c.wire + [Frame(p, e.mac)])
  }

  // etharp_output for a unicast address, by the full scan.
  function Output(c: Cache, ip: u32, p: Packet, asked: bool, taken: bool, queueing: bool): (r: Cache)
    ensures |r.t| == |c.t|
  {
    var k := FirstResolved(c.t, ip);
    if k < |c.t| then SendTo(c, k, p, asked) else Query(c, ip, Some(p), taken, queueing)
  }

  predicate Expires(e: Entry) {
    e.state != Empty && (e.ctime + 1 >= MAXAGE || (e.state == Pending && e.ctime + 1 >= MAXPENDING))
  }

  function Aged(e: Entry): Entry {
    if e.state == Empty then e
    else if Expires(e) then e.(ctime := e.ctime + 1, state := Empty, q := [])
    else e.(ctime := e.ctime + 1, state := if e.state == Rerequesting then Stable else e.state)
  }

  // etharp_tmr, as far as entry n
  function Tick(c: Cache, n: nat): (r: Cache)
    requires n <= |c.t|
    ensures |r.t| == |c.t| && r.wire == c.wire
    ensures forall j | 0 <= j < |c.t| :: r.t[j] == if j < n then Aged(c.t[j]) else c.t[j]
  {
    if n == 0 then c
    else
      var r := Tick(c, n - 1);
      var e := c.t[n - 1];
      r.(t := r.t[n - 1 := Aged(e)], dropped := if Expires(e) then r.dropped + e.q else r.dropped)
  }

  // etharp_cleanup_netif, as far as entry n
  function Cleanup(c: Cache, netif: Netif, n: nat): (r: Cache)
    requires n <= |c.t|
    ensures |r.t| == |c.t| && r.wire == c.wire
    ensures forall j | 0 <= j < |c.t| ::
      r.t[j] == if j < n && c.t[j].state != Empty && c.t[j].netif == netif
                then c.t[j].(state := Empty, q := []) else c.t[j]
  {
    if n == 0 then c
    else
      var r := Cleanup(c, netif, n - 1);
      if c.t[n - 1].state != Empty && c.t[n - 1].netif == netif then FreeEntry(r, n - 1) else r
  }

  // ----- one entry per address ---------------------------------------------------------------

  // What is recycled belongs to the least important class that has an entry, and is its oldest.
  lemma VictimIs(t: seq<Entry>)
    ensures var k := Victim(t);
      && (k < |t| ==> forall j | 0 <= j < |t| && ClassOf(t[j]) == ClassOf(t[k]) :: t[j].ctime <= t[k].ctime)
      && (k < |t| ==> t[k].state != Empty)
      && (k < |t| && !t[k].Resolved() ==> forall j | 0 <= j < |t| :: !t[j].Resolved())
      && (k < |t| && ClassOf(t[k]) == Holding ==> forall j | 0 <= j < |t| :: ClassOf(t[j]) != Waiting)
      && (k == |t| ==> forall j | 0 <= j < |t| :: t[j].state == Empty)
  {
    OldestIs(t, Settled, |t|);
    OldestIs(t, Waiting, |t|);
    OldestIs(t, Holding, |t|);
  }

  lemma FindInv(c: Cache, ip: u32, findOnly: bool, tryHard: bool, queueing: bool)
    requires Inv(c.t, queueing)
    ensures var f := Find(c, ip, findOnly, tryHard);
      && Inv(f.c.t, queueing)
      && (f.i >= 0 ==> f.c.t[f.i].ip == ip)
      && (f.i >= 0 ==> forall j | 0 <= j < SIZE && j != f.i && f.c.t[j].state != Empty :: f.c.t[j].ip != ip)
      && (f.i == -1 ==> findOnly || !tryHard)
  {
    VictimIs(c.t);
  }

  lemma SetInv(t: seq<Entry>, i: nat, e: Entry, queueing: bool)
    requires Inv(t, queueing) && i < SIZE && Entries([e], queueing)
    requires e.state != Empty ==> forall j | 0 <= j < SIZE && j != i && t[j].state != Empty :: t[j].ip != e.ip
    ensures Inv(t[i := e], queueing)
  {
    assert [e][0] == e;
  }

  lemma UpdateInv(c: Cache, netif: Netif, ip: u32, mac: Mac, findOnly: bool, tryHard: bool, queueing: bool)
    requires Inv(c.t, queueing)
    ensures Inv(Update(c, netif, ip, mac, findOnly, tryHard).t, queueing)
  {
    var f := Find(c, ip, findOnly, tryHard);
    FindInv(c, ip, findOnly, tryHard, queueing);
    if f.i >= 0 {
      SetInv(f.c.t, f.i, f.c.t[f.i].(state := Stable, netif := netif, mac := mac, ctime := 0, q := []), queueing);
    }
  }

  // The entry that a query leaves at the index it has found.
  function Queried(e: Entry, p: Option<Packet>, taken: bool, queueing: bool): Entry {
    var e' := if e.state == Empty then e.(state := Pending) else e;
    if p.Some? && !e.Resolved() && taken then e'.(q := if queueing then e'.q + [p.value] else [p.value]) else e'
  }

  lemma QueryTable(c: Cache, ip: u32, p: Option<Packet>, taken: bool, queueing: bool)
    requires Find(c, ip, false, true).i >= 0
    ensures var f := Find(c, ip, false, true);
      Query(c, ip, p, taken, queueing).t == f.c.t[f.i := Queried(f.c.t[f.i], p, taken, queueing)]
  {
  }

  lemma QueryInv(c: Cache, ip: u32, p: Option<Packet>, taken: bool, queueing: bool)
    requires Inv(c.t, queueing)
    ensures Inv(Query(c, ip, p, taken, queueing).t, queueing)
  {
    var f := Find(c, ip, false, true);
    FindInv(c, ip, false, true, queueing);
    QueryTable(c, ip, p, taken, queueing);
    SetInv(f.c.t, f.i, Queried(f.c.t[f.i], p, taken, queueing), queueing);
  }

  // The one-slot hint selects the entry that the full scan selects.
  lemma HintAgrees(t: seq<Entry>, queueing: bool, hint: nat, ip: u32)
    requires Inv(t, queueing) && hint < SIZE && t[hint].Resolved() && t[hint].ip == ip
    ensures FirstResolved(t, ip) == hint
  {
  }

  lemma OutputInv(c: Cache, ip: u32, p: Packet, asked: bool, taken: bool, queueing: bool)
    requires Inv(c.t, queueing)
    ensures Inv(Output(c, ip, p, asked, taken, queueing).t, queueing)
  {
    var k := FirstResolved(c.t, ip);
    if k < |c.t| {
      SetInv(c.t, k, c.t[k].(state := Rerequesting), queueing);
    } else {
      QueryInv(c, ip, Some(p), taken, queueing);
    }
  }

  lemma TickInv(c: Cache, queueing: bool)
    requires Inv(c.t, queueing)
    ensures Inv(Tick(c, SIZE).t, queueing)
  {
  }

  lemma CleanupInv(c: Cache, netif: Netif, queueing: bool)
    requires Inv(c.t, queueing)
    ensures Inv(Cleanup(c, netif, SIZE).t, queueing)
  {
  }

  // ----- what eviction costs -----------------------------------------------------------------

  // A new address takes an empty entry, or else the oldest of the least important class there is:
  // a resolved entry goes before any pending one, and packets are lost only when every entry holds
  // some.
  lemma LeastImportantGoes(c: Cache, ip: u32, queueing: bool)
    requires Inv(c.t, queueing) && Match(c.t, ip) == SIZE
    ensures var f := Find(c, ip, false, true);
      var e := c.t[f.i];
      && 0 <= f.i
      && (forall j | 0 <= j < SIZE && j != f.i :: f.c.t[j] == c.t[j])
      && f.c.dropped == c.dropped + e.q && f.c.wire == c.wire
      && (e.state != Empty ==> forall j | 0 <= j < SIZE :: c.t[j].state != Empty)
      && (e.state == Pending ==> forall j | 0 <= j < SIZE :: c.t[j].state == Pending)
      && (e.q != [] ==> forall j | 0 <= j < SIZE :: c.t[j].q != [])
      && (e.state != Empty ==> forall j | 0 <= j < SIZE && ClassOf(c.t[j]) == ClassOf(e) :: c.t[j].ctime <= e.ctime)
  {
    var f := Find(c, ip, false, true);
    VictimIs(c.t);
    if FirstEmpty(c.t) < SIZE {
      assert c.t[f.i].q == [];
      assert c.dropped + [] == c.dropped;
    }
  }
}
