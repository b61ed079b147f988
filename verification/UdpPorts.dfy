// Local ports and bindings of UDP (core/udp.c).
module UdpPorts {
  import opened SeqNum

  const FIRST := 0xc000    // UDP_LOCAL_PORT_RANGE_START
  const LAST := 0xffff     // UDP_LOCAL_PORT_RANGE_END
  const RANGE := 0x4000
  const ANY := 0           // IP_ADDR_ANY

  // A reference to a pcb.
  datatype Id = Id(address: nat)

  datatype Pcb = Pcb(localIp: u32, localPort: u16, remoteIp: u32, remotePort: u16, connected: bool)

  datatype Err = OK | USE

  predicate InRange(p: int) {
    FIRST <= p <= LAST
  }

  // The k-th port after `p`, round the range.
  function Round(p: int, k: int): (r: int)
    ensures InRange(r)
  {
    FIRST + (p - FIRST + k) % RANGE
  }

  lemma RoundStep(p: int, k: int)
    ensures Round(p, k + 1) == if Round(p, k) == LAST then FIRST else Round(p, k) + 1
  {
  }

  lemma ModShift(x: int, m: int)
    ensures (x + m * RANGE) % RANGE == x % RANGE
  {
  }

  // Going round the range once comes to every port.
  lemma RoundReaches(p: int, q: int) returns (k: int)
    requires InRange(q)
    ensures 1 <= k <= RANGE && Round(p, k) == q
  {
    k := (q - p - 1) % RANGE + 1;
    var m := (q - p - 1) / RANGE;
    assert p - FIRST + k == (q - FIRST) + (-m) * RANGE;
    ModShift(q - FIRST, -m);
  }

  // Two local addresses that cannot both be bound to one port.
  predicate Overlap(a: u32, b: u32) {
    a == ANY || b == ANY || a == b
  }

  // The pcb is bound to the address and port of a unicast datagram.
  predicate Accepts(x: Pcb, ip: u32, port: u16) {
    x.localPort == port && (x.localIp == ANY || x.localIp == ip)
  }

  ghost predicate Used(pcbs: map<Id, Pcb>, list: seq<Id>, port: int)
    requires forall i | i in list :: i in pcbs
  {
    exists i | i in list :: pcbs[i].localPort == port
  }

  ghost predicate Exhausted(pcbs: map<Id, Pcb>, list: seq<Id>)
    requires forall i | i in list :: i in pcbs
  {
    forall p: int | InRange(p) :: Used(pcbs, list, p)
  }

  // Some other listed pcb holds the port for an overlapping address.
  ghost predicate Taken(pcbs: map<Id, Pcb>, list: seq<Id>, id: Id, ip: u32, port: int)
    requires forall i | i in list :: i in pcbs
  {
    exists i | i in list :: i != id && pcbs[i].localPort == port && Overlap(pcbs[i].localIp, ip)
  }

  ghost predicate ConflictFree(pcbs: map<Id, Pcb>, list: seq<Id>)
    requires forall i | i in list :: i in pcbs
  {
    forall i | i in list :: !Taken(pcbs, list, i, pcbs[i].localIp, pcbs[i].localPort)
  }

  // At most one listed pcb is bound to the address and port of a unicast datagram.
  lemma UniqueReceiver(pcbs: map<Id, Pcb>, list: seq<Id>, i: Id, j: Id, ip: u32, port: u16)
    requires (forall i | i in list :: i in pcbs) && ConflictFree(pcbs, list)
    requires i in list && j in list && Accepts(pcbs[i], ip, port) && Accepts(pcbs[j], ip, port)
    ensures i == j
  {
    assert !Taken(pcbs, list, i, pcbs[i].localIp, pcbs[i].localPort);
  }

  lemma {:induction false} RangeSize(n: nat) returns (s: set<int>)
    ensures |s| == n && forall p: int :: p in s <==> FIRST <= p < FIRST + n
    decreases n
  {
    if n == 0 {
      s := {};
    } else {
      s := RangeSize(n - 1);
      s := s + {FIRST + n - 1};
    }
  }

  lemma {:induction false} PortsHeld(pcbs: map<Id, Pcb>, list: seq<Id>) returns (s: set<int>)
    requires forall i | i in list :: i in pcbs
    ensures |s| <= |list| && forall i | i in list :: pcbs[i].localPort in s
    decreases |list|
  {
    if list == [] {
      s := {};
    } else {
      s := PortsHeld(pcbs, list[1..]);
      s := s + {pcbs[list[0]].localPort};
      assert list == [list[0]] + list[1..];
    }
  }

  lemma {:induction false} SubsetSize<T>(a: set<T>, b: set<T>)
    requires a <= b
    ensures |a| <= |b|
    decreases |a|
  {
    if a != {} {
      var x :| x in a;
      SubsetSize(a - {x}, b - {x});
    }
  }

  // With fewer pcbs than ports there is a port left.
  lemma EnoughPorts(pcbs: map<Id, Pcb>, list: seq<Id>)
    requires (forall i | i in list :: i in pcbs) && |list| < RANGE
    ensures !Exhausted(pcbs, list)
  {
    if Exhausted(pcbs, list) {
      var range := RangeSize(RANGE);
      var held := PortsHeld(pcbs, list);
      forall p | p in range ensures p in held {
        assert Used(pcbs, list, p);
      }
      SubsetSize(range, held);
    }
  }

  // Neither the port asked for nor any other is left.
  ghost predicate Failing(pcbs: map<Id, Pcb>, list: seq<Id>, port: u16)
    requires forall i | i in list :: i in pcbs
  {
    port == 0 && Exhausted(pcbs, list)
  }

  // The listed pcb has already got the new address when the search for a port fails, and another
  // pcb holds its port for that address.
  ghost predicate Clash(pcbs: map<Id, Pcb>, list: seq<Id>, id: Id, ip: u32, port: u16)
    requires (forall i | i in list :: i in pcbs) && id in pcbs
  {
    Failing(pcbs, list, port) && id in list && Taken(pcbs, list, id, ip, pcbs[id].localPort)
  }

  ghost predicate BindResult(pcbs: map<Id, Pcb>, list: seq<Id>, id: Id, ip: u32, port: u16, err: Err,
                             pcbs': map<Id, Pcb>, list': seq<Id>)
    requires (forall i | i in list :: i in pcbs) && id in pcbs
  {
    && (err == USE <==> Taken(pcbs, list, id, ip, port) || Failing(pcbs, list, port))
    && id in pcbs'
    && (err == OK ==>
          && pcbs' == pcbs[id := pcbs[id].(localIp := ip, localPort := pcbs'[id].localPort)]
          && (if port != 0 then pcbs'[id].localPort == port
              else InRange(pcbs'[id].localPort) && !Used(pcbs, list, pcbs'[id].localPort))
          && list' == if id in list then list else [id] + list)
    && (err == USE ==>
          && list' == list
          && pcbs' == if Failing(pcbs, list, port) then pcbs[id := pcbs[id].(localIp := ip)] else pcbs)
  }

  // Only the address of one pcb has changed.
  lemma MovedConflicts(pcbs: map<Id, Pcb>, list: seq<Id>, id: Id, ip: u32)
    requires (forall i | i in list :: i in pcbs) && id in pcbs && ConflictFree(pcbs, list)
    ensures ConflictFree(pcbs[id := pcbs[id].(localIp := ip)], list)
       <==> !(id in list && Taken(pcbs, list, id, ip, pcbs[id].localPort))
  {
  }

  // A binding that does not overlap the others.
  lemma BoundConflicts(pcbs: map<Id, Pcb>, list: seq<Id>, id: Id, ip: u32, port: u16, list': seq<Id>)
    requires (forall i | i in list :: i in pcbs) && id in pcbs && ConflictFree(pcbs, list)
    requires !Taken(pcbs, list, id, ip, port) && list' == if id in list then list else [id] + list
    ensures (forall i | i in list' :: i in pcbs)
    ensures ConflictFree(pcbs[id := pcbs[id].(localIp := ip, localPort := port)], list')
  {
  }

  // A bind keeps the bindings apart, exactly when it does not leave a listed pcb under a new address
  // with its old port.
  lemma BindConflicts(pcbs: map<Id, Pcb>, list: seq<Id>, id: Id, ip: u32, port: u16, err: Err, pcbs': map<Id, Pcb>,
                      list': seq<Id>)
    requires (forall i | i in list :: i in pcbs && pcbs[i].localPort != 0) && id in pcbs && ConflictFree(pcbs, list)
    requires BindResult(pcbs, list, id, ip, port, err, pcbs', list')
    ensures forall i | i in list' :: i in pcbs'
    ensures ConflictFree(pcbs', list') <==> !Clash(pcbs, list, id, ip, port)
  {
    if Failing(pcbs, list, port) {
      MovedConflicts(pcbs, list, id, ip);
    } else if err == OK {
      BoundConflicts(pcbs, list, id, ip, pcbs'[id].localPort, list');
    }
  }

  // A pcb for every port of the range, all bound to one address.
  function Crowd(): map<Id, Pcb> {
    map k: nat | k < RANGE :: Id(k) := Pcb(1, FIRST + k, 0, 0, false)
  }

  function Everyone(): seq<Id> {
    seq(RANGE, k requires 0 <= k => Id(k))
  }

  lemma CrowdExhausts(pcbs: map<Id, Pcb>, list: seq<Id>)
    requires forall k: nat | k < RANGE :: Id(k) in list && Id(k) in pcbs && pcbs[Id(k)].localPort == FIRST + k
    requires forall i | i in list :: i in pcbs
    ensures Exhausted(pcbs, list)
  {
    forall p: int | InRange(p) ensures Used(pcbs, list, p) {
      assert Id(p - FIRST) in list;
    }
  }

  // It does happen: another pcb holds the first port for a second address, and the one that has it for
  // the first asks to be bound to that address with any port.
  lemma ClashArises() returns (pcbs: map<Id, Pcb>, list: seq<Id>)
    ensures (forall i | i in list :: i in pcbs && pcbs[i].localPort != 0) && ConflictFree(pcbs, list)
    ensures Id(0) in pcbs && Clash(pcbs, list, Id(0), 2, 0)
  {
    pcbs := Crowd()[Id(RANGE) := Pcb(2, FIRST, 0, 0, false)];
    list := Everyone() + [Id(RANGE)];
    forall k: nat | k < RANGE ensures Id(k) in list {
      assert list[k] == Id(k);
    }
    CrowdExhausts(pcbs, list);
    assert Id(RANGE) in list;
  }

  lemma SameConflicts(a: map<Id, Pcb>, b: map<Id, Pcb>, list: seq<Id>)
    requires forall i | i in list ::
      i in a && i in b && a[i].localPort == b[i].localPort && a[i].localIp == b[i].localIp
    ensures ConflictFree(a, list) <==> ConflictFree(b, list)
  {
  }

  function Without(list: seq<Id>, id: Id): seq<Id> {
    if list == [] then [] else (if list[0] == id then [] else [list[0]]) + Without(list[1..], id)
  }

  lemma SamePorts(a: map<Id, Pcb>, b: map<Id, Pcb>, list: seq<Id>)
    requires forall i | i in list :: i in a && i in b && a[i].localPort == b[i].localPort
    ensures Exhausted(a, list) <==> Exhausted(b, list)
    ensures forall p: int :: Used(a, list, p) <==> Used(b, list, p)
  {
  }

  lemma {:induction false} WithoutIn(list: seq<Id>, id: Id)
    ensures forall i :: i in Without(list, id) <==> i in list && i != id
    ensures (forall i, j | 0 <= i < j < |list| :: list[i] != list[j])
        ==> forall i, j | 0 <= i < j < |Without(list, id)| :: Without(list, id)[i] != Without(list, id)[j]
    decreases |list|
  {
    if list != [] {
      WithoutIn(list[1..], id);
      assert list == [list[0]] + list[1..];
      var w := Without(list[1..], id);
      if forall i, j | 0 <= i < j < |list| :: list[i] != list[j] {
        assert forall i | 0 <= i < |list[1..]| :: list[1..][i] == list[i + 1];
        assert forall i | 0 <= i < |w| :: w[i] in w;
        assert list[0] !in list[1..];
      }
    }
  }

  lemma {:induction false} WithoutNone(list: seq<Id>, id: Id)
    requires id !in list
    ensures Without(list, id) == list
    decreases |list|
  {
    if list != [] {
      WithoutNone(list[1..], id);
    }
  }

  lemma {:induction false} WithoutAt(list: seq<Id>, id: Id, k: nat)
    requires k < |list| && list[k] == id && forall i, j | 0 <= i < j < |list| :: list[i] != list[j]
    ensures Without(list, id) == list[..k] + list[k + 1..]
    decreases |list|
  {
    if k == 0 {
      WithoutNone(list[1..], id);
    } else {
      WithoutAt(list[1..], id, k - 1);
    }
  }

  // Conflicts do not arise where a pcb goes.
  lemma FewerConflicts(pcbs: map<Id, Pcb>, list: seq<Id>, id: Id, list': seq<Id>)
    requires (forall i | i in list :: i in pcbs) && ConflictFree(pcbs, list)
    requires forall i :: i in list' <==> i in list && i != id
    ensures (forall i | i in list' :: i in pcbs - {id}) && ConflictFree(pcbs - {id}, list')
  {
    forall i | i in list' ensures !Taken(pcbs - {id}, list', i, pcbs[i].localIp, pcbs[i].localPort) {
      assert !Taken(pcbs, list, i, pcbs[i].localIp, pcbs[i].localPort);
    }
  }

  class UdpLayer {
    var pcbs: map<Id, Pcb>    // every pcb there is
    var list: seq<Id>         // udp_pcbs
    var udpPort: u16

    // Each pcb is listed at most once, and then it has a port.
    ghost predicate Valid()
      reads this
    {
      && InRange(udpPort)
      && (forall i | i in list :: i in pcbs && pcbs[i].localPort != 0)
      && (forall i, j | 0 <= i < j < |list| :: list[i] != list[j])
    }

    // Every pcb that has a port is listed.
    ghost predicate Complete()
      reads this
    {
      forall i | i in pcbs && pcbs[i].localPort != 0 :: i in list
    }

    constructor (port: u16)
      requires InRange(port)
      ensures Valid() && Complete() && pcbs == map[] && list == [] && ConflictFree(pcbs, list)
    {
      pcbs, list, udpPort := map[], [], port;
    }

    method InUse(port: u16) returns (r: bool)
      requires Valid()
      ensures r <==> Used(pcbs, list, port)
    {
      var i := 0;
      while i < |list|
        invariant 0 <= i <= |list|
        invariant forall j | 0 <= j < i :: pcbs[list[j]].localPort != port
      {
        if pcbs[list[i]].localPort == port {
          return true;
        }
        i := i + 1;
      }
      r := false;
    }

    // udp_new_port: the next free port round the range, or 0 exactly when there is none.
    method NewPort() returns (port: u16)
      requires Valid()
      modifies this`udpPort
      ensures Valid()
      ensures port == 0 <==> Exhausted(pcbs, list)
      ensures port != 0 ==> InRange(port) && !Used(pcbs, list, port) && udpPort == port
      ensures port != 0 ==> exists k | 1 <= k <= RANGE ::
        port == Round(old(udpPort), k) && forall j | 1 <= j < k :: Used(pcbs, list, Round(old(udpPort), j))
    {
      var n := 0;
      ghost var start := udpPort;
      ghost var ids, all := list, pcbs;
      assert Round(start, 0) == start;
      while true
        invariant Valid() && ids == list && all == pcbs
        invariant 0 <= n < RANGE && udpPort == Round(start, n)
        invariant forall k | 1 <= k <= n :: Used(all, ids, Round(start, k))
        decreases RANGE - n
      {
        RoundStep(start, n);
        udpPort := if udpPort == LAST then FIRST else udpPort + 1;
        var used := InUse(udpPort);
        if !used {
          return udpPort;
        }
        n := n + 1;
        if n > LAST - FIRST {
          forall p: int | InRange(p) ensures Used(all, ids, p) {
            var k := RoundReaches(start, p);
          }
          return 0;
        }
      }
    }

    // The scan of udp_bind over the list.
    method Scan(id: Id, ip: u32, port: u16) returns (taken: bool, rebind: bool)
      requires Valid()
      ensures taken <==> Taken(pcbs, list, id, ip, port)
      ensures !taken ==> (rebind <==> id in list)
    {
      rebind := false;
      var i := 0;
      while i < |list|
        invariant 0 <= i <= |list|
        invariant rebind <==> id in list[..i]
        invariant forall j | 0 <= j < i ::
          list[j] == id || pcbs[list[j]].localPort != port || !Overlap(pcbs[list[j]].localIp, ip)
      {
        if list[i] == id {
          rebind := true;
        } else {
          var x := pcbs[list[i]];
          if x.localPort == port && (x.localIp == ANY || ip == ANY || x.localIp == ip) {
            return true, rebind;
          }
        }
        assert list[..i + 1] == list[..i] + [list[i]];
        i := i + 1;
      }
      assert list[..i] == list;
      taken := false;
    }

    lemma NoPortZero()
      requires Valid()
      ensures forall id: Id, ip: u32 :: !Taken(pcbs, list, id, ip, 0)
    {
    }

    // What udp_bind does when the scan has found nobody in the way.
    method Settle(id: Id, ip: u32, port: u16, rebind: bool) returns (err: Err)
      requires Valid() && id in pcbs && !Taken(pcbs, list, id, ip, port) && (rebind <==> id in list)
      modifies this
      ensures Valid() && (old(Complete()) ==> Complete())
      ensures BindResult(old(pcbs), old(list), id, ip, port, err, pcbs, list)
    {
      ghost var all := pcbs;
      pcbs := pcbs[id := pcbs[id].(localIp := ip)];
      SamePorts(all, pcbs, list);
      var p := port;
      if p == 0 {
        p := NewPort();
        if p == 0 {
          return USE;
        }
      }
      pcbs := pcbs[id := pcbs[id].(localPort := p)];
      if !rebind {
        list := [id] + list;
      }
      err := OK;
    }

    method Assign(id: Id, ip: u32, port: u16) returns (err: Err)
      requires Valid() && id in pcbs
      modifies this
      ensures Valid() && (old(Complete()) ==> Complete())
      ensures BindResult(old(pcbs), old(list), id, ip, port, err, pcbs, list)
    {
      var taken, rebind := Scan(id, ip, port);
      if taken {
        if port == 0 { NoPortZero(); }
        return USE;
      }
      err := Settle(id, ip, port, rebind);
    }

    // udp_bind.  When it finds no free port it has changed the address already: that, and nothing
    // else, can make the bindings conflict.
    method Bind(id: Id, ip: u32, port: u16) returns (err: Err)
      requires Valid() && id in pcbs
      modifies this
      ensures Valid() && (old(Complete()) ==> Complete())
      ensures BindResult(old(pcbs), old(list), id, ip, port, err, pcbs, list)
      ensures old(ConflictFree(pcbs, list)) ==>
        (ConflictFree(pcbs, list) <==> !Clash(old(pcbs), old(list), id, ip, port))
    {
      ghost var all, ids := pcbs, list;
      err := Assign(id, ip, port);
      if ConflictFree(all, ids) {
        BindConflicts(all, ids, id, ip, port, err, pcbs, list);
      }
    }

    // The bind of a pcb without a port that udp_connect makes.
    method BindAny(id: Id) returns (err: Err)
      requires Valid() && id in pcbs && pcbs[id].localPort == 0
      modifies this
      ensures Valid() && id in pcbs && (old(Complete()) ==> Complete())
      ensures old(ConflictFree(pcbs, list)) && |old(list)| < RANGE ==> err == OK && ConflictFree(pcbs, list)
      ensures err == OK ==> id in list
      ensures err == USE <==> old(Exhausted(pcbs, list))
      ensures forall j | j in old(pcbs) && j != id :: j in pcbs && pcbs[j] == old(pcbs)[j]
    {
      if |list| < RANGE { EnoughPorts(pcbs, list); }
      NoPortZero();
      err := Bind(id, pcbs[id].localIp, 0);
    }

    // The walk at the end of udp_connect: the pcb is put in front unless it is listed.
    method List(id: Id)
      requires Valid() && id in pcbs && pcbs[id].localPort != 0
      modifies this`list
      ensures Valid() && (old(Complete()) ==> Complete())
      ensures list == if id in old(list) then old(list) else [id] + old(list)
    {
      var i := 0;
      while i < |list|
        invariant 0 <= i <= |list| && id !in list[..i]
      {
        if list[i] == id {
          return;
        }
        assert list[..i + 1] == list[..i] + [list[i]];
        i := i + 1;
      }
      assert list[..i] == list;
      list := [id] + list;
    }

    // udp_connect
    method Connect(id: Id, ip: u32, port: u16) returns (err: Err)
      requires Valid() && id in pcbs
      modifies this
      ensures Valid() && (old(Complete()) ==> Complete())
      ensures old(ConflictFree(pcbs, list)) && old(Complete()) && |old(list)| < RANGE ==>
        err == OK && ConflictFree(pcbs, list)
      ensures err == OK ==>
        id in list && id in pcbs && pcbs[id].remoteIp == ip && pcbs[id].remotePort == port && pcbs[id].connected
      ensures err == USE <==> old(pcbs[id].localPort == 0 && Exhausted(pcbs, list))
      ensures forall j | j in old(pcbs) && j != id :: j in pcbs && pcbs[j] == old(pcbs)[j]
      ensures err == OK && old(pcbs[id].localPort) != 0 ==>
        pcbs[id].localPort == old(pcbs[id].localPort) && pcbs[id].localIp == old(pcbs[id].localIp)
    {
      if pcbs[id].localPort == 0 {
        err := BindAny(id);
        if err != OK {
          return;
        }
      }
      ghost var all := pcbs;
      pcbs := pcbs[id := pcbs[id].(remoteIp := ip, remotePort := port, connected := true)];
      SameConflicts(all, pcbs, list);
      List(id);
      err := OK;
    }

    // The walk of udp_remove over the pcbs behind the first.
    method Unlist(id: Id)
      requires Valid() && (list != [] ==> list[0] != id)
      modifies this`list
      ensures list == Without(old(list), id)
    {
      var i := 0;
      ghost var was, removed := list, false;
      WithoutIn(was, id);
      while i < |list|
        invariant removed ==> list == Without(was, id)
        invariant !removed ==> list == was && forall j | 0 <= j <= i && j < |list| :: list[j] != id
      {
        if i + 1 < |list| && list[i + 1] == id {
          assert id in list;
          WithoutAt(was, id, i + 1);
          list, removed := list[..i + 1] + list[i + 2..], true;
        }
        i := i + 1;
      }
      if !removed { WithoutNone(was, id); }
    }

    // udp_remove
    method Remove(id: Id)
      requires Valid() && id in pcbs
      modifies this
      ensures Valid() && (old(Complete()) ==> Complete())
      ensures pcbs == old(pcbs) - {id} && list == Without(old(list), id)
      ensures old(ConflictFree(pcbs, list)) ==> ConflictFree(pcbs, list)
    {
      WithoutIn(list, id);
      if ConflictFree(pcbs, list) { FewerConflicts(pcbs, list, id, Without(list, id)); }
      if list != [] && list[0] == id {
        WithoutAt(list, id, 0);
        list := list[1..];
      } else {
        Unlist(id);
      }
      pcbs := pcbs - {id};
    }
  }
}
