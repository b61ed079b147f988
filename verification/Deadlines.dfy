// Absolute deadlines of timers, and the list of relative times that stands for them.
module Deadlines {
  import opened SeqNum

  // struct sys_timeo
  datatype Timeo = Timeo(time: u32, h: int, arg: int)

  datatype Due = Due(at: int, h: int, arg: int)

  // The deadlines behind a list whose times count from `clock`, each from the entry before it.
  function Abs(list: seq<Timeo>, clock: int): seq<Due> {
    if list == [] then []
    else [Due(clock + list[0].time, list[0].h, list[0].arg)] + Abs(list[1..], clock + list[0].time)
  }

  function Total(list: seq<Timeo>): nat {
    if list == [] then 0 else list[0].time + Total(list[1..])
  }

  predicate Sorted(ds: seq<Due>, from: int) {
    ds == [] || (from <= ds[0].at && Sorted(ds[1..], ds[0].at))
  }

  // Behind every deadline that is not later.
  function Insert(ds: seq<Due>, d: Due): seq<Due> {
    if ds == [] || ds[0].at > d.at then [d] + ds else [ds[0]] + Insert(ds[1..], d)
  }

  // Without the first timer of a handler and argument.
  function Remove(ds: seq<Due>, h: int, arg: int): seq<Due> {
    if ds == [] then [] else if ds[0].h == h && ds[0].arg == arg then ds[1..] else [ds[0]] + Remove(ds[1..], h, arg)
  }

  lemma {:induction false} AbsSorted(list: seq<Timeo>, clock: int)
    ensures Sorted(Abs(list, clock), clock)
    ensures forall d | d in Abs(list, clock) :: clock <= d.at <= clock + Total(list)
    ensures |Abs(list, clock)| == |list|
    decreases |list|
  {
    if list != [] {
      AbsSorted(list[1..], clock + list[0].time);
    }
  }

  lemma {:induction false} AbsConcat(a: seq<Timeo>, b: seq<Timeo>, clock: int)
    ensures Abs(a + b, clock) == Abs(a, clock) + Abs(b, clock + Total(a))
    ensures Total(a + b) == Total(a) + Total(b)
    decreases |a|
  {
    var q := a + b;
    if a == [] {
      assert q == b;
    } else {
      assert q[0] == a[0] && q[1..] == a[1..] + b;
      var d, c := Due(clock + a[0].time, a[0].h, a[0].arg), clock + a[0].time;
      AbsConcat(a[1..], b, c);
      var x, y := Abs(a[1..], c), Abs(b, clock + Total(a));
      assert Abs(q, clock) == [d] + (x + y) == [d] + x + y;
    }
  }

  lemma {:induction false} InsertBehind(a: seq<Due>, b: seq<Due>, d: Due)
    requires forall x | x in a :: x.at <= d.at
    ensures Insert(a + b, d) == a + Insert(b, d)
    decreases |a|
  {
    var q := a + b;
    if a == [] {
      assert q == b;
    } else {
      assert q[0] == a[0] && q[1..] == a[1..] + b && a[0] in a;
      InsertBehind(a[1..], b, d);
    }
  }

  lemma {:induction false} RemoveBehind(a: seq<Due>, b: seq<Due>, h: int, arg: int)
    requires forall x | x in a :: !(x.h == h && x.arg == arg)
    ensures Remove(a + b, h, arg) == a + Remove(b, h, arg)
    decreases |a|
  {
    var q := a + b;
    if a == [] {
      assert q == b;
    } else {
      assert q[0] == a[0] && q[1..] == a[1..] + b && a[0] in a;
      RemoveBehind(a[1..], b, h, arg);
    }
  }

  lemma {:induction false} LaterStill(ds: seq<Due>, from: int, at: int)
    requires Sorted(ds, from) && (ds != [] ==> at < ds[0].at)
    ensures forall x | x in ds :: at < x.at
    decreases |ds|
  {
    if ds != [] {
      LaterStill(ds[1..], ds[0].at, at);
      assert ds == [ds[0]] + ds[1..];
    }
  }

  // Every other timer keeps its deadline and its place, and a new one comes behind its equals.
  lemma {:induction false} InsertPlace(ds: seq<Due>, d: Due, from: int) returns (k: nat)
    requires Sorted(ds, from) && from <= d.at
    ensures k <= |ds| && Insert(ds, d) == ds[..k] + [d] + ds[k..]
    ensures (forall i | 0 <= i < k :: ds[i].at <= d.at) && (forall i | k <= i < |ds| :: d.at < ds[i].at)
    decreases |ds|
  {
    if ds == [] || ds[0].at > d.at {
      k := 0;
      LaterStill(ds, from, d.at);
    } else {
      var rest := ds[1..];
      var j := InsertPlace(rest, d, ds[0].at);
      k := j + 1;
      assert ds[..k] == [ds[0]] + rest[..j] && ds[k..] == rest[j..];
      assert forall i | 0 < i < |ds| :: ds[i] == rest[i - 1];
    }
  }

  lemma {:induction false} InsertSorted(ds: seq<Due>, d: Due, from: int)
    requires Sorted(ds, from) && from <= d.at
    ensures Sorted(Insert(ds, d), from)
    ensures multiset(Insert(ds, d)) == multiset(ds) + multiset{d}
    decreases |ds|
  {
    if ds == [] || ds[0].at > d.at {
      assert ([d] + ds)[1..] == ds;
    } else {
      var rest := ds[1..];
      InsertSorted(rest, d, ds[0].at);
      assert ds == [ds[0]] + rest;
      assert ([ds[0]] + Insert(rest, d))[1..] == Insert(rest, d);
    }
  }

  function FirstOf(ds: seq<Due>, h: int, arg: int): (k: nat)
    ensures k <= |ds|
  {
    if ds == [] || (ds[0].h == h && ds[0].arg == arg) then 0 else 1 + FirstOf(ds[1..], h, arg)
  }

  function WithoutAt(ds: seq<Due>, k: nat): seq<Due>
    requires k < |ds|
  {
    ds[..k] + ds[k + 1..]
  }

  lemma WithoutFirst(ds: seq<Due>)
    requires ds != []
    ensures WithoutAt(ds, 0) == ds[1..]
  {
  }

  lemma WithoutLater(ds: seq<Due>, j: nat)
    requires j + 1 < |ds|
    ensures WithoutAt(ds, j + 1) == [ds[0]] + WithoutAt(ds[1..], j)
  {
    var a, b := ds[1..][..j], ds[1..][j + 1..];
    assert ds[..j + 1] == [ds[0]] + a && ds[j + 2..] == b;
    assert [ds[0]] + (a + b) == [ds[0]] + a + b;
  }

  // Only the first match goes, and no other deadline changes.
  lemma {:induction false} RemovePlace(ds: seq<Due>, h: int, arg: int)
    ensures var k := FirstOf(ds, h, arg);
      && Remove(ds, h, arg) == (if k < |ds| then WithoutAt(ds, k) else ds)
      && (k < |ds| ==> ds[k].h == h && ds[k].arg == arg)
      && forall i | 0 <= i < k :: !(ds[i].h == h && ds[i].arg == arg)
    decreases |ds|
  {
    if ds == [] {
    } else if ds[0].h == h && ds[0].arg == arg {
      WithoutFirst(ds);
    } else {
      var j := FirstOf(ds[1..], h, arg);
      RemovePlace(ds[1..], h, arg);
      if j < |ds| - 1 {
        WithoutLater(ds, j);
      }
    }
  }
}
