// The timer list of core/timers.c: relative times rewritten in place, and the expiry loop whose
// handlers change the list while it runs.
module Timers {
  import opened SeqNum
  import opened Deadlines

  const NO_HANDLER := 0

  // ----- the list after one change -----------------------------------------------------------

  // A new entry before index k, which takes its time from the entry there.
  function PutAt(list: seq<Timeo>, k: nat, t: Timeo): seq<Timeo>
    requires k <= |list| && (k < |list| ==> t.time <= list[k].time)
  {
    list[..k] + [t] + (if k < |list| then [list[k].(time := list[k].time - t.time)] + list[k + 1..] else [])
  }

  lemma PutFirst(b: seq<Timeo>, t: Timeo, c: int)
    requires b != [] ==> t.time < b[0].time
    ensures Abs(PutAt(b, 0, t), c) == Insert(Abs(b, c), Due(c + t.time, t.h, t.arg))
    ensures Total(PutAt(b, 0, t)) == if b == [] then t.time else Total(b)
  {
    var rest := if b == [] then [] else [b[0].(time := b[0].time - t.time)] + b[1..];
    var q := [t] + rest;
    assert q == PutAt(b, 0, t) && q[1..] == rest;
    if b != [] { assert rest[1..] == b[1..]; }
  }

  lemma PutShape(list: seq<Timeo>, k: nat, t: Timeo)
    requires k <= |list| && (k < |list| ==> t.time < list[k].time)
    ensures PutAt(list, k, t) == list[..k] + PutAt(list[k..], 0, t)
    ensures list == list[..k] + list[k..]
  {
    var b := list[k..];
    if k < |list| {
      assert b[1..] == list[k + 1..];
    }
  }

  lemma PutAbs(list: seq<Timeo>, k: nat, t: Timeo, clock: int)
    requires k <= |list| && (k < |list| ==> t.time < list[k].time)
    ensures var list' := PutAt(list, k, t);
      && Abs(list', clock) == Insert(Abs(list, clock), Due(clock + Total(list[..k]) + t.time, t.h, t.arg))
      && Total(list') == if k < |list| then Total(list) else Total(list) + t.time
  {
    var a, b := list[..k], list[k..];
    var c, list', b' := clock + Total(a), PutAt(list, k, t), PutAt(list[k..], 0, t);
    assert list == a + b && list' == a + b' by { PutShape(list, k, t); }
    assert Abs(list, clock) == Abs(a, clock) + Abs(b, c) && Total(list) == Total(a) + Total(b) by {
      AbsConcat(a, b, clock);
    }
    assert Abs(list', clock) == Abs(a, clock) + Abs(b', c) && Total(list') == Total(a) + Total(b') by {
      AbsConcat(a, b', clock);
    }
    PutFirst(b, t, c);
    AbsSorted(a, clock);
    InsertBehind(Abs(a, clock), Abs(b, c), Due(c + t.time, t.h, t.arg));
  }

  lemma TotalAt(list: seq<Timeo>, k: nat)
    requires k < |list|
    ensures Total(list[..k]) + list[k].time + Total(list[k + 1..]) == Total(list)
    ensures k + 1 < |list| ==> list[k].time + list[k + 1].time <= Total(list)
  {
    var b := list[k..];
    assert list == list[..k] + b && b[1..] == list[k + 1..];
    AbsConcat(list[..k], b, 0);
  }

  // Without the entry of index k, whose time goes to the one behind it.
  function TakeAt(list: seq<Timeo>, k: nat): seq<Timeo>
    requires k < |list| && Total(list) < MODULUS
  {
    TotalAt(list, k);
    list[..k] + (if k + 1 < |list| then [list[k + 1].(time := list[k + 1].time + list[k].time)] + list[k + 2..] else [])
  }

  lemma TakeFirst(b: seq<Timeo>, c: int)
    requires b != [] && Total(b) < MODULUS
    ensures Abs(TakeAt(b, 0), c) == Abs(b[1..], c + b[0].time)
    ensures Total(TakeAt(b, 0)) <= Total(b)
  {
    var rest := TakeAt(b, 0);
    if |b| > 1 { assert rest[1..] == b[1..][1..]; }
  }

  lemma {:induction false} AbsHandlers(list: seq<Timeo>, clock: int, h: int, arg: int)
    requires forall x | x in list :: !(x.h == h && x.arg == arg)
    ensures forall d | d in Abs(list, clock) :: !(d.h == h && d.arg == arg)
    decreases |list|
  {
    if list != [] {
      assert list[0] in list;
      AbsHandlers(list[1..], clock + list[0].time, h, arg);
    }
  }

  lemma TakeAbs(list: seq<Timeo>, k: nat, clock: int)
    requires k < |list| && Total(list) < MODULUS
    requires forall i | 0 <= i < k :: !(list[i].h == list[k].h && list[i].arg == list[k].arg)
    ensures Abs(TakeAt(list, k), clock) == Remove(Abs(list, clock), list[k].h, list[k].arg)
    ensures Total(TakeAt(list, k)) <= Total(list)
  {
    var a, b, h, arg := list[..k], list[k..], list[k].h, list[k].arg;
    var c := clock + Total(a);
    assert list == a + b;
    AbsConcat(a, b, clock);
    TakeFirst(b, c);
    assert TakeAt(list, k) == a + TakeAt(b, 0);
    AbsConcat(a, TakeAt(b, 0), clock);
    AbsHandlers(a, clock, h, arg);
    RemoveBehind(Abs(a, clock), Abs(b, c), h, arg);
  }

  // ----- the expiry loop ---------------------------------------------------------------------

  // How many timers are due this instant.
  function AtOnce(ds: seq<Due>, clock: int): nat {
    if ds == [] || ds[0].at != clock then 0 else 1 + AtOnce(ds[1..], clock)
  }

  lemma {:induction false} InsertAtOnce(ds: seq<Due>, d: Due, clock: int)
    requires Sorted(ds, clock) && clock < d.at
    ensures AtOnce(Insert(ds, d), clock) == AtOnce(ds, clock)
    decreases |ds|
  {
    if ds != [] && ds[0].at <= d.at {
      var q := [ds[0]] + Insert(ds[1..], d);
      assert q[1..] == Insert(ds[1..], d);
      if ds[0].at == clock { InsertAtOnce(ds[1..], d, clock); }
    }
  }

  lemma {:induction false} SortedAppend(ds: seq<Due>, d: Due, from: int)
    requires Sorted(ds, from) && from <= d.at && forall x | x in ds :: x.at <= d.at
    ensures Sorted(ds + [d], from)
    decreases |ds|
  {
    var q := ds + [d];
    if ds == [] {
      assert q == [d] && q[1..] == [];
    } else {
      assert q[0] == ds[0] && q[1..] == ds[1..] + [d] && ds[0] in ds;
      SortedAppend(ds[1..], d, ds[0].at);
    }
  }

  // The timer that is cancelled, if there is one.
  function Cancelled(ds: seq<Due>, h: int, arg: int): seq<Due> {
    var k := FirstOf(ds, h, arg);
    if k < |ds| then [ds[k]] else []
  }

  lemma CountsWithout(ds: seq<Due>, k: nat)
    requires k < |ds|
    ensures multiset(ds) == multiset(WithoutAt(ds, k)) + multiset([ds[k]])
  {
    assert ds == ds[..k] + [ds[k]] + ds[k + 1..];
  }

  lemma RemoveCounts(ds: seq<Due>, h: int, arg: int)
    ensures multiset(ds) == multiset(Remove(ds, h, arg)) + multiset(Cancelled(ds, h, arg))
    ensures Cancelled(ds, h, arg) == [] ==> Remove(ds, h, arg) == ds
  {
    var k := FirstOf(ds, h, arg);
    RemovePlace(ds, h, arg);
    if k < |ds| {
      CountsWithout(ds, k);
    }
  }

  // Cancelling makes no timer due that was not.
  lemma {:induction false} RemoveAtOnce(ds: seq<Due>, h: int, arg: int, clock: int)
    requires Sorted(ds, clock)
    ensures AtOnce(Remove(ds, h, arg), clock) <= AtOnce(ds, clock)
    decreases |ds|
  {
    if ds != [] && !(ds[0].h == h && ds[0].arg == arg) {
      var q := [ds[0]] + Remove(ds[1..], h, arg);
      assert q[1..] == Remove(ds[1..], h, arg);
      if ds[0].at == clock { RemoveAtOnce(ds[1..], h, arg, clock); }
    }
  }

  // From `before` to `after` timers were armed and cancelled, and nothing else.
  ghost predicate Changed(before: seq<Due>, armed: seq<Due>, cancelled: seq<Due>, after: seq<Due>) {
    && multiset(before) + multiset(armed) == multiset(after) + multiset(cancelled)
    && (armed == [] && cancelled == [] ==> after == before)
  }

  lemma BothGrow(a: multiset<Due>, b: multiset<Due>, c: multiset<Due>, e: multiset<Due>, d: multiset<Due>)
    requires a + b == c + e
    ensures a + (b + d) == (c + d) + e && a + (b + d) == c + (e + d)
  {
    assert a + (b + d) == (a + b) + d;
    assert (c + d) + e == (c + e) + d == c + (e + d);
  }

  lemma ChangedArm(before: seq<Due>, armed: seq<Due>, cancelled: seq<Due>, ds: seq<Due>, d: Due, clock: int)
    requires Changed(before, armed, cancelled, ds) && Sorted(ds, clock) && clock <= d.at
    ensures Changed(before, armed + [d], cancelled, Insert(ds, d))
  {
    InsertSorted(ds, d, clock);
    assert multiset(armed + [d]) == multiset(armed) + multiset{d};
    BothGrow(multiset(before), multiset(armed), multiset(ds), multiset(cancelled), multiset{d});
  }

  lemma ChangedCancel(before: seq<Due>, armed: seq<Due>, cancelled: seq<Due>, ds: seq<Due>, h: int, arg: int)
    requires Changed(before, armed, cancelled, ds)
    ensures Changed(before, armed, cancelled + Cancelled(ds, h, arg), Remove(ds, h, arg))
  {
    RemoveCounts(ds, h, arg);
    var rest, gone := multiset(Remove(ds, h, arg)), multiset(Cancelled(ds, h, arg));
    assert multiset(cancelled + Cancelled(ds, h, arg)) == multiset(cancelled) + gone;
    assert rest + (multiset(cancelled) + gone) == (rest + gone) + multiset(cancelled);
    if Cancelled(ds, h, arg) == [] { assert cancelled + [] == cancelled; }
  }

  // The same by handlers called at `clock`: every new deadline is later, so no more is due at once.
  ghost predicate Handled(before: seq<Due>, armed: seq<Due>, cancelled: seq<Due>, after: seq<Due>, clock: int) {
    && Changed(before, armed, cancelled, after) && (forall d | d in armed :: clock < d.at)
    && AtOnce(after, clock) <= AtOnce(before, clock)
  }

  lemma HandledArm(before: seq<Due>, armed: seq<Due>, cancelled: seq<Due>, ds: seq<Due>, d: Due, clock: int,
                   after: seq<Due>)
    requires Handled(before, armed, cancelled, ds, clock) && Sorted(ds, clock) && clock < d.at
    requires after == Insert(ds, d)
    ensures Handled(before, armed + [d], cancelled, after, clock)
  {
    ChangedArm(before, armed, cancelled, ds, d, clock);
    InsertAtOnce(ds, d, clock);
  }

  lemma HandledCancel(before: seq<Due>, armed: seq<Due>, cancelled: seq<Due>, ds: seq<Due>, h: int, arg: int,
                      clock: int)
    requires Handled(before, armed, cancelled, ds, clock) && Sorted(ds, clock)
    ensures Handled(before, armed, cancelled + Cancelled(ds, h, arg), Remove(ds, h, arg), clock)
  {
    ChangedCancel(before, armed, cancelled, ds, h, arg);
    RemoveAtOnce(ds, h, arg, clock);
  }

  // What the loop has done so far, from the deadlines `before` at `clock0` on.
  datatype History = History(before: seq<Due>, clock0: int, armed: seq<Due>, cancelled: seq<Due>, fired: seq<Due>)

  // The deadline met last.
  function LastMet(fired: seq<Due>, clock0: int): int {
    if fired == [] then clock0 else fired[|fired| - 1].at
  }

  // Nothing is lost or made up, it all fired in order, and `clock` is where the last one was due.
  ghost predicate Fired(s: History, after: seq<Due>, clock: int) {
    match s
    case History(before, clock0, armed, cancelled, fired) =>
      && clock0 <= clock == LastMet(fired, clock0)
      && multiset(before) + multiset(armed) == multiset(fired) + multiset(after) + multiset(cancelled)
      && (armed == [] && cancelled == [] ==> before == fired + after)
      && Sorted(fired, clock0) && (forall d | d in fired :: d.at <= clock)
      && (forall d | d in armed :: clock0 < d.at)
  }

  // All that was due by `horizon` has been met, and nothing of what is left.
  ghost predicate Met(s: History, before: seq<Due>, clock0: int, after: seq<Due>, clock: int, horizon: int) {
    match s
    case History(_, _, _, _, _) =>
      && Fired(s, after, clock) && s.before == before && s.clock0 == clock0
      && clock <= horizon && (forall d | d in after :: horizon < d.at)
  }

  lemma FiredNothing(ds: seq<Due>, clock: int)
    ensures Fired(History(ds, clock, [], [], []), ds, clock)
  {
  }

  lemma FiredOne(s: History, ds: seq<Due>, clock: int)
    requires Fired(s, ds, clock) && ds != [] && clock <= ds[0].at
    ensures Fired(s.(fired := s.fired + [ds[0]]), ds[1..], ds[0].at)
  {
    assert ds == [ds[0]] + ds[1..];
    SortedAppend(s.fired, ds[0], s.clock0);
    assert s.fired + ([ds[0]] + ds[1..]) == s.fired + [ds[0]] + ds[1..];
    assert multiset(s.fired + [ds[0]]) + multiset(ds[1..]) == multiset(s.fired) + multiset(ds);
  }

  lemma AllGrow(b: multiset<Due>, m: multiset<Due>, c: multiset<Due>, f: multiset<Due>, r: multiset<Due>,
                a: multiset<Due>, e: multiset<Due>, r': multiset<Due>)
    requires b + m == f + r + c && r + a == r' + e
    ensures b + (m + a) == f + r' + (c + e)
  {
    assert b + (m + a) == (b + m) + a;
    assert f + r + c + a == f + (r + a) + c;
    assert f + (r' + e) + c == f + r' + (c + e);
  }

  lemma FiredHandled(s: History, ds: seq<Due>, clock: int, a: seq<Due>, c: seq<Due>, ds': seq<Due>)
    requires Fired(s, ds, clock) && Handled(ds, a, c, ds', clock)
    ensures Fired(s.(armed := s.armed + a, cancelled := s.cancelled + c), ds', clock)
  {
    assert multiset(s.armed + a) == multiset(s.armed) + multiset(a);
    assert multiset(s.cancelled + c) == multiset(s.cancelled) + multiset(c);
    AllGrow(multiset(s.before), multiset(s.armed), multiset(s.cancelled), multiset(s.fired), multiset(ds),
            multiset(a), multiset(c), multiset(ds'));
  }

  // What a time stamp that moves to the present leaves of the time elapsed.
  lemma TimeLost(s: History, now: u32, last: u32, last': u32, clock': int)
    requires clock' == LastMet(s.fired, s.clock0) && last' == if s.fired == [] then last else now
    ensures var horizon := s.clock0 + Wrap(now - last);
      clock' + Wrap(now - last') == horizon <==> s.fired == [] || LastMet(s.fired, s.clock0) == horizon
  {
  }

  lemma TotalNext(list: seq<Timeo>, i: nat)
    requires i < |list|
    ensures Total(list[..i + 1]) == Total(list[..i]) + list[i].time
  {
    assert list[..i + 1] == list[..i] + [list[i]];
    AbsConcat(list[..i], [list[i]], 0);
    assert [list[i]][1..] == [];
  }

  lemma TotalWhole(list: seq<Timeo>)
    ensures Total(list[..|list|]) == Total(list)
  {
    assert list[..|list|] == list;
  }

  lemma {:induction false} RemoveNone(ds: seq<Due>, h: int, arg: int)
    requires forall x | x in ds :: !(x.h == h && x.arg == arg)
    ensures Remove(ds, h, arg) == ds
    decreases |ds|
  {
    if ds != [] {
      assert ds[0] in ds;
      RemoveNone(ds[1..], h, arg);
    }
  }

  // Of the timers that have fired, those that have a handler to be called.
  function Calls(fired: seq<Due>): seq<Due> {
    if fired == [] then [] else (if fired[0].h == NO_HANDLER then [] else [fired[0]]) + Calls(fired[1..])
  }

  lemma {:induction false} CallsMore(fired: seq<Due>, d: Due)
    ensures Calls(fired + [d]) == Calls(fired) + if d.h == NO_HANDLER then [] else [d]
    decreases |fired|
  {
    var q := fired + [d];
    if fired == [] {
      assert q == [d] && q[1..] == [];
    } else {
      CallsMore(fired[1..], d);
      assert q[1..] == fired[1..] + [d];
    }
  }

  class TimerList {
    var list: seq<Timeo>
    var lastTime: u32

    // The virtual time the list counts from, and every call of a handler, when it was due.
    ghost var clock: int
    ghost var called: seq<Due>

    ghost predicate Valid()
      reads this
    {
      Total(list) < MODULUS
    }

    ghost function Deadlines(): seq<Due>
      reads this
    {
      Abs(list, clock)
    }

    constructor (now: u32)
      ensures Valid() && list == [] && lastTime == now && called == []
    {
      list, lastTime, clock, called := [], now, 0, [];
    }

    // The walk to the place of a timer that is not the first.
    method PutBehind(t: Timeo)
      requires Valid() && list != [] && list[0].time <= t.time
      modifies this`list
      ensures Valid()
      ensures Deadlines() == Insert(old(Deadlines()), Due(clock + t.time, t.h, t.arg))
    {
      var i, timeout := 0, t;
      ghost var was := list;
      TotalNext(was, 0);
      timeout := timeout.(time := timeout.time - list[0].time);
      while i + 1 < |list| && list[i + 1].time <= timeout.time
        invariant i < |list| && list == was
        invariant timeout == t.(time := timeout.time) && timeout.time == t.time - Total(was[..i + 1])
      {
        i := i + 1;
        TotalNext(was, i);
        timeout := timeout.(time := timeout.time - list[i].time);
      }
      PutAbs(was, i + 1, timeout, clock);
      TotalWhole(was);
      list := PutAt(list, i + 1, timeout);
    }

    // sys_timeout; `room` is whether the pool has an entry left.
    method Timeout(msecs: u32, h: int, arg: int, room: bool)
      requires Valid()
      modifies this`list
      ensures Valid()
      ensures Deadlines() == if room then Insert(old(Deadlines()), Due(clock + msecs, h, arg)) else old(Deadlines())
    {
      if !room {
        return;
      }
      var timeout := Timeo(msecs, h, arg);
      if list == [] {
        PutFirst(list, timeout, clock);
        assert PutAt(list, 0, timeout) == [timeout];
        list := [timeout];
        return;
      }
      if list[0].time > msecs {
        PutFirst(list, timeout, clock);
        assert PutAt(list, 0, timeout) == [timeout] + ([list[0].(time := list[0].time - msecs)] + list[1..]);
        list := [timeout] + ([list[0].(time := list[0].time - msecs)] + list[1..]);
      } else {
        PutBehind(timeout);
      }
    }

    // sys_untimeout
    method Untimeout(h: int, arg: int)
      requires Valid()
      modifies this`list
      ensures Valid()
      ensures Deadlines() == Remove(old(Deadlines()), h, arg)
    {
      var i := 0;
      while i < |list|
        invariant i <= |list| && list == old(list)
        invariant forall j | 0 <= j < i :: !(list[j].h == h && list[j].arg == arg)
      {
        if list[i].h == h && list[i].arg == arg {
          TakeAbs(list, i, clock);
          TotalAt(list, i);
          var rest := list[i + 1..];
          if rest != [] {
            rest := [rest[0].(time := rest[0].time + list[i].time)] + rest[1..];
          }
          assert list[..i] + rest == TakeAt(list, i);
          list := list[..i] + rest;
          return;
        }
        i := i + 1;
      }
      AbsHandlers(list, clock, h, arg);
      RemoveNone(Deadlines(), h, arg);
    }

    // A handler cancels a timer, if there is one to cancel.
    method Cancel(ghost before: seq<Due>, ghost armed: seq<Due>, ghost cancelled: seq<Due>)
      returns (ghost cancelled': seq<Due>)
      requires Valid() && Handled(before, armed, cancelled, Deadlines(), clock)
      modifies this`list
      ensures Valid() && Handled(before, armed, cancelled', Deadlines(), clock)
    {
      var h: int, arg: int := *, *;
      AbsSorted(list, clock);
      HandledCancel(before, armed, cancelled, Deadlines(), h, arg, clock);
      cancelled' := cancelled + Cancelled(Deadlines(), h, arg);
      Untimeout(h, arg);
    }

    // It arms one, with a positive delay.
    method Arm(ghost before: seq<Due>, ghost armed: seq<Due>, ghost cancelled: seq<Due>)
      returns (ghost armed': seq<Due>)
      requires Valid() && Handled(before, armed, cancelled, Deadlines(), clock)
      modifies this`list
      ensures Valid() && Handled(before, armed', cancelled, Deadlines(), clock)
    {
      var msecs: u32, h: int, arg: int, room: bool := *, *, *, *;
      armed' := armed;
      if msecs > 0 {
        ghost var ds, d := Deadlines(), Due(clock + msecs, h, arg);
        AbsSorted(list, clock);
        Timeout(msecs, h, arg, room);
        if room {
          HandledArm(before, armed, cancelled, ds, d, clock, Deadlines());
          armed' := armed + [d];
        }
      }
    }

    // A call of a handler, which may do either as often as it likes.
    method CallHandler(h: int, arg: int) returns (ghost armed: seq<Due>, ghost cancelled: seq<Due>)
      requires Valid()
      modifies this`list, this`called
      ensures Valid() && Handled(old(Deadlines()), armed, cancelled, Deadlines(), clock)
      ensures called == old(called) + [Due(clock, h, arg)]
    {
      armed, cancelled, called := [], [], called + [Due(clock, h, arg)];
      var left: nat := *;
      while left > 0
        invariant Valid() && Handled(old(Deadlines()), armed, cancelled, Deadlines(), clock)
        invariant called == old(called) + [Due(clock, h, arg)]
      {
        var arms: bool := *;
        if arms {
          armed := Arm(old(Deadlines()), armed, cancelled);
        } else {
          cancelled := Cancel(old(Deadlines()), armed, cancelled);
        }
        left := left - 1;
      }
    }

    // The first timer expires: `left` of the elapsed time is left.
    method FireFirst(diff: u32, now: u32) returns (left: u32, ghost armed: seq<Due>, ghost cancelled: seq<Due>)
      requires Valid() && list != [] && list[0].time <= diff
      modifies this
      ensures Valid() && lastTime == now
      ensures left == diff - old(list[0].time) && clock == old(Deadlines())[0].at == old(clock) + old(list[0].time)
      ensures Handled(old(Deadlines())[1..], armed, cancelled, Deadlines(), clock)
      ensures var d := old(Deadlines())[0]; called == old(called) + if d.h == NO_HANDLER then [] else [d]
    {
      ghost var ds := Deadlines();
      lastTime := now;
      var timeout := list[0];
      left := diff - timeout.time;
      list, clock := list[1..], clock + timeout.time;
      assert ds[0] == Due(clock, timeout.h, timeout.arg) && ds[1..] == Deadlines();
      armed, cancelled := [], [];
      if timeout.h != NO_HANDLER {
        armed, cancelled := CallHandler(timeout.h, timeout.arg);
      }
    }

    // The first timer expires, on top of what the loop has done already.
    method Expire(diff: u32, now: u32, ghost s: History, ghost log: seq<Due>) returns (left: u32, ghost s': History)
      requires Valid() && list != [] && list[0].time <= diff && Fired(s, Deadlines(), clock)
      requires called == log + Calls(s.fired)
      modifies this
      ensures Valid() && lastTime == now && clock + left == old(clock) + diff
      ensures Fired(s', Deadlines(), clock) && s'.before == s.before && s'.clock0 == s.clock0
      ensures s'.fired != [] && called == log + Calls(s'.fired)
      ensures left < diff || (left == diff && AtOnce(Deadlines(), clock) < AtOnce(old(Deadlines()), old(clock)))
    {
      ghost var ds := Deadlines();
      AbsSorted(list, clock);
      FiredOne(s, ds, clock);
      ghost var armed, cancelled;
      left, armed, cancelled := FireFirst(diff, now);
      ghost var one := s.(fired := s.fired + [ds[0]]);
      CallsMore(s.fired, ds[0]);
      FiredHandled(one, ds[1..], clock, armed, cancelled, Deadlines());
      s' := one.(armed := one.armed + armed, cancelled := one.cancelled + cancelled);
    }

    // The loop, when `elapsed` has gone by since the time stamp.
    method ExpireAll(elapsed: u32, now: u32) returns (ghost s: History)
      requires Valid()
      modifies this
      ensures Valid() && Met(s, old(Deadlines()), old(clock), Deadlines(), clock, old(clock) + elapsed)
      ensures lastTime == if s.fired == [] then old(lastTime) else now
      ensures called == old(called) + Calls(s.fired)
    {
      var diff := elapsed;
      var hadOne := true;
      s := History(Deadlines(), clock, [], [], []);
      FiredNothing(Deadlines(), clock);
      ghost var horizon := clock + elapsed;
      while hadOne
        invariant Valid() && clock + diff == horizon
        invariant Fired(s, Deadlines(), clock) && s.before == old(Deadlines()) && s.clock0 == old(clock)
        invariant !hadOne ==> list == [] || list[0].time > diff
        invariant called == old(called) + Calls(s.fired)
        invariant lastTime == if s.fired == [] then old(lastTime) else now
        decreases diff, AtOnce(Deadlines(), clock), hadOne
      {
        hadOne := false;
        if list != [] && list[0].time <= diff {
          hadOne := true;
          diff, s := Expire(diff, now, s, old(called));
        }
      }
      AbsSorted(list, clock);
      LaterStill(Deadlines(), clock, horizon);
    }

    // The same when no timer is listed.
    method ExpireNone(elapsed: u32) returns (ghost s: History)
      requires Valid() && list == []
      ensures Met(s, Deadlines(), clock, Deadlines(), clock, clock + elapsed)
      ensures s.fired == [] && called == called + Calls(s.fired)
    {
      s := History(Deadlines(), clock, [], [], []);
      FiredNothing(Deadlines(), clock);
    }

    // sys_check_timeouts, when sys_now() is `now`.  The time stamp moves to the present when anything
    // fires, and what was left of the elapsed time by then is gone: unless the last deadline met is
    // the present itself, `clock` falls behind.
    method CheckTimeouts(now: u32) returns (ghost s: History)
      requires Valid()
      modifies this
      ensures var horizon := old(clock) + Wrap(now - old(lastTime));
        && Valid() && Met(s, old(Deadlines()), old(clock), Deadlines(), clock, horizon)
        && (clock + Wrap(now - lastTime) == horizon <==> s.fired == [] || LastMet(s.fired, old(clock)) == horizon)
      ensures lastTime == if s.fired == [] then old(lastTime) else now
      ensures called == old(called) + Calls(s.fired)
    {
      if list == [] {
        s := ExpireNone(Wrap(now - lastTime));
      } else {
        s := ExpireAll(Wrap(now - lastTime), now);
      }
      TimeLost(s, now, old(lastTime), lastTime, clock);
    }
  }
}
