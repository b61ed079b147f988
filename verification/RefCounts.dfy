// Reference counts of packet buffers (core/pbuf.c): what makes a pool of linked pbufs consistent, and
// what dropping one reference does to it.
module RefCounts {
  datatype Ref = Ref(address: nat)
  datatype Link = NULL | To(p: Ref)

  // struct pbuf, as far as reference counting is concerned
  datatype Node = Node(next: Link, ref: nat)

  type Pool = map<Ref, Node>

  // The live pbufs that point to p.
  function Preds(pool: Pool, p: Ref): set<Ref> {
    set q | q in pool && pool[q].next == To(p)
  }

  // The pointer of a pbuf does not dangle, and leads to one of a lower rank.
  predicate LinkOk(pool: Pool, rank: map<Ref, nat>, p: Ref)
    requires p in pool
  {
    p in rank && (pool[p].next.To? ==>
      var q := pool[p].next.p; q in pool && q in rank && rank[q] < rank[p])
  }

  ghost predicate Closed(pool: Pool, rank: map<Ref, nat>) {
    forall p {:trigger LinkOk(pool, rank, p)} | p in pool :: LinkOk(pool, rank, p)
  }

  // A pbuf counts the handles on it outside the pool and the live pbufs that point to it.
  predicate CountOk(pool: Pool, handles: multiset<Ref>, p: Ref)
    requires p in pool
  {
    0 < pool[p].ref == handles[p] + |Preds(pool, p)|
  }

  ghost predicate Counted(pool: Pool, handles: multiset<Ref>, rank: map<Ref, nat>) {
    && Closed(pool, rank)
    && (forall p | p in handles :: p in pool)
    && (forall p {:trigger CountOk(pool, handles, p)} | p in pool :: CountOk(pool, handles, p))
  }

  // ----- what consistency means --------------------------------------------------------------

  predicate Path(pool: Pool, ps: seq<Ref>) {
    ps != [] && ps[0] in pool && (|ps| == 1 || (pool[ps[0]].next == To(ps[1]) && Path(pool, ps[1..])))
  }

  // The pbuf n pointers behind.
  function Walk(pool: Pool, p: Link, n: nat): Link
    decreases n
  {
    if n == 0 || p == NULL || p.p !in pool then p else Walk(pool, pool[p.p].next, n - 1)
  }

  // Nothing that a live pbuf, and so a handle, leads to has been freed; and every chain ends.
  lemma {:induction false} ReachableIsLive(pool: Pool, rank: map<Ref, nat>, p: Ref, n: nat)
    requires Closed(pool, rank) && p in pool
    ensures var q := Walk(pool, To(p), n);
      && (q.To? ==> q.p in pool)
      && p in rank && (n > rank[p] ==> q == NULL)
    decreases n
  {
    assert LinkOk(pool, rank, p);
    if n > 0 && pool[p].next.To? {
      ReachableIsLive(pool, rank, pool[p].next.p, n - 1);
    }
  }

  lemma {:induction false} PathExtends(pool: Pool, ps: seq<Ref>, p: Ref)
    requires Path(pool, ps) && p in pool && ps[|ps| - 1] in pool && pool[ps[|ps| - 1]].next == To(p)
    ensures Path(pool, ps + [p])
    decreases |ps|
  {
    var r := ps + [p];
    assert r[1..] == ps[1..] + [p];
    if |ps| == 1 {
      assert [p][1..] == [];
    } else {
      PathExtends(pool, ps[1..], p);
    }
  }

  // Every live pbuf is held: some handle leads to it.
  lemma {:induction false} LiveIsHeld(pool: Pool, handles: multiset<Ref>, rank: map<Ref, nat>, p: Ref, top: nat)
    returns (ps: seq<Ref>)
    requires Counted(pool, handles, rank) && p in pool && forall q | q in pool :: q in rank && rank[q] <= top
    ensures Path(pool, ps) && ps[0] in handles && ps[|ps| - 1] == p
    decreases top - rank[p]
  {
    assert CountOk(pool, handles, p);
    if p in handles {
      ps := [p];
    } else {
      assert Preds(pool, p) != {};
      var q :| q in Preds(pool, p);
      assert LinkOk(pool, rank, q);
      var front := LiveIsHeld(pool, handles, rank, q, top);
      PathExtends(pool, front, p);
      ps := front + [p];
    }
  }

  lemma {:induction false} Highest(pool: Pool, rank: map<Ref, nat>) returns (top: nat)
    requires forall q | q in pool :: q in rank
    ensures forall q | q in pool :: rank[q] <= top
    decreases |pool|
  {
    if pool.Keys == {} {
      top := 0;
    } else {
      var p :| p in pool;
      var t := Highest(pool - {p}, rank);
      top := if rank[p] < t then t else rank[p];
      assert forall q | q in pool :: q == p || q in pool - {p};
    }
  }

  // When the last handle is gone nothing is left.
  lemma NothingLeaks(pool: Pool, handles: multiset<Ref>, rank: map<Ref, nat>)
    requires Counted(pool, handles, rank) && handles == multiset{}
    ensures pool == map[]
  {
    if p :| p in pool {
      assert forall q | q in pool :: LinkOk(pool, rank, q);
      var top := Highest(pool, rank);
      var ps := LiveIsHeld(pool, handles, rank, p, top);
    }
  }

  // ----- dropping a reference ----------------------------------------------------------------

  // pbuf_free
  function Freed(pool: Pool, p: Ref): Pool
    requires p in pool
    decreases pool.Keys
  {
    if pool[p].ref != 1 then pool[p := pool[p].(ref := if pool[p].ref == 0 then 0 else pool[p].ref - 1)]
    else
      var rest := pool - {p};
      if pool[p].next.To? && pool[p].next.p in rest then Freed(rest, pool[p].next.p) else rest
  }

  // The pbufs from p on that are referenced once only.
  function HeadRun(pool: Pool, p: Ref): (r: seq<Ref>)
    requires p in pool
    ensures forall q | q in r :: q in pool && pool[q].ref == 1
    decreases pool.Keys
  {
    if pool[p].ref != 1 then []
    else
      var rest := pool - {p};
      [p] + if pool[p].next.To? && pool[p].next.p in rest then HeadRun(rest, pool[p].next.p) else []
  }

  // Where the run ends: at a pbuf that is referenced otherwise too, or with the chain.
  function Survivor(pool: Pool, p: Ref): Link
    requires p in pool
    decreases pool.Keys
  {
    if pool[p].ref != 1 then To(p)
    else
      var rest := pool - {p};
      if pool[p].next.To? && pool[p].next.p in rest then Survivor(rest, pool[p].next.p) else NULL
  }

  // Exactly the run of pbufs at the head that nothing else refers to is deallocated, the pbuf
  // behind it loses one reference, and nothing else changes.
  lemma {:induction false} FreesHeadRun(pool: Pool, p: Ref)
    requires p in pool && forall q | q in pool :: pool[q].ref > 0
    ensures var r, s, f := HeadRun(pool, p), Survivor(pool, p), Freed(pool, p);
      && (forall q :: q in f <==> q in pool && q !in r)
      && (s.To? ==> s.p in f && s.p !in r && f[s.p] == pool[s.p].(ref := pool[s.p].ref - 1) && f[s.p].ref > 0)
      && (forall q | q in f && s != To(q) :: f[q] == pool[q])
    decreases pool.Keys
  {
    if pool[p].ref == 1 {
      var rest := pool - {p};
      if pool[p].next.To? && pool[p].next.p in rest {
        FreesHeadRun(rest, pool[p].next.p);
      }
    }
  }

  // One step of the loop: the handle on p moves to the pbuf behind when p goes.
  function Handed(pool: Pool, handles: multiset<Ref>, p: Ref): multiset<Ref>
    requires p in pool
  {
    if pool[p].ref == 1 && pool[p].next.To? then handles - multiset{p} + multiset{pool[p].next.p}
    else handles - multiset{p}
  }

  lemma PredsWithout(pool: Pool, p: Ref, q: Ref)
    ensures Preds(pool - {p}, q) == Preds(pool, q) - {p}
    ensures p in pool ==> |Preds(pool - {p}, q)| == |Preds(pool, q)| - if pool[p].next == To(q) then 1 else 0
  {
    assert Preds(pool - {p}, q) == Preds(pool, q) - {p};
  }

  lemma NoPreds(pool: Pool, p: Ref, q: Ref)
    requires q in pool && pool[q].next == To(p)
    ensures |Preds(pool, p)| > 0
  {
    assert q in Preds(pool, p);
  }

  lemma DropLast(pool: Pool, handles: multiset<Ref>, rank: map<Ref, nat>, p: Ref)
    requires Counted(pool, handles, rank) && p in handles && pool[p].ref == 1
    ensures Counted(pool - {p}, Handed(pool, handles, p), rank)
    ensures pool[p].next.To? ==> pool[p].next.p in pool - {p}
  {
    var rest, h := pool - {p}, Handed(pool, handles, p);
    assert CountOk(pool, handles, p) && LinkOk(pool, rank, p);
    forall q | q in rest ensures CountOk(rest, h, q) {
      assert CountOk(pool, handles, q);
      PredsWithout(pool, p, q);
    }
    forall q | q in rest ensures LinkOk(rest, rank, q) {
      assert LinkOk(pool, rank, q);
      if rest[q].next == To(p) { NoPreds(pool, p, q); }
    }
    assert forall q | q in h :: q in rest;
  }

  // ----- other changes -----------------------------------------------------------------------

  lemma PredsSame(pool: Pool, pool': Pool, q: Ref)
    requires pool.Keys == pool'.Keys && forall x | x in pool :: pool'[x].next == pool[x].next
    ensures Preds(pool', q) == Preds(pool, q)
  {
  }

  lemma SizeWithout(s: set<Ref>, p: Ref)
    ensures |s| == |s - {p}| + if p in s then 1 else 0
  {
  }

  lemma PredsMoved(pool: Pool, p: Ref, next: Link, q: Ref)
    requires p in pool
    ensures var pool' := pool[p := pool[p].(next := next)];
      |Preds(pool', q)| + (if pool[p].next == To(q) then 1 else 0)
      == |Preds(pool, q)| + (if next == To(q) then 1 else 0)
  {
    var pool' := pool[p := pool[p].(next := next)];
    var s, s' := Preds(pool, q), Preds(pool', q);
    assert s' - {p} == s - {p};
    SizeWithout(s, p);
    SizeWithout(s', p);
  }

  lemma SameLinks(pool: Pool, pool': Pool, rank: map<Ref, nat>)
    requires pool.Keys == pool'.Keys && (forall x | x in pool :: pool'[x].next == pool[x].next) && Closed(pool, rank)
    ensures Closed(pool', rank)
  {
    forall q | q in pool' ensures LinkOk(pool', rank, q) {
      assert LinkOk(pool, rank, q);
    }
  }

  // One more handle on a pbuf.
  lemma RefAdded(pool: Pool, handles: multiset<Ref>, rank: map<Ref, nat>, p: Ref)
    requires Counted(pool, handles, rank) && p in pool
    ensures Counted(pool[p := pool[p].(ref := pool[p].ref + 1)], handles + multiset{p}, rank)
  {
    var pool', h := pool[p := pool[p].(ref := pool[p].ref + 1)], handles + multiset{p};
    SameLinks(pool, pool', rank);
    forall q | q in pool' ensures CountOk(pool', h, q) {
      assert CountOk(pool, handles, q);
      PredsSame(pool, pool', q);
    }
  }

  // One handle less on a pbuf that is referenced otherwise too.
  lemma RefDropped(pool: Pool, handles: multiset<Ref>, rank: map<Ref, nat>, p: Ref)
    requires Counted(pool, handles, rank) && p in handles && pool[p].ref > 1
    ensures Counted(pool[p := pool[p].(ref := pool[p].ref - 1)], handles - multiset{p}, rank)
  {
    var pool', h := pool[p := pool[p].(ref := pool[p].ref - 1)], handles - multiset{p};
    SameLinks(pool, pool', rank);
    forall q | q in pool' ensures CountOk(pool', h, q) {
      assert CountOk(pool, handles, q);
      PredsSame(pool, pool', q);
    }
  }

  // A new pbuf with one handle on it.
  lemma Added(pool: Pool, handles: multiset<Ref>, rank: map<Ref, nat>, p: Ref)
    requires Counted(pool, handles, rank) && p !in pool
    ensures Counted(pool[p := Node(NULL, 1)], handles + multiset{p}, rank[p := 0])
  {
    var pool', h, rank' := pool[p := Node(NULL, 1)], handles + multiset{p}, rank[p := 0];
    forall q | q in pool' ensures LinkOk(pool', rank', q) && pool'[q].next != To(p) {
      if q != p { assert LinkOk(pool, rank, q); }
    }
    assert Preds(pool', p) == {};
    forall q | q in pool' ensures CountOk(pool', h, q) {
      if q != p {
        assert CountOk(pool, handles, q);
        assert Preds(pool', q) == Preds(pool, q);
      }
    }
  }

  // The pointer p->next turns into a handle.
  lemma Unlinked(pool: Pool, handles: multiset<Ref>, rank: map<Ref, nat>, p: Ref)
    requires Counted(pool, handles, rank) && p in pool && pool[p].next.To?
    ensures pool[p].next.p in pool && pool[p].next.p != p
    ensures Counted(pool[p := pool[p].(next := NULL)], handles + multiset{pool[p].next.p}, rank)
  {
    var pool', h := pool[p := pool[p].(next := NULL)], handles + multiset{pool[p].next.p};
    assert LinkOk(pool, rank, p);
    forall q | q in pool' ensures LinkOk(pool', rank, q) && CountOk(pool', h, q) {
      assert LinkOk(pool, rank, q) && CountOk(pool, handles, q);
      PredsMoved(pool, p, NULL, q);
    }
  }

  // Whether following pointers from x comes to y.
  ghost predicate Reaches(pool: Pool, rank: map<Ref, nat>, x: Ref, y: Ref)
    requires Closed(pool, rank) && x in pool
    decreases assert LinkOk(pool, rank, x); rank[x]
  {
    assert LinkOk(pool, rank, x);
    x == y || (pool[x].next.To? && Reaches(pool, rank, pool[x].next.p, y))
  }

  ghost function RaisedRank(pool: Pool, rank: map<Ref, nat>, last: Ref, top: nat, x: Ref): nat
    requires Closed(pool, rank) && x in pool
  {
    assert LinkOk(pool, rank, x);
    if Reaches(pool, rank, x, last) then rank[x] + top + 1 else rank[x]
  }

  // Ranks for a chain that is to be continued at `last`.
  ghost function Raised(pool: Pool, rank: map<Ref, nat>, last: Ref, top: nat): map<Ref, nat>
    requires Closed(pool, rank)
  {
    map x | x in pool :: RaisedRank(pool, rank, last, top, x)
  }

  lemma RaisedClosed(pool: Pool, rank: map<Ref, nat>, last: Ref, t: Ref, top: nat)
    requires Closed(pool, rank) && last in pool && t in pool && !Reaches(pool, rank, t, last)
    requires forall q | q in pool :: q in rank && rank[q] <= top
    ensures Closed(pool[last := pool[last].(next := To(t))], Raised(pool, rank, last, top))
  {
    var pool', rank' := pool[last := pool[last].(next := To(t))], Raised(pool, rank, last, top);
    forall q | q in pool' ensures LinkOk(pool', rank', q) {
      assert LinkOk(pool, rank, q);
    }
  }

  // A handle on t turns into the pointer last->next.
  lemma Linked(pool: Pool, handles: multiset<Ref>, rank: map<Ref, nat>, last: Ref, t: Ref)
    returns (rank': map<Ref, nat>)
    requires Counted(pool, handles, rank) && last in pool && pool[last].next == NULL && t in handles
    requires !Reaches(pool, rank, t, last)
    ensures Counted(pool[last := pool[last].(next := To(t))], handles - multiset{t}, rank')
  {
    assert forall q | q in pool :: LinkOk(pool, rank, q);
    var top := Highest(pool, rank);
    rank' := Raised(pool, rank, last, top);
    RaisedClosed(pool, rank, last, t, top);
    var pool', h := pool[last := pool[last].(next := To(t))], handles - multiset{t};
    forall q | q in pool' ensures CountOk(pool', h, q) {
      assert CountOk(pool, handles, q);
      PredsMoved(pool, last, To(t), q);
    }
  }

  // The last pbuf of a chain.
  ghost function Last(pool: Pool, rank: map<Ref, nat>, p: Ref): (q: Ref)
    requires Closed(pool, rank) && p in pool
    ensures q in pool && pool[q].next == NULL
    decreases assert LinkOk(pool, rank, p); rank[p]
  {
    assert LinkOk(pool, rank, p);
    if pool[p].next == NULL then p else Last(pool, rank, pool[p].next.p)
  }
}
