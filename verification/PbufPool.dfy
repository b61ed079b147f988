// Allocating, referencing, chaining and freeing packet buffers (core/pbuf.c).
module PbufPool {
  import opened RefCounts

  // ----- a chain fresh from the allocator ----------------------------------------------------

  predicate Fresh(s: seq<Ref>, base: Pool) {
    s == [] || (s[0] !in base && s[0] !in s[1..] && Fresh(s[1..], base))
  }

  // `base` and the chain of the pbufs `s`, each referenced once.
  function Built(base: Pool, s: seq<Ref>): Pool {
    if s == [] then base else Built(base, s[1..])[s[0] := Node(if |s| > 1 then To(s[1]) else NULL, 1)]
  }

  lemma {:induction false} BuiltKeys(base: Pool, s: seq<Ref>)
    ensures Built(base, s).Keys == base.Keys + (set p | p in s)
    decreases |s|
  {
    if s != [] {
      BuiltKeys(base, s[1..]);
      assert s == [s[0]] + s[1..];
      assert forall p :: p in s <==> p == s[0] || p in s[1..];
      assert Built(base, s).Keys == Built(base, s[1..]).Keys + {s[0]};
    }
  }

  lemma {:induction false} BuiltFreed(base: Pool, s: seq<Ref>)
    requires Fresh(s, base) && s != []
    ensures s[0] in Built(base, s) && Freed(Built(base, s), s[0]) == base
    decreases |s|
  {
    var rest := Built(base, s[1..]);
    BuiltKeys(base, s[1..]);
    assert s[0] !in rest;
    assert Built(base, s) - {s[0]} == rest;
    if |s| > 1 {
      BuiltFreed(base, s[1..]);
      assert s[1] == s[1..][0];
    }
  }

  lemma {:induction false} BuiltLast(base: Pool, s: seq<Ref>)
    requires s != []
    ensures s[|s| - 1] in Built(base, s)
    decreases |s|
  {
    if |s| > 1 {
      BuiltLast(base, s[1..]);
      assert s[1..][|s| - 2] == s[|s| - 1];
    }
  }

  lemma {:induction false} BuiltLonger(base: Pool, s: seq<Ref>, q: Ref)
    requires Fresh(s + [q], base) && s != []
    ensures Built(base, s + [q]) ==
      (var pool, last := Built(base, s), s[|s| - 1];
       BuiltLast(base, s);
       pool[q := Node(NULL, 1)][last := pool[last].(next := To(q))])
    decreases |s|
  {
    var t := s + [q];
    BuiltLast(base, s);
    assert t[1..] == s[1..] + [q];
    if |s| == 1 {
      assert s[1..] == [] && t[1..] == [q] && [q][1..] == [];
      assert s[0] !in t[1..];
    } else {
      BuiltLonger(base, s[1..], q);
      BuiltLast(base, s[1..]);
      var last := s[|s| - 1];
      assert s[0] !in t[1..] && t[1..][|s| - 2] == last && t[1..][|s| - 1] == q;
      assert s[1..][|s| - 2] == last;
    }
  }

  lemma {:induction false} FreshAll(s: seq<Ref>, base: Pool)
    requires Fresh(s, base)
    ensures forall i | 0 <= i < |s| :: s[i] !in base
    decreases |s|
  {
    if s != [] {
      FreshAll(s[1..], base);
      assert forall i | 0 < i < |s| :: s[i] == s[1..][i - 1];
    }
  }

  lemma {:induction false} FreshPrefix(s: seq<Ref>, base: Pool, k: nat)
    requires Fresh(s, base) && k <= |s|
    ensures Fresh(s[..k], base) && forall i | k <= i < |s| :: s[i] !in base && s[i] !in s[..k]
    decreases k
  {
    if k > 0 {
      FreshPrefix(s[1..], base, k - 1);
      var p := s[..k];
      assert p[1..] == s[1..][..k - 1];
      forall x | x in p[1..] ensures x in s[1..] {
      }
      forall i | k <= i < |s| ensures s[i] !in base && s[i] !in p {
        assert s[i] == s[1..][i - 1];
        assert s[1..][i - 1] in s[1..];
      }
    } else {
      FreshAll(s, base);
    }
  }

  lemma NextFresh(supply: seq<Ref>, base: Pool, i: nat)
    requires Fresh(supply, base) && 0 < i < |supply|
    ensures var pool, r, q := Built(base, supply[..i]), supply[i - 1], supply[i];
      && r in pool && q !in pool && r != q
      && Built(base, supply[..i + 1]) == pool[q := Node(NULL, 1)][r := pool[r].(next := To(q))]
  {
    FreshPrefix(supply, base, i);
    FreshPrefix(supply, base, i + 1);
    BuiltKeys(base, supply[..i]);
    BuiltLast(base, supply[..i]);
    assert supply[..i + 1] == supply[..i] + [supply[i]];
    BuiltLonger(base, supply[..i], supply[i]);
  }

  lemma ByteStep(n: nat)
    ensures (n % 0x100 + 1) % 0x100 == (n + 1) % 0x100
  {
  }

  // What is left to free from a link on.
  function FreedFrom(pool: Pool, q: Link): Pool {
    if q == NULL || q.p !in pool then pool else Freed(pool, q.p)
  }

  function RunFrom(pool: Pool, q: Link): nat {
    if q == NULL || q.p !in pool then 0 else |HeadRun(pool, q.p)|
  }

  function Less(handles: multiset<Ref>, q: Link): multiset<Ref> {
    if q == NULL then handles else handles - multiset{q.p}
  }

  // The caller's handle is on p now, and n pbufs have been deallocated since it was on `link`.
  predicate Freeing(pool0: Pool, handles0: multiset<Ref>, link: Link, pool: Pool, handles: multiset<Ref>, p: Link,
                    n: nat)
  {
    && FreedFrom(pool, p) == FreedFrom(pool0, link)
    && Less(handles, p) == Less(handles0, link)
    && RunFrom(pool0, link) == n + RunFrom(pool, p)
  }

  lemma AllFreed(pool0: Pool, handles0: multiset<Ref>, p: Ref, pool: Pool, handles: multiset<Ref>, n: nat)
    requires Freeing(pool0, handles0, To(p), pool, handles, NULL, n) && p in pool0
    ensures pool == Freed(pool0, p) && handles == handles0 - multiset{p} && n == |HeadRun(pool0, p)|
  {
  }

  // One step, when p goes ...
  lemma LastDropped(pool: Pool, handles: multiset<Ref>, rank: map<Ref, nat>, p: Ref)
    requires Counted(pool, handles, rank) && p in handles && pool[p].ref == 1
    ensures var rest, held, q := pool - {p}, Handed(pool, handles, p), pool[p].next;
      && Counted(rest, held, rank) && (q.To? ==> q.p in held)
      && Freeing(pool, handles, To(p), rest, held, q, 1)
  {
    DropLast(pool, handles, rank, p);
    var q := pool[p].next;
    if q.To? {
      assert handles - multiset{p} + multiset{q.p} - multiset{q.p} == handles - multiset{p};
    }
  }

  // ... and when it does not.
  lemma OneDropped(pool: Pool, handles: multiset<Ref>, rank: map<Ref, nat>, p: Ref)
    requires Counted(pool, handles, rank) && p in handles && pool[p].ref > 1
    ensures var pool' := pool[p := pool[p].(ref := pool[p].ref - 1)];
      && Counted(pool', handles - multiset{p}, rank)
      && Freeing(pool, handles, To(p), pool', handles - multiset{p}, NULL, 0)
  {
    RefDropped(pool, handles, rank, p);
  }

  lemma CutFacts(pool: Pool, handles: multiset<Ref>, rank: map<Ref, nat>)
    requires Counted(pool, handles, rank)
    ensures forall x | x in pool :: pool[x].ref > 0
    ensures forall x | x in pool && pool[x].next.To? ::
      x in rank && pool[x].next.p in rank && rank[pool[x].next.p] < rank[x]
    ensures forall x | x in pool :: x in rank
  {
    forall x | x in pool ensures LinkOk(pool, rank, x) && CountOk(pool, handles, x) {
    }
  }

  // Freeing a chain does not touch what it does not lead to.
  lemma {:induction false} TailKept(pool: Pool, rank: map<Ref, nat>, q: Ref, p: Ref)
    requires p in pool && q in pool && q in rank && p in rank && rank[q] < rank[p]
    requires forall x | x in pool && pool[x].next.To? ::
      x in rank && pool[x].next.p in rank && rank[pool[x].next.p] < rank[x]
    ensures p in Freed(pool, q) && Freed(pool, q)[p] == pool[p]
    decreases pool.Keys
  {
    if pool[q].ref == 1 {
      var rest := pool - {q};
      if pool[q].next.To? && pool[q].next.p in rest {
        TailKept(rest, rank, pool[q].next.p, p);
      }
    }
  }

  // ----- the pool ----------------------------------------------------------------------------

  class PbufMemory {
    var pool: Pool

    // References from outside the pool, and ranks that show that no chain is a cycle.
    ghost var handles: multiset<Ref>
    ghost var rank: map<Ref, nat>

    ghost predicate Valid()
      reads this
    {
      Counted(pool, handles, rank)
    }

    constructor ()
      ensures Valid() && pool == map[] && handles == multiset{}
    {
      pool, handles, rank := map[], multiset{}, map[];
    }

    // pbuf_alloc of a single pbuf; `at` is what the allocator returned.
    method Alloc(at: Link) returns (p: Link)
      requires Valid() && (at.To? ==> at.p !in pool)
      modifies this
      ensures Valid() && p == at
      ensures pool == (if at == NULL then old(pool) else old(pool)[at.p := Node(NULL, 1)])
      ensures handles == (if at == NULL then old(handles) else old(handles) + multiset{at.p})
    {
      p := at;
      if p != NULL {
        Added(pool, handles, rank, p.p);
        pool := pool[p.p := Node(NULL, 1)];
        handles, rank := handles + multiset{p.p}, rank[p.p := 0];
      }
    }

    // pbuf_free on the last reference: p goes, and its pointer becomes the caller's handle ...
    method Deallocate(p: Ref) returns (q: Link)
      requires Valid() && p in handles && p in pool && pool[p].ref == 1
      modifies this`pool, this`handles
      ensures Valid() && (q.To? ==> q.p in handles) && pool.Keys < old(pool).Keys
      ensures Freeing(old(pool), old(handles), To(p), pool, handles, q, 1)
    {
      q := pool[p].next;
      LastDropped(pool, handles, rank, p);
      handles := Handed(pool, handles, p);
      pool := pool - {p};
    }

    // ... and on any other.
    method Decrement(p: Ref)
      requires Valid() && p in handles && p in pool && pool[p].ref > 1
      modifies this`pool, this`handles
      ensures Valid() && pool.Keys == old(pool).Keys
      ensures Freeing(old(pool), old(handles), To(p), pool, handles, NULL, 0)
    {
      OneDropped(pool, handles, rank, p);
      pool, handles := pool[p := pool[p].(ref := pool[p].ref - 1)], handles - multiset{p};
    }

    // One round of pbuf_free.
    method Drop(p: Ref) returns (gone: bool, q: Link)
      requires Valid() && p in handles
      modifies this`pool, this`handles
      ensures Valid() && (q.To? ==> gone && q.p in handles)
      ensures if gone then pool.Keys < old(pool).Keys else pool.Keys == old(pool).Keys
      ensures Freeing(old(pool), old(handles), To(p), pool, handles, q, if gone then 1 else 0)
    {
      assert CountOk(pool, handles, p);
      gone, q := pool[p].ref - 1 == 0, NULL;
      if gone {
        q := Deallocate(p);
      } else {
        Decrement(p);
      }
    }

    // The loop of pbuf_free.
    method FreeRun(link: Link) returns (count: nat, ghost freed: nat)
      requires Valid() && (link.To? ==> link.p in handles)
      modifies this`pool, this`handles
      ensures Valid() && Freeing(old(pool), old(handles), link, pool, handles, NULL, freed)
      ensures count == freed % 0x100
    {
      count, freed := 0, 0;
      var p := link;
      while p != NULL
        invariant Valid() && (p.To? ==> p.p in handles)
        invariant Freeing(old(pool), old(handles), link, pool, handles, p, freed)
        invariant count == freed % 0x100
        decreases pool.Keys, p != NULL
      {
        var gone;
        gone, p := Drop(p.p);
        if gone {
          ByteStep(freed);
          count, freed := (count + 1) % 0x100, freed + 1;
        }
      }
    }

    // pbuf_free, which counts in eight bits what it deallocates.
    method Free(link: Link) returns (count: nat)
      requires Valid() && (link.To? ==> link.p in handles)
      modifies this
      ensures Valid()
      ensures if link == NULL then pool == old(pool) && handles == old(handles) && count == 0
              else link.p in old(pool) && pool == Freed(old(pool), link.p) && handles == old(handles) - multiset{link.p}
                   && count == |HeadRun(old(pool), link.p)| % 0x100
      ensures rank == old(rank)
    {
      if link == NULL {
        return 0;
      }
      assert link.p in pool;
      ghost var freed;
      count, freed := FreeRun(link);
      AllFreed(old(pool), old(handles), link.p, pool, handles, freed);
    }

    // The chain that ends with r gets the new pbuf q.
    method Continue(r: Ref, q: Ref)
      requires Valid() && r in pool && pool[r].next == NULL && q !in pool
      modifies this
      ensures Valid() && handles == old(handles)
      ensures pool == old(pool)[q := Node(NULL, 1)][r := old(pool)[r].(next := To(q))]
    {
      ghost var held := handles;
      Added(pool, handles, rank, q);
      pool := pool[q := Node(NULL, 1)];
      handles, rank := handles + multiset{q}, rank[q := 0];
      rank := Linked(pool, handles, rank, r, q);
      pool := pool[r := pool[r].(next := To(q))];
      handles := handles - multiset{q};
      assert held + multiset{q} - multiset{q} == held;
    }

    // pbuf_alloc of a chain of n pbufs; `supply` is what the pool has left.
    method AllocChain(supply: seq<Ref>, n: nat) returns (p: Link)
      requires Valid() && 0 < n && Fresh(supply, pool)
      modifies this
      ensures Valid()
      ensures p == if n <= |supply| then To(supply[0]) else NULL
      ensures if n <= |supply|
              then pool == Built(old(pool), supply[..n]) && handles == old(handles) + multiset{supply[0]}
              else pool == old(pool) && handles == old(handles)
    {
      if supply == [] {
        return NULL;
      }
      ghost var base, held := pool, handles;
      p := Alloc(To(supply[0]));
      var r, i := supply[0], 1;
      assert supply[..1] == [supply[0]] && [supply[0]][1..] == [];
      while i < n
        invariant 1 <= i <= n && i <= |supply| && p == To(supply[0]) && r == supply[i - 1]
        invariant Valid() && pool == Built(base, supply[..i]) && handles == held + multiset{supply[0]}
        invariant r in pool && pool[r].next == NULL
      {
        if i == |supply| {
          FreshPrefix(supply, base, i);
          BuiltFreed(base, supply[..i]);
          var count := Free(p);
          return NULL;
        }
        NextFresh(supply, base, i);
        Continue(r, supply[i]);
        r, i := supply[i], i + 1;
      }
    }

    // pbuf_ref
    method AddRef(p: Link)
      requires Valid() && (p.To? ==> p.p in pool)
      modifies this
      ensures Valid() && rank == old(rank)
      ensures pool == (if p == NULL then old(pool)
                       else old(pool)[p.p := old(pool)[p.p].(ref := old(pool)[p.p].ref + 1)])
      ensures handles == (if p == NULL then old(handles) else old(handles) + multiset{p.p})
    {
      if p != NULL {
        RefAdded(pool, handles, rank, p.p);
        pool := pool[p.p := pool[p.p].(ref := pool[p.p].ref + 1)];
        handles := handles + multiset{p.p};
      }
    }

    // pbuf_cat: the caller's handle on t becomes the pointer of the last pbuf of h.
    method Cat(h: Link, t: Link)
      requires Valid()
      requires h.To? && t.To? ==> h.p in pool && t.p in handles && !Reaches(pool, rank, t.p, Last(pool, rank, h.p))
      modifies this
      ensures Valid()
      ensures if h == NULL || t == NULL then pool == old(pool) && handles == old(handles)
              else var last := old(Last(pool, rank, h.p));
                pool == old(pool)[last := old(pool)[last].(next := t)] && handles == old(handles) - multiset{t.p}
    {
      if h == NULL || t == NULL {
        return;
      }
      var p := h.p;
      assert LinkOk(pool, rank, p);
      while pool[p].next != NULL
        invariant p in pool && Valid() && LinkOk(pool, rank, p) && Last(pool, rank, p) == Last(pool, rank, h.p)
        decreases rank[p]
      {
        p := pool[p].next.p;
        assert LinkOk(pool, rank, p);
      }
      rank := Linked(pool, handles, rank, p, t.p);
      pool, handles := pool[p := pool[p].(next := t)], handles - multiset{t.p};
    }

    // pbuf_chain: the same, but the caller keeps its handle on t.
    method Chain(h: Ref, t: Ref)
      requires Valid() && h in pool && t in handles && !Reaches(pool, rank, t, Last(pool, rank, h))
      modifies this
      ensures Valid() && handles == old(handles)
      ensures var last := old(Last(pool, rank, h));
        pool == old(pool)[last := old(pool)[last].(next := To(t))][t := Node(old(pool)[t].next, old(pool)[t].ref + 1)]
    {
      ghost var held, last := handles, Last(pool, rank, h);
      assert t != last;
      Cat(To(h), To(t));
      AddRef(To(t));
      assert held - multiset{t} + multiset{t} == held;
    }

    // The pointer p->next is cleared; what it was becomes a handle.
    method Unlink(p: Ref) returns (q: Ref)
      requires Valid() && p in pool && pool[p].next.To?
      modifies this`pool, this`handles
      ensures Valid() && To(q) == old(pool)[p].next && q in pool && q != p
      ensures pool == old(pool)[p := old(pool)[p].(next := NULL)] && handles == old(handles) + multiset{q}
      ensures p in Freed(pool, q) && Freed(pool, q)[p] == pool[p]
      ensures |HeadRun(pool, q)| == 0 <==> q in Freed(pool, q)
    {
      Unlinked(pool, handles, rank, p);
      assert LinkOk(pool, rank, p);
      q := pool[p].next.p;
      pool, handles := pool[p := pool[p].(next := NULL)], handles + multiset{q};
      CutFacts(pool, handles, rank);
      TailKept(pool, rank, q, p);
      FreesHeadRun(pool, q);
    }

    // pbuf_dechain.  It takes the tail to be gone when the eight-bit count is not zero.
    method Dechain(p: Ref) returns (tail: Link)
      requires Valid() && p in pool
      modifies this
      ensures Valid() && handles == old(handles) && p in pool && pool[p].next == NULL
      ensures var q, cut := old(pool)[p].next, old(pool)[p := old(pool)[p].(next := NULL)];
        if q == NULL then pool == old(pool) && tail == NULL
        else
          && q.p in cut && pool == Freed(cut, q.p)
          && (tail == (if q.p in pool then q else NULL)
              <==> !(|HeadRun(cut, q.p)| > 0 && |HeadRun(cut, q.p)| % 0x100 == 0))
    {
      tail := NULL;
      if pool[p].next != NULL {
        ghost var held := handles;
        var q := Unlink(p);
        ghost var cut := pool;
        var gone := Free(To(q));
        assert held + multiset{q} - multiset{q} == held;
        if gone == 0 {
          tail := To(q);
        }
      }
    }

    // The end of pbuf_realloc: p is the last pbuf that stays.
    method CutAfter(p: Ref)
      requires Valid() && p in pool
      modifies this
      ensures Valid() && handles == old(handles) && p in pool && pool[p].next == NULL
      ensures var q, cut := old(pool)[p].next, old(pool)[p := old(pool)[p].(next := NULL)];
        if q == NULL then pool == old(pool) else q.p in cut && pool == Freed(cut, q.p)
    {
      var tail := Dechain(p);
    }
  }
}
