// The struct mem headers of the heap, keyed by their offset, as a doubly linked list of blocks.
module HeapLinks {
  import opened HeapBlocks
  import opened HeapRuns

  datatype Hdr = Hdr(next: nat, prev: nat, used: bool)

  // Each block's header names the next block and the one before it; `prev` comes before the first.
  predicate Linked(hdr: map<nat, Hdr>, bs: seq<Block>, prev: nat) {
    bs == [] || (bs[0].at in hdr && hdr[bs[0].at] == Hdr(bs[0].end, prev, bs[0].used) && Linked(hdr, bs[1..], bs[0].at))
  }

  function LastAt(bs: seq<Block>, prev: nat): nat {
    if bs == [] then prev else bs[|bs| - 1].at
  }

  lemma {:induction false} LinkedConcat(hdr: map<nat, Hdr>, a: seq<Block>, b: seq<Block>, prev: nat)
    ensures Linked(hdr, a + b, prev) <==> Linked(hdr, a, prev) && Linked(hdr, b, LastAt(a, prev))
    decreases |a|
  {
    var q := a + b;
    if a == [] {
      assert q == b;
    } else {
      assert q[0] == a[0] && q[1..] == a[1..] + b;
      LinkedConcat(hdr, a[1..], b, a[0].at);
      assert LastAt(a[1..], a[0].at) == LastAt(a, prev);
    }
  }

  lemma LinkedAround(hdr: map<nat, Hdr>, a: seq<Block>, mid: seq<Block>, b: seq<Block>)
    requires mid != []
    ensures Linked(hdr, a + mid + b, 0)
       <==> Linked(hdr, a, 0) && Linked(hdr, mid, LastAt(a, 0)) && Linked(hdr, b, mid[|mid| - 1].at)
  {
    LinkedConcat(hdr, a + mid, b, 0);
    LinkedConcat(hdr, a, mid, 0);
  }

  // Headers outside a stretch of the heap do not matter to it.
  lemma {:induction false} LinkedFrame(hdr: map<nat, Hdr>, hdr': map<nat, Hdr>, bs: seq<Block>, prev: nat, from: nat,
                                       to: nat)
    requires Linked(hdr, bs, prev) && Tiles(bs, from, to)
    requires forall k | from <= k < to && k in hdr :: k in hdr' && hdr'[k] == hdr[k]
    ensures Linked(hdr', bs, prev)
    decreases |bs|
  {
    if bs != [] {
      Within(bs[1..], bs[0].end, to);
      LinkedFrame(hdr, hdr', bs[1..], bs[0].at, bs[0].end, to);
    }
  }

  // The first block of a stretch gets another predecessor.
  lemma LinkedPrev(hdr: map<nat, Hdr>, hdr': map<nat, Hdr>, bs: seq<Block>, prev: nat, prev': nat, from: nat)
    requires Linked(hdr, bs, prev) && Tiles(bs, from, END)
    requires bs != [] ==> from in hdr' && hdr'[from] == hdr[from].(prev := prev')
    requires forall k | from < k < END && k in hdr :: k in hdr' && hdr'[k] == hdr[k]
    ensures Linked(hdr', bs, prev')
  {
    if bs != [] {
      LinkedFrame(hdr, hdr', bs[1..], bs[0].at, bs[0].end, END);
    }
  }

  function At(bs: seq<Block>, k: nat): nat
    requires k <= |bs|
  {
    if k < |bs| then bs[k].at else END
  }

  // What the header of block k says.
  lemma HeaderAt(hdr: map<nat, Hdr>, bs: seq<Block>, k: nat)
    requires Linked(hdr, bs, 0) && Tiles(bs, 0, END) && k < |bs|
    ensures bs[k].at in hdr && hdr[bs[k].at] == Hdr(bs[k].end, LastAt(bs[..k], 0), bs[k].used)
    ensures bs[k].end == At(bs, k + 1) <= END && bs[k].at < END
    ensures Linked(hdr, bs[..k], 0) && Linked(hdr, bs[k + 1..], bs[k].at)
    ensures Tiles(bs[..k], 0, bs[k].at) && Tiles(bs[k + 1..], bs[k].end, END)
  {
    var a, x, b := bs[..k], bs[k], bs[k + 1..];
    assert bs == a + [x] + b;
    assert [x][1..] == [];
    LinkedAround(hdr, a, [x], b);
    TilesAround(a, [x], b);
    Within(b, x.end, END);
    if b != [] { assert b[0] == bs[k + 1]; }
  }

  // ----- the lowest free block ---------------------------------------------------------------

  function FreeIndex(bs: seq<Block>): (k: nat)
    ensures k <= |bs|
  {
    if bs == [] || !bs[0].used then 0 else 1 + FreeIndex(bs[1..])
  }

  lemma {:induction false} LowestAt(bs: seq<Block>, size: nat)
    ensures Lowest(bs, END) == At(bs, FreeIndex(bs))
    ensures FreeIndex(bs) <= FirstFit(bs, size)
    decreases |bs|
  {
    if bs != [] && bs[0].used {
      LowestAt(bs[1..], size);
    }
  }

  lemma LowestPrefix(a: seq<Block>, c: seq<Block>, from: nat)
    requires Tiles(a, 0, from) && from <= END && from <= Lowest(c, END)
    ensures Lowest(a + c, END) == if Lowest(a, from) < from then Lowest(a, from) else Lowest(c, END)
  {
    LowestConcat(a, c, END);
    LowestBelow(a, 0, from, from);
  }

  // What starts with a block that has been taken is free only above it.
  lemma TakenLowest(x: Block, size: nat, b: seq<Block>)
    requires Tiles(b, x.end, END) && x.at <= x.end
    ensures x.at <= Lowest(Taken(x, size) + b, END)
    ensures !x.used ==> Lowest([x] + b, END) == x.at
  {
    var mid := Taken(x, size);
    LowestConcat(mid, b, END);
    LowestConcat([x], b, END);
    Within(b, x.end, END);
    LowestBelow(b, x.end, END, END);
    assert mid[1..] == if |mid| == 1 then [] else [mid[1]];
  }

  lemma AllocRest(bs: seq<Block>, k: nat, size: nat)
    requires k < |bs|
    ensures var rest := Taken(bs[k], size) + bs[k + 1..];
      Alloc(bs, k, size) == bs[..k] + rest && Alloc(bs, k, size)[k..] == rest
    ensures bs == bs[..k] + ([bs[k]] + bs[k + 1..])
  {
  }

  // After a block has been taken, lfree stays where it is unless it was that block.
  lemma AllocLowest(bs: seq<Block>, k: nat, size: nat)
    requires WellFormed(bs) && k < |bs| && !bs[k].used
    ensures var q := Alloc(bs, k, size);
      && k < |q| && q[k].at == bs[k].at && Lowest(bs, END) <= bs[k].at
      && (Lowest(bs, END) < bs[k].at ==> Lowest(q, END) == Lowest(bs, END))
      && (Lowest(bs, END) == bs[k].at ==> Lowest(q, END) == Lowest(q[k..], END))
  {
    var a, x, b := bs[..k], bs[k], bs[k + 1..];
    AllocRest(bs, k, size);
    Around(bs, k);
    Within(b, x.end, END);
    TakenLowest(x, size, b);
    LowestPrefix(a, [x] + b, x.at);
    LowestPrefix(a, Taken(x, size) + b, x.at);
  }

  // ----- what the assignments to the headers do ----------------------------------------------

  lemma Ascending(bs: seq<Block>, k: nat, f: nat)
    requires WellFormed(bs) && k <= f < |bs|
    ensures bs[k].at <= bs[f].at && bs[f].end <= END
  {
    Around(bs, f);
    Around(bs, k);
    Within(bs[f + 1..], bs[f].end, END);
    Within(bs[k + 1..], bs[k].end, END);
    if k < f { assert bs[f] == bs[k + 1..][f - k - 1]; }
  }

  // No block from k on holds `size` bytes when block k starts too close to the end.
  lemma NoFitBehind(bs: seq<Block>, k: nat, size: nat)
    requires WellFormed(bs) && k <= FirstFit(bs, size) && END - size <= At(bs, k)
    ensures FirstFit(bs, size) == |bs|
  {
    FirstFitFits(bs, size);
    if FirstFit(bs, size) < |bs| {
      Ascending(bs, k, FirstFit(bs, size));
    }
  }

  lemma PairLinked(hdr: map<nat, Hdr>, x: Block, y: Block, prev: nat)
    ensures Linked(hdr, [x], prev) <==> x.at in hdr && hdr[x.at] == Hdr(x.end, prev, x.used)
    ensures Linked(hdr, [x, y], prev) <==> Linked(hdr, [x], prev) && Linked(hdr, [y], x.at)
  {
    assert [x][1..] == [] && [x, y][1..] == [y] && [y][1..] == [];
  }

  predicate Sentinel(hdr: map<nat, Hdr>) {
    END in hdr && hdr[END].used && hdr[END].next == END
  }

  // Everything below `lo` and strictly between `hi` and the end is as it was.
  predicate SameOutside(hdr: map<nat, Hdr>, hdr': map<nat, Hdr>, lo: nat, hi: nat) {
    && (forall i | i in hdr && i < lo :: i in hdr' && hdr'[i] == hdr[i])
    && (forall i | i in hdr && hi < i < END :: i in hdr' && hdr'[i] == hdr[i])
  }

  // The blocks of a stretch are exchanged: the ones before and behind it keep their headers, but
  // for the predecessor of the first one behind.
  lemma Exchanged(hdr: map<nat, Hdr>, hdr': map<nat, Hdr>, a: seq<Block>, mid: seq<Block>, mid': seq<Block>,
                  b: seq<Block>)
    requires mid != [] && mid' != [] && Linked(hdr, a + mid + b, 0) && Tiles(a + mid + b, 0, END)
    requires var lo, hi := LastEnd(a, 0), LastEnd(mid, LastEnd(a, 0));
      && SameOutside(hdr, hdr', lo, hi)
      && (b != [] ==> hi in hdr && hi in hdr' && hdr'[hi] == hdr[hi].(prev := mid'[|mid'| - 1].at))
    requires Linked(hdr', mid', LastAt(a, 0))
    ensures Linked(hdr', a + mid' + b, 0)
  {
    var lo, hi := LastEnd(a, 0), LastEnd(mid, LastEnd(a, 0));
    TilesAround(a, mid, b);
    LinkedAround(hdr, a, mid, b);
    LinkedFrame(hdr, hdr', a, 0, 0, lo);
    LinkedPrev(hdr, hdr', b, mid[|mid| - 1].at, mid'[|mid'| - 1].at, hi);
    LinkedAround(hdr', a, mid', b);
  }

  // mem_malloc and mem_trim: a free block of its own behind block `ptr`, from `ptr2` to `next`.
  function SplitAt(h: map<nat, Hdr>, ptr: nat, ptr2: nat, next: nat): map<nat, Hdr>
    requires ptr in h
  {
    var h1 := h[ptr2 := Hdr(next, ptr, false)];
    var h2 := h1[ptr := h1[ptr].(next := ptr2, used := true)];
    if next != END && next in h2 then h2[next := h2[next].(prev := ptr2)] else h2
  }

  // `drop` is the header that moves.
  lemma SplitLinked(h: map<nat, Hdr>, a: seq<Block>, x: Block, ptr2: nat, mid: seq<Block>, next: nat, b: seq<Block>,
                    drop: set<nat>)
    requires Linked(h, a + ([x] + mid) + b, 0) && Tiles(a + ([x] + mid) + b, 0, END) && Sentinel(h)
    requires LastEnd([x] + mid, 0) == next && x.at < ptr2 < next && forall d | d in drop :: x.at < d < next
    ensures x.at in h - drop
    ensures var h' := SplitAt(h - drop, x.at, ptr2, next);
      Linked(h', a + [Block(x.at, ptr2, true), Block(ptr2, next, false)] + b, 0) && Sentinel(h')
  {
    TilesAround(a, [x] + mid, b);
    LinkedAround(h, a, [x] + mid, b);
    assert ([x] + mid)[0] == x;
    Within(b, next, END);
    var h' := SplitAt(h - drop, x.at, ptr2, next);
    var y, z := Block(x.at, ptr2, true), Block(ptr2, next, false);
    PairLinked(h', y, z, LastAt(a, 0));
    PairLinked(h', z, z, x.at);
    Exchanged(h, h', a, [x] + mid, [y, z], b);
  }

  // plug_holes: the block q becomes part of the block p before it.
  function JoinAt(h: map<nat, Hdr>, p: nat, q: nat): map<nat, Hdr>
    requires p in h && q in h && h[q].next in h
  {
    var next := h[q].next;
    var h1 := h[p := h[p].(next := next)];
    var h2 := h1[next := h1[next].(prev := p)];
    h2 - {q}
  }

  lemma JoinLinked(h: map<nat, Hdr>, a: seq<Block>, x: Block, y: Block, b: seq<Block>)
    requires Linked(h, a + [x, y] + b, 0) && Tiles(a + [x, y] + b, 0, END) && Sentinel(h)
    ensures x.at in h && y.at in h && y.end in h && h[y.at].next == y.end && x.at < y.at < y.end <= END
    ensures x.end == y.at
    ensures h[x.at] == Hdr(y.at, LastAt(a, 0), x.used) && h[y.at] == Hdr(y.end, x.at, y.used)
    ensures var h' := JoinAt(h, x.at, y.at);
      Linked(h', a + [x.(end := y.end)] + b, 0) && Sentinel(h')
  {
    TilesAround(a, [x, y], b);
    LinkedAround(h, a, [x, y], b);
    PairLinked(h, x, y, LastAt(a, 0));
    PairLinked(h, y, y, x.at);
    Within(b, y.end, END);
    assert [x, y][1..] == [y] && [y][1..] == [];
    var h', z := JoinAt(h, x.at, y.at), x.(end := y.end);
    PairLinked(h', z, z, LastAt(a, 0));
    Exchanged(h, h', a, [x, y], [z], b);
  }

  // A block changes between free and used.
  lemma MarkLinked(h: map<nat, Hdr>, a: seq<Block>, x: Block, b: seq<Block>, used: bool)
    requires Linked(h, a + [x] + b, 0) && Tiles(a + [x] + b, 0, END) && Sentinel(h)
    ensures x.at in h && h[x.at] == Hdr(x.end, LastAt(a, 0), x.used)
    ensures var h' := h[x.at := h[x.at].(used := used)];
      Linked(h', a + [x.(used := used)] + b, 0) && Sentinel(h')
  {
    TilesAround(a, [x], b);
    LinkedAround(h, a, [x], b);
    PairLinked(h, x, x, LastAt(a, 0));
    Within(b, x.end, END);
    assert [x][1..] == [];
    var h', y := h[x.at := h[x.at].(used := used)], x.(used := used);
    PairLinked(h', y, y, LastAt(a, 0));
    if b != [] { assert b[0].at == x.end; }
    Exchanged(h, h', a, [x], [y], b);
  }

  // mem_malloc, when it splits.
  lemma SplitTaken(h: map<nat, Hdr>, a: seq<Block>, x: Block, ptr2: nat, b: seq<Block>)
    requires Linked(h, a + [x] + b, 0) && Tiles(a + [x] + b, 0, END) && Sentinel(h) && x.at < ptr2 < x.end
    ensures x.at in h && (x.end in h || x.end == END)
    ensures var h' := SplitAt(h, x.at, ptr2, x.end);
      Linked(h', a + [Block(x.at, ptr2, true), Block(ptr2, x.end, false)] + b, 0) && Sentinel(h')
  {
    assert [x] + [] == [x] && h - {} == h;
    SplitLinked(h, a, x, ptr2, [], x.end, b, {});
    LinkedAround(h, a, [x], b);
    TilesAround(a, [x], b);
    if b == [] { assert x.end == END; } else { assert b[0].at == x.end; }
  }

  lemma LowestLeq(a: seq<Block>, x: Block, b: seq<Block>)
    requires Tiles(a + [x] + b, 0, END) && !x.used
    ensures Lowest(a + [x] + b, END) <= x.at
    ensures a != [] && !a[|a| - 1].used ==> Lowest(a + [x] + b, END) < x.at
  {
    TilesAround(a, [x], b);
    SumsAround(a, [x], b);
    LowestBelow(a, 0, x.at, x.at);
    if a != [] {
      var init, p := a[..|a| - 1], a[|a| - 1];
      assert init + [p] == a;
      TilesConcat(init, [p], 0, x.at);
      LowestConcat(init, [p], x.at);
      Within([p], LastEnd(init, 0), x.at);
      LowestBelow(init, 0, p.at, p.at);
    }
  }

  lemma ForwardLinked(h: map<nat, Hdr>, a: seq<Block>, x: Block, b: seq<Block>)
    requires Linked(h, a + [x] + b, 0) && Tiles(a + [x] + b, 0, END) && Sentinel(h)
    ensures x.at in h && h[x.at].next == x.end && x.at < x.end && x.end in h && h[x.end].next in h
    ensures !h[x.end].used && x.end != END <==> b != [] && !b[0].used
    ensures b != [] ==> b[0].at == x.end
    ensures b != [] && !b[0].used ==>
      var h' := JoinAt(h, x.at, x.end);
      Linked(h', a + [x.(end := b[0].end)] + b[1..], 0) && Sentinel(h')
  {
    LinkedAround(h, a, [x], b);
    TilesAround(a, [x], b);
    PairLinked(h, x, x, LastAt(a, 0));
    Within([x], x.at, x.end);
    if b == [] {
      assert x.end == END;
    } else {
      var y := b[0];
      Within(b, x.end, END);
      assert y in b && y.at == x.end;
      assert a + [x, y] + b[1..] == a + [x] + b;
      JoinLinked(h, a, x, y, b[1..]);
    }
  }

  lemma BackwardLinked(h: map<nat, Hdr>, a: seq<Block>, x: Block, b: seq<Block>)
    requires Linked(h, a + [x] + b, 0) && Tiles(a + [x] + b, 0, END) && Sentinel(h)
    ensures x.at in h && h[x.at].prev in h && h[x.at].next in h
    ensures h[x.at].prev != x.at && !h[h[x.at].prev].used <==> a != [] && !a[|a| - 1].used
    ensures a != [] && !a[|a| - 1].used ==>
      var p := a[|a| - 1];
      && h[x.at].prev == p.at
      && Linked(JoinAt(h, p.at, x.at), a[..|a| - 1] + [p.(end := x.end)] + b, 0) && Sentinel(JoinAt(h, p.at, x.at))
  {
    LinkedAround(h, a, [x], b);
    TilesAround(a, [x], b);
    PairLinked(h, x, x, LastAt(a, 0));
    ForwardLinked(h, a, x, b);
    if a == [] {
      assert x.at == 0;
    } else {
      var init, p := a[..|a| - 1], a[|a| - 1];
      assert init + [p, x] + b == a + [x] + b;
      JoinLinked(h, init, p, x, b);
    }
  }

  // mem_trim, when the header of the block behind moves.
  lemma MovedLinked(h: map<nat, Hdr>, a: seq<Block>, x: Block, y: Block, b: seq<Block>, cut: nat)
    requires Linked(h, a + [x, y] + b, 0) && Tiles(a + [x, y] + b, 0, END) && Sentinel(h)
    requires x.used && !y.used && x.at < cut < x.end
    ensures x.at in h - {x.end} && (y.end in h || y.end == END)
    ensures var h' := SplitAt(h - {x.end}, x.at, cut, y.end);
      Linked(h', a + [x.(end := cut), y.(at := cut)] + b, 0) && Sentinel(h')
  {
    assert [x] + [y] == [x, y];
    JoinLinked(h, a, x, y, b);
    SplitLinked(h, a, x, cut, [y], y.end, b, {x.end});
  }
}
