// The heap of core/mem.c: mem_init, mem_malloc, mem_free, mem_trim and plug_holes over the headers
// they keep in the heap itself.
module Heap {
  import opened HeapBlocks
  import opened HeapRuns
  import opened HeapLinks
  import HeapService

  // A pointer: NULL, or an offset from `ram`, which may lie outside the heap.
  datatype Ptr = NULL | Ram(offset: int)

  // What mem_malloc has handed out and mem_free has not been given back.
  ghost predicate HandedOut(bs: seq<Block>, rmem: Ptr) {
    rmem.Ram? && rmem.offset >= HEAD && rmem.offset - HEAD in Live(bs)
  }

  // The header of a free block of its own behind block `ptr`, from `ptr2` to `next`.
  method SplitHeader(hdr: map<nat, Hdr>, ptr: nat, ptr2: nat, next: nat) returns (h: map<nat, Hdr>)
    requires ptr in hdr && (next == END || next in hdr)
    ensures h == SplitAt(hdr, ptr, ptr2, next)
  {
    h := hdr[ptr2 := Hdr(next, ptr, false)];
    h := h[ptr := h[ptr].(next := ptr2, used := true)];
    if next != END {
      h := h[next := h[next].(prev := ptr2)];
    }
  }

  // The headers when a used block is cut in front of a used one.
  lemma CutLinked(hdr: map<nat, Hdr>, bs: seq<Block>, k: nat, size: nat)
    requires Splits(bs, k, size) && Linked(hdr, bs, 0) && Sentinel(hdr)
    ensures var x := bs[k];
      && x.at in hdr && hdr[x.at].next == x.end && (x.end in hdr || x.end == END)
      && Linked(SplitAt(hdr, x.at, x.at + HEAD + size, x.end), Trimmed(bs, k, size), 0)
      && Sentinel(SplitAt(hdr, x.at, x.at + HEAD + size, x.end))
  {
    var a, x, b := bs[..k], bs[k], bs[k + 1..];
    assert bs == a + [x] + b;
    SplitTaken(hdr, a, x, x.at + HEAD + size, b);
    HeaderAt(hdr, bs, k);
  }

  class Memory {
    var hdr: map<nat, Hdr>
    var lfree: nat
    var used: int       // MEM_STATS used

    ghost var bs: seq<Block>

    // The headers link the blocks `bs`, and the statistic is right.
    ghost predicate Shaped()
      reads this
    {
      Tiles(bs, 0, END) && Linked(hdr, bs, 0) && Sentinel(hdr) && used == UsedSum(bs)
    }

    ghost predicate Valid()
      reads this
    {
      Shaped() && Apart(bs) && lfree == Lowest(bs, END)
    }

    // mem_init
    constructor ()
      ensures Valid() && bs == INITIAL
    {
      hdr := map[0 := Hdr(END, 0, false), END := Hdr(END, END, true)];
      lfree, used := 0, 0;
      bs := INITIAL;
      new;
      assert INITIAL[1..] == [];
    }

    // ----- mem_malloc ------------------------------------------------------------------------

    // The scan, from the lowest free block on.
    method Find(size: nat) returns (found: bool, ptr: nat, ghost k: nat)
      requires Valid() && MIN <= size <= END
      ensures k == FirstFit(bs, size) && (found <==> k < |bs|)
      ensures found ==> ptr == bs[k].at
    {
      ptr, k := lfree, FreeIndex(bs);
      LowestAt(bs, size);
      FirstFitFits(bs, size);
      while ptr < END - size
        invariant k <= FirstFit(bs, size) && ptr == At(bs, k)
        decreases |bs| - k
      {
        HeaderAt(hdr, bs, k);
        if !hdr[ptr].used && hdr[ptr].next - (ptr + HEAD) >= size {
          return true, ptr, k;
        }
        ptr, k := hdr[ptr].next, k + 1;
      }
      found := false;
      NoFitBehind(bs, k, size);
      k := |bs|;
    }

    // The block is taken: its free rest becomes a block behind it, if it can be one.
    method Take(ptr: nat, size: nat, ghost k: nat)
      requires Valid() && k < |bs| && ptr == bs[k].at && Holds(bs[k], size) && MIN <= size && size % ALIGN == 0
      modifies this`hdr, this`used, this`bs
      ensures bs == Alloc(old(bs), k, size) && WellFormed(bs)
      ensures Linked(hdr, bs, 0) && Sentinel(hdr) && used == UsedSum(bs)
    {
      ghost var a, x, b := bs[..k], bs[k], bs[k + 1..];
      AllocKeeps(bs, k, size);
      assert bs == a + [x] + b;
      MarkLinked(hdr, a, x, b, true);
      var next := hdr[ptr].next;
      if next - (ptr + HEAD) >= size + HEAD + MIN {
        var ptr2 := ptr + HEAD + size;
        SplitTaken(hdr, a, x, ptr2, b);
        hdr := SplitHeader(hdr, ptr, ptr2, next);
        used := used + (size + HEAD);
      } else {
        hdr := hdr[ptr := hdr[ptr].(used := true)];
        used := used + (next - ptr);
      }
      bs := Alloc(bs, k, size);
    }

    method NextFreeFrom(ptr: nat, ghost k: nat) returns (cur: nat)
      requires WellFormed(bs) && k < |bs| && ptr == bs[k].at && Linked(hdr, bs, 0) && Sentinel(hdr)
      ensures cur == Lowest(bs[k..], END)
    {
      cur := ptr;
      ghost var j, q := k, bs;
      HeaderAt(hdr, q, j);
      while hdr[cur].used && cur != END
        invariant j <= |q| && cur == At(q, j) && Lowest(q[k..], END) == Lowest(q[j..], END)
        invariant cur in hdr && hdr[cur].used == (j == |q| || q[j].used)
        decreases |q| - j
      {
        HeaderAt(hdr, q, j);
        assert q[j..][1..] == q[j + 1..];
        cur, j := hdr[cur].next, j + 1;
        if j < |q| { HeaderAt(hdr, q, j); }
      }
      if j < |q| { HeaderAt(hdr, q, j); }
    }

    // Find the next free block after `ptr`.
    method AdjustLfree(ptr: nat, ghost was: seq<Block>, ghost k: nat, ghost size: nat)
      requires WellFormed(was) && k < |was| && Holds(was[k], size) && ptr == was[k].at && lfree == Lowest(was, END)
      requires bs == Alloc(was, k, size) && WellFormed(bs)
      requires Linked(hdr, bs, 0) && Sentinel(hdr)
      modifies this`lfree
      ensures lfree == Lowest(bs, END)
    {
      AllocLowest(was, k, size);
      if ptr == lfree {
        lfree := NextFreeFrom(ptr, k);
      }
    }

    method Malloc(size: nat) returns (rmem: Ptr)
      requires Valid() && size < 0x1_0000
      modifies this
      ensures Valid() && bs == Apply(old(bs), Op.Malloc(size))
      ensures rmem == if Refused(old(bs), size) then NULL
                      else Ram(old(bs)[FirstFit(old(bs), Need(size))].at + HEAD)
      ensures rmem == NULL <==> size == 0 || Need(size) > END
                                || forall x | x in old(bs) :: x.used || x.end - x.at - HEAD < Need(size)
      ensures rmem.Ram? ==> exists x | x in old(bs) ::
        rmem == Ram(x.at + HEAD) && HeapService.Served(old(bs), bs, x, Need(size))
    {
      HeapService.MallocServes(bs, size);
      if size == 0 {
        return NULL;
      }
      var need := Need(size);
      if need > END {
        return NULL;
      }
      var found, ptr, k := Find(need);
      if !found {
        return NULL;
      }
      FirstFitFits(bs, need);
      ghost var was := bs;
      Take(ptr, need, k);
      AdjustLfree(ptr, was, k, need);
      rmem := Ram(ptr + HEAD);
    }

    // ----- mem_free --------------------------------------------------------------------------

    // The free block `mem` swallows the one behind it, if that is free.
    method PlugForward(mem: nat, ghost a: seq<Block>, ghost x: Block, ghost b: seq<Block>)
      requires Shaped() && bs == a + [x] + b && !x.used && mem == x.at
      modifies this`hdr, this`lfree, this`bs
      ensures Shaped() && bs == Forward(a, x, b)
      ensures lfree == if b != [] && !b[0].used && old(lfree) == b[0].at then x.at else old(lfree)
    {
      ForwardKeeps(a, x, b);
      ForwardLinked(hdr, a, x, b);
      var nmem := hdr[mem].next;
      if mem != nmem && !hdr[nmem].used && nmem != END {
        if lfree == nmem {
          lfree := mem;
        }
        var next := hdr[nmem].next;
        var h := hdr[mem := hdr[mem].(next := next)];
        h := h[next := h[next].(prev := mem)];
        hdr := h - {nmem};
        bs := Forward(a, x, b);
      }
    }

    // The free block `mem` is swallowed by the one before it, if that is free.
    method PlugBackward(mem: nat, ghost a: seq<Block>, ghost x: Block, ghost b: seq<Block>)
      requires Shaped() && bs == a + [x] + b && !x.used && mem == x.at
      modifies this`hdr, this`lfree, this`bs
      ensures Shaped() && bs == Backward(a, x, b)
      ensures lfree == if a != [] && !a[|a| - 1].used && old(lfree) == x.at then a[|a| - 1].at else old(lfree)
    {
      BackwardKeeps(a, x, b);
      BackwardLinked(hdr, a, x, b);
      var pmem := hdr[mem].prev;
      if pmem != mem && !hdr[pmem].used {
        if lfree == mem {
          lfree := pmem;
        }
        var next := hdr[mem].next;
        var h := hdr[pmem := hdr[pmem].(next := next)];
        h := h[next := h[next].(prev := pmem)];
        hdr := h - {mem};
        bs := Backward(a, x, b);
      }
    }

    // plug_holes.  `lfree` is at or below the freed block already, so neither test of it fires.
    method PlugHoles(mem: nat, ghost a: seq<Block>, ghost x: Block, ghost b: seq<Block>)
      requires Shaped() && bs == a + [x] + b && !x.used && mem == x.at && lfree == Lowest(bs, END)
      modifies this`hdr, this`lfree, this`bs
      ensures Shaped() && lfree == old(lfree)
      ensures bs == if b != [] && !b[0].used then Backward(a, x.(end := b[0].end), b[1..]) else Backward(a, x, b)
    {
      LowestLeq(a, x, b);
      ForwardLinked(hdr, a, x, b);
      PlugForward(mem, a, x, b);
      ghost var joins := b != [] && !b[0].used;
      PlugBackward(mem, a, if joins then x.(end := b[0].end) else x, if joins then b[1..] else b);
    }

    // The used block k is marked free.
    method Release(mem: nat, ghost k: nat)
      requires Valid() && k < |bs| && bs[k].used && mem == bs[k].at
      modifies this
      ensures Shaped() && lfree == Lowest(bs, END) && mem < END
      ensures bs == Splice(old(bs), k, [old(bs)[k].(used := false)])
      ensures lfree == if mem < old(lfree) then mem else old(lfree)
    {
      Released(bs, k);
      assert bs == bs[..k] + [bs[k]] + bs[k + 1..];
      MarkLinked(hdr, bs[..k], bs[k], bs[k + 1..], false);
      Around(bs, k);
      Within(bs[k + 1..], bs[k].end, END);
      hdr := hdr[mem := hdr[mem].(used := false)];
      if mem < lfree {
        lfree := mem;
      }
      used := used - (hdr[mem].next - mem);
      bs := Splice(bs, k, [bs[k].(used := false)]);
    }

    // mem_free: NULL and pointers outside the heap are ignored.
    method Free(rmem: Ptr)
      requires Valid() && (rmem.Ram? && 0 <= rmem.offset < END ==> HandedOut(bs, rmem))
      modifies this
      ensures Valid()
      ensures bs == if HandedOut(old(bs), rmem) then Apply(old(bs), Op.Free(rmem.offset - HEAD)) else old(bs)
    {
      Within(bs, 0, END);
      if rmem == NULL {
        return;
      }
      if rmem.offset < 0 || rmem.offset >= END {
        return;
      }
      var mem := rmem.offset - HEAD;
      LiveIndex(bs, 0, END, mem);
      ghost var was, k := bs, IndexOf(bs, mem);
      FreedKeeps(bs, k);
      Release(mem, k);
      PlugHoles(mem, was[..k], was[k].(used := false), was[k + 1..]);
    }

    // ----- mem_trim --------------------------------------------------------------------------

    // The block behind is free: its header moves down to the end of what is kept.
    method MoveNext(ptr: nat, size: nat, ghost k: nat)
      requires Valid() && NextFree(bs, k, size) && ptr == bs[k].at
      modifies this
      ensures Valid() && bs == Trimmed(old(bs), k, size)
    {
      ghost var was, a, x, y, b := bs, bs[..k], bs[k], bs[k + 1], bs[k + 2..];
      NextFreeForm(bs, k, size);
      NextFreeShape(bs, k, size);
      NextFreeCounts(bs, k, size);
      NextFreeLowest(bs, k, size);
      JoinLinked(hdr, a, x, y, b);
      MovedLinked(hdr, a, x, y, b, ptr + HEAD + size);
      var mem2 := hdr[ptr].next;
      var next := hdr[mem2].next;
      var ptr2 := ptr + HEAD + size;
      if lfree == mem2 {
        lfree := ptr2;
      }
      used := used - (mem2 - ptr2);
      hdr := SplitHeader(hdr - {mem2}, ptr, ptr2, next);
      bs := Trimmed(bs, k, size);
    }

    // The block behind is in use: what is cut off becomes a free block.
    method CutOff(ptr: nat, size: nat, ghost k: nat)
      requires Valid() && Splits(bs, k, size) && ptr == bs[k].at
      modifies this
      ensures Valid() && bs == Trimmed(old(bs), k, size)
    {
      SplitShape(bs, k, size);
      SplitCounts(bs, k, size);
      SplitLowest(bs, k, ptr + HEAD + size);
      CutLinked(hdr, bs, k, size);
      var next := hdr[ptr].next;
      var ptr2 := ptr + HEAD + size;
      if ptr2 < lfree {
        lfree := ptr2;
      }
      used := used - (next - ptr2);
      hdr := SplitHeader(hdr, ptr, ptr2, next);
      bs := Trimmed(bs, k, size);
    }

    // The used block k shrinks.
    method Shrink(ptr: nat, size: nat, ghost k: nat)
      requires Valid() && k < |bs| && bs[k].used && ptr == bs[k].at
      requires MIN <= size < bs[k].Size() && size % ALIGN == 0
      modifies this
      ensures Valid() && bs == Trimmed(old(bs), k, size)
    {
      HeaderAt(hdr, bs, k);
      if k + 1 < |bs| { HeaderAt(hdr, bs, k + 1); }
      if !hdr[hdr[ptr].next].used {
        MoveNext(ptr, size, k);
      } else if size + HEAD + MIN <= hdr[ptr].next - ptr - HEAD {
        CutOff(ptr, size, k);
      }
    }

    // mem_trim
    method Trim(rmem: Ptr, newsize: nat) returns (r: Ptr)
      requires Valid() && newsize < 0x1_0000
      requires rmem.Ram? && 0 <= rmem.offset < END ==> HandedOut(bs, rmem)
      modifies this
      ensures Valid()
      ensures bs == if HandedOut(old(bs), rmem) then Apply(old(bs), Op.Trim(rmem.offset - HEAD, newsize)) else old(bs)
      ensures r == if Need(newsize) > END
                      || (HandedOut(old(bs), rmem)
                          && Need(newsize) > Live(old(bs))[rmem.offset - HEAD] - rmem.offset)
                   then NULL else rmem
    {
      Within(bs, 0, END);
      var need := Need(newsize);
      if HandedOut(bs, rmem) { LiveIndex(bs, 0, END, rmem.offset - HEAD); }
      if need > END {
        return NULL;
      }
      if rmem == NULL || rmem.offset < 0 || rmem.offset >= END {
        return rmem;
      }
      var ptr := rmem.offset - HEAD;
      ghost var k := IndexOf(bs, ptr);
      HeaderAt(hdr, bs, k);
      var size := hdr[ptr].next - ptr - HEAD;
      if need > size {
        return NULL;
      }
      if need < size {
        Shrink(ptr, need, k);
      }
      r := rmem;
    }
  }
}
