// What the heap must do for its callers: serve every request that some free block holds, from the lowest
// such block, give back what is cut off or freed, and keep no more than it needs.
module HeapService {
  import opened HeapBlocks
  import opened HeapRuns

  // A free block has n bytes behind its header.
  predicate Free(x: Block, n: nat) {
    !x.used && x.end - x.at - HEAD >= n
  }

  ghost predicate Unservable(bs: seq<Block>, size: nat) {
    size == 0 || Need(size) > END || forall x | x in bs :: !Free(x, Need(size))
  }

  // From the blocks `was` to the blocks `now` n bytes of x have been handed out: x is the lowest block
  // that has them, and is split when the rest can be a block of its own.
  ghost predicate Served(was: seq<Block>, now: seq<Block>, x: Block, n: nat) {
    && x in was && Free(x, n) && (forall y | y in was && Free(y, n) :: x.at <= y.at)
    && x.at !in Live(was)
    && Live(now) == Live(was)[x.at := if x.end - x.at - HEAD >= n + HEAD + MIN then x.at + HEAD + n else x.end]
  }

  lemma FirstFitServes(bs: seq<Block>, n: nat)
    requires WellFormed(bs) && FirstFit(bs, n) < |bs| && MIN <= n && n % ALIGN == 0
    ensures var k := FirstFit(bs, n); Served(bs, Alloc(bs, k, n), bs[k], n)
  {
    var k := FirstFit(bs, n);
    FirstFitFits(bs, n);
    LowestFit(bs, n);
    forall y | y in bs && Free(y, n) ensures bs[k].at <= y.at {
      assert Holds(y, n);
    }
    AllocKeeps(bs, k, n);
  }

  // malloc gives up exactly when the size is nothing, is more than the heap, or no free block has it.
  lemma MallocServes(bs: seq<Block>, size: nat)
    requires WellFormed(bs)
    ensures if Unservable(bs, size) then Apply(bs, Malloc(size)) == bs && Refused(bs, size)
            else !Refused(bs, size) && Served(bs, Apply(bs, Malloc(size)), bs[FirstFit(bs, Need(size))], Need(size))
  {
    if size > 0 && Need(size) <= END {
      LowestFit(bs, Need(size));
      if Unservable(bs, size) {
        assert forall x | x in bs :: !Free(x, Need(size));
        assert forall x | x in bs :: !Holds(x, Need(size));
      } else {
        var x :| x in bs && Free(x, Need(size));
        assert Holds(x, Need(size));
        FirstFitServes(bs, Need(size));
      }
    }
  }

  // free gives back just the extent it is about.
  lemma FreeReturns(bs: seq<Block>, at: nat)
    requires WellFormed(bs) && at in Live(bs)
    ensures Live(Apply(bs, Op.Free(at))) == Live(bs) - {at}
  {
    LiveIndex(bs, 0, END, at);
    FreedKeeps(bs, IndexOf(bs, at));
  }

  // A free block begins at an address.
  ghost predicate FreeFrom(bs: seq<Block>, at: nat) {
    exists i | 0 <= i < |bs| :: !bs[i].used && bs[i].at == at
  }

  lemma {:induction false} Increasing(bs: seq<Block>, from: nat, to: nat, i: nat, j: nat)
    requires Tiles(bs, from, to) && i < j < |bs|
    ensures from <= bs[i].at < bs[i].end <= bs[j].at && (i + 1 < j <==> bs[i].end < bs[j].at)
    decreases |bs|
  {
    var rest := bs[1..];
    assert bs[j] == rest[j - 1];
    Within(rest, bs[0].end, to);
    if i > 0 {
      Increasing(rest, bs[0].end, to, i - 1, j - 1);
    } else if j > 1 {
      Increasing(rest, bs[0].end, to, 0, j - 1);
    }
  }

  lemma IndexBehind(bs: seq<Block>, k: nat, i: nat)
    requires Tiles(bs, 0, END) && k < |bs| && i < |bs|
    ensures bs[i].at == bs[k].end <==> i == k + 1
  {
    Within(bs, 0, END);
    assert bs[k] in bs;
    if i < k {
      Increasing(bs, 0, END, i, k);
    } else if k < i {
      Increasing(bs, 0, END, k, i);
    }
  }

  lemma FreeBehind(bs: seq<Block>, k: nat)
    requires Tiles(bs, 0, END) && k < |bs|
    ensures FreeFrom(bs, bs[k].end) <==> k + 1 < |bs| && !bs[k + 1].used
  {
    forall i: nat | i < |bs| ensures bs[i].at == bs[k].end <==> i == k + 1 {
      IndexBehind(bs, k, i);
    }
  }

  lemma CutsUsed(bs: seq<Block>, k: nat, n: nat)
    requires WellFormed(bs) && k < |bs| && bs[k].used && MIN <= n < bs[k].Size() && n % ALIGN == 0
    ensures if FreeFrom(bs, bs[k].end) || n + HEAD + MIN <= bs[k].Size()
            then Live(Trimmed(bs, k, n)) == Live(bs)[bs[k].at := bs[k].at + HEAD + n] else Trimmed(bs, k, n) == bs
  {
    assert FreeFrom(bs, bs[k].end) <==> k + 1 < |bs| && !bs[k + 1].used by { FreeBehind(bs, k); }
    TrimmedKeeps(bs, k, n);
  }

  // trim cuts an extent to just the size asked for whenever what is cut off can be used: it joins the
  // free block behind, or is large enough for one.  Otherwise it changes nothing.
  lemma TrimCuts(bs: seq<Block>, at: nat, size: nat)
    requires WellFormed(bs) && at in Live(bs)
    ensures var n, end, now := Need(size), Live(bs)[at], Apply(bs, Op.Trim(at, size));
      if n < end - at - HEAD && (FreeFrom(bs, end) || n + HEAD + MIN <= end - at - HEAD)
      then Live(now) == Live(bs)[at := at + HEAD + n] else now == bs
  {
    LiveIndex(bs, 0, END, at);
    var k, n := IndexOf(bs, at), Need(size);
    assert bs[k].end <= END by {
      Within(bs, 0, END);
      assert bs[k] in bs;
    }
    if n < bs[k].Size() { CutsUsed(bs, k, n); }
  }
}
