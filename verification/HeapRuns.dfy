// What every sequence of mallocs, frees and trims keeps, and what each of them does to the extents
// that are in use.
module HeapRuns {
  import opened HeapBlocks

  // ----- three pieces ------------------------------------------------------------------------

  lemma TilesAround(a: seq<Block>, mid: seq<Block>, b: seq<Block>)
    ensures Tiles(a + mid + b, 0, END)
       <==> var from := LastEnd(a, 0);
            Tiles(a, 0, from) && Tiles(mid, from, LastEnd(mid, from)) && Tiles(b, LastEnd(mid, from), END)
  {
    TilesConcat(a + mid, b, 0, END);
    TilesConcat(a, mid, 0, LastEnd(a + mid, 0));
  }

  lemma ApartAround(a: seq<Block>, mid: seq<Block>, b: seq<Block>)
    requires mid != []
    ensures Apart(a + mid + b) <==> Apart(a) && Apart(mid) && Apart(b) && Meet(a, mid) && Meet(mid, b)
  {
    ApartConcat(a + mid, b);
    ApartConcat(a, mid);
  }

  lemma SumsAround(a: seq<Block>, mid: seq<Block>, b: seq<Block>)
    ensures Live(a + mid + b) == Live(a) + Live(mid) + Live(b)
    ensures UsedSum(a + mid + b) == UsedSum(a) + UsedSum(mid) + UsedSum(b)
    ensures Lowest(a + mid + b, END) == Lowest(a, Lowest(mid, Lowest(b, END)))
  {
    LiveConcat(a + mid, b);
    LiveConcat(a, mid);
    UsedConcat(a + mid, b);
    UsedConcat(a, mid);
    LowestConcat(a + mid, b, END);
    LowestConcat(a, mid, Lowest(b, END));
  }

  // What surrounds the block of index k.
  lemma Around(bs: seq<Block>, k: nat)
    requires WellFormed(bs) && k < |bs|
    ensures var a, x, b := bs[..k], bs[k], bs[k + 1..];
      && bs == a + [x] + b
      && Tiles(a, 0, x.at) && LastEnd(a, 0) == x.at && Tiles([x], x.at, x.end) && Tiles(b, x.end, END)
      && Apart(a) && Apart(b) && Meet(a, [x]) && Meet([x], b)
      && Live(bs) == Live(a) + Live([x]) + Live(b)
      && (forall k | k in Live(a) :: Live(a)[k] <= x.at && k < x.at)
      && (forall k | k in Live(b) :: x.end <= k)
  {
    var a, x, b := bs[..k], bs[k], bs[k + 1..];
    assert bs == a + [x] + b;
    assert [x][1..] == [];
    TilesAround(a, [x], b);
    ApartAround(a, [x], b);
    SumsAround(a, [x], b);
    Within(a, 0, x.at);
    Within(b, x.end, END);
  }

  lemma LiveOne(x: Block)
    ensures Live([x]) == if x.used then map[x.at := x.end] else map[]
    ensures UsedSum([x]) == if x.used then x.end - x.at else 0
  {
    assert [x][1..] == [];
  }

  lemma LiveTwo(x: Block, y: Block)
    requires !y.used
    ensures Live([x, y]) == Live([x]) && UsedSum([x, y]) == UsedSum([x])
  {
    assert [x, y] == [x] + [y];
    LiveConcat([x], [y]);
    UsedConcat([x], [y]);
    LiveOne(y);
  }

  // ----- malloc ------------------------------------------------------------------------------

  // Changing the state of one block changes one extent.
  lemma MapAround(a: map<nat, nat>, b: map<nat, nat>, at: nat, end: nat)
    requires at !in a && at !in b
    ensures a + map[at := end] + b == (a + map[] + b)[at := end]
    ensures a + map[] + b == (a + map[at := end] + b) - {at}
    ensures at !in a + map[] + b
    ensures at in a + map[at := end] + b && (a + map[at := end] + b)[at] == end
    ensures forall end': nat :: a + map[at := end'] + b == (a + map[at := end] + b)[at := end']
  {
  }

  lemma LiveAround(bs: seq<Block>, k: nat, mid: seq<Block>, end: nat)
    requires WellFormed(bs) && k < |bs|
    ensures Live(Splice(bs, k, mid)) == Live(bs[..k]) + Live(mid) + Live(bs[k + 1..])
    ensures bs[k].at !in Live(bs[..k]) && bs[k].at !in Live(bs[k + 1..])
    ensures Live(bs) == Live(bs[..k]) + (if bs[k].used then map[bs[k].at := bs[k].end] else map[]) + Live(bs[k + 1..])
    ensures UsedSum(Splice(bs, k, mid)) == UsedSum(bs) + UsedSum(mid) - if bs[k].used then bs[k].end - bs[k].at else 0
  {
    var a, x, b := bs[..k], bs[k], bs[k + 1..];
    Around(bs, k);
    SumsAround(a, mid, b);
    SumsAround(a, [x], b);
    LiveOne(x);
  }

  lemma TakenShape(x: Block, size: nat)
    requires Holds(x, size) && MIN <= size && size % ALIGN == x.at % ALIGN == x.end % ALIGN == 0
    ensures var mid := Taken(x, size);
      Tiles(mid, x.at, x.end) && LastEnd(mid, x.at) == x.end && Apart(mid) && mid[0].used
  {
    var mid := Taken(x, size);
    if |mid| == 1 {
      assert mid[1..] == [];
    } else {
      assert mid[1..] == [mid[1]] && [mid[1]][1..] == [];
    }
  }

  lemma {:induction false} TilesEnd(bs: seq<Block>, from: nat, to: nat)
    requires Tiles(bs, from, to)
    ensures LastEnd(bs, from) == to && (from % ALIGN == 0 ==> to % ALIGN == 0)
    decreases |bs|
  {
    if bs != [] {
      TilesEnd(bs[1..], bs[0].end, to);
      assert LastEnd(bs, from) == LastEnd(bs[1..], bs[0].end);
    }
  }

  lemma AllocShape(bs: seq<Block>, k: nat, size: nat)
    requires WellFormed(bs) && k < |bs| && Holds(bs[k], size) && MIN <= size && size % ALIGN == 0
    ensures WellFormed(Alloc(bs, k, size)) && bs[k].end <= END
  {
    var a, x, b := bs[..k], bs[k], bs[k + 1..];
    var mid := Taken(x, size);
    Around(bs, k);
    TilesEnd(a, 0, x.at);
    TakenShape(x, size);
    TilesAround(a, mid, b);
    ApartAround(a, mid, b);
    Within(b, x.end, END);
  }

  // The extent that malloc hands out: free before, large enough, in use after; all others stay.
  lemma AllocKeeps(bs: seq<Block>, k: nat, size: nat)
    requires WellFormed(bs) && k < |bs| && Holds(bs[k], size) && MIN <= size && size % ALIGN == 0
    ensures WellFormed(Alloc(bs, k, size))
    ensures var at, end := bs[k].at, Taken(bs[k], size)[0].end;
      && at !in Live(bs) && Live(Alloc(bs, k, size)) == Live(bs)[at := end]
      && UsedSum(Alloc(bs, k, size)) == UsedSum(bs) + (end - at)
      && at + HEAD + size <= end <= END
  {
    var mid := Taken(bs[k], size);
    AllocShape(bs, k, size);
    LiveAround(bs, k, mid, mid[0].end);
    LiveOne(mid[0]);
    if |mid| == 2 {
      LiveTwo(mid[0], mid[1]);
    }
    MapAround(Live(bs[..k]), Live(bs[k + 1..]), bs[k].at, mid[0].end);
  }

  lemma {:induction false} FirstFitFits(bs: seq<Block>, size: nat)
    ensures var k := FirstFit(bs, size);
      && (forall i | 0 <= i < k :: !Holds(bs[i], size))
      && (k < |bs| ==> Holds(bs[k], size))
    decreases |bs|
  {
    if bs != [] && !Holds(bs[0], size) {
      FirstFitFits(bs[1..], size);
    }
  }

  // ----- free --------------------------------------------------------------------------------

  // Two neighbours in one piece.
  lemma Joined(a: seq<Block>, x: Block, y: Block, b: seq<Block>)
    requires !x.used && !y.used
    requires Tiles(a + [x, y] + b, 0, END)
    ensures Tiles(a + [x.(end := y.end)] + b, 0, END)
    ensures Live(a + [x.(end := y.end)] + b) == Live(a + [x, y] + b)
    ensures UsedSum(a + [x.(end := y.end)] + b) == UsedSum(a + [x, y] + b)
    ensures Lowest(a + [x.(end := y.end)] + b, END) == Lowest(a + [x, y] + b, END)
  {
    var z := x.(end := y.end);
    TilesAround(a, [x, y], b);
    TilesAround(a, [z], b);
    SumsAround(a, [x, y], b);
    SumsAround(a, [z], b);
    LiveOne(x);
    LiveOne(z);
    LiveTwo(x, y);
    assert [x, y][1..] == [y] && [y][1..] == [] && [z][1..] == [];
  }

  lemma ForwardKeeps(a: seq<Block>, x: Block, b: seq<Block>)
    requires !x.used && Tiles(a + [x] + b, 0, END)
    ensures var bs, q := a + [x] + b, Forward(a, x, b);
      Tiles(q, 0, END) && Live(q) == Live(bs) && UsedSum(q) == UsedSum(bs) && Lowest(q, END) == Lowest(bs, END)
  {
    if b != [] && !b[0].used {
      assert a + [x, b[0]] + b[1..] == a + [x] + b;
      Joined(a, x, b[0], b[1..]);
    }
  }

  lemma BackwardKeeps(a: seq<Block>, x: Block, b: seq<Block>)
    requires !x.used && Tiles(a + [x] + b, 0, END)
    ensures var bs, q := a + [x] + b, Backward(a, x, b);
      Tiles(q, 0, END) && Live(q) == Live(bs) && UsedSum(q) == UsedSum(bs) && Lowest(q, END) == Lowest(bs, END)
  {
    if a != [] && !a[|a| - 1].used {
      var init, p := a[..|a| - 1], a[|a| - 1];
      assert init + [p, x] + b == a + [x] + b;
      Joined(init, p, x, b);
    }
  }

  lemma {:induction false} LowestBelow(bs: seq<Block>, from: nat, to: nat, none: nat)
    requires Tiles(bs, from, to) && to <= none
    ensures from <= Lowest(bs, none)
    ensures forall n: nat | to <= n :: Lowest(bs, n) == if Lowest(bs, none) < to then Lowest(bs, none) else n
    decreases |bs|
  {
    if bs != [] {
      Within(bs[1..], bs[0].end, to);
      LowestBelow(bs[1..], bs[0].end, to, none);
    }
  }

  lemma ReleasedLowest(bs: seq<Block>, k: nat)
    requires WellFormed(bs) && k < |bs| && bs[k].used
    ensures Lowest(Splice(bs, k, [bs[k].(used := false)]), END)
         == if bs[k].at < Lowest(bs, END) then bs[k].at else Lowest(bs, END)
  {
    var a, x, b := bs[..k], bs[k], bs[k + 1..];
    Around(bs, k);
    SumsAround(a, [x], b);
    SumsAround(a, [x.(used := false)], b);
    assert [x][1..] == [];
    Within(b, x.end, END);
    LowestBelow(a, 0, x.at, x.at);
    LowestBelow(b, x.end, END, END);
  }

  // A block becomes free, before its neighbours are looked at.
  lemma Released(bs: seq<Block>, k: nat)
    requires WellFormed(bs) && k < |bs| && bs[k].used
    ensures var x := bs[k];
      var q := Splice(bs, k, [x.(used := false)]);
      && Tiles(q, 0, END) && Live(q) == Live(bs) - {x.at} && UsedSum(q) == UsedSum(bs) - (x.end - x.at)
      && x.at in Live(bs) && Live(bs)[x.at] == x.end
      && Lowest(q, END) == if x.at < Lowest(bs, END) then x.at else Lowest(bs, END)
  {
    var x := bs[k];
    var y := x.(used := false);
    Around(bs, k);
    TilesAround(bs[..k], [y], bs[k + 1..]);
    assert [y][1..] == [];
    LiveAround(bs, k, [y], x.end);
    LiveOne(y);
    MapAround(Live(bs[..k]), Live(bs[k + 1..]), x.at, x.end);
    ReleasedLowest(bs, k);
  }

  lemma ApartInit(a: seq<Block>)
    requires Apart(a) && a != []
    ensures Apart(a[..|a| - 1]) && Meet(a[..|a| - 1], [a[|a| - 1]])
  {
    assert a[..|a| - 1] + [a[|a| - 1]] == a;
    ApartConcat(a[..|a| - 1], [a[|a| - 1]]);
  }

  lemma BackwardApart(a: seq<Block>, x: Block, b: seq<Block>)
    requires Apart(a) && Apart(b) && !x.used && Meet([x], b)
    ensures Apart(Backward(a, x, b))
  {
    if a != [] && !a[|a| - 1].used {
      ApartInit(a);
      ApartAround(a[..|a| - 1], [a[|a| - 1].(end := x.end)], b);
    } else {
      ApartAround(a, [x], b);
    }
  }

  lemma FreedApart(bs: seq<Block>, k: nat)
    requires WellFormed(bs) && k < |bs|
    ensures Apart(Freed(bs, k))
  {
    var a, x, b := bs[..k], bs[k].(used := false), bs[k + 1..];
    Around(bs, k);
    if b != [] && !b[0].used {
      assert b == [b[0]] + b[1..];
      ApartConcat([b[0]], b[1..]);
      BackwardApart(a, x.(end := b[0].end), b[1..]);
    } else {
      BackwardApart(a, x, b);
    }
  }

  // Freeing returns exactly one extent, and leaves no two free neighbours.
  lemma FreedKeeps(bs: seq<Block>, k: nat)
    requires WellFormed(bs) && k < |bs| && bs[k].used
    ensures WellFormed(Freed(bs, k))
    ensures Live(Freed(bs, k)) == Live(bs) - {bs[k].at}
    ensures UsedSum(Freed(bs, k)) == UsedSum(bs) - (bs[k].end - bs[k].at)
    ensures Lowest(Freed(bs, k), END) == if bs[k].at < Lowest(bs, END) then bs[k].at else Lowest(bs, END)
  {
    var a, x, b := bs[..k], bs[k].(used := false), bs[k + 1..];
    Released(bs, k);
    FreedApart(bs, k);
    if b != [] && !b[0].used {
      ForwardKeeps(a, x, b);
      BackwardKeeps(a, x.(end := b[0].end), b[1..]);
    } else {
      BackwardKeeps(a, x, b);
    }
  }

  lemma FreedBetween(a: seq<Block>, x: Block, b: seq<Block>)
    ensures Freed(a + ([x] + b), |a|)
         == if b != [] && !b[0].used then Backward(a, Block(x.at, b[0].end, false), b[1..])
            else Backward(a, x.(used := false), b)
  {
    var c := [x] + b;
    var q := a + c;
    assert c[1..] == b;
    assert q[..|a|] == a && q[|a|] == c[0] == x && q[|a| + 1..] == c[1..];
  }

  lemma AllocForm(bs: seq<Block>, k: nat, size: nat)
    requires k < |bs|
    ensures var mid := Taken(bs[k], size);
      Alloc(bs, k, size) == bs[..k] + ([mid[0]] + (mid[1..] + bs[k + 1..]))
  {
    var mid := Taken(bs[k], size);
    assert mid == [mid[0]] + mid[1..];
  }

  lemma BackwardStays(a: seq<Block>, x: Block, b: seq<Block>)
    requires Meet(a, [x]) && !x.used
    ensures Backward(a, x, b) == a + [x] + b
  {
  }

  // Freeing what malloc has just handed out restores the heap, block for block.
  lemma FreeUndoesAlloc(bs: seq<Block>, k: nat, size: nat)
    requires WellFormed(bs) && k < |bs| && Holds(bs[k], size)
    ensures Freed(Alloc(bs, k, size), k) == bs
  {
    var a, x, b := bs[..k], bs[k], bs[k + 1..];
    var mid := Taken(x, size);
    var c := mid[1..] + b;
    Around(bs, k);
    AllocForm(bs, k, size);
    FreedBetween(a, mid[0], c);
    BackwardStays(a, x, b);
    if |mid| == 2 {
      assert c[0] == mid[1] && c[1..] == b;
    } else {
      assert c == b;
    }
  }

  // ----- trim --------------------------------------------------------------------------------

  // Where the extent of block k ends after a trim.
  function TrimEnd(bs: seq<Block>, k: nat, size: nat): nat
    requires k < |bs| && size < bs[k].Size()
  {
    var nextFree := k + 1 < |bs| && !bs[k + 1].used;
    if nextFree || size + HEAD + MIN <= bs[k].Size() then bs[k].at + HEAD + size else bs[k].end
  }

  lemma MapChanged(a: map<nat, nat>, b: map<nat, nat>, at: nat, end: nat, cut: nat)
    requires at !in a && at !in b
    ensures a + map[at := cut] + b == (a + map[at := end] + b)[at := cut]
  {
  }

  // The extents and the count after a trim that leaves the free blocks `rest'` where `rest` was.
  lemma TrimLive(a: seq<Block>, x: Block, cut: nat, rest: seq<Block>, rest': seq<Block>, b: seq<Block>)
    requires x.used && x.at !in Live(a) && x.at !in Live(b)
    requires Live(rest) == Live(rest') == map[]
    ensures Live(a + ([x.(end := cut)] + rest') + b) == Live(a + ([x] + rest) + b)[x.at := cut]
  {
    var x' := x.(end := cut);
    SumsAround(a, [x] + rest, b);
    SumsAround(a, [x'] + rest', b);
    LiveConcat([x], rest);
    LiveConcat([x'], rest');
    LiveOne(x);
    LiveOne(x');
    assert map[x.at := cut] + map[] == map[x.at := cut] && map[x.at := x.end] + map[] == map[x.at := x.end];
    MapChanged(Live(a), Live(b), x.at, x.end, cut);
  }

  lemma TrimUsed(a: seq<Block>, x: Block, cut: nat, rest: seq<Block>, rest': seq<Block>, b: seq<Block>)
    requires x.used && UsedSum(rest) == UsedSum(rest')
    ensures UsedSum(a + ([x.(end := cut)] + rest') + b) == UsedSum(a + ([x] + rest) + b) - (x.end - cut)
  {
    var x' := x.(end := cut);
    SumsAround(a, [x] + rest, b);
    SumsAround(a, [x'] + rest', b);
    UsedConcat([x], rest);
    UsedConcat([x'], rest');
    LiveOne(x);
    LiveOne(x');
  }

  // From the blocks `was` to the blocks `now`, x is cut and what lies behind it is free.
  predicate Cut(was: seq<Block>, now: seq<Block>, a: seq<Block>, x: Block, cut: nat, rest: seq<Block>,
                rest': seq<Block>, b: seq<Block>)
  {
    was == a + ([x] + rest) + b && now == a + ([x.(end := cut)] + rest') + b
  }

  lemma CutCounts(was: seq<Block>, now: seq<Block>, a: seq<Block>, x: Block, cut: nat, rest: seq<Block>,
                  rest': seq<Block>, b: seq<Block>)
    requires Cut(was, now, a, x, cut, rest, rest', b)
    requires x.used && x.at !in Live(a) && x.at !in Live(b)
    requires Live(rest) == Live(rest') == map[] && UsedSum(rest) == UsedSum(rest')
    ensures Live(now) == Live(was)[x.at := cut] && UsedSum(now) == UsedSum(was) - (x.end - cut)
  {
    TrimLive(a, x, cut, rest, rest', b);
    TrimUsed(a, x, cut, rest, rest', b);
  }

  // The shape: the block x is cut, and what lies between the cut and `to` is free.
  lemma TrimShape(a: seq<Block>, x: Block, cut: nat, to: nat, b: seq<Block>)
    requires Tiles(a, 0, x.at) && Tiles(b, to, END) && Apart(a) && Apart(b)
    requires x.used && Meet([Block(cut, to, false)], b)
    requires x.at % ALIGN == cut % ALIGN == to % ALIGN == 0 && x.at + HEAD + MIN <= cut && cut + HEAD + MIN <= to
    ensures WellFormed(a + [x.(end := cut), Block(cut, to, false)] + b)
  {
    var mid := [x.(end := cut), Block(cut, to, false)];
    TilesEnd(a, 0, x.at);
    TakenShape(Block(x.at, to, false), cut - x.at - HEAD);
    assert Taken(Block(x.at, to, false), cut - x.at - HEAD) == mid;
    TilesAround(a, mid, b);
    ApartAround(a, mid, b);
  }

  lemma TwoLowest(a: seq<Block>, x: Block, y: Block, b: seq<Block>, from: nat, to: nat)
    requires x.used && !y.used && Tiles(a, 0, from) && from <= to == y.at
    ensures Lowest(a + [x, y] + b, END) == Lowest(a, to)
    ensures Lowest(a, to) < from || Lowest(a, to) == to
  {
    SumsAround(a, [x, y], b);
    assert [x, y][1..] == [y];
    LowestBelow(a, 0, from, from);
  }

  // The first case of mem_trim: the free block behind moves down.
  predicate NextFree(bs: seq<Block>, k: nat, size: nat) {
    && WellFormed(bs) && k + 1 < |bs| && bs[k].used && !bs[k + 1].used
    && MIN <= size < bs[k].Size() && size % ALIGN == 0
  }

  lemma NextFreeForm(bs: seq<Block>, k: nat, size: nat)
    requires NextFree(bs, k, size)
    ensures var x, y, b, cut := bs[k], bs[k + 1], bs[k + 2..], bs[k].at + HEAD + size;
      && Trimmed(bs, k, size) == bs[..k] + [x.(end := cut), y.(at := cut)] + b
      && bs == bs[..k] + [x, y] + b && bs[k + 1..] == [y] + b
      && y == Block(x.end, y.end, false) && x.at % ALIGN == 0
  {
    var x, y, b := bs[k], bs[k + 1], bs[k + 2..];
    assert bs[k + 1..] == [y] + b && ([y] + b)[0] == y && ([y] + b)[1..] == b;
    assert bs == bs[..k] + [x, y] + b;
    assert y == Block(x.end, y.end, false) && Tiles(bs[..k], 0, x.at) by { Around(bs, k); }
    assert x.at % ALIGN == 0 by { TilesEnd(bs[..k], 0, x.at); }
  }

  lemma NextFreeShape(bs: seq<Block>, k: nat, size: nat)
    requires NextFree(bs, k, size)
    ensures WellFormed(Trimmed(bs, k, size))
  {
    var a, x, y, b := bs[..k], bs[k], bs[k + 1], bs[k + 2..];
    NextFreeForm(bs, k, size);
    Around(bs, k);
    Around(bs, k + 1);
    assert Tiles(b, y.end, END) && Apart(b) && Meet([y], b) && y.end % ALIGN == 0;
    TrimShape(a, x, x.at + HEAD + size, y.end, b);
  }

  lemma NextFreeCounts(bs: seq<Block>, k: nat, size: nat)
    requires NextFree(bs, k, size)
    ensures var x, q, cut := bs[k], Trimmed(bs, k, size), bs[k].at + HEAD + size;
      && Live(q) == Live(bs)[x.at := cut] && UsedSum(q) == UsedSum(bs) - (x.end - cut)
  {
    var x, y, b, cut := bs[k], bs[k + 1], bs[k + 2..], bs[k].at + HEAD + size;
    var a, y' := bs[..k], y.(at := cut);
    assert Cut(bs, Trimmed(bs, k, size), a, x, cut, [y], [y'], b) && !y.used by {
      NextFreeForm(bs, k, size);
      assert [x] + [y] == [x, y] && [x.(end := cut)] + [y'] == [x.(end := cut), y'];
    }
    LiveOne(y);
    LiveOne(y');
    assert x.at !in Live(a) && x.at !in Live(b) by {
      NextFreeForm(bs, k, size);
      LiveAround(bs, k, [x], x.end);
      LiveConcat([y], b);
    }
    CutCounts(bs, Trimmed(bs, k, size), a, x, cut, [y], [y'], b);
  }

  lemma NextFreeLowest(bs: seq<Block>, k: nat, size: nat)
    requires NextFree(bs, k, size)
    ensures Lowest(Trimmed(bs, k, size), END)
         == if Lowest(bs, END) == bs[k + 1].at then bs[k].at + HEAD + size else Lowest(bs, END)
  {
    var a, x, y, b, cut := bs[..k], bs[k], bs[k + 1], bs[k + 2..], bs[k].at + HEAD + size;
    NextFreeForm(bs, k, size);
    Around(bs, k);
    TwoLowest(a, x, y, b, x.at, y.at);
    TwoLowest(a, x.(end := cut), y.(at := cut), b, x.at, cut);
    LowestBelow(a, 0, x.at, x.at);
  }

  // The second case: the block behind is in use, and what is cut off becomes a free block.
  predicate Splits(bs: seq<Block>, k: nat, size: nat) {
    && WellFormed(bs) && k < |bs| && bs[k].used && (k + 1 < |bs| ==> bs[k + 1].used)
    && MIN <= size && size + HEAD + MIN <= bs[k].Size() && size % ALIGN == 0
  }

  lemma SplitShape(bs: seq<Block>, k: nat, size: nat)
    requires Splits(bs, k, size)
    ensures WellFormed(Trimmed(bs, k, size)) && bs[k].at % ALIGN == 0
  {
    Around(bs, k);
    TilesEnd(bs[..k], 0, bs[k].at);
    TrimShape(bs[..k], bs[k], bs[k].at + HEAD + size, bs[k].end, bs[k + 1..]);
  }

  lemma SplitForm(bs: seq<Block>, k: nat, size: nat)
    requires Splits(bs, k, size)
    ensures var x, cut := bs[k], bs[k].at + HEAD + size;
      Cut(bs, Trimmed(bs, k, size), bs[..k], x, cut, [], [Block(cut, x.end, false)], bs[k + 1..])
  {
    var x, cut := bs[k], bs[k].at + HEAD + size;
    var x', y := x.(end := cut), Block(cut, x.end, false);
    assert [x] + [] == [x] && [x'] + [y] == [x', y];
  }

  lemma SplitCounts(bs: seq<Block>, k: nat, size: nat)
    requires Splits(bs, k, size)
    ensures var x, q, cut := bs[k], Trimmed(bs, k, size), bs[k].at + HEAD + size;
      && Live(q) == Live(bs)[x.at := cut] && UsedSum(q) == UsedSum(bs) - (x.end - cut)
  {
    var x, b, cut := bs[k], bs[k + 1..], bs[k].at + HEAD + size;
    var a, y := bs[..k], Block(cut, x.end, false);
    SplitForm(bs, k, size);
    LiveOne(y);
    assert x.at !in Live(a) && x.at !in Live(b) by { LiveAround(bs, k, [x], x.end); }
    CutCounts(bs, Trimmed(bs, k, size), a, x, cut, [], [y], b);
  }

  lemma SplitLowest(bs: seq<Block>, k: nat, cut: nat)
    requires WellFormed(bs) && k < |bs| && bs[k].used && bs[k].at <= cut <= bs[k].end
    ensures var x := bs[k];
      Lowest(bs[..k] + [x.(end := cut), Block(cut, x.end, false)] + bs[k + 1..], END)
      == if cut < Lowest(bs, END) then cut else Lowest(bs, END)
  {
    var a, x, b := bs[..k], bs[k], bs[k + 1..];
    Around(bs, k);
    SumsAround(a, [x], b);
    assert [x][1..] == [];
    Within(b, x.end, END);
    LowestBelow(a, 0, x.at, x.at);
    LowestBelow(b, x.end, END, END);
    TwoLowest(a, x.(end := cut), Block(cut, x.end, false), b, x.at, cut);
  }

  lemma ExtentOf(bs: seq<Block>, k: nat)
    requires WellFormed(bs) && k < |bs| && bs[k].used
    ensures Live(bs)[bs[k].at := bs[k].end] == Live(bs)
  {
    LiveAround(bs, k, [bs[k]], bs[k].end);
    MapAround(Live(bs[..k]), Live(bs[k + 1..]), bs[k].at, bs[k].end);
  }

  // Trimming shortens one extent, by what the statistic says, and changes no other.
  lemma TrimmedKeeps(bs: seq<Block>, k: nat, size: nat)
    requires WellFormed(bs) && k < |bs| && bs[k].used && MIN <= size < bs[k].Size() && size % ALIGN == 0
    ensures WellFormed(Trimmed(bs, k, size))
    ensures bs[k].at + HEAD + size <= TrimEnd(bs, k, size) <= bs[k].end
    ensures Live(Trimmed(bs, k, size)) == Live(bs)[bs[k].at := TrimEnd(bs, k, size)]
    ensures UsedSum(Trimmed(bs, k, size)) == UsedSum(bs) - (bs[k].end - TrimEnd(bs, k, size))
  {
    if k + 1 < |bs| && !bs[k + 1].used {
      NextFreeShape(bs, k, size);
      NextFreeCounts(bs, k, size);
    } else if size + HEAD + MIN <= bs[k].Size() {
      SplitShape(bs, k, size);
      SplitCounts(bs, k, size);
    } else {
      ExtentOf(bs, k);
    }
  }

  // ----- runs --------------------------------------------------------------------------------

  // The address of an operation is that of the struct mem.
  datatype Op = Malloc(size: nat) | Free(at: nat) | Trim(at: nat, size: nat)

  function IndexOf(bs: seq<Block>, at: nat): (k: nat)
    ensures k <= |bs|
    ensures k < |bs| ==> bs[k].at == at
  {
    if bs == [] || bs[0].at == at then 0 else 1 + IndexOf(bs[1..], at)
  }

  lemma {:induction false} LiveIndex(bs: seq<Block>, from: nat, to: nat, at: nat)
    requires Tiles(bs, from, to) && at in Live(bs)
    ensures var k := IndexOf(bs, at);
      k < |bs| && bs[k].used && Live(bs)[at] == bs[k].end
    decreases |bs|
  {
    Within(bs[1..], bs[0].end, to);
    if bs[0].at != at {
      LiveIndex(bs[1..], bs[0].end, to, at);
    }
  }

  // Only what malloc handed out is freed or trimmed.
  predicate Legal(bs: seq<Block>, op: Op) {
    op.Malloc? || op.at in Live(bs)
  }

  predicate Refused(bs: seq<Block>, size: nat) {
    size == 0 || Need(size) > END || FirstFit(bs, Need(size)) == |bs|
  }

  function Apply(bs: seq<Block>, op: Op): seq<Block>
    requires WellFormed(bs) && Legal(bs, op)
  {
    match op
    case Malloc(size) => if Refused(bs, size) then bs else Alloc(bs, FirstFit(bs, Need(size)), Need(size))
    case Free(at) => LiveIndex(bs, 0, END, at); Freed(bs, IndexOf(bs, at))
    case Trim(at, size) =>
      LiveIndex(bs, 0, END, at);
      var k := IndexOf(bs, at);
      if Need(size) > END || Need(size) >= bs[k].Size() then bs else Trimmed(bs, k, Need(size))
  }

  // The address an operation is about.
  function Subject(bs: seq<Block>, op: Op): nat
    requires WellFormed(bs) && Legal(bs, op)
  {
    if !op.Malloc? then op.at else if Refused(bs, op.size) then END else bs[FirstFit(bs, Need(op.size))].at
  }

  // One operation keeps the heap well formed and every other extent in use what it was; what
  // malloc hands out overlaps none of them.
  lemma OthersUntouched(bs: seq<Block>, op: Op)
    requires WellFormed(bs) && Legal(bs, op)
    ensures WellFormed(Apply(bs, op))
    ensures var s, was, now := Subject(bs, op), Live(bs), Live(Apply(bs, op));
      && (forall p | p != s :: p in now <==> p in was)
      && (forall p | p in was && p != s :: now[p] == was[p])
      && (op.Free? ==> s !in now)
      && (op.Trim? ==> s in now && now[s] <= was[s]
                       && (Need(op.size) <= was[s] - s - HEAD ==> s + HEAD + Need(op.size) <= now[s]))
      && (op.Malloc? && !Refused(bs, op.size) ==> s !in was && s in now && s + HEAD + Need(op.size) <= now[s] <= END)
  {
    match op
    case Malloc(size) =>
      if !Refused(bs, size) {
        FirstFitFits(bs, Need(size));
        AllocKeeps(bs, FirstFit(bs, Need(size)), Need(size));
      } else {
        Within(bs, 0, END);
      }
    case Free(at) =>
      LiveIndex(bs, 0, END, at);
      FreedKeeps(bs, IndexOf(bs, at));
    case Trim(at, size) =>
      LiveIndex(bs, 0, END, at);
      if Need(size) < bs[IndexOf(bs, at)].Size() {
        TrimmedKeeps(bs, IndexOf(bs, at), Need(size));
      }
  }

  // Extents in use never overlap.
  lemma {:induction false} ExtentsDisjoint(bs: seq<Block>, from: nat, to: nat, p: nat, q: nat)
    requires Tiles(bs, from, to) && p in Live(bs) && q in Live(bs) && p < q
    ensures Live(bs)[p] <= q
    decreases |bs|
  {
    Within(bs[1..], bs[0].end, to);
    if bs[0].at < p {
      ExtentsDisjoint(bs[1..], bs[0].end, to, p, q);
    } else {
      assert q in Live(bs[1..]);
    }
  }

  const INITIAL := [Block(0, END, false)]

  predicate Run(run: seq<seq<Block>>, ops: seq<Op>) {
    && |run| == |ops| + 1
    && run[0] == INITIAL
    && forall i | 0 <= i < |ops| :: WellFormed(run[i]) && Legal(run[i], ops[i]) ==> run[i + 1] == Apply(run[i], ops[i])
  }

  lemma {:induction false} UsedIsLive(bs: seq<Block>)
    ensures forall i | 0 <= i < |bs| && bs[i].used :: bs[i].at in Live(bs)
    decreases |bs|
  {
    if bs != [] {
      UsedIsLive(bs[1..]);
      assert forall i | 0 < i < |bs| :: bs[i] == bs[1..][i - 1];
    }
  }

  lemma NothingInUse(bs: seq<Block>)
    requires WellFormed(bs)
    ensures Live(bs) == map[] ==> bs == INITIAL
  {
    UsedIsLive(bs);
    if Live(bs) == map[] {
      assert |bs| == 1 && !bs[0].used;
      assert Tiles(bs[1..], bs[0].end, END) && bs[1..] == [];
      assert bs == [Block(0, END, false)];
    }
  }

  // Every sequence of operations on extents in use, from mem_init on, keeps the blocks tiling the
  // heap with no two free neighbours; and whenever nothing is in use any more, the heap is again
  // the one free block it was.
  lemma {:induction false} HeapInvariant(run: seq<seq<Block>>, ops: seq<Op>, n: nat)
    requires Run(run, ops) && n <= |ops|
    requires forall i | 0 <= i < n :: WellFormed(run[i]) ==> Legal(run[i], ops[i])
    ensures WellFormed(run[n])
    ensures Live(run[n]) == map[] ==> run[n] == INITIAL
    decreases n
  {
    if n == 0 {
      assert INITIAL[1..] == [];
    } else {
      HeapInvariant(run, ops, n - 1);
      OthersUntouched(run[n - 1], ops[n - 1]);
    }
    NothingInUse(run[n]);
  }

  // malloc gives up exactly when no free block holds the aligned size, and otherwise takes the one
  // with the lowest address.
  lemma LowestFit(bs: seq<Block>, size: nat)
    requires WellFormed(bs)
    ensures FirstFit(bs, size) == |bs| <==> (forall x | x in bs :: !Holds(x, size))
    ensures FirstFit(bs, size) < |bs| ==> forall x | x in bs && Holds(x, size) :: bs[FirstFit(bs, size)].at <= x.at
  {
    var k := FirstFit(bs, size);
    FirstFitFits(bs, size);
    if k < |bs| {
      assert bs[k] in bs;
      Around(bs, k);
      forall x | x in bs && Holds(x, size)
        ensures bs[k].at <= x.at
      {
        Within(bs[k + 1..], bs[k].end, END);
        assert x in bs[..k] || x == bs[k] || x in bs[k + 1..];
      }
    }
  }

  // What malloc hands out is as long as was asked for, exactly when aligning the size does not wrap
  // mem_size_t; when it does the smallest block will do, to malloc and to trim.
  lemma LargeEnough(size: nat)
    requires 0 < size < 0x1_0000
    ensures size <= Need(size) <==> size <= 0x1_0000 - ALIGN
    ensures size > 0x1_0000 - ALIGN ==> Need(size) == MIN
    ensures size <= 0x1_0000 - ALIGN ==> Need(size) == MIN || Need(size) < size + ALIGN
  {
  }

  const PBUF := 16    // SIZEOF_STRUCT_PBUF

  // LWIP_MEM_ALIGN_SIZE in the width of an int
  function Aligned(size: nat): nat {
    (size + ALIGN - 1) / ALIGN * ALIGN
  }

  lemma AlignedUp(size: nat)
    ensures size <= Aligned(size) < size + ALIGN && Aligned(size) % ALIGN == 0
  {
  }

  lemma NeedAligned(size: nat)
    requires size < 0x1_0000 && size % ALIGN == 0
    ensures Need(size) == if size < MIN then MIN else size
  {
    assert (size + ALIGN - 1) / ALIGN * ALIGN == size;
  }

  // What pbuf_alloc asks malloc for, in 16 bits: a struct pbuf with room for headers, and the data.
  function RamRequest(offset: nat, length: nat): nat {
    (Aligned(PBUF + offset) + Aligned(length)) % 0x1_0000
  }

  // A pbuf in RAM is refused, or its data fit behind its headers, exactly when the sum of the two
  // sizes does not pass 2^16.
  lemma RamLargeEnough(offset: nat, length: nat)
    requires offset <= 54 && length < 0x1_0000
    ensures RamRequest(offset, length) == 0 || Aligned(PBUF + offset) + length <= Need(RamRequest(offset, length))
       <==> Aligned(PBUF + offset) + Aligned(length) <= 0x1_0000
  {
    var sum, need := Aligned(PBUF + offset) + Aligned(length), RamRequest(offset, length);
    AlignedUp(PBUF + offset);
    AlignedUp(length);
    if sum < 0x1_0000 {
      assert need == sum;
      NeedAligned(sum);
    } else {
      assert need == sum - 0x1_0000;
      NeedAligned(need);
    }
  }
}
