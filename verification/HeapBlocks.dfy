// The blocks of the heap of core/mem.c in address order, and what malloc, free and trim do to them.
module HeapBlocks {
  const END := 6144    // MEM_SIZE_ALIGNED
  const HEAD := 8      // SIZEOF_STRUCT_MEM
  const MIN := 12      // MIN_SIZE_ALIGNED
  const ALIGN := 4     // MEM_ALIGNMENT

  // One struct mem and the data behind it, up to the next struct mem.
  datatype Block = Block(at: nat, end: nat, used: bool) {
    function Size(): int { end - at - HEAD }
  }

  // The blocks lie end to end between two addresses, aligned, none too small.
  predicate Tiles(bs: seq<Block>, from: nat, to: nat) {
    if bs == [] then from == to
    else bs[0].at == from && from + HEAD + MIN <= bs[0].end && bs[0].end % ALIGN == 0 && Tiles(bs[1..], bs[0].end, to)
  }

  // No two neighbours are both free.
  predicate Apart(bs: seq<Block>) {
    |bs| < 2 || ((bs[0].used || bs[1].used) && Apart(bs[1..]))
  }

  predicate WellFormed(bs: seq<Block>) {
    Tiles(bs, 0, END) && Apart(bs)
  }

  // The address of the lowest free block, or else `none`.
  function Lowest(bs: seq<Block>, none: nat): nat {
    if bs == [] then none else if !bs[0].used then bs[0].at else Lowest(bs[1..], none)
  }

  // What the `used` statistic counts.
  function UsedSum(bs: seq<Block>): int {
    if bs == [] then 0 else (if bs[0].used then bs[0].end - bs[0].at else 0) + UsedSum(bs[1..])
  }

  // The extents of the used blocks: from each one's address to its end.
  function Live(bs: seq<Block>): map<nat, nat> {
    if bs == [] then map[] else (if bs[0].used then map[bs[0].at := bs[0].end] else map[]) + Live(bs[1..])
  }

  function LastEnd(bs: seq<Block>, from: nat): nat {
    if bs == [] then from else bs[|bs| - 1].end
  }

  // ----- requests ----------------------------------------------------------------------------

  // LWIP_MEM_ALIGN_SIZE of a 16-bit size, in 16 bits, and at least MIN_SIZE_ALIGNED.
  function Need(size: nat): (n: nat)
    ensures MIN <= n && n % ALIGN == 0
  {
    var aligned := (size + ALIGN - 1) / ALIGN * ALIGN % 0x1_0000;
    if aligned < MIN then MIN else aligned
  }

  predicate Holds(x: Block, size: nat) {
    !x.used && x.Size() >= size
  }

  function FirstFit(bs: seq<Block>, size: nat): (k: nat)
    ensures k <= |bs|
  {
    if bs == [] || Holds(bs[0], size) then 0 else 1 + FirstFit(bs[1..], size)
  }

  // A block is taken: split when the rest can be a block of its own.
  function Taken(x: Block, size: nat): seq<Block> {
    if x.Size() >= size + HEAD + MIN
    then [Block(x.at, x.at + HEAD + size, true), Block(x.at + HEAD + size, x.end, false)]
    else [x.(used := true)]
  }

  // The blocks before, at and after an index.
  function Splice(bs: seq<Block>, k: nat, mid: seq<Block>): seq<Block>
    requires k < |bs|
  {
    bs[..k] + mid + bs[k + 1..]
  }

  function Alloc(bs: seq<Block>, k: nat, size: nat): seq<Block>
    requires k < |bs|
  {
    Splice(bs, k, Taken(bs[k], size))
  }

  // plug_holes, forward: a free block swallows the free block behind it.
  function Forward(a: seq<Block>, x: Block, b: seq<Block>): seq<Block> {
    if b != [] && !b[0].used then a + [x.(end := b[0].end)] + b[1..] else a + [x] + b
  }

  // plug_holes, backward: it is swallowed by the free block before it.
  function Backward(a: seq<Block>, x: Block, b: seq<Block>): seq<Block> {
    if a != [] && !a[|a| - 1].used then a[..|a| - 1] + [a[|a| - 1].(end := x.end)] + b else a + [x] + b
  }

  function Freed(bs: seq<Block>, k: nat): seq<Block>
    requires k < |bs|
  {
    var x, b := bs[k].(used := false), bs[k + 1..];
    if b != [] && !b[0].used then Backward(bs[..k], x.(end := b[0].end), b[1..]) else Backward(bs[..k], x, b)
  }

  // The used block k shrinks to `size` bytes of data.
  function Trimmed(bs: seq<Block>, k: nat, size: nat): seq<Block>
    requires k < |bs| && size < bs[k].Size()
  {
    var x, b := bs[k], bs[k + 1..];
    var cut := x.at + HEAD + size;
    if b != [] && !b[0].used then bs[..k] + [x.(end := cut), b[0].(at := cut)] + b[1..]
    else if size + HEAD + MIN <= x.Size() then bs[..k] + [x.(end := cut), Block(cut, x.end, false)] + b
    else bs
  }

  // ----- concatenation -----------------------------------------------------------------------

  lemma {:induction false} TilesConcat(a: seq<Block>, b: seq<Block>, from: nat, to: nat)
    ensures Tiles(a + b, from, to) <==> Tiles(a, from, LastEnd(a, from)) && Tiles(b, LastEnd(a, from), to)
    decreases |a|
  {
    var q := a + b;
    if a == [] {
      assert q == b;
    } else {
      assert q[0] == a[0] && q[1..] == a[1..] + b;
      TilesConcat(a[1..], b, a[0].end, to);
      assert LastEnd(a[1..], a[0].end) == LastEnd(a, from);
    }
  }

  predicate Meet(a: seq<Block>, b: seq<Block>) {
    a == [] || b == [] || a[|a| - 1].used || b[0].used
  }

  lemma {:induction false} ApartConcat(a: seq<Block>, b: seq<Block>)
    ensures Apart(a + b) <==> Apart(a) && Apart(b) && Meet(a, b)
    decreases |a|
  {
    var q := a + b;
    if a == [] {
      assert q == b;
    } else {
      assert q[0] == a[0] && q[1..] == a[1..] + b;
      ApartConcat(a[1..], b);
      if |a| > 1 { assert q[1] == a[1]; } else if b != [] { assert q[1] == b[0]; }
    }
  }

  lemma {:induction false} LowestConcat(a: seq<Block>, b: seq<Block>, none: nat)
    ensures Lowest(a + b, none) == Lowest(a, Lowest(b, none))
    decreases |a|
  {
    var q := a + b;
    if a == [] {
      assert q == b;
    } else {
      assert q[0] == a[0] && q[1..] == a[1..] + b;
      LowestConcat(a[1..], b, none);
    }
  }

  lemma {:induction false} UsedConcat(a: seq<Block>, b: seq<Block>)
    ensures UsedSum(a + b) == UsedSum(a) + UsedSum(b)
    decreases |a|
  {
    var q := a + b;
    if a == [] {
      assert q == b;
    } else {
      assert q[0] == a[0] && q[1..] == a[1..] + b;
      UsedConcat(a[1..], b);
    }
  }

  lemma JoinMaps(a: map<nat, nat>, b: map<nat, nat>, c: map<nat, nat>)
    ensures a + (b + c) == a + b + c
  {
  }

  lemma {:induction false} LiveConcat(a: seq<Block>, b: seq<Block>)
    ensures Live(a + b) == Live(a) + Live(b)
    decreases |a|
  {
    var q := a + b;
    if a == [] {
      assert q == b;
    } else {
      assert q[0] == a[0] && q[1..] == a[1..] + b;
      LiveConcat(a[1..], b);
      var first := if a[0].used then map[a[0].at := a[0].end] else map[];
      JoinMaps(first, Live(a[1..]), Live(b));
    }
  }

  // Every block lies within the tiled stretch, and the used ones are the live extents.
  lemma {:induction false} Within(bs: seq<Block>, from: nat, to: nat)
    requires Tiles(bs, from, to)
    ensures from <= to
    ensures forall x | x in bs :: from <= x.at && x.at + HEAD + MIN <= x.end <= to
    ensures forall k | k in Live(bs) :: from <= k && k + HEAD + MIN <= Live(bs)[k] <= to
    decreases |bs|
  {
    if bs != [] {
      Within(bs[1..], bs[0].end, to);
      assert bs == [bs[0]] + bs[1..];
    }
  }
}
