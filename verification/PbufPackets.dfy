// Copying, shrinking, joining and filling whole packets (core/pbuf.c, TcpIp.c).
module PbufPackets {
  import opened SeqNum
  import opened PbufChains

  // ----- pbuf_copy ---------------------------------------------------------------------------

  // How far the copy has come: j and offFrom in the source, i and offTo in the target.
  ghost predicate Copied(to: seq<Pbuf>, from: seq<Pbuf>, r: seq<Pbuf>, i: nat, offTo: nat, j: nat, offFrom: nat) {
    && i <= |to| && j <= |from|
    && (if i < |to| then offTo <= |to[i].data| else offTo == 0)
    && (if j < |from| then offFrom <= |from[j].data| else offFrom == 0)
    && Start(to, i) + offTo == Start(from, j) + offFrom <= |Flat(from)| <= |Flat(to)|
    && SameShape(to, r)
    && Flat(r) == Flat(from)[..Start(from, j) + offFrom] + Flat(to)[Start(from, j) + offFrom..]
  }

  // The bytes of one step.
  lemma CopyChunk(to: seq<Pbuf>, from: seq<Pbuf>, r: seq<Pbuf>, i: nat, offTo: nat, j: nat, offFrom: nat, n: nat)
    requires Copied(to, from, r, i, offTo, j, offFrom) && i < |to| && j < |from|
    requires offTo + n <= |to[i].data| && offFrom + n <= |from[j].data|
    ensures var b := from[j].data[offFrom..offFrom + n];
      Copied(to, from, r[i := Write(r[i], offTo, b)], i, offTo + n, j, offFrom + n)
  {
    var c, b := Start(from, j) + offFrom, from[j].data[offFrom..offFrom + n];
    var r' := r[i := Write(r[i], offTo, b)];
    assert c + n <= |Flat(from)| && b == Flat(from)[c..c + n] by { FlatSlice(from, j, offFrom, n); }
    assert Start(r, i) + offTo == c && |Flat(r)| == |Flat(to)| by { ShapeStart(to, r, i); }
    assert SameShape(r, r') && Flat(r') == Over(Flat(r), c, b) by { FlatWrite(r, i, offTo, b); }
    Overwritten(Flat(to), Flat(from), Flat(r), c, n);
  }

  lemma NextFrom(to: seq<Pbuf>, from: seq<Pbuf>, r: seq<Pbuf>, i: nat, offTo: nat, j: nat, offFrom: nat)
    requires Copied(to, from, r, i, offTo, j, offFrom) && j < |from| && offFrom == |from[j].data|
    ensures Copied(to, from, r, i, offTo, j + 1, 0)
  {
    FlatAt(from, j);
  }

  lemma NextTo(to: seq<Pbuf>, from: seq<Pbuf>, r: seq<Pbuf>, i: nat, offTo: nat, j: nat, offFrom: nat)
    requires Copied(to, from, r, i, offTo, j, offFrom) && i < |to| && offTo == |to[i].data|
    ensures Copied(to, from, r, i + 1, 0, j, offFrom)
  {
    FlatAt(to, i);
  }

  // The source is at a pbuf with data left, or at the start of a later one.
  predicate Ready(from: seq<Pbuf>, j: nat, offFrom: nat) {
    j >= |from| || offFrom < |from[j].data| || (0 < j && offFrom == 0)
  }

  lemma {:induction false} TailNotEmpty(c: seq<Pbuf>, j: nat)
    requires Packet(c) && 0 < j < |c|
    ensures Start(c, j) < |Flat(c)|
    decreases j
  {
    var rest := c[1..];
    assert c[..j] == [c[0]] + rest[..j - 1];
    FlatConcat([c[0]], rest[..j - 1]);
    FlatOne(c[0]);
    if j > 1 {
      TailNotEmpty(rest, j - 1);
    } else {
      assert rest[..0] == [];
    }
  }

  // When the target is used up, so is the source: a packet does not end with empty pbufs.
  lemma NoneLeft(to: seq<Pbuf>, from: seq<Pbuf>, r: seq<Pbuf>, j: nat, offFrom: nat)
    requires Copied(to, from, r, |to|, 0, j, offFrom) && Packet(from) && Ready(from, j, offFrom)
    ensures j == |from|
  {
    WholeStart(to);
    if j < |from| {
      FlatAt(from, j);
      if 0 < j { TailNotEmpty(from, j); } else { WholeStart(from); }
    }
  }

  // lwIP's test for the end of a packet, on the pbuf that comes next.
  predicate QueueAhead(c: seq<Pbuf>, i: nat) {
    i < |c| && |c[i].data| == c[i].totLen && i + 1 < |c|
  }

  lemma {:induction false} NoQueue(c: seq<Pbuf>, i: nat)
    requires Packet(c)
    ensures !QueueAhead(c, i)
    decreases i
  {
    if 0 < i < |c| { NoQueue(c[1..], i - 1); }
  }

  datatype CopyErr = DONE | BADARG | QUEUE

  // Moving on to the next pbuf of the source, or of the target, where one is used up.
  method NextPbufs(to: seq<Pbuf>, from: seq<Pbuf>, r: seq<Pbuf>, i: nat, offTo: nat, j: nat, offFrom: nat)
    returns (i': nat, offTo': nat, j': nat, offFrom': nat)
    requires Copied(to, from, r, i, offTo, j, offFrom) && i < |to| && j < |from|
    ensures Copied(to, from, r, i', offTo', j', offFrom')
    ensures if offFrom == |from[j].data| then j' == j + 1 && offFrom' == 0 else j' == j && offFrom' == offFrom
    ensures if offTo == |to[i].data| then i' == i + 1 && offTo' == 0 else i' == i && offTo' == offTo
  {
    i', offTo', j', offFrom' := i, offTo, j, offFrom;
    if offFrom' >= |from[j].data| {
      NextFrom(to, from, r, i', offTo', j', offFrom');
      offFrom', j' := 0, j + 1;
    }
    if offTo' == |r[i].data| {
      NextTo(to, from, r, i', offTo', j', offFrom');
      offTo', i' := 0, i + 1;
    }
  }

  // One round of the loop: what fits of the current source pbuf into the current target pbuf.
  method CopyOnce(to: seq<Pbuf>, from: seq<Pbuf>, r: seq<Pbuf>, i: nat, offTo: nat, j: nat, offFrom: nat)
    returns (r': seq<Pbuf>, i': nat, offTo': nat, j': nat, offFrom': nat)
    requires Copied(to, from, r, i, offTo, j, offFrom) && i < |to| && j < |from|
    ensures Copied(to, from, r', i', offTo', j', offFrom') && Ready(from, j', offFrom')
    ensures i <= i' <= i + 1 && j <= j' <= j + 1 && i + j < i' + j'
  {
    var n := if |r[i].data| - offTo >= |from[j].data| - offFrom then |from[j].data| - offFrom else |r[i].data| - offTo;
    CopyChunk(to, from, r, i, offTo, j, offFrom, n);
    r' := r[i := Write(r[i], offTo, from[j].data[offFrom..offFrom + n])];
    i', offTo', j', offFrom' := NextPbufs(to, from, r', i, offTo + n, j, offFrom + n);
  }

  lemma CopyStarts(to: seq<Pbuf>, from: seq<Pbuf>)
    requires Sums(to) && Sums(from) && to != [] && from != [] && from[0].totLen <= to[0].totLen
    ensures Copied(to, from, to, 0, 0, 0, 0)
  {
    WholeStart(to);
    WholeStart(from);
    assert Flat(from)[..0] + Flat(to)[0..] == Flat(to);
  }

  lemma WholeTaken(flat: seq<byte>, data: seq<byte>, n: nat)
    requires n == |data| <= |flat|
    ensures data[..n] + flat[n..] == data + flat[|data|..]
  {
  }

  lemma CopyEnded(to: seq<Pbuf>, from: seq<Pbuf>, r: seq<Pbuf>, i: nat, offTo: nat)
    requires Copied(to, from, r, i, offTo, |from|, 0)
    ensures SameShape(to, r) && |Flat(from)| <= |Flat(to)| && Flat(r) == Flat(from) + Flat(to)[|Flat(from)|..]
  {
    var c := Start(from, |from|);
    assert c == |Flat(from)| by { WholeStart(from); }
    WholeTaken(Flat(to), Flat(from), c);
  }

  // Only where one of the two is no packet does the copying stop before the source is used up.
  lemma NoPacket(to: seq<Pbuf>, from: seq<Pbuf>, r: seq<Pbuf>, i: nat, offTo: nat, j: nat, offFrom: nat)
    requires Copied(to, from, r, i, offTo, j, offFrom) && Ready(from, j, offFrom)
    requires (i == |to| && j < |from|) || QueueAhead(from, j) || QueueAhead(to, i)
    ensures !(Packet(to) && Packet(from))
  {
    if Packet(to) && Packet(from) {
      NoQueue(from, j);
      NoQueue(to, i);
      if i == |to| { NoneLeft(to, from, r, j, offFrom); }
    }
  }

  // The loop, on a source that the target has room for.
  method CopyAll(to: seq<Pbuf>, from: seq<Pbuf>) returns (err: CopyErr, r: seq<Pbuf>)
    requires Sums(to) && Sums(from) && to != [] && from != [] && from[0].totLen <= to[0].totLen
    ensures Packet(to) && Packet(from) ==> err == DONE
    ensures SameShape(to, r)
    ensures err == DONE ==> |Flat(from)| <= |Flat(to)| && Flat(r) == Flat(from) + Flat(to)[|Flat(from)|..]
  {
    r := to;
    var i: nat, offTo: nat, j: nat, offFrom: nat := 0, 0, 0, 0;
    CopyStarts(to, from);
    while j < |from|
      invariant Copied(to, from, r, i, offTo, j, offFrom) && (j < |from| ==> i < |to|)
      decreases |from| - j + |to| - i
    {
      r, i, offTo, j, offFrom := CopyOnce(to, from, r, i, offTo, j, offFrom);
      if i == |to| && j < |from| {
        NoPacket(to, from, r, i, offTo, j, offFrom);
        return BADARG, r;
      }
      if QueueAhead(from, j) || QueueAhead(to, i) {
        NoPacket(to, from, r, i, offTo, j, offFrom);
        return QUEUE, r;
      }
    }
    CopyEnded(to, from, r, i, offTo);
    err := DONE;
  }

  // pbuf_copy: the data of one packet go to the front of another that is large enough.
  method Copy(to: seq<Pbuf>, from: seq<Pbuf>) returns (err: CopyErr, r: seq<Pbuf>)
    requires Sums(to) && Sums(from)
    ensures to == [] || from == [] || |Flat(to)| < |Flat(from)| ==> err == BADARG && r == to
    ensures Packet(to) && Packet(from) && |Flat(from)| <= |Flat(to)| ==> err == DONE && Packet(r)
    ensures SameShape(to, r)
    ensures err == DONE ==> |Flat(from)| <= |Flat(to)| && Flat(r) == Flat(from) + Flat(to)[|Flat(from)|..]
  {
    if to == [] || from == [] || to[0].totLen < from[0].totLen {
      return BADARG, to;
    }
    err, r := CopyAll(to, from);
    WholeShape(to, r);
  }

  // ----- pbuf_realloc ------------------------------------------------------------------------

  // The first n bytes of a chain, in as few of its pbufs as hold them.
  function Truncated(c: seq<Pbuf>, n: u16): seq<Pbuf>
    requires n <= |Flat(c)| && c != []
  {
    if n <= |c[0].data| then [Pbuf(n, c[0].data[..n])] else [c[0].(totLen := n)] + Truncated(c[1..], n - |c[0].data|)
  }

  lemma {:induction false} TruncatedFlat(c: seq<Pbuf>, n: u16)
    requires n <= |Flat(c)| && c != []
    ensures Flat(Truncated(c, n)) == Flat(c)[..n] && Packet(Truncated(c, n))
    decreases |c|
  {
    var r := Truncated(c, n);
    if n <= |c[0].data| {
      FlatOne(r[0]);
      assert r[1..] == [];
    } else {
      TruncatedFlat(c[1..], n - |c[0].data|);
      assert r[1..] == Truncated(c[1..], n - |c[0].data|);
    }
  }

  // The pbufs before q have their new lengths; `rem` bytes are to stay from q on.
  ghost predicate Shrinking(c: seq<Pbuf>, newLen: u16, r: seq<Pbuf>, q: nat, rem: u16, grow: int)
    requires c != [] && newLen <= |Flat(c)|
  {
    && q < |c| == |r| && r[q..] == c[q..] && rem == |Flat(c[q..])| + grow && grow < 0 && Sums(c[q..])
    && r[..q] + Truncated(c[q..], rem) == Truncated(c, newLen)
  }

  // A 16-bit length that takes a negative difference as a 16-bit number.
  lemma GrowFits(totLen: u16, grow: int, rem: u16)
    requires totLen + grow == rem
    ensures Wrap16(totLen + Wrap16(grow)) == rem
  {
    Wrap16Sub(grow, 0, -(totLen as int));
  }

  lemma Carried(r: seq<Pbuf>, q: nat, x: Pbuf, tail: seq<Pbuf>)
    requires q < |r|
    ensures r[q := x][..q + 1] + tail == r[..q] + ([x] + tail)
  {
    assert r[q := x][..q + 1] == r[..q] + [x];
  }

  lemma ShrinkStep(c: seq<Pbuf>, newLen: u16, r: seq<Pbuf>, q: nat, rem: u16, grow: int)
    requires c != [] && newLen <= |Flat(c)| && Shrinking(c, newLen, r, q, rem, grow) && |r[q].data| < rem
    ensures Wrap16(r[q].totLen + Wrap16(grow)) == rem
    ensures Shrinking(c, newLen, r[q := r[q].(totLen := rem)], q + 1, rem - |r[q].data|, grow)
  {
    var rest, x := c[q..], r[q].(totLen := rem);
    var r' := r[q := x];
    assert r[q] == r[q..][0] == rest[0] && rest[1..] == c[q + 1..];
    GrowFits(r[q].totLen, grow, rem);
    var tail := Truncated(c[q + 1..], rem - |x.data|);
    assert r'[..q + 1] + tail == Truncated(c, newLen) by {
      assert Truncated(rest, rem) == [x] + tail;
      Carried(r, q, x, tail);
    }
    assert r'[q + 1..] == c[q + 1..] by { assert r'[q + 1..] == r[q..][1..]; }
  }

  lemma ShrinkEnd(c: seq<Pbuf>, newLen: u16, r: seq<Pbuf>, q: nat, rem: u16, grow: int)
    requires c != [] && newLen <= |Flat(c)| && Shrinking(c, newLen, r, q, rem, grow) && rem <= |r[q].data|
    ensures r[q := Pbuf(rem, r[q].data[..rem])][..q + 1] == Truncated(c, newLen)
  {
    var x := Pbuf(rem, r[q].data[..rem]);
    assert r[q] == r[q..][0] == c[q..][0];
    assert r[q := x][..q + 1] == r[..q] + [x];
  }

  method Shrink(c: seq<Pbuf>, newLen: u16) returns (r: seq<Pbuf>, freed: nat)
    requires Sums(c) && c != [] && newLen < c[0].totLen
    ensures r == Truncated(c, newLen) && |r| + freed == |c|
  {
    r := c;
    var grow := newLen - c[0].totLen;
    var rem: u16, q: nat := newLen, 0;
    assert c[0..] == c;
    while rem > |r[q].data|
      invariant Shrinking(c, newLen, r, q, rem, grow)
      decreases |c| - q
    {
      ShrinkStep(c, newLen, r, q, rem, grow);
      var len, tot := |r[q].data|, Wrap16(r[q].totLen + Wrap16(grow));
      r := r[q := r[q].(totLen := tot)];
      rem, q := rem - len, q + 1;
    }
    ShrinkEnd(c, newLen, r, q, rem, grow);
    r := r[q := Pbuf(rem, r[q].data[..rem])];
    freed := |r| - (q + 1);
    r := r[..q + 1];
  }

  // `freed` is how many pbufs at the end are given to pbuf_free.
  method Realloc(c: seq<Pbuf>, newLen: u16) returns (r: seq<Pbuf>, freed: nat)
    requires Sums(c) && c != []
    ensures if newLen >= |Flat(c)| then r == c && freed == 0
            else r == Truncated(c, newLen) && Flat(r) == Flat(c)[..newLen] && Packet(r)
    ensures |r| + freed == |c|
  {
    r, freed := c, 0;
    if newLen >= c[0].totLen {
      return;
    }
    r, freed := Shrink(c, newLen);
    TruncatedFlat(c, newLen);
  }

  // ----- pbuf_cat ----------------------------------------------------------------------------

  function Lengthened(h: seq<Pbuf>, n: u16): (r: seq<Pbuf>)
    ensures |r| == |h|
  {
    if h == [] then [] else [h[0].(totLen := Wrap16(h[0].totLen + n))] + Lengthened(h[1..], n)
  }

  lemma {:induction false} LengthenedFlat(h: seq<Pbuf>, n: u16)
    ensures Flat(Lengthened(h, n)) == Flat(h)
    decreases |h|
  {
    if h != [] { LengthenedFlat(h[1..], n); }
  }

  lemma CatFlat(h: seq<Pbuf>, t: seq<Pbuf>, n: u16)
    ensures Flat(Lengthened(h, n) + t) == Flat(h) + Flat(t)
  {
    LengthenedFlat(h, n);
    FlatConcat(Lengthened(h, n), t);
  }

  lemma {:induction false} CatSums(h: seq<Pbuf>, t: seq<Pbuf>)
    requires Sums(h) && Sums(t) && t != []
    ensures Sums(Lengthened(h, t[0].totLen) + t) <==> h == [] || |Flat(h)| + |Flat(t)| < 0x1_0000
    decreases |h|
  {
    var n := t[0].totLen;
    var r := Lengthened(h, n) + t;
    if h == [] {
      assert r == t;
    } else {
      CatSums(h[1..], t);
      assert r[1..] == Lengthened(h[1..], n) + t;
      assert r[0].totLen == Wrap16(h[0].totLen + n);
      assert |Flat(r)| == |Flat(h)| + |Flat(t)| by { CatFlat(h, t, n); }
    }
  }

  ghost predicate Lengthening(h: seq<Pbuf>, n: u16, r: seq<Pbuf>, i: nat)
    requires i <= |h|
  {
    |r| == |h| && r[i..] == h[i..] && r[..i] + Lengthened(h[i..], n) == Lengthened(h, n)
  }

  lemma LengthenStep(h: seq<Pbuf>, n: u16, r: seq<Pbuf>, i: nat)
    requires i < |h| && Lengthening(h, n, r, i)
    ensures Lengthening(h, n, r[i := r[i].(totLen := Wrap16(r[i].totLen + n))], i + 1)
  {
    var x := r[i].(totLen := Wrap16(r[i].totLen + n));
    var r' := r[i := x];
    assert h[i..][1..] == h[i + 1..] && r[i] == r[i..][0] == h[i..][0];
    Carried(r, i, x, Lengthened(h[i + 1..], n));
    assert r'[i + 1..] == r[i..][1..];
  }

  // The walk to the last pbuf of the first chain.
  method Lengthen(h: seq<Pbuf>, n: u16) returns (r: seq<Pbuf>)
    ensures r == Lengthened(h, n)
  {
    r := h;
    var i := 0;
    assert h[0..] == h;
    while i < |h|
      invariant 0 <= i <= |h| && Lengthening(h, n, r, i)
    {
      LengthenStep(h, n, r, i);
      r := r[i := r[i].(totLen := Wrap16(r[i].totLen + n))];
      i := i + 1;
    }
    assert h[i..] == [] && r[..i] + [] == r;
  }

  // The lengths stay right exactly when the whole fits 16 bits.
  method Cat(h: seq<Pbuf>, t: seq<Pbuf>) returns (r: seq<Pbuf>)
    requires Sums(h) && Sums(t)
    ensures if h == [] || t == [] then r == h
            else Flat(r) == Flat(h) + Flat(t) && |r| == |h| + |t| && (Sums(r) <==> |Flat(h)| + |Flat(t)| < 0x1_0000)
  {
    r := h;
    if h == [] || t == [] {
      return;
    }
    CatFlat(h, t, t[0].totLen);
    CatSums(h, t);
    r := Lengthen(h, t[0].totLen);
    r := r + t;
  }

  // ----- frames from the driver --------------------------------------------------------------

  // A chain of the pool for n bytes: full buffers, and what is left in the last one.
  predicate Pooled(c: seq<Pbuf>, n: nat) {
    c != [] && c[0].totLen == n && |c[0].data| == Min(n, BUFSIZE)
    && if n <= BUFSIZE then |c| == 1 else Pooled(c[1..], n - BUFSIZE)
  }

  // The full buffers at its front.
  predicate Partial(c: seq<Pbuf>, n: nat, rem: nat) {
    if c == [] then n == rem
    else c[0].totLen == n && |c[0].data| == BUFSIZE && BUFSIZE < n && Partial(c[1..], n - BUFSIZE, rem)
  }

  lemma {:induction false} PartialShorter(c: seq<Pbuf>, n: nat, rem: nat)
    requires Partial(c, n, rem)
    ensures n == |c| * BUFSIZE + rem
    decreases |c|
  {
    if c != [] { PartialShorter(c[1..], n - BUFSIZE, rem); }
  }

  lemma {:induction false} PartialStep(c: seq<Pbuf>, n: nat, rem: nat, x: Pbuf)
    requires Partial(c, n, rem) && x.totLen == rem && |x.data| == Min(rem, BUFSIZE)
    ensures if rem <= BUFSIZE then Pooled(c + [x], n) else Partial(c + [x], n, rem - BUFSIZE)
    decreases |c|
  {
    var d := c + [x];
    if c == [] {
      assert d == [x] && d[1..] == [];
    } else {
      PartialStep(c[1..], n - BUFSIZE, rem, x);
      assert d[1..] == c[1..] + [x];
      PartialShorter(c, n, rem);
    }
  }

  function BuffersFor(n: nat): nat {
    if n <= BUFSIZE then 1 else 1 + BuffersFor(n - BUFSIZE)
  }

  lemma {:induction false} PooledPacket(c: seq<Pbuf>, n: nat)
    requires Pooled(c, n)
    ensures Packet(c) && |Flat(c)| == n && |c| == BuffersFor(n)
    decreases n
  {
    if n <= BUFSIZE {
      assert c == [c[0]];
      FlatOne(c[0]);
      assert c[1..] == [];
    } else {
      PooledPacket(c[1..], n - BUFSIZE);
    }
  }

  lemma BuffersSteps(n: nat, rem: nat, k: nat)
    requires k == 1 && rem == n - Min(n, BUFSIZE)
    ensures BuffersFor(n) == k + if rem == 0 then 0 else BuffersFor(rem)
  {
  }

  // A buffer of the pool; what is in it is left over from its last use.
  method FreshPbuf(totLen: u16, len: u16) returns (x: Pbuf)
    ensures x.totLen == totLen && |x.data| == len
  {
    assert |seq(len, _ => 0 as byte)| == len;
    var data: seq<byte> :| |data| == len;
    x := Pbuf(totLen, data);
  }

  // pbuf_alloc(PBUF_RAW, length, PBUF_POOL) with `free` buffers left in the pool; [] is NULL.
  method AllocPool(length: u16, free: nat) returns (c: seq<Pbuf>)
    ensures c == [] <==> free < BuffersFor(length)
    ensures c != [] ==> Pooled(c, length)
  {
    c := [];
    if free == 0 {
      return;
    }
    var len: u16 := Min(length, BUFSIZE);
    var x := FreshPbuf(length, len);
    PartialStep([], length, length, x);
    assert [] + [x] == [x];
    c := [x];
    var rem: int := length - len;
    BuffersSteps(length, rem, 1);
    while rem > 0
      invariant 0 <= rem <= length && c != [] && |c| <= free
      invariant if rem == 0 then Pooled(c, length) else Partial(c, length, rem)
      invariant BuffersFor(length) == |c| + if rem == 0 then 0 else BuffersFor(rem)
      decreases rem
    {
      if |c| == free {
        c := [];
        return;
      }
      len := Min(rem, BUFSIZE);
      x := FreshPbuf(rem, len);
      PartialStep(c, length, rem, x);
      c := c + [x];
      rem := rem - len;
    }
    PooledPacket(c, length);
  }

  // In a chain of the pool, buffer i holds what is left of the frame there, up to its size.
  lemma {:induction false} PooledAt(c: seq<Pbuf>, n: nat, i: nat)
    requires Pooled(c, n) && i < |c|
    ensures Start(c, i) == i * BUFSIZE <= n && |c[i].data| == Min(n - i * BUFSIZE, BUFSIZE)
    decreases i
  {
    if i == 0 {
      WholeStart(c);
    } else {
      PooledAt(c[1..], n - BUFSIZE, i - 1);
      assert c[..i] == [c[0]] + c[1..][..i - 1];
      FlatConcat([c[0]], c[1..][..i - 1]);
      FlatOne(c[0]);
    }
  }

  lemma RxStep(c: seq<Pbuf>, frame: seq<byte>, r: seq<Pbuf>, i: nat, pos: nat)
    requires Pooled(c, |frame|) && Taking(c, frame, r, Cursor(i, pos)) && pos < |frame| && pos == i * BUFSIZE && i < |r|
    ensures var n := Min(|frame| - pos, BUFSIZE);
      && |r[i].data| == n
      && Taking(c, frame, r[i := Write(r[i], 0, frame[pos..pos + n])], Cursor(i + 1, pos + n))
  {
    PooledAt(c, |frame|, i);
    TakeStep(c, frame, r, i, pos);
  }

  lemma FillEnds(c: seq<Pbuf>, frame: seq<byte>, r: seq<Pbuf>, i: nat, pos: nat)
    requires Pooled(c, |frame|) && Taking(c, frame, r, Cursor(i, pos)) && (i >= |r| || pos == |frame|)
    ensures Packet(r) && Flat(r) == frame && r != []
  {
    PooledPacket(c, |frame|);
    WholeStart(c);
    assert frame[..|frame|] == frame;
    WholeShape(c, r);
  }

  // One buffer is filled.
  method FillOne(c: seq<Pbuf>, frame: seq<byte>, r: seq<Pbuf>, i: nat, pos: nat, lenByte: nat)
    returns (r': seq<Pbuf>, n: nat)
    requires Pooled(c, |frame|) && Taking(c, frame, r, Cursor(i, pos)) && pos == i * BUFSIZE && i < |c|
    requires 0 < lenByte == |frame| - pos
    ensures n == Min(lenByte, BUFSIZE) && Taking(c, frame, r', Cursor(i + 1, pos + n))
  {
    RxStep(c, frame, r, i, pos);
    n := if BUFSIZE < lenByte then BUFSIZE else lenByte;
    r' := r[i := Write(r[i], 0, frame[pos..pos + n])];
  }

  // The copy loop of TcpIp_RxIndication.
  method Fill(c: seq<Pbuf>, frame: seq<byte>) returns (r: seq<Pbuf>)
    requires Pooled(c, |frame|)
    ensures Packet(r) && Flat(r) == frame && r != []
  {
    r := c;
    PooledPacket(c, |frame|);
    TakeStarts(c, frame);
    var i: nat, pos: nat, lenByte: nat, n: nat := 0, 0, |frame|, 0;
    while i < |r| && lenByte > 0
      invariant Taking(c, frame, r, Cursor(i, pos)) && lenByte == |frame| - pos
      invariant lenByte > 0 ==> pos == i * BUFSIZE
    {
      r, n := FillOne(c, frame, r, i, pos, lenByte);
      lenByte := if lenByte - BUFSIZE < 0 then 0 else lenByte - BUFSIZE;
      i, pos := i + 1, pos + n;
    }
    FillEnds(c, frame, r, i, pos);
  }

  // TcpIp_RxIndication: the chain that is handed to ethernet_input holds just the frame.
  method RxIndication(frame: seq<byte>, free: nat) returns (r: seq<Pbuf>)
    requires |frame| < 0x1_0000
    ensures r == [] <==> free < BuffersFor(|frame|)
    ensures r != [] ==> Packet(r) && Flat(r) == frame
  {
    r := AllocPool(|frame|, free);
    if r == [] {
      return;
    }
    r := Fill(r, frame);
  }
}
