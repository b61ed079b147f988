// Chains of packet buffers as one flat sequence of bytes (core/pbuf.c, TcpIp.c).
module PbufChains {
  import opened SeqNum

  const BUFSIZE := 1000    // PBUF_POOL_BUFSIZE, aligned

  // struct pbuf; `len` is the length of its data.
  datatype Pbuf = Pbuf(totLen: u16, data: seq<byte>)

  datatype Err = OK | ARG

  // Behind one another, the data of a chain.
  function Flat(c: seq<Pbuf>): seq<byte> {
    if c == [] then [] else c[0].data + Flat(c[1..])
  }

  // Every tot_len is the length of all the data from its pbuf on.
  predicate Sums(c: seq<Pbuf>) {
    c == [] || (c[0].totLen == |Flat(c)| && Sums(c[1..]))
  }

  // A single packet ends with the first pbuf whose len is its tot_len.
  predicate Packet(c: seq<Pbuf>) {
    c != [] && Sums(c) && (|c| > 1 ==> |c[0].data| < c[0].totLen && Packet(c[1..]))
  }

  // The same pbufs, with other data in them.
  predicate SameShape(c: seq<Pbuf>, d: seq<Pbuf>) {
    |c| == |d| && forall i | 0 <= i < |c| :: c[i].totLen == d[i].totLen && |c[i].data| == |d[i].data|
  }

  // ----- flat positions ----------------------------------------------------------------------

  // Where the data of pbuf i starts.
  function Start(c: seq<Pbuf>, i: nat): nat
    requires i <= |c|
  {
    |Flat(c[..i])|
  }

  lemma {:induction false} FlatConcat(a: seq<Pbuf>, b: seq<Pbuf>)
    ensures Flat(a + b) == Flat(a) + Flat(b)
    decreases |a|
  {
    var q := a + b;
    if a == [] {
      assert q == b;
    } else {
      assert q[0] == a[0] && q[1..] == a[1..] + b;
      FlatConcat(a[1..], b);
    }
  }

  lemma FlatOne(p: Pbuf)
    ensures Flat([p]) == p.data
  {
    assert [p][1..] == [];
    assert p.data + [] == p.data;
  }

  lemma ChainAt(c: seq<Pbuf>, i: nat)
    requires i < |c|
    ensures c == c[..i] + [c[i]] + c[i + 1..] && c[..i + 1] == c[..i] + [c[i]]
  {
  }

  lemma FlatAt(c: seq<Pbuf>, i: nat)
    requires i < |c|
    ensures Flat(c) == Flat(c[..i]) + c[i].data + Flat(c[i + 1..])
    ensures Start(c, i + 1) == Start(c, i) + |c[i].data| <= |Flat(c)|
  {
    ChainAt(c, i);
    FlatConcat(c[..i] + [c[i]], c[i + 1..]);
    FlatConcat(c[..i], [c[i]]);
    FlatOne(c[i]);
  }

  lemma WholeStart(c: seq<Pbuf>)
    ensures Start(c, |c|) == |Flat(c)| && Start(c, 0) == 0
  {
    assert c[..|c|] == c && c[..0] == [];
  }

  lemma SliceMiddle(front: seq<byte>, mid: seq<byte>, back: seq<byte>, off: nat, n: nat)
    requires off + n <= |mid|
    ensures (front + mid + back)[|front| + off..|front| + off + n] == mid[off..off + n]
  {
  }

  // Reading within one pbuf is reading the flat data.
  lemma FlatSlice(c: seq<Pbuf>, i: nat, off: nat, n: nat)
    requires i < |c| && off + n <= |c[i].data|
    ensures Start(c, i) + off + n <= |Flat(c)|
    ensures Flat(c)[Start(c, i) + off..Start(c, i) + off + n] == c[i].data[off..off + n]
  {
    var front, mid, back := Flat(c[..i]), c[i].data, Flat(c[i + 1..]);
    assert Flat(c) == front + mid + back by { FlatAt(c, i); }
    SliceMiddle(front, mid, back, off, n);
  }

  function Write(p: Pbuf, off: nat, b: seq<byte>): Pbuf
    requires off + |b| <= |p.data|
  {
    p.(data := p.data[..off] + b + p.data[off + |b|..])
  }

  // Bytes put over a flat sequence from a position on.
  function Over(flat: seq<byte>, at: nat, b: seq<byte>): seq<byte>
    requires at + |b| <= |flat|
  {
    flat[..at] + b + flat[at + |b|..]
  }

  lemma FlatReplaced(c: seq<Pbuf>, i: nat, x: Pbuf)
    requires i < |c|
    ensures Flat(c[i := x]) == Flat(c[..i]) + x.data + Flat(c[i + 1..])
  {
    var d := c[i := x];
    FlatAt(d, i);
    assert d[..i] == c[..i] && d[i + 1..] == c[i + 1..];
  }

  lemma OverMiddle(front: seq<byte>, was: seq<byte>, back: seq<byte>, off: nat, b: seq<byte>)
    requires off + |b| <= |was|
    ensures Over(front + was + back, |front| + off, b) == front + (was[..off] + b + was[off + |b|..]) + back
  {
    var w, now := front + was + back, was[..off] + b + was[off + |b|..];
    assert w[..|front| + off] == front + was[..off];
    assert w[|front| + off + |b|..] == was[off + |b|..] + back;
    assert front + was[..off] + b + (was[off + |b|..] + back) == front + now + back;
  }

  lemma WriteShape(c: seq<Pbuf>, i: nat, off: nat, b: seq<byte>)
    requires i < |c| && off + |b| <= |c[i].data|
    ensures SameShape(c, c[i := Write(c[i], off, b)])
  {
  }

  // Writing within one pbuf is writing the flat data.
  lemma FlatWrite(c: seq<Pbuf>, i: nat, off: nat, b: seq<byte>)
    requires i < |c| && off + |b| <= |c[i].data|
    ensures Start(c, i) + off + |b| <= |Flat(c)|
    ensures Flat(c[i := Write(c[i], off, b)]) == Over(Flat(c), Start(c, i) + off, b)
    ensures SameShape(c, c[i := Write(c[i], off, b)])
  {
    var front, was, back := Flat(c[..i]), c[i].data, Flat(c[i + 1..]);
    assert Flat(c) == front + was + back by { FlatAt(c, i); }
    assert Flat(c[i := Write(c[i], off, b)]) == front + (was[..off] + b + was[off + |b|..]) + back by {
      FlatReplaced(c, i, Write(c[i], off, b));
    }
    OverMiddle(front, was, back, off, b);
    WriteShape(c, i, off, b);
  }

  lemma {:induction false} WholeShape(c: seq<Pbuf>, d: seq<Pbuf>)
    requires SameShape(c, d)
    ensures |Flat(c)| == |Flat(d)| && (Packet(c) ==> Packet(d)) && (Sums(c) ==> Sums(d))
    decreases |c|
  {
    if c != [] {
      WholeShape(c[1..], d[1..]);
    }
  }

  lemma {:induction false} ShapeStart(c: seq<Pbuf>, d: seq<Pbuf>, i: nat)
    requires SameShape(c, d) && i <= |c|
    ensures Start(c, i) == Start(d, i) && |Flat(c)| == |Flat(d)|
    decreases i
  {
    WholeShape(c, d);
    WholeShape(c[..i], d[..i]);
  }

  // ----- pbuf_take ---------------------------------------------------------------------------

  // The pbuf to be filled next, and how much has been copied.
  datatype Cursor = Cursor(i: nat, copied: nat)

  ghost predicate Taking(buf: seq<Pbuf>, data: seq<byte>, r: seq<Pbuf>, at: Cursor) {
    match at
    case Cursor(i, copied) =>
      && i <= |buf| && copied <= |data| <= |Flat(buf)|
      && SameShape(buf, r) && Flat(r) == data[..copied] + Flat(buf)[copied..]
      && (copied == Start(buf, i) || copied == |data|)
  }

  // A prefix that has been overwritten gets longer.
  lemma Overwritten(flat: seq<byte>, data: seq<byte>, now: seq<byte>, at: nat, n: nat)
    requires at + n <= |data| <= |flat| && now == data[..at] + flat[at..]
    ensures Over(now, at, data[at..at + n]) == data[..at + n] + flat[at + n..]
  {
  }

  lemma TakeStep(buf: seq<Pbuf>, data: seq<byte>, r: seq<Pbuf>, i: nat, copied: nat)
    requires Taking(buf, data, r, Cursor(i, copied)) && copied != |data|
    ensures i < |r|
    ensures var n := Min(|data| - copied, |r[i].data|);
      Taking(buf, data, r[i := Write(r[i], 0, data[copied..copied + n])], Cursor(i + 1, copied + n))
  {
    WholeStart(buf);
    FlatAt(buf, i);
    ShapeStart(buf, r, i);
    var n := Min(|data| - copied, |r[i].data|);
    var r' := r[i := Write(r[i], 0, data[copied..copied + n])];
    assert SameShape(r, r') && Flat(r') == data[..copied + n] + Flat(buf)[copied + n..] by {
      FlatWrite(r, i, 0, data[copied..copied + n]);
      Overwritten(Flat(buf), data, Flat(r), copied, n);
    }
  }

  // One round: what fits into pbuf i.
  method TakeInto(buf: seq<Pbuf>, data: seq<byte>, r: seq<Pbuf>, i: nat, copied: nat) returns (r': seq<Pbuf>, n: nat)
    requires Taking(buf, data, r, Cursor(i, copied)) && copied != |data|
    ensures i < |buf| && Taking(buf, data, r', Cursor(i + 1, copied + n))
  {
    TakeStep(buf, data, r, i, copied);
    n := Min(|data| - copied, |r[i].data|);
    r' := r[i := Write(r[i], 0, data[copied..copied + n])];
  }

  lemma TakeStarts(buf: seq<Pbuf>, data: seq<byte>)
    requires |data| <= |Flat(buf)|
    ensures Taking(buf, data, buf, Cursor(0, 0))
  {
    WholeStart(buf);
    assert Flat(buf) == data[..0] + Flat(buf)[0..];
  }

  lemma TakeEnds(buf: seq<Pbuf>, data: seq<byte>, r: seq<Pbuf>, i: nat)
    requires Taking(buf, data, r, Cursor(i, |data|))
    ensures SameShape(buf, r) && Flat(r) == data + Flat(buf)[|data|..]
  {
    assert data[..|data|] == data;
  }

  // The copying loop.
  method TakeAll(buf: seq<Pbuf>, data: seq<byte>) returns (r: seq<Pbuf>)
    requires |data| <= |Flat(buf)|
    ensures SameShape(buf, r) && Flat(r) == data + Flat(buf)[|data|..]
  {
    r := buf;
    var i: nat, copied: nat, n: nat := 0, 0, 0;
    TakeStarts(buf, data);
    while copied != |data|
      invariant Taking(buf, data, r, Cursor(i, copied))
      decreases |buf| - i
    {
      r, n := TakeInto(buf, data, r, i, copied);
      i, copied := i + 1, copied + n;
    }
    TakeEnds(buf, data, r, i);
  }

  // Without a pbuf to fill, which it calls invalid, it returns 0 all the same: ERR_OK.
  method Take(buf: seq<Pbuf>, data: seq<byte>) returns (err: Err, r: seq<Pbuf>)
    requires Sums(buf)
    ensures err == ARG <==> buf != [] && |Flat(buf)| < |data|
    ensures err == ARG || buf == [] ==> r == buf
    ensures SameShape(buf, r) && Sums(r)
    ensures err == OK && buf != [] ==> Flat(r) == data + Flat(buf)[|data|..]
  {
    r, err := buf, OK;
    if buf != [] {
      if buf[0].totLen < |data| {
        err := ARG;
      } else {
        r := TakeAll(buf, data);
        WholeShape(buf, r);
      }
    }
  }

  // ----- pbuf_copy_partial -------------------------------------------------------------------

  // At position `at` of the flat data either nothing has been copied yet and `off` is what is left
  // to skip, or `data` is what lies behind the offset.
  predicate Copying(flat: seq<byte>, at: nat, len: nat, offset: nat, data: seq<byte>, off: nat, left: nat) {
    && left + |data| == len && at <= |flat|
    && if offset > at || (off != 0 && left != 0) then data == [] && at + off == offset
       else off == 0 && offset + |data| <= |flat| && data == flat[offset..offset + |data|]
            && (offset + |data| == at || left == 0)
  }

  lemma Joined(flat: seq<byte>, at: nat, m: nat, n: nat)
    requires at + m + n <= |flat|
    ensures flat[at..at + m] + flat[at + m..at + m + n] == flat[at..at + m + n]
  {
  }

  // A pbuf of `size` bytes is skipped ...
  lemma CopySkips(flat: seq<byte>, at: nat, size: nat, len: nat, offset: nat, data: seq<byte>, off: nat, left: nat)
    requires Copying(flat, at, len, offset, data, off, left) && left != 0 && at + size <= |flat|
    requires off != 0 && off >= size
    ensures Copying(flat, at + size, len, offset, data, off - size, left)
  {
  }

  // ... or read from `off` on.
  lemma CopyStep(flat: seq<byte>, at: nat, size: nat, len: nat, offset: nat, data: seq<byte>, off: nat, left: nat)
    requires Copying(flat, at, len, offset, data, off, left) && left != 0 && at + size <= |flat|
    requires off == 0 || off < size
    ensures var n := Min(size - off, left);
      0 <= n && Copying(flat, at + size, len, offset, data + flat[at + off..at + off + n], 0, left - n)
  {
    Joined(flat, offset, |data|, Min(size - off, left));
  }

  // All that is asked for has been read, or all that there is.
  lemma CopyEnds(flat: seq<byte>, at: nat, len: nat, offset: nat, data: seq<byte>, off: nat, left: nat)
    requires Copying(flat, at, len, offset, data, off, left) && (left == 0 || at == |flat|)
    ensures var from := Min(offset, |flat|); 0 <= from && data == flat[from..Min(from + len, |flat|)]
  {
    var from := Min(offset, |flat|);
    if offset > at || (off != 0 && left != 0) {
      assert data == [] && Min(from + len, |flat|) == from && flat[from..from] == [];
    } else {
      assert Min(from + len, |flat|) == offset + |data|;
    }
  }

  lemma SliceOf(flat: seq<byte>, at: nat, mid: seq<byte>, off: nat, n: nat)
    requires at + |mid| <= |flat| && mid == flat[at..at + |mid|] && off + n <= |mid|
    ensures mid[off..off + n] == flat[at + off..at + off + n]
  {
    var a, b := mid[off..off + n], flat[at + off..at + off + n];
    forall k | 0 <= k < n ensures a[k] == b[k] {
      assert mid[off + k] == flat[at + off + k];
    }
  }

  // One round, on the pbuf that holds the flat data from `at` on.
  method CopyFrom(x: Pbuf, data: seq<byte>, off: nat, left: nat, ghost flat: seq<byte>, ghost at: nat,
                  ghost len: nat, ghost offset: nat)
    returns (data': seq<byte>, off': nat, left': nat)
    requires Copying(flat, at, len, offset, data, off, left) && left != 0
    requires at + |x.data| <= |flat| && x.data == flat[at..at + |x.data|]
    ensures Copying(flat, at + |x.data|, len, offset, data', off', left')
  {
    if off != 0 && off >= |x.data| {
      CopySkips(flat, at, |x.data|, len, offset, data, off, left);
      data', off', left' := data, off - |x.data|, left;
    } else {
      CopyStep(flat, at, |x.data|, len, offset, data, off, left);
      var n := Min(|x.data| - off, left);
      SliceOf(flat, at, x.data, off, n);
      data', off', left' := data + x.data[off..off + n], 0, left - n;
    }
  }

  method CopyPartial(buf: seq<Pbuf>, len: nat, offset: nat) returns (data: seq<byte>)
    ensures var from, flat := Min(offset, |Flat(buf)|), Flat(buf);
      0 <= from && data == flat[from..Min(from + len, |flat|)]
  {
    data := [];
    var i: nat, off: nat, left: nat := 0, offset, len;
    ghost var flat, at: nat := Flat(buf), 0;
    assert Start(buf, 0) == 0 by { WholeStart(buf); }
    while left != 0 && i < |buf|
      invariant i <= |buf| && at == Start(buf, i) && Copying(flat, at, len, offset, data, off, left)
    {
      assert at + |buf[i].data| == Start(buf, i + 1) <= |flat| && flat[at..at + |buf[i].data|] == buf[i].data by {
        FlatAt(buf, i);
        FlatSlice(buf, i, 0, |buf[i].data|);
      }
      data, off, left := CopyFrom(buf[i], data, off, left, flat, at, len, offset);
      i, at := i + 1, at + |buf[i].data|;
    }
    assert i == |buf| ==> at == |flat| by { WholeStart(buf); }
    CopyEnds(flat, at, len, offset, data, off, left);
  }
}
