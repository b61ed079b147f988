// 32-bit TCP sequence numbers (lwip/tcp_impl.h), and the unbounded numbers they stand for.
//
// Throughout the TCP modules a sequence number exists in two forms: the `u32` the code stores,
// and the unbounded integer a connection would use if the space never wrapped.  `Wrap` maps the
// second to the first.
module SeqNum {
  const MODULUS := 0x1_0000_0000
  const HALF := 0x8000_0000

  type u32 = x: int | 0 <= x < 0x1_0000_0000
  type u16 = x: int | 0 <= x < 0x1_0000
  newtype byte = x: int | 0 <= x < 0x100

  function Min(a: int, b: int): int {
    if a < b then a else b
  }

  function Wrap(x: int): u32 {
    x % MODULUS
  }

  function Wrap16(x: int): u16 {
    x % 0x1_0000
  }

  // (s32_t)(a - b): the signed distance every TCP_SEQ_* macro tests.
  function Diff(a: u32, b: u32): int {
    var d := Wrap(a - b);
    if d < HALF then d else d - MODULUS
  }

  // The unbounded number that `n` stands for, as comparisons with `at` read it.
  function Locate(at: int, n: u32): int {
    at + Diff(n, Wrap(at))
  }

  predicate SeqLt(a: u32, b: u32) { Diff(a, b) < 0 }

  predicate SeqLeq(a: u32, b: u32) { Diff(a, b) <= 0 }

  predicate SeqGt(a: u32, b: u32) { Diff(a, b) > 0 }

  predicate SeqGeq(a: u32, b: u32) { Diff(a, b) >= 0 }

  predicate SeqBetween(a: u32, b: u32, c: u32) {
    SeqGeq(a, b) && SeqLeq(a, c)
  }

  lemma WrapShift(x: int, k: int)
    ensures Wrap(x + k * MODULUS) == Wrap(x)
  {
  }

  // The signed distance of two wrapped numbers is the true distance, exactly when the true
  // distance is representable in 32 signed bits.
  lemma DiffWrap(x: int, y: int)
    ensures Diff(Wrap(x), Wrap(y)) == x - y <==> -HALF <= x - y < HALF
  {
    var qx, qy := x / MODULUS, y / MODULUS;
    assert Wrap(x) - Wrap(y) == (x - y) - (qx - qy) * MODULUS;
    WrapShift(x - y, -(qx - qy));
  }

  // u32 arithmetic on a wrapped number is wrapped unbounded arithmetic.
  lemma WrapAdd(x: int, k: int)
    ensures Wrap(Wrap(x) + k) == Wrap(x + k)
  {
    WrapShift(Wrap(x) + k, x / MODULUS);
  }

  lemma WrapSub(x: int, y: int)
    ensures Wrap(Wrap(x) - Wrap(y)) == Wrap(x - y)
  {
    var w: int := Wrap(y);
    WrapAdd(x, -w);
    WrapShift(x - y, y / MODULUS);
  }

  // Comparisons read every number within half the sequence space, and read those right.
  lemma Located(at: int, n: u32)
    ensures Wrap(Locate(at, n)) == n
    ensures -HALF <= Locate(at, n) - at < HALF
  {
    var d, w: int := Diff(n, Wrap(at)), Wrap(at);
    WrapAdd(n - w, w);
    WrapAdd(at, d);
    if d < Wrap(n - w) { WrapShift(w + d, 1); }
  }

  lemma LocateWrap(at: int, x: int)
    ensures Locate(at, Wrap(x)) == x <==> -HALF <= x - at < HALF
  {
    DiffWrap(x, at);
  }

  // A 16-bit truncation of a difference that fits loses nothing.
  lemma SmallDiff(x: int, y: int)
    requires 0 <= x - y < 0x1_0000
    ensures Wrap(Wrap(x) - Wrap(y)) == x - y
    ensures Wrap16(Wrap(Wrap(x) - Wrap(y))) == x - y
  {
    WrapSub(x, y);
  }

  lemma Wrap16Shift(x: int, k: int)
    ensures Wrap16(x + k * 0x1_0000) == Wrap16(x)
  {
  }

  lemma Wrap16Sub(x: int, a: int, b: int)
    ensures Wrap16(Wrap16(x - a) - b) == Wrap16(x - (a + b))
  {
    var q := (x - a) / 0x1_0000;
    assert Wrap16(x - a) - b == (x - (a + b)) + (-q) * 0x1_0000;
    Wrap16Shift(x - (a + b), -q);
  }

  lemma WrapTo16(x: int)
    ensures Wrap16(Wrap(x)) == Wrap16(x)
  {
    var q := x / MODULUS;
    assert Wrap(x) == x + (-q * 0x1_0000) * 0x1_0000;
    Wrap16Shift(x, -q * 0x1_0000);
  }

  // A 16-bit length from `at` to `e`, as the code computes it.
  lemma Length16(e: int, at: int)
    ensures Wrap16(Wrap(Wrap(e) - Wrap(at))) == Wrap16(e - at)
  {
    WrapSub(e, at);
    WrapTo16(e - at);
  }
}
