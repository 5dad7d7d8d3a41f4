/**
 * The fixed-width integers, `max`, `clamp`, the counting range, the opaque
 * handle and the raw memory primitives of prelude.hpp, prelude.cpp and raw.cpp.
 */
module Prelude {

  const U8_LIMIT: int := 0x100
  const U16_LIMIT: int := 0x1_0000
  const U32_LIMIT: int := 0x1_0000_0000
  const U64_LIMIT: int := 0x1_0000_0000_0000_0000
  const U64_MAX: int := U64_LIMIT - 1
  const I32_MIN: int := -0x8000_0000
  const I32_MAX: int := 0x7FFF_FFFF

  /** nat1_t, nat2_t, nat4_t, nat8_t and int. */
  type byte = x: int | 0 <= x < 0x100
  type u16 = x: int | 0 <= x < 0x1_0000
  type u32 = x: int | 0 <= x < 0x1_0000_0000
  type u64 = x: int | 0 <= x < 0x1_0000_0000_0000_0000
  type i32 = x: int | -0x8000_0000 <= x < 0x8000_0000

  /** str_t: a sequence of bytes. */
  type Str = seq<byte>

  function Pow2(n: nat): (r: nat)
    ensures r >= 1
  {
    if n == 0 then 1 else 2 * Pow2(n - 1)
  }

  lemma {:induction false} Pow2Add(a: nat, b: nat)
    ensures Pow2(a + b) == Pow2(a) * Pow2(b)
  {
    if a > 0 {
      Pow2Add(a - 1, b);
    }
  }

  lemma {:induction false} Pow2Monotone(a: nat, b: nat)
    requires a <= b
    ensures Pow2(a) <= Pow2(b)
  {
    if a < b {
      Pow2Monotone(a, b - 1);
    }
  }

  /** The powers of two that the byte and word widths need. */
  lemma Pow2Of32()
    ensures Pow2(4) == 0x10 && Pow2(8) == 0x100 && Pow2(12) == 0x1000
    ensures Pow2(16) == 0x1_0000 && Pow2(24) == 0x100_0000
    ensures Pow2(31) == 0x8000_0000 && Pow2(32) == U32_LIMIT
  {
    assert Pow2(4) == 0x10;
    Pow2Add(4, 4);
    Pow2Add(8, 4);
    Pow2Add(8, 8);
    Pow2Add(16, 8);
    Pow2Add(24, 7);
    Pow2Add(31, 1);
  }

  /** The signs of a product with a positive factor. */
  lemma {:induction false} MulSign(m: int, d: int)
    requires d > 0
    ensures m >= 0 ==> m * d >= 0
    ensures m >= 1 ==> m * d >= d
    ensures m <= -1 ==> m * d <= -d
    decreases if m < 0 then -m else m
  {
    if m > 1 {
      MulSign(m - 1, d);
      assert m * d == (m - 1) * d + d;
    } else if m < -1 {
      MulSign(m + 1, d);
      assert m * d == (m + 1) * d - d;
    }
  }

  /** Multiplying by q keeps an order. */
  lemma MulLe(q: nat, a: nat, b: nat)
    requires a <= b
    ensures q * a <= q * b
  {
    assert q * b == q * a + q * (b - a);
  }

  /** A quotient is determined by any decomposition with a remainder below the divisor. */
  lemma DivPlusSmall(k: nat, d: nat, s: nat)
    requires d > 0 && s < d
    ensures (k * d + s) / d == k
    ensures (k * d + s) % d == s
  {
    var y := k * d + s;
    var q := y / d;
    assert y == q * d + y % d;
    MulSign(q - k, d);
    assert (q - k) * d == q * d - k * d;
  }

  /**
   * max<T>(): all ones in the unsigned type of T's size, halved when T is
   * signed. The result is the largest value T can hold.
   */
  function MaxOf(size: nat, signed: bool): (r: nat)
    requires size == 1 || size == 2 || size == 4 || size == 8
    ensures !signed ==> r + 1 == Pow2(8 * size)
    ensures signed ==> 2 * (r + 1) == Pow2(8 * size)
  {
    (Pow2(8 * size) - 1) / (if signed then 2 else 1)
  }

  /** The two static_asserts of prelude.cpp. */
  lemma MaxOfStaticAsserts()
    ensures MaxOf(1, true) == 0x7F
    ensures MaxOf(2, false) == 0xFFFF
  {
    assert Pow2(4) == 16;
    Pow2Add(4, 4);
    Pow2Add(8, 8);
  }

  /** clamp(val, lo, hi) on nat8_t; the caller must pass lo <= hi. */
  function Clamp(val: u64, lo: u64, hi: u64): (r: u64)
    requires lo <= hi
    ensures lo <= r <= hi
    ensures lo <= val <= hi ==> r == val
    ensures r != val ==> (val < lo && r == lo) || (hi < val && r == hi)
  {
    if val < lo then lo else if val > hi then hi else val
  }

  lemma ClampIdempotent(val: u64, lo: u64, hi: u64)
    requires lo <= hi
    ensures Clamp(Clamp(val, lo, hi), lo, hi) == Clamp(val, lo, hi)
  {
  }

  /** range_iter_t and range_t: `for (auto i : create_range(n))` counts 0, 1, ..., n - 1. */
  datatype RangeIter = RangeIter(val: u64)
  datatype Range = Range(it: RangeIter)

  function CreateRange(n: u64): Range
  {
    Range(RangeIter(n))
  }

  function Begin(range: Range): RangeIter
  {
    RangeIter(0)
  }

  function End(range: Range): RangeIter
  {
    range.it
  }

  function Deref(it: RangeIter): u64
  {
    it.val
  }

  /** operator ++ on a nat8_t, which wraps. */
  function Incr(it: RangeIter): RangeIter
  {
    RangeIter((it.val + 1) % U64_LIMIT)
  }

  predicate Ne(left: RangeIter, right: RangeIter)
  {
    left.val != right.val
  }

  /** The values a range-based for over create_range(n) visits, in order. */
  method RangeValues(n: u64) returns (visited: seq<u64>)
    ensures |visited| == n
    ensures forall i :: 0 <= i < |visited| ==> visited[i] == i
  {
    var range := CreateRange(n);
    var it := Begin(range);
    visited := [];
    while Ne(it, End(range))
      invariant it.val <= n
      invariant |visited| == it.val
      invariant forall i :: 0 <= i < |visited| ==> visited[i] == i
      decreases n - it.val
    {
      visited := visited + [Deref(it)];
      it := Incr(it);
    }
  }

  /** opaque_t: a handle that is truthy when its value is not zero. */
  datatype Opaque = Opaque(val: u64)

  predicate IsTruthy(opaq: Opaque)
  {
    opaq.val != 0
  }

  /** static_cast<int> of a nat8_t: keeps the low 32 bits, as two's complement. */
  function ToI32(x: u64): (r: i32)
    ensures (r - x) % U32_LIMIT == 0
  {
    var low := x % U32_LIMIT;
    if low <= I32_MAX then low else low - U32_LIMIT
  }

  /**
   * create_opaque_fd stores fd + 1, so that descriptor -1 (no descriptor)
   * becomes the falsy handle. fd + 1 must not overflow int.
   */
  function CreateOpaqueFd(fd: i32): (opaq: Opaque)
    requires fd < I32_MAX
    ensures IsTruthy(opaq) <==> fd != -1
  {
    Opaque((fd + 1) % U64_LIMIT)
  }

  /** get_fd: the handle's value cast to int, minus one (which must not overflow). */
  function GetFd(opaq: Opaque): (fd: i32)
    requires ToI32(opaq.val) > I32_MIN
    ensures !IsTruthy(opaq) ==> fd == -1
  {
    ToI32(opaq.val) - 1
  }

  /** Every descriptor that create_opaque_fd accepts comes back from get_fd. */
  lemma OpaqueFdRoundTrip(fd: i32)
    requires fd < I32_MAX
    ensures ToI32(CreateOpaqueFd(fd).val) > I32_MIN
    ensures GetFd(CreateOpaqueFd(fd)) == fd
  {
    var v := (fd + 1) % U64_LIMIT;
    if fd >= -1 {
      assert v == fd + 1;
    } else {
      assert v == U64_LIMIT + fd + 1;
      assert v % U32_LIMIT == U32_LIMIT + fd + 1;
    }
  }

  /** copy_mem: memmove of src into dst at offset `at`. */
  method CopyMem(dst: array<byte>, at: nat, src: seq<byte>)
    requires at + |src| <= dst.Length
    modifies dst
    ensures dst[..] == old(dst[..at]) + src + old(dst[at + |src|..])
  {
    forall i | 0 <= i < |src| {
      dst[at + i] := src[i];
    }
    assert dst[..] == old(dst[..at]) + src + old(dst[at + |src|..]);
  }

  /** is_mem_eq: equal lengths and equal bytes. */
  function IsMemEq(left: Str, right: Str): (r: bool)
    ensures r <==> |left| == |right| && forall i :: 0 <= i < |left| ==> left[i] == right[i]
  {
    if |left| != |right| then false else left == right
  }
}
