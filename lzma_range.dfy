/**
 * The range decoder of lzma.cpp (range_dec_t), the adaptive probabilities it
 * updates, and the bit-tree decoders built on it.
 *
 * All of range_dec_t's arithmetic is on nat4_t: shifts drop the bits that
 * leave the word and subtraction wraps modulo 2^32; both are written out.
 */
module LzmaRange {
  import opened Prelude

  /** normalize shifts in a byte whenever range drops below 1 << 24. */
  const TOP: int := 0x100_0000
  const RANGE_INIT: u32 := 0xFFFF_FFFF
  /** The probability scale, 1 << num_bit_model_total_bits with 11 bits. */
  const BIT_MODEL_TOTAL: int := 0x800
  /** init_probs: the value every probability cell starts from, (1 << 11) / 2. */
  const PROB_INIT: u16 := 0x400
  /** The interval every cell stays in, since the adaptation moves it by a 32nd of its distance to 0 or 2048. */
  const PROB_MIN: int := 31
  const PROB_MAX: int := 2017

  /** The 32-bit result of adding or subtracting two nat4_t values: x reduced modulo 2^32. */
  function Wrap32(x: int): u32
    requires -U32_LIMIT <= x < 2 * U32_LIMIT
  {
    if x < 0 then x + U32_LIMIT else if x >= U32_LIMIT then x - U32_LIMIT else x
  }

  predicate ProbOk(p: int)
  {
    PROB_MIN <= p <= PROB_MAX
  }

  ghost predicate ProbsOk(p: array<u16>)
    reads p
  {
    forall j :: 0 <= j < p.Length ==> ProbOk(p[j])
  }

  /** The fields of range_dec_t that change, as a value. */
  datatype Coder = Coder(range: u32, code: u32, src_i: nat, corrupt: bool)

  /**
   * The invariant every call after init keeps: range is normalised, code is
   * below range unless the stream was flagged corrupt, and the read index is
   * at most one past the end of the input.
   */
  predicate CoderOk(c: Coder, src: Str)
  {
    c.range >= TOP && (c.corrupt || c.code < c.range) && c.src_i <= |src| + 1
  }

  /** read(rdec): the next input byte, or 0 with src_i one past the end. */
  function ReadByte(c: Coder, src: Str): (r: (Coder, byte))
    ensures r.0.src_i <= |src| + 1
    ensures r.0 == c.(src_i := r.0.src_i)
  {
    if c.src_i >= |src| then (c.(src_i := |src| + 1), 0)
    else (c.(src_i := c.src_i + 1), src[c.src_i])
  }

  /** `(code << 8) | b` in 32 bits: the top byte of code leaves, b comes in at the bottom. */
  function ShiftIn(code: u32, b: byte): (r: u32)
    ensures r % 0x100 == b && r / 0x100 == code % TOP
  {
    (code % TOP) * 0x100 + b
  }

  /** normalize(rdec) */
  function Normalized(c: Coder, src: Str): Coder
  {
    if c.range < TOP then
      var (c', b) := ReadByte(c, src);
      c'.(range := c.range * 0x100, code := ShiftIn(c.code, b))
    else c
  }

  /** After a decode step has left range at least 2^16, normalize restores the invariant. */
  lemma NormalizeKeeps(c: Coder, src: Str)
    requires c.range >= 0x1_0000 && (c.corrupt || c.code < c.range) && c.src_i <= |src| + 1
    ensures CoderOk(Normalized(c, src), src)
    ensures Normalized(c, src).corrupt == c.corrupt
  {
    if c.range < TOP {
      var b := ReadByte(c, src).1;
      if !c.corrupt {
        assert c.code % TOP == c.code;
        assert c.code * 0x100 + b < c.range * 0x100;
      }
    }
  }

  /** What dec_bit computes: the bit, the adapted probability and the new coder. */
  datatype BitOut = BitOut(c: Coder, bit: u32, prob: u16)

  /** `(range >> 11) * v`: the part of range given to a 0 bit. */
  function Bound(range: u32, v: u16): (b: u32)
    requires ProbOk(v)
    ensures b <= range
    ensures range >= TOP ==> b >= 0x1_0000 && range - b >= 0x1_0000
  {
    var q := range / BIT_MODEL_TOTAL;
    MulBounds(q, v, range);
    q * v
  }

  lemma MulBounds(q: nat, v: nat, range: nat)
    requires q == range / BIT_MODEL_TOTAL && ProbOk(v)
    ensures q * PROB_MIN <= q * v <= q * PROB_MAX
    ensures q * v <= range && range - q * v >= q * PROB_MIN
  {
    MulLe(q, PROB_MIN, v);
    MulLe(q, v, PROB_MAX);
    MulLe(q, PROB_MIN, BIT_MODEL_TOTAL - v);
    assert q * v + q * (BIT_MODEL_TOTAL - v) == q * BIT_MODEL_TOTAL;
    assert q * BIT_MODEL_TOTAL <= range;
  }

  /** dec_bit(rdec, prob) */
  function DecBitSpec(c: Coder, src: Str, v: u16): BitOut
    requires ProbOk(v)
  {
    var bound := Bound(c.range, v);
    if c.code < bound then
      BitOut(Normalized(c.(range := bound), src), 0, v + (BIT_MODEL_TOTAL - v) / 0x20)
    else
      BitOut(Normalized(c.(code := c.code - bound, range := c.range - bound), src), 1, v - v / 0x20)
  }

  /**
   * dec_bit keeps the coder invariant (range normalised, code below range
   * unless corrupt), keeps the probability inside [31, 2017], moves it up on
   * a 0 and down on a 1, and yields a single bit.
   */
  lemma DecBitKeeps(c: Coder, src: Str, v: u16)
    requires CoderOk(c, src) && ProbOk(v)
    ensures var r := DecBitSpec(c, src, v);
      && CoderOk(r.c, src) && ProbOk(r.prob) && r.bit <= 1
      && r.c.corrupt == c.corrupt
      && (r.bit == 0 <==> c.code < Bound(c.range, v))
      && (r.bit == 0 ==> r.prob >= v) && (r.bit == 1 ==> r.prob <= v)
  {
    var bound := Bound(c.range, v);
    if c.code < bound {
      NormalizeKeeps(c.(range := bound), src);
    } else {
      NormalizeKeeps(c.(code := c.code - bound, range := c.range - bound), src);
    }
  }

  /** The first 1024 is inside the interval. */
  lemma ProbInitOk()
    ensures ProbOk(PROB_INIT)
  {
  }

  /** The adaptation from either end of the interval stays inside it, so it is exactly the reachable range. */
  lemma ProbEnds()
    ensures PROB_MAX + (BIT_MODEL_TOTAL - PROB_MAX) / 0x20 == PROB_MAX
    ensures PROB_MIN - PROB_MIN / 0x20 == PROB_MIN
    ensures (PROB_MAX - 1) + (BIT_MODEL_TOTAL - (PROB_MAX - 1)) / 0x20 == PROB_MAX
    ensures (PROB_MIN + 1) - (PROB_MIN + 1) / 0x20 == PROB_MIN
  {
  }

  /** What one round of dec_direct_bits computes: the coder after it and the bit it adds to res. */
  datatype DirectOut = DirectOut(c: Coder, bit: u32)

  /**
   * One round of dec_direct_bits: halve range, subtract it from code, and
   * take the sign of the result as the all-ones mask `t` (a 0 bit) or zero
   * (a 1 bit), adding range back under the mask. `range & t` is written as
   * the choice it makes, since `t` is either 0 or all ones.
   */
  function DirectStep(c: Coder, src: Str): DirectOut
  {
    var m := Masked(c);
    DirectOut(Normalized(m.c, src), Wrap32(m.bit as int + 1))
  }

  /** The round before normalize, with the mask `t` in place of the bit. */
  function Masked(c: Coder): DirectOut
  {
    var range := c.range / 2;
    var code := Wrap32(c.code as int - range);
    var t := Wrap32(0 - (code / 0x8000_0000) as int);
    var code' := Wrap32(code as int + (if t == 0 then 0 else range));
    DirectOut(Coder(range, code', c.src_i, c.corrupt || code' == range), t)
  }

  /** A round of dec_direct_bits keeps the coder invariant and yields a single bit. */
  lemma DirectStepKeeps(c: Coder, src: Str)
    requires CoderOk(c, src)
    ensures CoderOk(DirectStep(c, src).c, src) && DirectStep(c, src).bit <= 1
    ensures c.corrupt ==> DirectStep(c, src).c.corrupt
  {
    var range := c.range / 2;
    var code := Wrap32(c.code as int - range);
    var t := Wrap32(0 - (code / 0x8000_0000) as int);
    var code' := Wrap32(code as int + (if t == 0 then 0 else range));
    MaskStep(c.code, range, !c.corrupt);
    NormalizeKeeps(Coder(range, code', c.src_i, c.corrupt || code' == range), src);
  }

  /**
   * The sign trick of dec_direct_bits: the mask is 0 or all ones, and when
   * code <= 2 * range the round leaves code at most range, subtracting
   * range exactly when it fits.
   */
  lemma MaskStep(code0: u32, range: nat, below: bool)
    requires range < 0x8000_0000
    requires below ==> code0 <= 2 * range
    ensures var code := Wrap32(code0 as int - range);
      var t := Wrap32(0 - (code / 0x8000_0000) as int);
      && (t == 0 || t == U32_LIMIT - 1)
      && (below ==> Wrap32(code as int + (if t == 0 then 0 else range)) <= range)
      && (below ==> (t == 0 <==> code0 >= range))
  {
    var code := Wrap32(code0 as int - range);
    if code0 >= range {
      assert code == code0 - range;
    } else {
      assert code == code0 - range + U32_LIMIT;
    }
  }

  /** dec_direct_bits(rdec, n): the coder after n rounds and res, one round's bit shifted in per round. */
  function DirectBits(c: Coder, src: Str, n: nat): (DirectOut)
  {
    if n == 0 then DirectOut(c, 0)
    else
      var prev := DirectBits(c, src, n - 1);
      var step := DirectStep(prev.c, src);
      DirectOut(step.c, Accum(prev.bit, step.bit))
  }

  /** `res <<= 1; res += bit` on a u32. */
  function Accum(res: u32, bit: u32): u32
  {
    Wrap32(Wrap32(res as int * 2) as int + bit)
  }

  lemma DirectBitsNext(c: Coder, src: Str, n: nat, prev: DirectOut)
    requires prev == DirectBits(c, src, n)
    ensures DirectBits(c, src, n + 1) ==
      DirectOut(DirectStep(prev.c, src).c, Accum(prev.bit, DirectStep(prev.c, src).bit))
  {
  }

  /** All n rounds keep the coder invariant, and res has at most n bits. */
  lemma {:induction false} DirectBitsKeeps(c: Coder, src: Str, n: nat)
    requires CoderOk(c, src) && n <= 32
    ensures CoderOk(DirectBits(c, src, n).c, src)
    ensures DirectBits(c, src, n).bit < Pow2(n)
  {
    if n > 0 {
      DirectBitsKeeps(c, src, n - 1);
      var prev := DirectBits(c, src, n - 1);
      DirectStepKeeps(prev.c, src);
      Pow2Monotone(n, 32);
      Pow2Of32();
      ShiftBit(prev.bit, DirectStep(prev.c, src).bit, Pow2(n - 1));
    }
  }

  lemma ShiftBit(res: u32, bit: u32, p: nat)
    requires res < p && bit <= 1 && 2 * p <= U32_LIMIT
    ensures Accum(res, bit) == res * 2 + bit < 2 * p
  {
  }

  /** Four bytes read into code, most significant first, each through `(code << 8) | read()`. */
  function ReadCode(c: Coder, src: Str, k: nat): Coder
  {
    if k == 0 then c
    else
      var prev := ReadCode(c, src, k - 1);
      var (c', b) := ReadByte(prev, src);
      c'.(code := ShiftIn(prev.code, b))
  }

  /** The byte at i, or 0 past the end, as read returns it. */
  function ByteAt(src: Str, i: nat): byte
  {
    if i < |src| then src[i] else 0
  }

  lemma {:induction false} ReadCodeValue(c: Coder, src: Str, k: nat)
    requires k <= 4 && c.code == 0 && c.src_i <= |src| + 1
    ensures ReadCode(c, src, k).code == BigEndian(src, c.src_i, k)
    ensures ReadCode(c, src, k).src_i == if c.src_i + k <= |src| then c.src_i + k else |src| + 1
    ensures ReadCode(c, src, k).range == c.range && ReadCode(c, src, k).corrupt == c.corrupt
  {
    if k > 0 {
      ReadCodeValue(c, src, k - 1);
      BigEndianBound(src, c.src_i, k - 1);
      var prev := ReadCode(c, src, k - 1);
      var b := ReadByte(prev, src).1;
      if c.src_i + k <= |src| {
        assert b == ByteAt(src, c.src_i + k - 1);
      } else {
        assert b == 0 == ByteAt(src, c.src_i + k - 1);
      }
      assert prev.code % TOP == prev.code;
      assert ReadCode(c, src, k).code == ShiftIn(prev.code, b) == prev.code * 0x100 + b;
    }
  }

  /** The k bytes from i, most significant first (0 past the end). */
  function BigEndian(src: Str, i: nat, k: nat): nat
  {
    if k == 0 then 0 else BigEndian(src, i, k - 1) * 0x100 + ByteAt(src, i + k - 1)
  }

  lemma {:induction false} BigEndianBound(src: Str, i: nat, k: nat)
    requires k <= 3
    ensures BigEndian(src, i, k) < if k == 0 then 1 else if k == 1 then 0x100 else if k == 2 then 0x1_0000 else TOP
  {
    if k > 0 {
      BigEndianBound(src, i, k - 1);
    }
  }

  /** init(rdec): the coder, and whether the first byte was 0. */
  function InitSpec(c: Coder, src: Str): (Coder, bool)
  {
    var (c1, b) := ReadByte(Coder(RANGE_INIT, 0, c.src_i, false), src);
    var c2 := ReadCode(c1, src, 4);
    (c2.(corrupt := b != 0 || c2.code == c2.range), b == 0)
  }

  /**
   * init succeeds exactly when the first byte is 0, leaves range at its
   * maximum and code the next four bytes big-endian, flags a code equal to
   * range as corrupt, and establishes the coder invariant.
   */
  lemma InitKeeps(c: Coder, src: Str)
    ensures CoderOk(InitSpec(c, src).0, src)
    ensures InitSpec(c, src).1 <==> ByteAt(src, c.src_i) == 0
    ensures InitSpec(c, src).0.range == RANGE_INIT
    ensures InitSpec(c, src).0.code == BigEndian(src, c.src_i + 1, 4)
    ensures !InitSpec(c, src).0.corrupt <==> InitSpec(c, src).1 && InitSpec(c, src).0.code != RANGE_INIT
  {
    var (c1, b) := ReadByte(Coder(RANGE_INIT, 0, c.src_i, false), src);
    ReadCodeValue(c1, src, 4);
    assert b == ByteAt(src, c.src_i);
    if c.src_i < |src| {
      assert c1.src_i == c.src_i + 1;
    } else {
      assert c1.src_i == |src| + 1;
      BigEndianPast(src, c.src_i + 1, |src| + 1, 4);
    }
  }

  /** Past the end every byte reads as 0, wherever the reading starts. */
  lemma {:induction false} BigEndianPast(src: Str, i: nat, j: nat, k: nat)
    requires i >= |src| && j >= |src|
    ensures BigEndian(src, i, k) == BigEndian(src, j, k) == 0
  {
    if k > 0 {
      BigEndianPast(src, i, j, k - 1);
    }
  }

  /** range_dec_t */
  class RangeDecoder {
    var range: u32
    var code: u32
    const src: Str
    var src_i: nat
    var corrupt: bool

    ghost function Coded(): Coder
      reads this
    {
      Coder(range, code, src_i, corrupt)
    }

    ghost predicate Valid()
      reads this
    {
      CoderOk(Coded(), src)
    }

    /** A coder over `src` set to start reading at `src_i`; init must run before decoding. */
    constructor(src: Str, src_i: nat)
      ensures this.src == src && this.src_i == src_i && range == 0 && code == 0 && !corrupt
    {
      this.src := src;
      this.src_i := src_i;
      range := 0;
      code := 0;
      corrupt := false;
    }

    method Read() returns (b: byte)
      modifies this
      ensures (Coded(), b) == ReadByte(old(Coded()), src)
    {
      if src_i >= |src| {
        src_i := |src| + 1;
        return 0;
      }
      b := src[src_i];
      src_i := src_i + 1;
    }

    /** init(rdec) */
    method Init() returns (ok: bool)
      modifies this
      ensures Valid() && (Coded(), ok) == InitSpec(old(Coded()), src)
    {
      ghost var c0 := Coded();
      corrupt := false;
      range := RANGE_INIT;
      code := 0;
      var b := Read();
      ghost var c1 := Coded();
      assert (c1, b) == ReadByte(Coder(RANGE_INIT, 0, c0.src_i, false), src);
      var i := 0;
      while i < 4
        invariant 0 <= i <= 4
        invariant Coded() == ReadCode(c1, src, i)
      {
        ghost var prev := Coded();
        var next := Read();
        code := ShiftIn(code, next);
        i := i + 1;
      }
      ghost var c2 := Coded();
      ReadCodeValue(c1, src, 4);
      if b != 0 || code == range {
        corrupt := true;
      }
      assert Coded() == c2.(corrupt := b != 0 || c2.code == c2.range);
      InitKeeps(c0, src);
      return b == 0;
    }

    /** is_finished_ok(rdec) */
    predicate IsFinishedOk()
      reads this
    {
      code == 0
    }

    /** normalize(rdec) */
    method Normalize()
      modifies this
      ensures Coded() == Normalized(old(Coded()), src)
    {
      if range < TOP {
        range := range * 0x100;
        var b := Read();
        code := ShiftIn(code, b);
      }
    }

    /** dec_direct_bits(rdec, n_bits) */
    method DecDirectBits(n_bits: u32) returns (res: u32)
      requires Valid() && n_bits <= 32
      modifies this
      ensures Valid() && DirectOut(Coded(), res) == DirectBits(old(Coded()), src, n_bits)
      ensures res < Pow2(n_bits)
    {
      ghost var c0 := Coded();
      res := 0;
      var i := 0;
      while i < n_bits
        invariant 0 <= i <= n_bits
        invariant DirectOut(Coded(), res) == DirectBits(c0, src, i)
      {
        ghost var prev := DirectOut(Coded(), res);
        var bit := DirectRound();
        res := Accum(res, bit);
        DirectBitsNext(c0, src, i, prev);
        i := i + 1;
      }
      DirectBitsKeeps(c0, src, n_bits);
    }

    /** The body of dec_direct_bits' loop up to `res <<= 1`; the bit is `t + 1`. */
    method DirectRound() returns (bit: u32)
      modifies this
      ensures DirectOut(Coded(), bit) == DirectStep(old(Coded()), src)
    {
      ghost var c0 := Coded();
      range := range / 2;
      code := Wrap32(code as int - range);
      var t := Wrap32(0 - (code / 0x8000_0000) as int);
      code := Wrap32(code as int + (if t == 0 then 0 else range));
      if code == range {
        corrupt := true;
      }
      assert DirectOut(Coded(), t) == Masked(c0);
      Normalize();
      bit := Wrap32(t as int + 1);
    }

    /** dec_bit(rdec, prob): decode one bit with the probability cell probs[i] and adapt the cell. */
    method DecBit(probs: array<u16>, i: nat) returns (sym: u32)
      requires Valid() && i < probs.Length && ProbOk(probs[i])
      modifies this, probs
      ensures Valid() && BitOut(Coded(), sym, probs[i]) == DecBitSpec(old(Coded()), src, old(probs[i]))
      ensures forall j :: 0 <= j < probs.Length && j != i ==> probs[j] == old(probs[j])
      ensures ProbOk(probs[i]) && sym <= 1
      ensures old(ProbsOk(probs)) ==> ProbsOk(probs)
    {
      ghost var c0 := Coded();
      ghost var r := DecBitSpec(c0, src, probs[i]);
      DecBitKeeps(c0, src, probs[i]);
      var v: u32 := probs[i];
      var bound := Bound(range, v);
      if code < bound {
        v := v + (BIT_MODEL_TOTAL - v) / 0x20;
        range := bound;
        sym := 0;
      } else {
        v := v - v / 0x20;
        code := code - bound;
        range := range - bound;
        sym := 1;
      }
      assert v == r.prob && sym == r.bit && Normalized(Coded(), src) == r.c;
      probs[i] := v;
      Normalize();
    }
  }

  /** init_probs(probs, probs_len): every cell set to (1 << 11) / 2. */
  method InitProbs(probs: array<u16>)
    modifies probs
    ensures forall j :: 0 <= j < probs.Length ==> probs[j] == PROB_INIT
    ensures ProbsOk(probs)
  {
    var i := 0;
    while i < probs.Length
      invariant 0 <= i <= probs.Length
      invariant forall j :: 0 <= j < i ==> probs[j] == PROB_INIT
    {
      probs[i] := PROB_INIT;
      i := i + 1;
    }
  }

  /** One decoded bit. */
  type Bit = b: nat | b <= 1

  /** The number the bits spell when read most significant first. */
  function MsbValue(bits: seq<Bit>): (r: nat)
    ensures r < Pow2(|bits|)
  {
    if bits == [] then 0 else 2 * MsbValue(bits[..|bits| - 1]) + bits[|bits| - 1]
  }

  /** The number the bits spell when read least significant first. */
  function LsbValue(bits: seq<Bit>): (r: nat)
    ensures r < Pow2(|bits|)
  {
    if bits == [] then 0
    else
      var low := LsbValue(bits[..|bits| - 1]);
      if bits[|bits| - 1] == 0 then low else low + Pow2(|bits| - 1)
  }

  /** Appending a bit: doubles the most-significant-first value, or adds the bit's weight to the other. */
  lemma {:induction false} Append(bits: seq<Bit>, b: Bit)
    ensures MsbValue(bits + [b]) == 2 * MsbValue(bits) + b
    ensures LsbValue(bits + [b]) == LsbValue(bits) + if b == 0 then 0 else Pow2(|bits|)
  {
    var s := bits + [b];
    assert s[..|s| - 1] == bits && s[|s| - 1] == b;
    if b == 0 {
      assert LsbValue(s) == LsbValue(bits);
    } else {
      assert LsbValue(s) == LsbValue(bits) + Pow2(|bits|);
    }
  }

  /** One step of the reverse tree: the new bit lands at weight 2^|bits| of the sum so far. */
  lemma ReverseStep(bits: seq<Bit>, bit: u32, sym: u32)
    requires bit <= 1 && sym as nat == LsbValue(bits) && Pow2(|bits| + 1) <= U32_LIMIT
    ensures sym as nat + bit as nat * Pow2(|bits|) == LsbValue(bits + [bit as Bit]) < U32_LIMIT
  {
    Append(bits, bit as Bit);
    BitWeight(bit, |bits|);
  }

  /** A bit's weight at position k: nothing, or 2^k. */
  lemma BitWeight(b: u32, k: nat)
    requires b <= 1
    ensures b * Pow2(k) == if b == 0 then 0 else Pow2(k)
  {
    if b == 1 {
      assert b * Pow2(k) == Pow2(k);
    }
  }

  /** The same bits in the opposite order, the order the reverse tree decodes them in. */
  function ReversedBits(bits: seq<Bit>): (r: seq<Bit>)
    ensures |r| == |bits|
    ensures forall k :: 0 <= k < |bits| ==> r[k] == bits[|bits| - 1 - k]
  {
    if bits == [] then [] else [bits[|bits| - 1]] + ReversedBits(bits[..|bits| - 1])
  }

  /** A leading bit b in front of n more bits is worth b * 2^n. */
  lemma {:induction false} MsbCons(b: Bit, bits: seq<Bit>)
    ensures MsbValue([b] + bits) == b * Pow2(|bits|) + MsbValue(bits)
    decreases |bits|
  {
    if bits == [] {
      assert ([b] + bits)[..0] == [];
    } else {
      var init := bits[..|bits| - 1];
      assert ([b] + bits)[..|bits|] == [b] + init;
      MsbCons(b, init);
    }
  }

  /** The reverse tree's symbol is the forward reading of the same bits taken in the opposite order. */
  lemma {:induction false} LsbIsReversedMsb(bits: seq<Bit>)
    ensures LsbValue(bits) == MsbValue(ReversedBits(bits))
    decreases |bits|
  {
    if bits != [] {
      var init, last := bits[..|bits| - 1], bits[|bits| - 1];
      var r := ReversedBits(init);
      assert ReversedBits(bits) == [last] + r;
      assert LsbValue(bits) == LsbValue(init) + if last == 0 then 0 else Pow2(|init|);
      LsbIsReversedMsb(init);
      MsbCons(last, r);
      BitWeight(last, |r|);
    }
  }

  /**
   * What a walk down a bit tree leaves: the coder, the probability cells, the
   * bits decoded, in order, and the node reached.
   */
  datatype Walk = Walk(c: Coder, probs: seq<u16>, bits: seq<Bit>, leaf: nat)

  ghost predicate CellsOk(p: seq<u16>)
  {
    forall j :: 0 <= j < |p| ==> ProbOk(p[j])
  }

  lemma CellsOfProbs(p: array<u16>)
    ensures ProbsOk(p) <==> CellsOk(p[..])
  {
  }

  /**
   * decode_bit with cell i of the cells p: the bit, the coder after it and
   * the cell's adapted value. The decoder only ever uses cells that exist and
   * lie in the adaptive range; for any other the step is taken to leave
   * everything as it is.
   */
  function BitAt(c: Coder, src: Str, p: seq<u16>, i: nat): (r: BitOut)
    ensures r.bit <= 1
  {
    if i < |p| && ProbOk(p[i]) then DecBitSpec(c, src, p[i]) else BitOut(c, 0, if i < |p| then p[i] else 0)
  }

  /**
   * n levels of a bit-tree walk over the cells p[base + m], starting at node
   * m0: at each level the bit decoded with the cell of the node reached
   * chooses the child 2m + bit, and the cell adapts. (A walk that would leave
   * the cells stops there; the decoder's walks never do.)
   */
  ghost function TreeFrom(c: Coder, src: Str, p: seq<u16>, base: nat, m0: nat, n: nat): (w: Walk)
    ensures |w.probs| == |p|
    decreases n
  {
    if n == 0 then Walk(c, p, [], m0)
    else
      var w := TreeFrom(c, src, p, base, m0, n - 1);
      if base + w.leaf < |p| then
        var r := BitAt(w.c, src, w.probs, base + w.leaf);
        Walk(r.c, w.probs[base + w.leaf := r.prob], w.bits + [r.bit as Bit], 2 * w.leaf + r.bit as nat)
      else w
  }

  /** A whole walk from the root: n levels below node 1. */
  ghost function TreeOf(c: Coder, src: Str, p: seq<u16>, base: nat, n: nat): Walk
  {
    TreeFrom(c, src, p, base, 1, n)
  }

  /**
   * A walk from the root that stays inside the cells decodes one bit a
   * level, and the leaf it reaches is 2^n plus those bits read most
   * significant first.
   */
  lemma {:induction false} TreeShape(c: Coder, src: Str, p: seq<u16>, base: nat, n: nat)
    requires base + Pow2(n) <= |p|
    ensures var w := TreeOf(c, src, p, base, n); |w.bits| == n && w.leaf == Pow2(n) + MsbValue(w.bits)
  {
    if n > 0 {
      Pow2Monotone(n - 1, n);
      TreeShape(c, src, p, base, n - 1);
      var w := TreeFrom(c, src, p, base, 1, n - 1);
      assert base + w.leaf < |p|;
      var r := BitAt(w.c, src, w.probs, base + w.leaf);
      Append(w.bits, r.bit as Bit);
    }
  }

  /** No walk decodes more bits than it has levels. */
  lemma {:induction false} TreeBits(c: Coder, src: Str, p: seq<u16>, base: nat, m0: nat, n: nat)
    ensures |TreeFrom(c, src, p, base, m0, n).bits| <= n
  {
    if n > 0 {
      TreeBits(c, src, p, base, m0, n - 1);
    }
  }

  /** A walk keeps the coder invariant and every cell inside the adaptive range. */
  lemma {:induction false} TreeKeeps(c: Coder, src: Str, p: seq<u16>, base: nat, m0: nat, n: nat)
    requires CoderOk(c, src) && CellsOk(p)
    ensures CoderOk(TreeFrom(c, src, p, base, m0, n).c, src) && CellsOk(TreeFrom(c, src, p, base, m0, n).probs)
  {
    if n > 0 {
      TreeKeeps(c, src, p, base, m0, n - 1);
      var w := TreeFrom(c, src, p, base, m0, n - 1);
      var i := base + w.leaf;
      if i < |p| {
        DecBitKeeps(w.c, src, w.probs[i]);
        var r := BitAt(w.c, src, w.probs, i);
        assert forall j :: 0 <= j < |p| ==> w.probs[i := r.prob][j] == if j == i then r.prob else w.probs[j];
      }
    }
  }

  /** The coder invariant survives a whole tree walk. */
  lemma TreeValueKeeps(c: Coder, src: Str, p: seq<u16>, base: nat, n: nat)
    requires CoderOk(c, src) && CellsOk(p)
    ensures CoderOk(TreeValue(c, src, p, base, n).c, src) && CoderOk(ReverseValue(c, src, p, base, n).c, src)
  {
    TreeKeeps(c, src, p, base, 1, n);
  }

  /** What one step of a decoder leaves: the coder, the cells and the value decoded. */
  datatype Decoded = Decoded(c: Coder, probs: seq<u16>, val: nat)

  /** The same step with k added to its value. */
  function Plus(k: nat, d: Decoded): (r: Decoded)
    ensures r.c == d.c && r.probs == d.probs && r.val == k + d.val
  {
    d.(val := k + d.val)
  }

  /** decode_bit with cell i of the cells p, the cell updated in place. */
  function BitValue(c: Coder, src: Str, p: seq<u16>, i: nat): (r: Decoded)
    ensures r.val <= 1 && |r.probs| == |p|
  {
    var b := BitAt(c, src, p, i);
    Decoded(b.c, if i < |p| then p[i := b.prob] else p, b.bit as nat)
  }

  /** The value of the tree of n bits at base: its bits most significant first. */
  ghost function TreeValue(c: Coder, src: Str, p: seq<u16>, base: nat, n: nat): (r: Decoded)
    ensures r.val < Pow2(n) && |r.probs| == |p|
  {
    var w := TreeOf(c, src, p, base, n);
    TreeBits(c, src, p, base, 1, n);
    Pow2Monotone(|w.bits|, n);
    Decoded(w.c, w.probs, MsbValue(w.bits))
  }

  /** The value of the same walk with its bits least significant first. */
  ghost function ReverseValue(c: Coder, src: Str, p: seq<u16>, base: nat, n: nat): (r: Decoded)
    ensures r.val < Pow2(n) && |r.probs| == |p|
  {
    var w := TreeOf(c, src, p, base, n);
    TreeBits(c, src, p, base, 1, n);
    Pow2Monotone(|w.bits|, n);
    Decoded(w.c, w.probs, LsbValue(w.bits))
  }

  /**
   * One more level of a walk that has decoded i bits and stands at node m =
   * 2^i plus those bits: the bit of node m's cell is appended, and the walk
   * moves to the child 2m + bit.
   */
  lemma TreeStep(c0: Coder, src: Str, p0: seq<u16>, base: nat, i: nat, m: nat)
    requires var w := TreeFrom(c0, src, p0, base, 1, i);
      && m == w.leaf && |w.bits| == i && m == Pow2(i) + MsbValue(w.bits) && base + m < |p0| && i < 31
    ensures Pow2(i) <= m < Pow2(i + 1)
    ensures var w := TreeFrom(c0, src, p0, base, 1, i);
      var r := BitAt(w.c, src, w.probs, base + m);
      var w' := TreeFrom(c0, src, p0, base, 1, i + 1);
      && w' == Walk(r.c, w.probs[base + m := r.prob], w.bits + [r.bit as Bit], 2 * m + r.bit as nat)
      && |w'.bits| == i + 1 && w'.leaf == Pow2(i + 1) + MsbValue(w'.bits) && w'.leaf < U32_LIMIT
  {
    var w := TreeFrom(c0, src, p0, base, 1, i);
    var r := BitAt(w.c, src, w.probs, base + m);
    Append(w.bits, r.bit as Bit);
    Pow2Monotone(i + 2, 32);
    Pow2Of32();
    assert Pow2(i + 2) == 2 * Pow2(i + 1);
  }

  /** The leaf a walk from the root reaches after n levels inside the cells has n + 1 bits. */
  lemma TreeLeaf(c: Coder, src: Str, p: seq<u16>, base: nat, n: nat)
    requires base + Pow2(n) <= |p|
    ensures Pow2(n) <= TreeOf(c, src, p, base, n).leaf < 2 * Pow2(n)
  {
    TreeShape(c, src, p, base, n);
  }

  /**
   * One level of a walk in progress down a tree of n levels: decode the bit
   * at node m and move the walk on to the child. Only node m's cell changes.
   */
  method TreeNode(rc: RangeDecoder, probs: array<u16>, base: nat, n: nat, m: u32,
                  ghost c0: Coder, ghost p0: seq<u16>, ghost i: nat)
    returns (bit: u32)
    requires rc.Valid() && ProbsOk(probs) && i < n < 32 && base + Pow2(n) <= probs.Length
    requires var w := TreeFrom(c0, rc.src, p0, base, 1, i);
      && rc.Coded() == w.c && probs[..] == w.probs && m as nat == w.leaf
      && |w.bits| == i && m as nat == Pow2(i) + MsbValue(w.bits)
    modifies rc, probs
    ensures rc.Valid() && ProbsOk(probs) && bit <= 1
    ensures var w := TreeFrom(c0, rc.src, p0, base, 1, i + 1);
      && rc.Coded() == w.c && probs[..] == w.probs && w.leaf == 2 * m as nat + bit as nat
      && |w.bits| == i + 1 && w.leaf == Pow2(i + 1) + MsbValue(w.bits) && w.leaf < U32_LIMIT
      && w.bits == TreeFrom(c0, rc.src, p0, base, 1, i).bits + [bit as Bit]
    ensures forall j :: 0 <= j < probs.Length && !(base < j < base + Pow2(n)) ==> probs[j] == old(probs[j])
  {
    Pow2Monotone(i + 1, n);
    TreeStep(c0, rc.src, p0, base, i, m as nat);
    ghost var before := probs[..];
    var k := base + m as nat;
    assert ProbOk(before[k]);
    bit := rc.DecBit(probs, k);
    assert probs[..] == before[k := probs[k]];
  }

  /**
   * dec<n_bits>(tdec, rc): walk n_bits levels down the tree whose node m
   * lives at probs[base + m], starting from the root m = 1, with the decoded
   * bit choosing the child; the leaf reached, less 2^n_bits, is the symbol,
   * that is, the bits read most significant first.
   */
  method BitTreeDec(rc: RangeDecoder, probs: array<u16>, base: nat, n_bits: nat) returns (sym: u32)
    requires rc.Valid() && ProbsOk(probs) && base + Pow2(n_bits) <= probs.Length && n_bits < 32
    modifies rc, probs
    ensures rc.Valid() && ProbsOk(probs) && sym < Pow2(n_bits)
    ensures var w := TreeOf(old(rc.Coded()), rc.src, old(probs[..]), base, n_bits);
      rc.Coded() == w.c && probs[..] == w.probs && sym as nat == MsbValue(w.bits) && |w.bits| == n_bits
    ensures forall j :: 0 <= j < probs.Length && !(base < j < base + Pow2(n_bits)) ==> probs[j] == old(probs[j])
  {
    ghost var c0, p0 := rc.Coded(), probs[..];
    var m: u32 := 1;
    var i := 0;
    assert TreeFrom(c0, rc.src, p0, base, 1, 0) == Walk(c0, p0, [], 1);
    while i < n_bits
      invariant 0 <= i <= n_bits && rc.Valid() && ProbsOk(probs)
      invariant var w := TreeFrom(c0, rc.src, p0, base, 1, i);
        && rc.Coded() == w.c && probs[..] == w.probs && m as nat == w.leaf
        && |w.bits| == i && m as nat == Pow2(i) + MsbValue(w.bits)
      invariant forall j :: 0 <= j < probs.Length && !(base < j < base + Pow2(n_bits)) ==> probs[j] == old(probs[j])
    {
      var bit := TreeNode(rc, probs, base, n_bits, m, c0, p0, i);
      m := m * 2 + bit;
      i := i + 1;
    }
    sym := m - Pow2(n_bits);
  }

  /**
   * bit_tree_reverse_dec(probs, n_bits, rc): the same walk, with the bits
   * gathered least significant first into the symbol.
   */
  method BitTreeReverseDec(rc: RangeDecoder, probs: array<u16>, base: nat, n_bits: nat) returns (sym: u32)
    requires rc.Valid() && ProbsOk(probs) && base + Pow2(n_bits) <= probs.Length && n_bits < 32
    modifies rc, probs
    ensures rc.Valid() && ProbsOk(probs) && sym < Pow2(n_bits)
    ensures var w := TreeOf(old(rc.Coded()), rc.src, old(probs[..]), base, n_bits);
      rc.Coded() == w.c && probs[..] == w.probs && sym as nat == LsbValue(w.bits) && |w.bits| == n_bits
    ensures forall j :: 0 <= j < probs.Length && !(base < j < base + Pow2(n_bits)) ==> probs[j] == old(probs[j])
  {
    ghost var c0, p0 := rc.Coded(), probs[..];
    var m: u32 := 1;
    sym := 0;
    var i := 0;
    assert TreeFrom(c0, rc.src, p0, base, 1, 0) == Walk(c0, p0, [], 1);
    while i < n_bits
      invariant 0 <= i <= n_bits && rc.Valid() && ProbsOk(probs)
      invariant var w := TreeFrom(c0, rc.src, p0, base, 1, i);
        && rc.Coded() == w.c && probs[..] == w.probs && m as nat == w.leaf
        && |w.bits| == i && m as nat == Pow2(i) + MsbValue(w.bits) && sym as nat == LsbValue(w.bits)
      invariant forall j :: 0 <= j < probs.Length && !(base < j < base + Pow2(n_bits)) ==> probs[j] == old(probs[j])
    {
      ghost var bits := TreeFrom(c0, rc.src, p0, base, 1, i).bits;
      var bit := TreeNode(rc, probs, base, n_bits, m, c0, p0, i);
      ReverseStep(bits, bit, sym);
      m := m * 2 + bit;
      sym := sym + bit * Pow2(i);
      i := i + 1;
    }
  }
}
