/**
 * The five-byte LZMA header of lzma.cpp: the properties byte (lc, lp, pb)
 * and the little-endian dictionary size, and the scratch length that
 * lzma_dec_buf_len derives from them.
 */
module LzmaProps {
  import opened Prelude

  /** lzma_dic_min: the smallest dictionary the decoder uses. */
  const DICT_MIN: int := 0x1000
  /** Literal probabilities per literal state. */
  const LIT_SIZE: int := 0x300
  /** sizeof(prob_t). */
  const PROB_SIZE: int := 2
  /** 9 * 5 * 5: one more than the largest properties byte. */
  const PROPS_LIMIT: int := 225

  /** lzma_props_t. */
  datatype Props = Props(lc: u32, pb: u32, lp: u32, dict_sz: u32, buf_sz: u64)

  const NO_PROPS := Props(0, 0, 0, 0, 0)

  /** The number the bytes of s spell, least significant first. */
  function LittleEndian(s: seq<byte>): (r: nat)
    ensures r < Pow2(8 * |s|)
  {
    if s == [] then 0
    else
      var rest := LittleEndian(s[1..]);
      Pow2Add(8, 8 * (|s| - 1));
      Pow2Of32();
      s[0] + 0x100 * rest
  }

  /** Appending a byte adds it at the next byte position. */
  lemma {:induction false} LittleEndianSnoc(s: seq<byte>, b: byte)
    ensures LittleEndian(s + [b]) == LittleEndian(s) + b * Pow2(8 * |s|)
  {
    if s != [] {
      assert (s + [b])[1..] == s[1..] + [b];
      LittleEndianSnoc(s[1..], b);
      var p := Pow2(8 * (|s| - 1));
      Pow2Add(8, 8 * (|s| - 1));
      Pow2Of32();
      assert Pow2(8 * |s|) == 0x100 * p;
      MulShift(b, p);
      calc {
        LittleEndian(s + [b]);
        s[0] + 0x100 * LittleEndian(s[1..] + [b]);
        s[0] + 0x100 * (LittleEndian(s[1..]) + b * p);
        s[0] + 0x100 * LittleEndian(s[1..]) + 0x100 * (b * p);
      }
    } else {
      assert LittleEndian([b]) == b + 0x100 * LittleEndian([]);
    }
  }

  /** A proof step of LittleEndianSnoc: the byte shift factors out of the place value. */
  lemma MulShift(b: int, p: int)
    ensures b * (0x100 * p) == 0x100 * (b * p)
  {
  }

  /** The literal probabilities, in cells: 0x300U << (lc + lp). */
  function LitProbs(lc: nat, lp: nat): (r: nat)
    requires lc + lp <= 12
    ensures LIT_SIZE <= r <= LIT_SIZE * 0x1000
  {
    Pow2Monotone(lc + lp, 12);
    Pow2Of32();
    LIT_SIZE * Pow2(lc + lp)
  }

  /**
   * What dec_lzma_props returns for a header: zeros when it is shorter
   * than five bytes or its first byte is out of range, otherwise the three
   * digits of that byte in the bases 9, 5 and 5 and the dictionary size.
   */
  function PropsOf(src: Str): Props
  {
    if |src| < 5 || src[0] >= PROPS_LIMIT then NO_PROPS
    else
      var d := src[0];
      var dict := LittleEndian(src[1..5]);
      Pow2Of32();
      var dict_sz := if dict < DICT_MIN then DICT_MIN else dict;
      Props(d % 9, d / 9 / 5, d / 9 % 5, dict_sz, dict_sz + PROB_SIZE * LitProbs(d % 9, d / 9 % 5))
  }

  /** The properties byte for lc, lp and pb. */
  function PropsByte(lc: nat, lp: nat, pb: nat): nat
  {
    (pb * 5 + lp) * 9 + lc
  }

  /** Header bytes round-trip: the digits decoded are the ones encoded. */
  lemma PropsByteRoundTrip(src: Str, lc: nat, lp: nat, pb: nat)
    requires lc < 9 && lp < 5 && pb < 5 && |src| >= 5 && src[0] == PropsByte(lc, lp, pb)
    ensures PropsOf(src).lc == lc && PropsOf(src).lp == lp && PropsOf(src).pb == pb
  {
    assert src[0] < PROPS_LIMIT;
    DivPlusSmall(pb * 5 + lp, 9, lc);
    DivPlusSmall(pb, 5, lp);
  }

  /** Every accepted header decodes to digits below their bases, and back to its byte. */
  lemma PropsOfValid(src: Str)
    requires |src| >= 5 && src[0] < PROPS_LIMIT
    ensures var p := PropsOf(src);
      && p.lc < 9 && p.lp < 5 && p.pb < 5
      && PropsByte(p.lc, p.lp, p.pb) == src[0]
      && p.dict_sz >= DICT_MIN
      && (p.dict_sz == LittleEndian(src[1..5]) || (p.dict_sz == DICT_MIN && LittleEndian(src[1..5]) < DICT_MIN))
      && p.buf_sz == p.dict_sz + PROB_SIZE * LitProbs(p.lc, p.lp)
  {
  }

  /** Short headers and out-of-range first bytes give all zeros, so no scratch length. */
  lemma PropsOfInvalid(src: Str)
    ensures PropsOf(src).buf_sz == 0 <==> |src| < 5 || src[0] >= PROPS_LIMIT
  {
  }

  /** dec_lzma_props(). The `|=` of the loop is the sum of disjoint byte lanes. */
  method DecLzmaProps(src: Str) returns (props: Props)
    ensures props == PropsOf(src)
  {
    if |src| < 5 {
      return NO_PROPS;
    }
    var d: u32 := src[0];
    if d >= PROPS_LIMIT {
      return NO_PROPS;
    }
    var lc := d % 9;
    d := d / 9;
    var pb := d / 5;
    var lp := d % 5;
    var dict_sz: nat := 0;
    var i := 0;
    while i < 4
      invariant 0 <= i <= 4
      invariant dict_sz == LittleEndian(src[1..1 + i])
    {
      assert src[1..1 + i + 1] == src[1..1 + i] + [src[1 + i]];
      LittleEndianSnoc(src[1..1 + i], src[1 + i]);
      dict_sz := dict_sz + src[i + 1] * Pow2(8 * i);
      i := i + 1;
    }
    Pow2Of32();
    assert src[1..1 + i] == src[1..5];
    if dict_sz < DICT_MIN {
      dict_sz := DICT_MIN;
    }
    props := Props(lc, pb, lp, dict_sz, dict_sz + PROB_SIZE * LitProbs(lc, lp));
  }

  /** lzma_dec_buf_len(): the scratch bytes lzma_dec wants, or 0 for a header it rejects. */
  method LzmaDecBufLen(src: Str) returns (n: u64)
    ensures n == PropsOf(src).buf_sz
    ensures n == 0 <==> |src| < 5 || src[0] >= PROPS_LIMIT
    ensures n != 0 ==> n >= DICT_MIN + PROB_SIZE * LIT_SIZE
  {
    var props := DecLzmaProps(src);
    PropsOfInvalid(src);
    n := props.buf_sz;
  }
}
