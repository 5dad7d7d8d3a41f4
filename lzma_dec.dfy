/**
 * lzma_dec_t of lzma.cpp: the probability models, the literal, length and
 * distance decoders, the packet loop of dec() and the two lzma_dec entry
 * points.
 */
module LzmaDec {
  import opened Prelude
  import opened LzmaRange
  import opened LzmaWindow
  import opened LzmaProps

  const N_STATES: int := 12
  const N_POS_BITS_MAX: int := 4
  const N_LEN_TO_POS_STATES: int := 4
  const N_ALIGN_BITS: int := 4
  const END_POS_MODEL_IX: int := 14
  const N_FULL_DISTS: int := 128
  const MATCH_MIN_LEN: int := 2
  /** The distance that marks the end of the stream. */
  const END_MARKER: u32 := 0xFFFF_FFFF

  /*
   * The probability fields of lzma_dec_t other than lit_probs, laid out one
   * after the other in a single array; a bit tree of n bits takes 2^n cells
   * and uses the ones from 1 on.
   */
  /** pos_slot_dec: four trees of 6 bits. */
  const POS_SLOT: int := 0
  /** align_dec: a tree of 4 bits. */
  const ALIGN: int := 256
  /** pos_decs: 1 + n_full_dists - end_pos_model_ix cells. */
  const POS_DECS: int := 272
  const IS_MATCH: int := 387
  const IS_REP: int := 579
  const IS_REP_G0: int := 591
  const IS_REP_G1: int := 603
  const IS_REP_G2: int := 615
  const IS_REP_0LONG: int := 627
  /** len_dec and rep_len_dec. */
  const LEN_DEC: int := 819
  const REP_LEN_DEC: int := 1333
  const PROBS_LEN: int := 1847

  /*
   * Within a len_dec_t: the two choices, sixteen low trees and sixteen mid
   * trees of 3 bits, and one high tree of 8 bits.
   */
  const LEN_CHOICE: int := 0
  const LEN_CHOICE_2: int := 1
  const LEN_LOW: int := 2
  const LEN_MID: int := 130
  const LEN_HIGH: int := 258
  /** The lengths a len_dec_t can return: 8 low, 8 mid, 256 high. */
  const LEN_SYMBOLS: int := 272

  /** The state after a literal: the next packet follows a literal. */
  function AfterLiteral(state: nat): (r: nat)
    requires state < N_STATES
    ensures r < 7 && r <= state
    ensures state < 4 <==> r == 0
  {
    if state < 4 then 0 else if state < 10 then state - 3 else state - 6
  }

  /** The state after a match. */
  function AfterMatch(state: nat): (r: nat)
    ensures 7 <= r < N_STATES
    ensures r == 7 <==> state < 7
  {
    if state < 7 then 7 else 10
  }

  /** The state after a rep match. */
  function AfterRep(state: nat): (r: nat)
    ensures 7 <= r < N_STATES
    ensures r == 8 <==> state < 7
  {
    if state < 7 then 8 else 11
  }

  /** The state after a short rep. */
  function AfterShortRep(state: nat): (r: nat)
    ensures 7 <= r < N_STATES
    ensures r == 9 <==> state < 7
  {
    if state < 7 then 9 else 11
  }

  /** rep[k] moved to the front, the ones before it each moved one back. */
  function MoveToFront(rep: seq<u32>, k: nat): (r: seq<u32>)
    requires |rep| == 4 && k < 4
    ensures |r| == 4 && r[0] == rep[k]
    ensures r[1] == (if k == 0 then rep[1] else rep[0])
    ensures r[2] == (if k <= 1 then rep[2] else rep[1])
    ensures r[3] == (if k <= 2 then rep[3] else rep[2])
  {
    [rep[k]] + rep[..k] + rep[k + 1..]
  }

  /** Moving a distance to the front only reorders the four. */
  lemma MoveToFrontPermutes(rep: seq<u32>, k: nat)
    requires |rep| == 4 && k < 4
    ensures multiset(MoveToFront(rep, k)) == multiset(rep)
  {
    assert rep == rep[..k] + [rep[k]] + rep[k + 1..];
    assert MoveToFront(rep, k) == [rep[k]] + rep[..k] + rep[k + 1..];
  }

  /** A new match distance in front, the oldest one dropped. */
  function PushDist(rep: seq<u32>, dist: u32): (r: seq<u32>)
    requires |rep| == 4
    ensures |r| == 4 && r[0] == dist && r[1..] == rep[..3]
  {
    [dist] + rep[..3]
  }

  /** The shifts of the match packet's registers, then the new distance in rep0, push it. */
  lemma ShiftIsPush(rep: seq<u32>, dist: u32)
    requires |rep| == 4
    ensures var a := rep[3 := rep[2]]; var b := a[2 := a[1]]; var c := b[1 := b[0]];
      c[0 := dist] == PushDist(rep, dist)
  {
  }

  /** A distance the window can serve: at most the bytes put, or any once it has wrapped. */
  ghost predicate Admissible(dist: int, put: nat, buf_len: nat)
  {
    dist <= put || put >= buf_len
  }

  /** The top k bits of a byte. */
  function TopBits(m: byte, k: nat): (r: nat)
    requires k <= 8
    ensures r < Pow2(k)
  {
    Pow2Add(8 - k, k);
    Pow2Of32();
    DivBelow(m, Pow2(8 - k), Pow2(k));
    m / Pow2(8 - k)
  }

  /** x below a * b gives x / a below b. */
  lemma DivBelow(x: nat, a: nat, b: nat)
    requires a > 0 && x < a * b
    ensures x / a < b
  {
    var q := x / a;
    assert a * q <= x;
    if q >= b {
      MulLe(a, b, q);
      assert false;
    }
  }

  lemma DivDiv(x: nat, a: nat, b: nat)
    requires a > 0 && b > 0
    ensures x / a / b == x / (a * b)
  {
    var q, r := x / a, x % a;
    var q1, r1 := q / b, q % b;
    assert x == a * q + r;
    assert q == b * q1 + r1;
    assert a * q == a * b * q1 + a * r1;
    MulLe(a, r1, b - 1);
    assert a * (b - 1) == a * b - a;
    assert x == q1 * (a * b) + (a * r1 + r);
    DivPlusSmall(q1, a * b, a * r1 + r);
  }

  lemma MulDiv(x: nat, c: nat, a: nat)
    requires a > 0 && c > 0
    ensures x * c / (a * c) == x / a
  {
    var q, r := x / a, x % a;
    assert x * c == (a * q + r) * c == q * (a * c) + r * c;
    MulLe(c, r, a - 1);
    assert c * (a - 1) == a * c - c;
    DivPlusSmall(q, a * c, r * c);
  }

  /** The bit of m0 that the shifted match byte shows after k rounds, and how it extends TopBits. */
  lemma MatchBitIs(m0: byte, k: nat)
    requires k < 8
    ensures m0 * Pow2(k) < 0x1_0000 && m0 * Pow2(k + 1) == 2 * (m0 * Pow2(k))
    ensures Pow2(k + 1) == 2 * Pow2(k)
    ensures (m0 * Pow2(k) / 0x80) % 2 == TopBits(m0, k + 1) % 2
    ensures TopBits(m0, k + 1) == 2 * TopBits(m0, k) + TopBits(m0, k + 1) % 2
  {
    Pow2Of32();
    Pow2Add(7 - k, k);
    Pow2Add(7 - k, 1);
    Pow2Monotone(k, 8);
    MulLe(Pow2(k), m0, 0xFF);
    MulDiv(m0, Pow2(k), Pow2(7 - k));
    DivDiv(m0, Pow2(7 - k), 2);
  }

  /**
   * What the first loop of dec_lit has decoded after k bits ending in sym:
   * the bits before the last are the top bits of the match byte m0, and
   * the last differs from m0's unless all eight agree.
   */
  ghost predicate MatchedOut(m0: byte, k: nat, sym: nat)
  {
    && 1 <= k <= 8 && Pow2(k) <= sym < Pow2(k + 1) && 1 <= sym < 0x200
    && sym / 2 == Pow2(k - 1) + TopBits(m0, k - 1)
    && (k < 8 ==> sym % 2 != TopBits(m0, k) % 2)
  }

  /** One round of the first loop: a differing bit ends it, an agreeing bit extends the top bits. */
  lemma MatchedStep(m0: byte, k: nat, sym: nat, bit: nat)
    requires k < 8 && sym == Pow2(k) + TopBits(m0, k) && bit <= 1
    ensures bit != TopBits(m0, k + 1) % 2 ==> MatchedOut(m0, k + 1, 2 * sym + bit)
    ensures bit == TopBits(m0, k + 1) % 2 ==> 2 * sym + bit == Pow2(k + 1) + TopBits(m0, k + 1)
    ensures k + 1 == 8 ==> 2 * sym + bit >= 0x100
  {
    MatchBitIs(m0, k);
    Pow2Of32();
    Pow2Add(k + 1, 1);
    Pow2Monotone(k + 2, 9);
    var s' := 2 * sym + bit;
    assert s' / 2 == sym;
    assert s' % 2 == bit;
    if k + 1 == 8 {
      assert Pow2(8) == 0x100;
    }
  }

  /** The byte below the marker bit 0x100. */
  lemma LowByte(sym: nat)
    requires 0x100 <= sym < 0x200
    ensures sym % 0x100 == sym - 0x100
  {
  }

  /** The first loop ends without a differing bit only once all eight bits agree. */
  lemma MatchedEnd(m0: byte, k: nat, sym: nat)
    requires k <= 8 && sym == Pow2(k) + TopBits(m0, k) && sym >= 0x100
    ensures k == 8 && MatchedOut(m0, k, sym)
  {
    if k < 8 {
      Pow2Of32();
      Pow2Monotone(k, 7);
      assert false;
    }
    MatchedAll(m0, sym);
  }

  /** Eight agreeing bits end the first loop with the whole match byte. */
  lemma MatchedAll(m0: byte, sym: nat)
    requires sym == Pow2(8) + TopBits(m0, 8)
    ensures MatchedOut(m0, 8, sym)
  {
    MatchBitIs(m0, 7);
    Pow2Of32();
    assert Pow2(9) == 0x200;
    assert sym / 2 == Pow2(7) + TopBits(m0, 7);
  }

  /** Two more bits below: (2s + b) >> (j + 1) is s >> j. */
  lemma ShiftInBit(s: nat, bit: nat, j: nat)
    requires bit <= 1
    ensures (2 * s + bit) / Pow2(j + 1) == s / Pow2(j)
  {
    DivDiv(2 * s + bit, 2, Pow2(j));
  }

  /**
   * The second loop of dec_lit from sym on, over the literal cells at base:
   * the bit decoded with cell base + sym is shifted in until sym has nine
   * bits.
   */
  ghost function PlainFrom(c: Coder, src: Str, p: seq<u16>, base: nat, sym: nat): (r: Decoded)
    requires 1 <= sym < 0x200
    ensures 0x100 <= r.val < 0x200 && |r.probs| == |p|
    decreases 0x200 - sym
  {
    if sym >= 0x100 then Decoded(c, p, sym)
    else
      var b := BitValue(c, src, p, base + sym);
      PlainFrom(b.c, src, b.probs, base, 2 * sym + b.val)
  }

  /**
   * The first loop of dec_lit from sym on, with match_byte the match byte
   * shifted left once per bit so far: its bit 7 picks the upper or the lower
   * 0x100 cells, and the loop stops as soon as the bit decoded differs.
   */
  ghost function MatchedFrom(c: Coder, src: Str, p: seq<u16>, base: nat, match_byte: nat, sym: nat): (r: Decoded)
    requires 1 <= sym < 0x200
    ensures 1 <= r.val < 0x200 && |r.probs| == |p|
    decreases 0x200 - sym
  {
    if sym >= 0x100 then Decoded(c, p, sym)
    else
      var match_bit := (match_byte / 0x80) % 2;
      var b := BitValue(c, src, p, base + (1 + match_bit) * 0x100 + sym);
      if match_bit != b.val then Decoded(b.c, b.probs, 2 * sym + b.val)
      else MatchedFrom(b.c, src, b.probs, base, 2 * match_byte, 2 * sym + b.val)
  }

  /**
   * The symbol dec_lit reaches, 0x100 above the byte it puts: from state 7
   * on the match loop runs first, from the match byte.
   */
  ghost function LitSpec(c: Coder, src: Str, p: seq<u16>, base: nat, state: nat, match_byte: nat): (r: Decoded)
    ensures 0x100 <= r.val < 0x200 && |r.probs| == |p|
  {
    if state >= 7 then
      var m := MatchedFrom(c, src, p, base, match_byte, 1);
      PlainFrom(m.c, src, m.probs, base, m.val)
    else PlainFrom(c, src, p, base, 1)
  }

  /** Walking the 8-bit tree at base i levels, to w, leaves the plain loop where it would be after i bits. */
  lemma {:induction false} PlainWalk(c: Coder, src: Str, p: seq<u16>, base: nat, i: nat, w: Walk)
    requires i <= 8 && base + 0x100 <= |p| && w == TreeOf(c, src, p, base, i)
    ensures 1 <= w.leaf < 0x200
    ensures PlainFrom(c, src, p, base, 1) == PlainFrom(w.c, src, w.probs, base, w.leaf)
  {
    if i == 0 {
      assert w == Walk(c, p, [], 1);
    } else {
      var v := TreeOf(c, src, p, base, i - 1);
      PlainWalk(c, src, p, base, i - 1, v);
      PlainLevel(c, src, p, base, i, v, w);
    }
  }

  /** Level i of that walk is one round of the plain loop. */
  lemma PlainLevel(c: Coder, src: Str, p: seq<u16>, base: nat, i: nat, v: Walk, w: Walk)
    requires 0 < i <= 8 && base + 0x100 <= |p|
    requires v == TreeOf(c, src, p, base, i - 1) && w == TreeOf(c, src, p, base, i)
    ensures 1 <= v.leaf < 0x100 && 1 <= w.leaf < 0x200
    ensures PlainFrom(v.c, src, v.probs, base, v.leaf) == PlainFrom(w.c, src, w.probs, base, w.leaf)
  {
    TreeLevel(c, src, p, base, i, v, w);
    PlainStep(v.c, src, v.probs, base, v.leaf, w.c, w.probs, w.leaf);
  }

  /** Level i of a walk down the 8-bit tree, from the node v reached to w. */
  lemma TreeLevel(c: Coder, src: Str, p: seq<u16>, base: nat, i: nat, v: Walk, w: Walk)
    requires 0 < i <= 8 && base + 0x100 <= |p|
    requires v == TreeOf(c, src, p, base, i - 1) && w == TreeOf(c, src, p, base, i)
    ensures 1 <= v.leaf < 0x100 && 1 <= w.leaf < 0x200
    ensures var r := BitAt(v.c, src, v.probs, base + v.leaf);
      w.c == r.c && w.probs == v.probs[base + v.leaf := r.prob] && w.leaf == 2 * v.leaf + r.bit as nat
  {
    LevelBounds(c, src, p, base, i);
    assert v == TreeFrom(c, src, p, base, 1, i - 1) && w == TreeFrom(c, src, p, base, 1, i);
  }

  /** The nodes at levels i - 1 and i of the 8-bit tree. */
  lemma LevelBounds(c: Coder, src: Str, p: seq<u16>, base: nat, i: nat)
    requires 0 < i <= 8 && base + 0x100 <= |p|
    ensures 1 <= TreeOf(c, src, p, base, i - 1).leaf < 0x100 && 1 <= TreeOf(c, src, p, base, i).leaf < 0x200
  {
    Pow2Monotone(i, 8);
    assert Pow2(8) == 0x100 && Pow2(i) == 2 * Pow2(i - 1);
    TreeLeaf(c, src, p, base, i - 1);
    TreeLeaf(c, src, p, base, i);
  }

  /** One round of the plain loop. */
  lemma PlainStep(c: Coder, src: Str, p: seq<u16>, base: nat, sym: nat, c': Coder, p': seq<u16>, sym': nat)
    requires 1 <= sym < 0x100 && base + sym < |p|
    requires var r := BitAt(c, src, p, base + sym);
      c' == r.c && p' == p[base + sym := r.prob] && sym' == 2 * sym + r.bit as nat
    ensures 1 <= sym' < 0x200
    ensures PlainFrom(c, src, p, base, sym) == PlainFrom(c', src, p', base, sym')
  {
  }

  /** One round of the match loop: stop on a bit that differs from the match bit, otherwise go on. */
  lemma MatchedRound(c: Coder, src: Str, p: seq<u16>, base: nat, match_byte: nat, sym: nat, match_bit: nat,
                      c': Coder, p': seq<u16>, bit: nat, match_byte': nat, sym': nat)
    requires 1 <= sym < 0x100 && match_bit == (match_byte / 0x80) % 2
    requires match_byte' == 2 * match_byte && sym' == 2 * sym + bit
    requires var i := base + (1 + match_bit) * 0x100 + sym;
      var r := BitAt(c, src, p, i);
      i < |p| && c' == r.c && p' == p[i := r.prob] && bit == r.bit as nat
    ensures 1 <= sym' < 0x200
    ensures match_bit != bit ==> MatchedFrom(c, src, p, base, match_byte, sym) == Decoded(c', p', sym')
    ensures match_bit == bit ==> MatchedFrom(c, src, p, base, match_byte, sym) == MatchedFrom(c', src, p', base, match_byte', sym')
  {
    assert BitValue(c, src, p, base + (1 + match_bit) * 0x100 + sym) == Decoded(c', p', bit);
  }

  /** The plain loop from 1 is the 8-bit tree decoder at base, 0x100 above its value. */
  lemma PlainIsTree(c: Coder, src: Str, p: seq<u16>, base: nat)
    requires base + 0x100 <= |p|
    ensures PlainFrom(c, src, p, base, 1) == Plus(0x100, TreeValue(c, src, p, base, 8))
  {
    Pow2Of32();
    PlainWalk(c, src, p, base, 8, TreeOf(c, src, p, base, 8));
    TreeShape(c, src, p, base, 8);
  }

  /**
   * The literal state: the low lp bits of the position above the top lc
   * bits of the byte before.
   */
  function LitContext(total_i: u32, prev_byte: byte, lc: nat, lp: nat): (r: nat)
    requires lc < 9 && lp < 5
    ensures r < Pow2(lc + lp)
    ensures r / Pow2(lc) == total_i % Pow2(lp)
    ensures r % Pow2(lc) == TopBits(prev_byte, lc)
  {
    var t, x := total_i % Pow2(lp), TopBits(prev_byte, lc);
    Digits(t, x, Pow2(lc), Pow2(lp));
    Pow2Add(lc, lp);
    t * Pow2(lc) + x
  }

  /** A two-digit number in base p: t above x. */
  lemma Digits(t: nat, x: nat, p: nat, q: nat)
    requires t < q && x < p
    ensures 0 <= t * p + x < p * q
    ensures (t * p + x) / p == t && (t * p + x) % p == x
  {
    DivPlusSmall(t, p, x);
    MulLe(p, t + 1, q);
  }

  /** The 0x300 cells of a literal state lie inside lit_probs. */
  lemma LitCellsFit(ctx: nat, lc: nat, lp: nat)
    requires lc < 9 && lp < 5 && lc + lp <= 12 && ctx < Pow2(lc + lp)
    ensures LIT_SIZE * ctx + LIT_SIZE <= LitProbs(lc, lp)
  {
    MulLe(LIT_SIZE, ctx + 1, Pow2(lc + lp));
  }

  /** The first literal probability of the context: 0x300 cells per context. */
  function LitBase(total_i: u32, prev_byte: byte, lc: nat, lp: nat): (r: nat)
    requires lc < 9 && lp < 5
    ensures r % LIT_SIZE == 0 && r + LIT_SIZE <= LitProbs(lc, lp)
    ensures r / LIT_SIZE == LitContext(total_i, prev_byte, lc, lp)
  {
    var ctx := LitContext(total_i, prev_byte, lc, lp);
    LitCellsFit(ctx, lc, lp);
    LIT_SIZE * ctx
  }

  /** One packet of the stream: a literal byte, or len bytes copied from dist back. */
  datatype Packet = Literal(b: byte) | Copy(dist: nat, len: nat)

  /** How a match packet ends: decoded, the end marker, or a failure. */
  datatype Outcome = Go | EndMark | Fail

  /**
   * The stream once the packets have been applied to s in order, each
   * literal appended and each copy done byte by byte as cp_match does.
   */
  ghost function Unpack(s: seq<byte>, ps: seq<Packet>): (r: seq<byte>)
    ensures |s| <= |r| && r[..|s|] == s
  {
    if ps == [] then s
    else
      var t := Unpack(s, ps[..|ps| - 1]);
      match ps[|ps| - 1]
      case Literal(b) => t + [b]
      case Copy(dist, len) => if 1 <= dist <= |t| then t + Copied(t, dist, len) else t
  }

  /**
   * The registers of dec() between packets: the state is one of the
   * twelve, and each of the four remembered distances is inside the
   * dictionary and passes check_dist after put bytes.
   */
  ghost predicate Regs(state: u32, rep: seq<u32>, dict: int, put: nat, buf_len: nat)
  {
    && state < N_STATES as u32 && |rep| == 4
    && RegOk(rep[0], dict, put, buf_len) && RegOk(rep[1], dict, put, buf_len)
    && RegOk(rep[2], dict, put, buf_len) && RegOk(rep[3], dict, put, buf_len)
  }

  /** One remembered distance: inside the dictionary and passing check_dist after put bytes. */
  ghost predicate RegOk(d: u32, dict: int, put: nat, buf_len: nat)
  {
    d < dict && Admissible(d as int, put, buf_len)
  }

  /** A literal appends its byte. */
  lemma UnpackLiteral(s: seq<byte>, ps: seq<Packet>, b: byte)
    ensures Unpack(s, ps + [Literal(b)]) == Unpack(s, ps) + [b]
  {
    assert (ps + [Literal(b)])[..|ps|] == ps;
  }

  /** A copy appends what cp_match copies. */
  lemma UnpackCopy(s: seq<byte>, ps: seq<Packet>, dist: nat, len: nat)
    requires 1 <= dist <= |Unpack(s, ps)|
    ensures Unpack(s, ps + [Copy(dist, len)]) == Unpack(s, ps) + Copied(Unpack(s, ps), dist, len)
  {
    assert (ps + [Copy(dist, len)])[..|ps|] == ps;
  }

  /** Appending a packet that keeps to dict keeps every copy to dict. */
  lemma CopiesInSnoc(ps: seq<Packet>, p: Packet, dict: int)
    requires CopiesIn(ps, dict) && (p.Copy? ==> 1 <= p.dist <= dict)
    ensures CopiesIn(ps + [p], dict)
  {
    assert forall i :: 0 <= i < |ps| ==> (ps + [p])[i] == ps[i];
  }

  /** Every copy reaches back at least one byte and at most dict bytes. */
  ghost predicate CopiesIn(ps: seq<Packet>, dict: int)
  {
    forall i :: 0 <= i < |ps| && ps[i].Copy? ==> 1 <= ps[i].dist <= dict
  }

  /** Unpacking is streaming: the packets after ps start from where ps ends. */
  lemma {:induction false} UnpackAppend(s: seq<byte>, ps: seq<Packet>, qs: seq<Packet>)
    ensures Unpack(s, ps + qs) == Unpack(Unpack(s, ps), qs)
    decreases |qs|
  {
    if qs == [] {
      assert ps + qs == ps;
    } else {
      var q := qs[..|qs| - 1];
      assert (ps + qs)[..|ps + qs| - 1] == ps + q;
      assert (ps + qs)[|ps + qs| - 1] == qs[|qs| - 1];
      UnpackAppend(s, ps, q);
    }
  }

  /**
   * After a copy packet every new byte equals the one dist before it: the
   * back-reference the packet stands for.
   */
  lemma CopyIsBackReference(s: seq<byte>, ps: seq<Packet>, dist: nat, len: nat)
    requires 1 <= dist <= |Unpack(s, ps)|
    ensures var t := Unpack(s, ps); var r := Unpack(s, ps + [Copy(dist, len)]);
      && |r| == |t| + len
      && forall k :: |t| <= k < |r| ==> r[k] == r[k - dist]
  {
    var t := Unpack(s, ps);
    assert (ps + [Copy(dist, len)])[..|ps|] == ps;
    var r := Unpack(s, ps + [Copy(dist, len)]);
    assert r == t + Copied(t, dist, len);
    CopiedBytes(t, dist, len);
    forall k | |t| <= k < |r|
      ensures r[k] == r[k - dist]
    {
      var j := k - |t|;
      if j < dist {
        assert r[k] == Copied(t, dist, len)[j] == t[|t| - dist + j];
      } else {
        assert r[k] == Copied(t, dist, len)[j] == Copied(t, dist, len)[j - dist];
      }
    }
  }

  /**
   * The values dec() keeps between packets: the registers, the bytes put
   * h and the bytes still to come adding up to the destination, and init
   * and h together the expansion of the packets so far.
   */
  ghost predicate Between(state: u32, rep: seq<u32>, unpack: int, packets: seq<Packet>, dict: int,
                          init: seq<byte>, h: seq<byte>, dst_len: int)
  {
    && Regs(state, rep, dict, |h|, |init|)
    && (state < 7 <==> AfterLit(packets))
    && |h| + unpack == dst_len
    && init + h == Unpack(init, packets)
    && CopiesIn(packets, dict)
  }

  /** No packet yet, or the last one a literal: what the states below 7 stand for. */
  ghost predicate AfterLit(packets: seq<Packet>)
  {
    packets == [] || packets[|packets| - 1].Literal?
  }

  /** The registers alone, as the packet methods need them. */
  lemma BetweenRegs(state: u32, rep: seq<u32>, unpack: int, packets: seq<Packet>, dict: int,
                    init: seq<byte>, h: seq<byte>, dst_len: int)
    requires Between(state, rep, unpack, packets, dict, init, h, dst_len)
    ensures Regs(state, rep, dict, |h|, |init|) && |h| + unpack == dst_len
  {
  }

  /** A literal packet keeps the values of dec() in step. */
  lemma BetweenLiteral(state: u32, rep: seq<u32>, unpack: int, packets: seq<Packet>, dict: int,
                       init: seq<byte>, h: seq<byte>, dst_len: int, b: byte)
    requires Between(state, rep, unpack, packets, dict, init, h, dst_len)
    ensures Between(AfterLiteral(state as int) as u32, rep, unpack - 1, packets + [Literal(b)], dict, init, h + [b], dst_len)
  {
    UnpackLiteral(init, packets, b);
    assert init + (h + [b]) == (init + h) + [b];
    CopiesInSnoc(packets, Literal(b), dict);
  }

  /** So does a copy from rep[0] + 1 back, leaving one of the states from 7 on. */
  lemma BetweenCopy(state: u32, state': u32, rep: seq<u32>, unpack: int, packets: seq<Packet>, dict: int,
                    init: seq<byte>, h: seq<byte>, dst_len: int, n: nat)
    requires Between(state, rep, unpack, packets, dict, init, h, dst_len)
    requires 7 <= state' < N_STATES as u32 && dict <= |init|
    ensures var c := Copied(init + h, rep[0] as int + 1, n);
      Between(state', rep, unpack - n, packets + [Copy(rep[0] as int + 1, n)], dict, init, h + c, dst_len)
  {
    var c := Copied(init + h, rep[0] as int + 1, n);
    UnpackCopy(init, packets, rep[0] as int + 1, n);
    assert init + (h + c) == (init + h) + c;
    CopiesInSnoc(packets, Copy(rep[0] as int + 1, n), dict);
  }

  /** Moving a remembered distance to the front keeps the values of dec() in step. */
  lemma BetweenMoveToFront(state: u32, rep: seq<u32>, k: nat, unpack: int, packets: seq<Packet>, dict: int,
                           init: seq<byte>, h: seq<byte>, dst_len: int)
    requires Between(state, rep, unpack, packets, dict, init, h, dst_len) && k < 4
    ensures Between(state, MoveToFront(rep, k), unpack, packets, dict, init, h, dst_len)
  {
    RegsMoveToFront(state, state, rep, k, dict, |h|, |init|);
  }

  /** A rep match keeps the registers: it only reorders them. */
  lemma RegsMoveToFront(state: u32, state': u32, rep: seq<u32>, k: nat, dict: int, put: nat, buf_len: nat)
    requires Regs(state, rep, dict, put, buf_len) && state' < N_STATES as u32 && k < 4
    ensures Regs(state', MoveToFront(rep, k), dict, put, buf_len)
  {
    var r := MoveToFront(rep, k);
    assert r[0] == rep[k];
  }

  /** So does a new distance that is inside the dictionary and passed check_dist. */
  lemma RegsPush(state: u32, state': u32, rep: seq<u32>, dist: u32, dict: int, put: nat, buf_len: nat)
    requires Regs(state, rep, dict, put, buf_len) && state' < N_STATES as u32
    requires dist < dict && Admissible(dist as int, put, buf_len)
    ensures Regs(state', PushDist(rep, dist), dict, put, buf_len)
  {
    var r := PushDist(rep, dist);
    assert r[1] == rep[0] && r[2] == rep[1] && r[3] == rep[2];
  }

  /** The first distance of a slot s from 4 on: 1 and s % 2 over s / 2 - 1 zero bits. */
  function DistBase(slot: nat): (r: nat)
    requires 4 <= slot < 64
    ensures r == (2 + slot % 2) * Pow2(slot / 2 - 1)
    ensures r + Pow2(slot / 2 - 1) == (3 + slot % 2) * Pow2(slot / 2 - 1) <= U32_LIMIT
  {
    SlotTop(slot);
    (2 + slot % 2) * Pow2(slot / 2 - 1)
  }

  /**
   * The length decoder at base over the cells p: the choice bit picks the low
   * tree of pos_state, otherwise the second choice bit picks the mid tree of
   * pos_state (lengths from 8) or the high tree (lengths from 16).
   */
  ghost function LenSpec(c: Coder, src: Str, p: seq<u16>, base: nat, pos_state: nat): Decoded
  {
    var choice := BitValue(c, src, p, base + LEN_CHOICE);
    if choice.val == 0 then
      TreeValue(choice.c, src, choice.probs, base + LEN_LOW + 8 * pos_state, 3)
    else
      LenAbove(choice.c, src, choice.probs, base, pos_state)
  }

  /** The lengths from 8 on, once the first choice bit is 1. */
  ghost function LenAbove(c: Coder, src: Str, p: seq<u16>, base: nat, pos_state: nat): Decoded
  {
    var choice2 := BitValue(c, src, p, base + LEN_CHOICE_2);
    if choice2.val == 0 then
      Plus(8, TreeValue(choice2.c, src, choice2.probs, base + LEN_MID + 8 * pos_state, 3))
    else
      Plus(16, TreeValue(choice2.c, src, choice2.probs, base + LEN_HIGH, 8))
  }

  /**
   * The three trees cover disjoint ranges of lengths, so the length alone
   * tells which choice bits were read: below 8 exactly when the first is 0,
   * from 16 on exactly when both are 1, and never LEN_SYMBOLS or more.
   */
  lemma LenRanges(c: Coder, src: Str, p: seq<u16>, base: nat, pos_state: nat)
    ensures var r := LenSpec(c, src, p, base, pos_state);
      var choice := BitValue(c, src, p, base + LEN_CHOICE);
      var choice2 := BitValue(choice.c, src, choice.probs, base + LEN_CHOICE_2);
      && r.val < LEN_SYMBOLS
      && (r.val < 8 <==> choice.val == 0)
      && (r.val >= 16 <==> choice.val == 1 && choice2.val == 1)
  {
    Pow2Of32();
    assert Pow2(3) == 8;
  }

  /** The pos_slot tree a length picks: 0 to 3 for lengths 0 to 3, 3 for any longer one. */
  function LenState(len: nat): (r: nat)
    ensures r < N_LEN_TO_POS_STATES && (len < N_LEN_TO_POS_STATES ==> r == len)
  {
    if len > N_LEN_TO_POS_STATES - 1 then N_LEN_TO_POS_STATES - 1 else len
  }

  /**
   * dec_dist over the cells p: the 6-bit slot from the tree of the length's
   * state, then the distance it stands for.
   */
  ghost function DistSpec(c: Coder, src: Str, p: seq<u16>, len: nat): Decoded
  {
    var slot := TreeValue(c, src, p, POS_SLOT + 64 * LenState(len), 6);
    assert Pow2(6) == 64;
    SlotDist(slot, src)
  }

  /** A slot below 4 is the distance; any other adds its remaining bits to the slot's first distance. */
  ghost function SlotDist(slot: Decoded, src: Str): Decoded
    requires slot.val < 64
  {
    if slot.val < 4 then slot else Plus(DistBase(slot.val), RestSpec(slot.c, src, slot.probs, slot.val))
  }

  /**
   * The bits of a distance below its top two for a slot from 4 on: a reverse
   * tree of pos_decs below slot 14, otherwise direct bits over the 4 bits of
   * the reverse align tree.
   */
  ghost function RestSpec(c: Coder, src: Str, p: seq<u16>, slot: nat): Decoded
    requires 4 <= slot < 64
  {
    var n_direct_bits := slot / 2 - 1;
    if slot < END_POS_MODEL_IX then
      var top := DistBase(slot);
      DistBaseFits(slot, n_direct_bits, top);
      ReverseValue(c, src, p, POS_DECS + top - slot, n_direct_bits)
    else
      var direct := DirectBits(c, src, n_direct_bits - N_ALIGN_BITS);
      Plus(direct.bit as nat * 0x10, ReverseValue(direct.c, src, p, ALIGN, N_ALIGN_BITS))
  }

  /**
   * Slot s from 4 on leaves a distance of s / 2 + 1 bits whose top two are 1
   * and s % 2: inside [DistBase(s), DistBase(s) + 2^(s / 2 - 1)).
   */
  lemma DistRanges(c: Coder, src: Str, p: seq<u16>, len: nat, slot: Decoded)
    requires CoderOk(c, src) && CellsOk(p) && slot == TreeValue(c, src, p, POS_SLOT + 64 * LenState(len), 6)
    ensures slot.val < 64
    ensures slot.val < 4 ==> DistSpec(c, src, p, len).val == slot.val
    ensures slot.val >= 4 ==> DistBase(slot.val) <= DistSpec(c, src, p, len).val < DistBase(slot.val) + Pow2(slot.val / 2 - 1)
  {
    assert Pow2(6) == 64;
    assert DistSpec(c, src, p, len) == SlotDist(slot, src);
    if slot.val >= 4 {
      TreeValueKeeps(c, src, p, POS_SLOT + 64 * LenState(len), 6);
      SlotRange(slot, src);
    }
  }

  /** The same for any slot from 4 on, whatever the coder before its remaining bits. */
  lemma SlotRange(slot: Decoded, src: Str)
    requires CoderOk(slot.c, src) && 4 <= slot.val < 64
    ensures DistBase(slot.val) <= SlotDist(slot, src).val < DistBase(slot.val) + Pow2(slot.val / 2 - 1)
  {
    RestRange(slot.c, src, slot.probs, slot.val);
  }

  /** RestSpec below slot 14: the reverse tree of pos_decs that slot s owns. */
  lemma RestOfPosDecs(c: Coder, src: Str, p: seq<u16>, slot: nat)
    requires 4 <= slot < END_POS_MODEL_IX
    ensures DistBase(slot) >= slot
    ensures RestSpec(c, src, p, slot) == ReverseValue(c, src, p, POS_DECS + DistBase(slot) - slot, slot / 2 - 1)
  {
    DistBaseFits(slot, slot / 2 - 1, DistBase(slot));
  }

  /** RestSpec from slot 14 on: direct bits, then the align tree. */
  lemma RestOfDirect(c: Coder, src: Str, p: seq<u16>, slot: nat)
    requires END_POS_MODEL_IX <= slot < 64
    ensures var direct := DirectBits(c, src, slot / 2 - 1 - N_ALIGN_BITS);
      RestSpec(c, src, p, slot) == Plus(direct.bit as nat * 0x10, ReverseValue(direct.c, src, p, ALIGN, N_ALIGN_BITS))
  {
  }

  /** The remaining bits of slot s fill s / 2 - 1 bits. */
  lemma RestRange(c: Coder, src: Str, p: seq<u16>, slot: nat)
    requires CoderOk(c, src) && 4 <= slot < 64
    ensures RestSpec(c, src, p, slot).val < Pow2(slot / 2 - 1)
  {
    var n := slot / 2 - 1;
    if slot >= END_POS_MODEL_IX {
      RestOfDirect(c, src, p, slot);
      DirectBitsKeeps(c, src, n - N_ALIGN_BITS);
      var direct := DirectBits(c, src, n - N_ALIGN_BITS);
      DirectFits(direct.bit as nat, ReverseValue(direct.c, src, p, ALIGN, N_ALIGN_BITS).val, n);
    } else {
      RestOfPosDecs(c, src, p, slot);
    }
  }

  /**
   * What dec() works on between two packets, as one value: the coder, the
   * model and literal cells, the state, the four distances, the bytes put,
   * the bytes still to come and the packets decoded so far.
   */
  datatype DecSt = DecSt(c: Coder, probs: seq<u16>, lit: seq<u16>, state: nat, rep: seq<u32>,
                         h: seq<byte>, unpack: nat, packets: seq<Packet>)

  /** One of the twelve states, and four distances that each reach inside a window of w bytes. */
  ghost predicate Fit(s: DecSt, w: nat)
  {
    s.state < N_STATES && |s.rep| == 4 && s.rep[0] as nat < w && s.rep[1] as nat < w && s.rep[2] as nat < w && s.rep[3] as nat < w
  }

  /** The window's byte dist back after the bytes h were put over init, or 0 for a distance it does not hold. */
  ghost function WinByte(init: seq<byte>, h: seq<byte>, dist: nat): byte
  {
    var s := init + h;
    if 1 <= dist <= |s| then s[|s| - dist] else 0
  }

  /**
   * The tail of every copy: n bytes from rep[0] + 1 back, or a failure when
   * fewer than n are still to come; state is the state after the copy.
   */
  ghost function CopyStep(s: DecSt, init: seq<byte>, state: nat, n: nat): (r: (Outcome, DecSt))
    requires |s.rep| == 4 && s.rep[0] as nat < |init|
    ensures r.0 != EndMark
    ensures r.0 == Go ==> r.1.unpack + n == s.unpack && r.1.state == state && r.1.rep == s.rep
  {
    var dist := s.rep[0] as nat + 1;
    if s.unpack < n then (Fail, s)
    else (Go, DecSt(s.c, s.probs, s.lit, state, s.rep, s.h + Copied(init + s.h, dist, n), s.unpack - n,
                    s.packets + [Copy(dist, n)]))
  }

  /**
   * One literal: the byte dec_lit decodes in the literal state of the bytes
   * put and the previous byte, following from state 7 on the byte rep[0] + 1
   * back.
   */
  ghost function LitStep(s: DecSt, src: Str, pr: Props, init: seq<byte>): (r: DecSt)
    requires Fit(s, |init|) && pr.lc < 9 && pr.lp < 5 && s.unpack > 0
    ensures Fit(r, |init|) && r.unpack < s.unpack
  {
    LitPut(s, LitSpec(s.c, src, s.lit, LitCells(s, pr), s.state, MatchByte(s, init)))
  }

  /** The literal cells of the literal state after the bytes h: their bottom two context bytes. */
  ghost function LitCells(s: DecSt, pr: Props): (r: nat)
    requires pr.lc < 9 && pr.lp < 5
  {
    LitBase((|s.h| % U32_LIMIT) as u32, if s.h == [] then 0 else s.h[|s.h| - 1], pr.lc as nat, pr.lp as nat)
  }

  /** The byte a literal follows: from state 7 on, the one rep[0] + 1 back; otherwise none. */
  ghost function MatchByte(s: DecSt, init: seq<byte>): nat
  {
    if s.state >= 7 && |s.rep| == 4 then WinByte(init, s.h, s.rep[0] as nat + 1) as nat else 0
  }

  /** The literal byte l decoded put, with the literal state change and one byte less to come. */
  ghost function LitPut(s: DecSt, l: Decoded): (r: DecSt)
    requires s.state < N_STATES && 0x100 <= l.val < 0x200 && s.unpack > 0
    ensures r.state < 7 && r.rep == s.rep && r.unpack + 1 == s.unpack
  {
    var b := (l.val - 0x100) as byte;
    DecSt(l.c, s.probs, l.probs, AfterLiteral(s.state), s.rep, s.h + [b], s.unpack - 1, s.packets + [Literal(b)])
  }

  /** A copy with n bytes still to come goes on, with the copied bytes put and the packet added. */
  lemma CopyStepIs(s: DecSt, init: seq<byte>, state: nat, n: nat, s': DecSt)
    requires |s.rep| == 4 && s.rep[0] as nat < |init| && n <= s.unpack
    requires s'.c == s.c && s'.probs == s.probs && s'.lit == s.lit && s'.state == state && s'.rep == s.rep
    requires s'.h == s.h + Copied(init + s.h, s.rep[0] as nat + 1, n)
    requires s'.unpack == s.unpack - n && s'.packets == s.packets + [Copy(s.rep[0] as nat + 1, n)]
    ensures CopyStep(s, init, state, n) == (Go, s')
  {
  }

  /** A literal whose cells and context are those of s: its byte put, and the packet added. */
  lemma LitStepIs(s: DecSt, src: Str, pr: Props, init: seq<byte>, l: Decoded, b: byte, t: DecSt)
    requires Fit(s, |init|) && pr.lc < 9 && pr.lp < 5 && s.unpack > 0
    requires l == LitSpec(s.c, src, s.lit, LitCells(s, pr), s.state, MatchByte(s, init))
    requires l.val == 0x100 + b as nat
    requires t.c == l.c && t.probs == s.probs && t.lit == l.probs && t.state == AfterLiteral(s.state) && t.rep == s.rep
    requires t.h == s.h + [b] && t.unpack == s.unpack - 1 && t.packets == s.packets + [Literal(b)]
    ensures LitStep(s, src, pr, init) == t
  {
    assert LitStep(s, src, pr, init) == LitPut(s, l);
  }

  /**
   * What dec_lit reads from the window is what the values of dec() say: the
   * count of bytes put on 32 bits, the last byte put (0 before any), and the
   * byte rep[0] + 1 back.
   */
  lemma LitContextOf(w: OutWindow, s: DecSt, pr: Props, state: u32, rep0: u32)
    requires w.Valid() && rep0 < w.buf_len && pr.lc < 9 && pr.lp < 5
    requires s.h == w.history && s.state == state as nat && |s.rep| == 4 && s.rep[0] == rep0
    ensures w.total_i == (|s.h| % U32_LIMIT) as u32
    ensures (if w.IsEmpty() then 0 else w.Byte(1)) == if s.h == [] then 0 else s.h[|s.h| - 1]
    ensures LitCells(s, pr) == LitBase(w.total_i, if w.IsEmpty() then 0 else w.Byte(1), pr.lc as nat, pr.lp as nat)
    ensures (if state >= 7 then w.Byte(rep0 + 1) as nat else 0) == MatchByte(s, w.init)
  {
  }

  /** The is_rep_g1 and is_rep_g2 bits, with k of rep[k] as the value. */
  ghost function PickSpec(c: Coder, src: Str, p: seq<u16>, state: nat): (r: Decoded)
    ensures 1 <= r.val < 4
  {
    var g1 := BitValue(c, src, p, IS_REP_G1 + state);
    if g1.val == 0 then g1.(val := 1)
    else
      var g2 := BitValue(g1.c, src, g1.probs, IS_REP_G2 + state);
      g2.(val := 2 + g2.val)
  }

  /**
   * A rep match of rep[k] whose length len the rep length decoder gave:
   * rep[k] moves to the front, and the copy follows.
   */
  ghost function RepMatch(s: DecSt, len: Decoded, init: seq<byte>, k: nat): (r: (Outcome, DecSt))
    requires Fit(s, |init|) && k < 4
    ensures r.0 != EndMark && (r.0 == Go ==> Fit(r.1, |init|) && r.1.unpack < s.unpack)
  {
    var rep := MoveToFront(s.rep, k);
    CopyStep(s.(c := len.c, probs := len.probs, rep := rep), init, AfterRep(s.state), len.val + MATCH_MIN_LEN)
  }

  /**
   * A rep packet, once is_rep was 1: is_rep_g0 and is_rep_0long pick a short
   * rep of one byte from rep[0] + 1 back, otherwise a rep match.
   */
  ghost function RepStep(s: DecSt, src: Str, init: seq<byte>, pos_state: nat): (r: (Outcome, DecSt))
    requires Fit(s, |init|) && s.unpack > 0
    ensures r.0 != EndMark && (r.0 == Go ==> Fit(r.1, |init|) && r.1.unpack < s.unpack)
  {
    var g0 := BitValue(s.c, src, s.probs, IS_REP_G0 + s.state);
    var t := s.(c := g0.c, probs := g0.probs);
    if g0.val == 0 then RepZero(t, src, init, pos_state)
    else
      var pick := PickSpec(t.c, src, t.probs, t.state);
      var u := t.(c := pick.c, probs := pick.probs);
      RepMatch(u, LenSpec(u.c, src, u.probs, REP_LEN_DEC, pos_state), init, pick.val)
  }

  /**
   * A rep packet once is_rep_g0 was 0: is_rep_0long 0 is the short rep of
   * one byte from rep[0] + 1 back, 1 a rep match from rep[0].
   */
  ghost function RepZero(t: DecSt, src: Str, init: seq<byte>, pos_state: nat): (r: (Outcome, DecSt))
    requires Fit(t, |init|) && t.unpack > 0
    ensures r.0 != EndMark && (r.0 == Go ==> Fit(r.1, |init|) && r.1.unpack < t.unpack)
  {
    var long := BitValue(t.c, src, t.probs, IS_REP_0LONG + t.state * 16 + pos_state);
    var u := t.(c := long.c, probs := long.probs);
    if long.val == 0 then CopyStep(u, init, AfterShortRep(t.state), 1)
    else RepMatch(u, LenSpec(u.c, src, u.probs, REP_LEN_DEC, pos_state), init, 0)
  }

  /** m is s after decoding d: the coder and the probabilities d left, the rest as in s. */
  ghost predicate Took(m: DecSt, s: DecSt, d: Decoded)
  {
    && m.c == d.c && m.probs == d.probs && m.lit == s.lit && m.state == s.state
    && m.rep == s.rep && m.h == s.h && m.unpack == s.unpack && m.packets == s.packets
  }

  /** is_rep_g0 0: what follows is RepZero on the values after that bit. */
  lemma RepStepZero(s: DecSt, src: Str, init: seq<byte>, pos_state: nat, g0: Decoded, t: DecSt)
    requires Fit(s, |init|) && s.unpack > 0
    requires g0 == BitValue(s.c, src, s.probs, IS_REP_G0 + s.state) && g0.val == 0
    requires Took(t, s, g0)
    ensures Fit(t, |init|) && t.unpack == s.unpack && RepStep(s, src, init, pos_state) == RepZero(t, src, init, pos_state)
  {
    assert t == s.(c := g0.c, probs := g0.probs);
  }

  /** is_rep_g0 1: a rep match from the distance is_rep_g1 and is_rep_g2 pick. */
  lemma RepStepPick(s: DecSt, src: Str, init: seq<byte>, pos_state: nat, g0: Decoded, pick: Decoded, m: DecSt)
    requires Fit(s, |init|) && s.unpack > 0
    requires g0 == BitValue(s.c, src, s.probs, IS_REP_G0 + s.state) && g0.val != 0
    requires pick == PickSpec(g0.c, src, g0.probs, s.state)
    requires Took(m, s, pick)
    ensures Fit(m, |init|) && pick.val < 4 && RepStep(s, src, init, pos_state)
      == RepMatch(m, LenSpec(m.c, src, m.probs, REP_LEN_DEC, pos_state), init, pick.val)
  {
    assert m == s.(c := g0.c, probs := g0.probs).(c := pick.c, probs := pick.probs);
  }

  /** is_rep_0long 0: the short rep copy. */
  lemma RepZeroShort(t: DecSt, src: Str, init: seq<byte>, pos_state: nat, long: Decoded, m: DecSt)
    requires Fit(t, |init|) && t.unpack > 0
    requires long == BitValue(t.c, src, t.probs, IS_REP_0LONG + t.state * 16 + pos_state) && long.val == 0
    requires Took(m, t, long)
    ensures RepZero(t, src, init, pos_state) == CopyStep(m, init, AfterShortRep(t.state), 1)
  {
    assert m == t.(c := long.c, probs := long.probs);
  }

  /** is_rep_0long 1: a rep match from rep[0]. */
  lemma RepZeroLong(t: DecSt, src: Str, init: seq<byte>, pos_state: nat, long: Decoded, m: DecSt)
    requires Fit(t, |init|) && t.unpack > 0
    requires long == BitValue(t.c, src, t.probs, IS_REP_0LONG + t.state * 16 + pos_state) && long.val != 0
    requires Took(m, t, long)
    ensures Fit(m, |init|) && RepZero(t, src, init, pos_state)
      == RepMatch(m, LenSpec(m.c, src, m.probs, REP_LEN_DEC, pos_state), init, 0)
  {
    assert m == t.(c := long.c, probs := long.probs);
  }

  /** A rep match is the copy from the distance moved to the front, with the length the rep length decoder gave. */
  lemma RepMatchIs(m: DecSt, init: seq<byte>, k: nat, len: Decoded, t: DecSt, state: nat, n: nat)
    requires Fit(m, |init|) && k < 4
    requires t.c == len.c && t.probs == len.probs && t.lit == m.lit && t.state == m.state
    requires t.rep == MoveToFront(m.rep, k) && t.h == m.h && t.unpack == m.unpack && t.packets == m.packets
    requires state == AfterRep(m.state) && n == len.val + MATCH_MIN_LEN
    ensures RepMatch(m, len, init, k) == CopyStep(t, init, state, n)
  {
    assert t == m.(c := len.c, probs := len.probs, rep := MoveToFront(m.rep, k));
  }

  /**
   * A match with a new distance, once is_rep was 0: the length, then the
   * distance; the end marker, a destination already full, a distance not
   * inside the dictionary and one check_dist refuses each stop here.
   */
  ghost function MatchStep(s: DecSt, src: Str, pr: Props, init: seq<byte>, pos_state: nat): (r: (Outcome, DecSt))
    requires Fit(s, |init|) && pr.dict_sz as nat == |init|
    ensures r.0 == EndMark ==> r.1 == s.(c := r.1.c, probs := r.1.probs)
    ensures r.0 == Go ==> Fit(r.1, |init|) && r.1.unpack < s.unpack
  {
    var len := LenSpec(s.c, src, s.probs, LEN_DEC, pos_state);
    var d := DistSpec(len.c, src, len.probs, len.val);
    MatchFrom(s.(c := d.c, probs := d.probs), d.val, pr, init, AfterMatch(s.state), len.val)
  }

  /**
   * What a decoded distance dist leads to, with t the values after it:
   * the end marker; a failure when nothing is still to come, dist is not
   * inside the dictionary or check_dist refuses it; otherwise dist pushed
   * onto the remembered distances and len + 2 bytes copied from dist + 1
   * back.
   */
  ghost function MatchFrom(t: DecSt, dist: nat, pr: Props, init: seq<byte>, state: nat, len: nat): (r: (Outcome, DecSt))
    requires Fit(t, |init|) && pr.dict_sz as nat == |init| && state < N_STATES
    ensures r.0 == EndMark <==> dist == END_MARKER as nat
    ensures r.0 == EndMark ==> r.1 == t
    ensures r.0 == Go ==> Fit(r.1, |init|) && r.1.unpack < t.unpack
  {
    if dist == END_MARKER as nat then (EndMark, t)
    else if t.unpack == 0 || dist >= pr.dict_sz as nat || !(dist <= |t.h| || |t.h| >= |init|) then (Fail, t)
    else
      var rep := PushDist(t.rep, dist as u32);
      assert rep[1] == t.rep[0] && rep[2] == t.rep[1] && rep[3] == t.rep[2];
      CopyStep(t.(rep := rep), init, state, len + MATCH_MIN_LEN)
  }

  /** MatchStep once the length len is decoded: the distance after it, then MatchFrom. */
  lemma MatchStepIs(s: DecSt, src: Str, pr: Props, init: seq<byte>, pos_state: nat, len: Decoded)
    requires Fit(s, |init|) && pr.dict_sz as nat == |init|
    requires len == LenSpec(s.c, src, s.probs, LEN_DEC, pos_state)
    ensures var d := DistSpec(len.c, src, len.probs, len.val);
      MatchStep(s, src, pr, init, pos_state)
      == MatchFrom(s.(c := d.c, probs := d.probs), d.val, pr, init, AfterMatch(s.state), len.val)
  {
  }

  /** Took, as an update of s. */
  lemma TookIs(m: DecSt, s: DecSt, d: Decoded)
    requires Took(m, s, d)
    ensures m == s.(c := d.c, probs := d.probs)
  {
  }

  /** A distance the checks let through: the copy, with u the values once it is pushed. */
  lemma MatchFromIs(t: DecSt, dist: u32, pr: Props, init: seq<byte>, state: nat, len: nat, u: DecSt)
    requires Fit(t, |init|) && pr.dict_sz as nat == |init| && state < N_STATES
    requires dist != END_MARKER && t.unpack > 0 && dist < pr.dict_sz && (dist as nat <= |t.h| || |t.h| >= |init|)
    requires Took(u.(rep := t.rep), t, Decoded(t.c, t.probs, 0)) && u.rep == PushDist(t.rep, dist)
    ensures MatchFrom(t, dist as nat, pr, init, state, len) == CopyStep(u, init, state, len + MATCH_MIN_LEN)
  {
    assert u == t.(rep := PushDist(t.rep, dist));
  }

  /** The header values and window a decoding runs with. */
  ghost predicate Setting(pr: Props, init: seq<byte>)
  {
    pr.lc < 9 && pr.lp < 5 && pr.pb < 5 && pr.dict_sz as nat == |init| > 0
  }

  /**
   * One pass of dec()'s loop: the is_match bit of the state and pos_state
   * picks a literal, and a literal with no byte still to come fails;
   * otherwise a rep packet or a match follows.
   */
  ghost function Step(s: DecSt, src: Str, pr: Props, init: seq<byte>): (r: (Outcome, DecSt))
    requires Fit(s, |init|) && Setting(pr, init)
    ensures r.0 == EndMark ==> r.1 == s.(c := r.1.c, probs := r.1.probs)
    ensures r.0 == Go ==> Fit(r.1, |init|) && r.1.unpack < s.unpack
  {
    var pos_state := (|s.h| % U32_LIMIT) % Pow2(pr.pb as nat);
    var m := BitValue(s.c, src, s.probs, IS_MATCH + s.state * 16 + pos_state);
    var t := s.(c := m.c, probs := m.probs);
    if m.val == 0 then LitOrFail(t, src, pr, init)
    else RepOrMatch(t, src, pr, init, pos_state)
  }

  /** After an is_match bit of 0: a literal, which fails with no byte still to come. */
  ghost function LitOrFail(t: DecSt, src: Str, pr: Props, init: seq<byte>): (r: (Outcome, DecSt))
    requires Fit(t, |init|) && Setting(pr, init)
    ensures r.0 != EndMark && (r.0 == Go ==> Fit(r.1, |init|) && r.1.unpack < t.unpack)
  {
    if t.unpack == 0 then (Fail, t) else (Go, LitStep(t, src, pr, init))
  }

  /**
   * After an is_match bit of 1: the is_rep bit picks a rep packet, which
   * fails with no byte still to come or before any byte was put, or a match.
   */
  ghost function RepOrMatch(t: DecSt, src: Str, pr: Props, init: seq<byte>, pos_state: nat): (r: (Outcome, DecSt))
    requires Fit(t, |init|) && Setting(pr, init)
    ensures r.0 == EndMark ==> r.1 == t.(c := r.1.c, probs := r.1.probs)
    ensures r.0 == Go ==> Fit(r.1, |init|) && r.1.unpack < t.unpack
  {
    var rep := BitValue(t.c, src, t.probs, IS_REP + t.state);
    var u := t.(c := rep.c, probs := rep.probs);
    if rep.val != 0 then
      if t.unpack == 0 || t.h == [] then (Fail, u) else RepStep(u, src, init, pos_state)
    else MatchStep(u, src, pr, init, pos_state)
  }

  /** Step after its is_match bit m, with t the values that bit leaves: a literal on 0. */
  lemma StepIs(s: DecSt, src: Str, pr: Props, init: seq<byte>, pos_state: nat, m: Decoded, t: DecSt)
    requires Fit(s, |init|) && Setting(pr, init) && pos_state == (|s.h| % U32_LIMIT) % Pow2(pr.pb as nat)
    requires m == BitValue(s.c, src, s.probs, IS_MATCH + s.state * 16 + pos_state) && Took(t, s, m)
    ensures Fit(t, |init|) && t.unpack == s.unpack
    ensures m.val == 0 && s.unpack > 0 ==> Step(s, src, pr, init) == (Go, LitStep(t, src, pr, init))
    ensures m.val == 0 && s.unpack == 0 ==> Step(s, src, pr, init).0 == Fail
    ensures m.val != 0 ==> Step(s, src, pr, init) == RepOrMatch(t, src, pr, init, pos_state)
  {
    TookIs(t, s, m);
    if m.val == 0 {
      StepLit(s, src, pr, init, pos_state, m, t);
    } else {
      StepCopy(s, src, pr, init, pos_state, m, t);
    }
  }

  /** An is_match bit of 0: a literal, or a failure with no byte still to come. */
  lemma StepLit(s: DecSt, src: Str, pr: Props, init: seq<byte>, pos_state: nat, m: Decoded, t: DecSt)
    requires Fit(s, |init|) && Setting(pr, init) && pos_state == (|s.h| % U32_LIMIT) % Pow2(pr.pb as nat)
    requires m == BitValue(s.c, src, s.probs, IS_MATCH + s.state * 16 + pos_state) && m.val == 0
    requires t == s.(c := m.c, probs := m.probs)
    ensures Step(s, src, pr, init) == LitOrFail(t, src, pr, init)
  {
  }

  /** An is_match bit of 1: a rep packet or a match. */
  lemma StepCopy(s: DecSt, src: Str, pr: Props, init: seq<byte>, pos_state: nat, m: Decoded, t: DecSt)
    requires Fit(s, |init|) && Setting(pr, init) && pos_state == (|s.h| % U32_LIMIT) % Pow2(pr.pb as nat)
    requires m == BitValue(s.c, src, s.probs, IS_MATCH + s.state * 16 + pos_state) && m.val != 0
    requires t == s.(c := m.c, probs := m.probs)
    ensures Step(s, src, pr, init) == RepOrMatch(t, src, pr, init, pos_state)
  {
  }

  /** RepOrMatch after its is_rep bit b, with u the values that bit leaves. */
  lemma RepOrMatchIs(t: DecSt, src: Str, pr: Props, init: seq<byte>, pos_state: nat, b: Decoded, u: DecSt)
    requires Fit(t, |init|) && Setting(pr, init)
    requires b == BitValue(t.c, src, t.probs, IS_REP + t.state) && Took(u, t, b)
    ensures Fit(u, |init|) && u.unpack == t.unpack && u.h == t.h
    ensures b.val != 0 && t.unpack > 0 && t.h != [] ==> RepOrMatch(t, src, pr, init, pos_state) == RepStep(u, src, init, pos_state)
    ensures b.val != 0 && (t.unpack == 0 || t.h == []) ==> RepOrMatch(t, src, pr, init, pos_state).0 == Fail
    ensures b.val == 0 ==> RepOrMatch(t, src, pr, init, pos_state) == MatchStep(u, src, pr, init, pos_state)
  {
    TookIs(u, t, b);
  }

  /** How dec()'s loop ends: with the values it leaves, or in a failure. */
  datatype RunOut = Done(s: DecSt) | Failed

  /**
   * dec()'s loop from s: packets while bytes are still to come or the coder
   * has not ended cleanly; the end marker ends it too, when the coder has.
   */
  ghost function Run(s: DecSt, src: Str, pr: Props, init: seq<byte>): RunOut
    requires Fit(s, |init|) && Setting(pr, init)
    decreases s.unpack
  {
    if s.unpack == 0 && s.c.code == 0 then Done(s)
    else
      var r := Step(s, src, pr, init);
      match r.0
      case Go => Run(r.1, src, pr, init)
      case EndMark => if r.1.c.code == 0 then Done(r.1) else Failed
      case Fail => Failed
  }

  /** n probability cells at one half, as init_probs leaves them. */
  ghost function Halves(n: nat): (r: seq<u16>)
    ensures |r| == n && forall j :: 0 <= j < n ==> r[j] == PROB_INIT
  {
    seq(n, _ => PROB_INIT)
  }

  /** What a decoding yields: the packets, or nothing at all. */
  datatype DecodeOut = Packets(ps: seq<Packet>) | Rejected

  /**
   * dec() over src from the coder c0, with the window init and dst_len bytes
   * to decode: init(), the loop from the initial state with every probability
   * at one half, and success only without corruption, with the whole source
   * read and exactly dst_len bytes put.
   */
  ghost function Decode(c0: Coder, src: Str, pr: Props, init: seq<byte>, dst_len: nat): DecodeOut
    requires Setting(pr, init)
  {
    var i := InitSpec(c0, src);
    if !i.1 then Rejected
    else
      var s0 := DecSt(i.0, Halves(PROBS_LEN), Halves(LitProbs(pr.lc as nat, pr.lp as nat)), 0, [0, 0, 0, 0], [],
                      dst_len, []);
      match Run(s0, src, pr, init)
      case Failed => Rejected
      case Done(t) => if !t.c.corrupt && t.c.src_i == |src| && |t.h| == dst_len then Packets(t.packets) else Rejected
  }

  /** lzma_dec_t. */
  class Decoder {
    const rdec: RangeDecoder
    const ownd: OutWindow
    const props: Props
    /** The probability fields, at the offsets above. */
    const probs: array<u16>
    /** lit_probs: 0x300 cells per literal state. */
    const lit_probs: array<u16>

    /** The fixed parts fit together: separate arrays of the right lengths. */
    ghost predicate Layout()
    {
      && probs != lit_probs
      && {probs as object, lit_probs} !! {ownd.buf as object, ownd.dst}
      && props.lc < 9 && props.lp < 5 && props.pb < 5
      && props.dict_sz == ownd.buf_len
      && probs.Length == PROBS_LEN
      && lit_probs.Length == LitProbs(props.lc, props.lp)
    }

    /** What holds from lzma_dec's set-up on. */
    ghost predicate Shaped()
      reads this, ownd, ownd.buf, ownd.dst
    {
      Layout() && ownd.Valid()
    }

    /** The range decoder and the probabilities, apart from the window. */
    ghost predicate Models()
      reads this, rdec, probs, lit_probs
    {
      rdec.Valid() && ProbsOk(probs) && ProbsOk(lit_probs)
    }

    /** What holds once init() has succeeded. */
    ghost predicate Valid()
      reads this, rdec, ownd, ownd.buf, ownd.dst, probs, lit_probs
    {
      Shaped() && Models()
    }

    constructor(rdec: RangeDecoder, ownd: OutWindow, props: Props, probs: array<u16>, lit_probs: array<u16>)
      ensures this.rdec == rdec && this.ownd == ownd && this.props == props
      ensures this.probs == probs && this.lit_probs == lit_probs
    {
      this.rdec := rdec;
      this.ownd := ownd;
      this.props := props;
      this.probs := probs;
      this.lit_probs := lit_probs;
    }

    /** The values of dec() with the registers given and the rest as the objects hold them. */
    ghost function Cur(state: nat, rep: seq<u32>, unpack: nat, packets: seq<Packet>): DecSt
      reads this, rdec, ownd, probs, lit_probs
    {
      DecSt(rdec.Coded(), probs[..], lit_probs[..], state, rep, ownd.history, unpack, packets)
    }

    /** init(dec): the range decoder, then every probability at one half. */
    method Init() returns (ok: bool)
      requires Shaped()
      modifies rdec, probs, lit_probs
      ensures Shaped() && rdec.Valid() && (rdec.Coded(), ok) == InitSpec(old(rdec.Coded()), rdec.src)
      ensures ok ==> Valid()
      ensures ok ==> forall j :: 0 <= j < probs.Length ==> probs[j] == PROB_INIT
      ensures ok ==> forall j :: 0 <= j < lit_probs.Length ==> lit_probs[j] == PROB_INIT
    {
      ok := rdec.Init();
      if !ok {
        return;
      }
      InitProbs(lit_probs);
      InitProbs(probs);
    }

    /** dec_bit(dec.rdec, probs[i]) */
    method Bit(i: nat) returns (bit: u32)
      requires Valid() && i < probs.Length
      modifies rdec, probs
      ensures Valid() && bit <= 1
      ensures Decoded(rdec.Coded(), probs[..], bit as nat) == BitValue(old(rdec.Coded()), rdec.src, old(probs[..]), i)
    {
      ghost var before := probs[..];
      bit := rdec.DecBit(probs, i);
      assert probs[..] == before[i := probs[i]];
    }

    /** dec_bit(dec.rdec, lit_probs[i]) */
    method LitBit(i: nat) returns (bit: u32)
      requires Valid() && i < lit_probs.Length
      modifies rdec, lit_probs
      ensures Valid() && bit <= 1
      ensures Decoded(rdec.Coded(), lit_probs[..], bit as nat) == BitValue(old(rdec.Coded()), rdec.src, old(lit_probs[..]), i)
    {
      ghost var before := lit_probs[..];
      bit := rdec.DecBit(lit_probs, i);
      assert lit_probs[..] == before[i := lit_probs[i]];
    }

    /** dec(tdec, rdec) on the tree of n bits at probs[base]. */
    method Tree(base: nat, n: nat) returns (sym: u32)
      requires Valid() && base + Pow2(n) <= probs.Length && n < 32
      modifies rdec, probs
      ensures Valid() && sym < Pow2(n)
      ensures Decoded(rdec.Coded(), probs[..], sym as nat) == TreeValue(old(rdec.Coded()), rdec.src, old(probs[..]), base, n)
    {
      sym := BitTreeDec(rdec, probs, base, n);
    }

    /** bit_tree_reverse_dec(&probs[base], n, rdec) */
    method ReverseTree(base: nat, n: nat) returns (sym: u32)
      requires Valid() && base + Pow2(n) <= probs.Length && n < 32
      modifies rdec, probs
      ensures Valid() && sym < Pow2(n)
      ensures Decoded(rdec.Coded(), probs[..], sym as nat) == ReverseValue(old(rdec.Coded()), rdec.src, old(probs[..]), base, n)
    {
      sym := BitTreeReverseDec(rdec, probs, base, n);
    }

    /**
     * dec(ldec, rdec, pos_state) on the length decoder at base: a low
     * length below 8, a mid one from 8 to 15, or a high one from 16 on.
     */
    method DecLen(base: nat, pos_state: u32) returns (len: u32)
      requires Valid() && (base == LEN_DEC || base == REP_LEN_DEC) && pos_state < 16
      modifies rdec, probs
      ensures Valid() && len < LEN_SYMBOLS
      ensures Decoded(rdec.Coded(), probs[..], len as nat) == LenSpec(old(rdec.Coded()), rdec.src, old(probs[..]), base, pos_state as nat)
    {
      assert Pow2(3) == 8;
      var b := Bit(base + LEN_CHOICE);
      if b == 0 {
        len := Tree(base + LEN_LOW + 8 * pos_state, 3);
      } else {
        len := LenFrom8(base, pos_state);
      }
    }

    /** The rest of DecLen once the first choice bit is 1: the mid or the high tree. */
    method LenFrom8(base: nat, pos_state: u32) returns (len: u32)
      requires Valid() && (base == LEN_DEC || base == REP_LEN_DEC) && pos_state < 16
      modifies rdec, probs
      ensures Valid() && 8 <= len < LEN_SYMBOLS
      ensures Decoded(rdec.Coded(), probs[..], len as nat) == LenAbove(old(rdec.Coded()), rdec.src, old(probs[..]), base, pos_state as nat)
    {
      assert Pow2(3) == 8 && Pow2(8) == 0x100;
      ghost var c0, p0 := rdec.Coded(), probs[..];
      var b := Bit(base + LEN_CHOICE_2);
      ghost var c1, p1 := rdec.Coded(), probs[..];
      if b == 0 {
        var mid := Tree(base + LEN_MID + 8 * pos_state, 3);
        len := 8 + mid;
        assert LenAbove(c0, rdec.src, p0, base, pos_state as nat) == Plus(8, TreeValue(c1, rdec.src, p1, base + LEN_MID + 8 * pos_state as nat, 3));
      } else {
        var high := Tree(base + LEN_HIGH, 8);
        len := 16 + high;
        assert LenAbove(c0, rdec.src, p0, base, pos_state as nat) == Plus(16, TreeValue(c1, rdec.src, p1, base + LEN_HIGH, 8));
      }
    }

    /**
     * dec_lit(dec, state, rep0): one byte from the 0x300 models of its
     * literal state; after a match (state 7 on) the bits first follow the
     * byte rep0 + 1 back.
     */
    method DecLit(state: u32, rep0: u32, ghost cells: nat, ghost match_byte: nat) returns (ghost b: byte)
      requires Valid() && state < N_STATES as u32 && rep0 < props.dict_sz
      requires cells == LitBase(ownd.total_i, if ownd.IsEmpty() then 0 else ownd.Byte(1), props.lc as nat, props.lp as nat)
      requires match_byte == if state >= 7 then ownd.Byte(rep0 + 1) as nat else 0
      modifies rdec, lit_probs, ownd, ownd.buf, ownd.dst
      ensures Valid() && ownd.history == old(ownd.history) + [b]
      ensures Decoded(rdec.Coded(), lit_probs[..], 0x100 + b as nat)
        == LitSpec(old(rdec.Coded()), rdec.src, old(lit_probs[..]), cells, state as nat, match_byte)
    {
      var sym := LitByte(state, rep0);
      ownd.Put(sym);
      b := sym;
    }

    /** The byte dec_lit decodes, before it is put into the window. */
    method LitByte(state: u32, rep0: u32) returns (b: byte)
      requires Valid() && state < N_STATES as u32 && rep0 < props.dict_sz
      modifies rdec, lit_probs
      ensures Valid()
      ensures Decoded(rdec.Coded(), lit_probs[..], 0x100 + b as nat)
        == LitSpec(old(rdec.Coded()), rdec.src, old(lit_probs[..]),
                   LitBase(ownd.total_i, if ownd.IsEmpty() then 0 else ownd.Byte(1), props.lc, props.lp),
                   state as nat, if state >= 7 then ownd.Byte(rep0 + 1) as nat else 0)
    {
      var prev_byte: byte := 0;
      if !ownd.IsEmpty() {
        prev_byte := ownd.Byte(1);
      }
      var base := LitBase(ownd.total_i, prev_byte, props.lc, props.lp);
      var match_byte: byte := 0;
      if state >= 7 {
        match_byte := ownd.Byte(rep0 + 1);
      }
      var sym := LitSym(base, state, match_byte);
      b := sym % 0x100;
      LowByte(sym as nat);
      assert (if ownd.IsEmpty() then 0 else ownd.Byte(1)) == prev_byte;
      assert match_byte as nat == if state >= 7 then ownd.Byte(rep0 + 1) as nat else 0;
    }

    /** The two loops of dec_lit over the literal cells at base; the first only from state 7 on. */
    method LitSym(base: nat, state: u32, match_byte: byte) returns (sym: u32)
      requires Valid() && base + LIT_SIZE <= lit_probs.Length
      modifies rdec, lit_probs
      ensures Valid() && 0x100 <= sym < 0x200
      ensures Decoded(rdec.Coded(), lit_probs[..], sym as nat) == LitSpec(old(rdec.Coded()), rdec.src, old(lit_probs[..]), base, state as nat, match_byte as nat)
    {
      ghost var c0, p0 := rdec.Coded(), lit_probs[..];
      sym := 1;
      if state >= 7 {
        ghost var k;
        sym, k := MatchedLit(base, match_byte);
      }
      ghost var m := Decoded(rdec.Coded(), lit_probs[..], sym as nat);
      assert LitSpec(c0, rdec.src, p0, base, state as nat, match_byte as nat) == PlainFrom(m.c, rdec.src, m.probs, base, m.val);
      ghost var j;
      sym, j := PlainLit(base, sym);
    }

    /**
     * The first loop of dec_lit: bit by bit, the model for the next bit of
     * the match byte, until the bit decoded differs from it. Of the k bits
     * decoded, all but the last are the match byte's top bits, and the last
     * differs from the match byte's unless all eight agree.
     */
    method MatchedLit(base: nat, m0: byte) returns (sym: u32, ghost k: nat)
      requires Valid() && base + LIT_SIZE <= lit_probs.Length
      modifies rdec, lit_probs
      ensures Valid() && MatchedOut(m0, k, sym as nat)
      ensures Decoded(rdec.Coded(), lit_probs[..], sym as nat) == MatchedFrom(old(rdec.Coded()), rdec.src, old(lit_probs[..]), base, m0 as nat, 1)
    {
      ghost var c0, p0 := rdec.Coded(), lit_probs[..];
      sym, k := 1, 0;
      var match_byte: u32 := m0;
      while sym < 0x100
        invariant Valid() && k <= 8 && sym == Pow2(k) + TopBits(m0, k) && match_byte == m0 * Pow2(k)
        invariant k == 8 ==> sym >= 0x100
        invariant 1 <= sym < 0x200
        invariant MatchedFrom(rdec.Coded(), rdec.src, lit_probs[..], base, match_byte as nat, sym as nat) == MatchedFrom(c0, rdec.src, p0, base, m0 as nat, 1)
        decreases 8 - k
      {
        var match_bit, bit;
        sym, match_byte, match_bit, bit := MatchedBit(base, sym, match_byte, m0, k);
        k := k + 1;
        if match_bit != bit {
          return;
        }
      }
      MatchedEnd(m0, k, sym as nat);
    }

    /**
     * One round of the first loop: bit 7 of the match byte, shifted left k
     * times so far, picks the cells the next bit is decoded with.
     */
    method MatchedBit(base: nat, sym: u32, match_byte: u32, ghost m0: byte, ghost k: nat)
      returns (sym': u32, match_byte': u32, match_bit: u32, bit: u32)
      requires Valid() && base + LIT_SIZE <= lit_probs.Length && sym < 0x100
      requires k < 8 && sym == Pow2(k) + TopBits(m0, k) && match_byte == m0 * Pow2(k)
      modifies rdec, lit_probs
      ensures Valid() && bit <= 1 && sym' == 2 * sym + bit && match_byte' == m0 * Pow2(k + 1)
      ensures match_bit == TopBits(m0, k + 1) % 2
      ensures match_bit != bit ==> MatchedOut(m0, k + 1, sym' as nat)
      ensures match_bit == bit ==> sym' == Pow2(k + 1) + TopBits(m0, k + 1)
      ensures k + 1 == 8 ==> sym' >= 0x100
      ensures match_bit != bit ==> Decoded(rdec.Coded(), lit_probs[..], sym' as nat) == MatchedFrom(old(rdec.Coded()), rdec.src, old(lit_probs[..]), base, match_byte as nat, sym as nat)
      ensures match_bit == bit ==> MatchedFrom(rdec.Coded(), rdec.src, lit_probs[..], base, match_byte' as nat, sym' as nat) == MatchedFrom(old(rdec.Coded()), rdec.src, old(lit_probs[..]), base, match_byte as nat, sym as nat)
    {
      MatchBitIs(m0, k);
      ghost var c0, p0 := rdec.Coded(), lit_probs[..];
      match_bit := (match_byte / 0x80) % 2;
      match_byte' := match_byte * 2;
      bit := LitBit(base + (1 + match_bit) * 0x100 + sym);
      MatchedStep(m0, k, sym as nat, bit as nat);
      sym' := sym * 2 + bit;
      MatchedRound(c0, rdec.src, p0, base, match_byte as nat, sym as nat, match_bit as nat, rdec.Coded(), lit_probs[..], bit as nat, match_byte' as nat, sym' as nat);
    }

    /** The second loop of dec_lit: bits below those already decoded until there are eight. */
    method PlainLit(base: nat, sym0: u32) returns (sym: u32, ghost j: nat)
      requires Valid() && base + LIT_SIZE <= lit_probs.Length && 1 <= sym0 < 0x200
      modifies rdec, lit_probs
      ensures Valid() && 0x100 <= sym < 0x200
      ensures sym / Pow2(j) == sym0
      ensures sym0 >= 0x100 ==> sym == sym0
      ensures Decoded(rdec.Coded(), lit_probs[..], sym as nat) == PlainFrom(old(rdec.Coded()), rdec.src, old(lit_probs[..]), base, sym0 as nat)
    {
      ghost var c0, p0 := rdec.Coded(), lit_probs[..];
      sym, j := sym0, 0;
      while sym < 0x100
        invariant Valid() && 1 <= sym < 0x200 && sym / Pow2(j) == sym0
        invariant sym0 >= 0x100 ==> sym == sym0
        invariant PlainFrom(rdec.Coded(), rdec.src, lit_probs[..], base, sym as nat) == PlainFrom(c0, rdec.src, p0, base, sym0 as nat)
        decreases 0x100 - sym
      {
        sym := PlainBit(base, sym, j);
        j := j + 1;
      }
    }

    /** One round of the second loop: the bit at cell base + sym shifted in. */
    method PlainBit(base: nat, sym: u32, ghost j: nat) returns (sym': u32)
      requires Valid() && base + LIT_SIZE <= lit_probs.Length && 1 <= sym < 0x100
      modifies rdec, lit_probs
      ensures Valid() && 2 * sym <= sym' <= 2 * sym + 1 && sym' / Pow2(j + 1) == sym / Pow2(j)
      ensures PlainFrom(rdec.Coded(), rdec.src, lit_probs[..], base, sym' as nat) == PlainFrom(old(rdec.Coded()), rdec.src, old(lit_probs[..]), base, sym as nat)
    {
      ghost var c0, p0 := rdec.Coded(), lit_probs[..];
      var bit := LitBit(base + sym);
      ShiftInBit(sym, bit, j);
      sym' := sym * 2 + bit;
      PlainStep(c0, rdec.src, p0, base, sym as nat, rdec.Coded(), lit_probs[..], sym' as nat);
    }

    /**
     * dec_dist(dec, len): a 6-bit slot from the tree picked by the length;
     * slots below 4 are the distance, and slot s from 4 on gives a distance
     * of s / 2 bits whose top two are 1 and s % 2, the rest from the
     * reverse trees of pos_decs for s below 14, otherwise from direct bits
     * and the 4-bit align tree.
     */
    method DecDist(len: u32) returns (dist: u32, ghost pos_slot: nat)
      requires Valid()
      modifies rdec, probs
      ensures Valid() && pos_slot < 64
      ensures pos_slot == TreeValue(old(rdec.Coded()), rdec.src, old(probs[..]), POS_SLOT + 64 * LenState(len as nat), 6).val
      ensures Decoded(rdec.Coded(), probs[..], dist as nat) == DistSpec(old(rdec.Coded()), rdec.src, old(probs[..]), len as nat)
      ensures pos_slot < 4 ==> dist == pos_slot
      ensures pos_slot >= 4 ==>
        var low := Pow2(pos_slot / 2 - 1);
        (2 + pos_slot % 2) * low <= dist < (3 + pos_slot % 2) * low
    {
      ghost var c0, p0 := rdec.Coded(), probs[..];
      var slot := DecSlot(len);
      ghost var s := Decoded(rdec.Coded(), probs[..], slot as nat);
      pos_slot := slot;
      if slot < 4 {
        assert DistSpec(c0, rdec.src, p0, len as nat) == s;
        return slot, pos_slot;
      }
      var rest := DistRest(slot);
      dist := DistBase(slot) + rest;
      assert DistSpec(c0, rdec.src, p0, len as nat) == Plus(DistBase(slot as nat), RestSpec(s.c, rdec.src, s.probs, slot as nat));
    }

    /** The 6-bit slot tree picked by the length, capped at 3. */
    method DecSlot(len: u32) returns (slot: u32)
      requires Valid()
      modifies rdec, probs
      ensures Valid() && slot < 64
      ensures Decoded(rdec.Coded(), probs[..], slot as nat) == TreeValue(old(rdec.Coded()), rdec.src, old(probs[..]), POS_SLOT + 64 * LenState(len as nat), 6)
    {
      assert Pow2(6) == 64;
      var len_state := if len > N_LEN_TO_POS_STATES - 1 then N_LEN_TO_POS_STATES - 1 else len;
      assert len_state as nat == LenState(len as nat);
      slot := Tree(POS_SLOT + 64 * len_state, 6);
    }

    /** The bits of a distance below its top two, for slot s from 4 on. */
    method DistRest(slot: u32) returns (rest: u32)
      requires Valid() && 4 <= slot < 64
      modifies rdec, probs
      ensures Valid() && rest < Pow2(slot / 2 - 1)
      ensures Decoded(rdec.Coded(), probs[..], rest as nat) == RestSpec(old(rdec.Coded()), rdec.src, old(probs[..]), slot as nat)
    {
      if slot < END_POS_MODEL_IX as u32 {
        rest := PosDecsRest(slot);
      } else {
        rest := DirectRest(slot);
      }
    }

    /** Below slot 14: the slot's reverse tree in pos_decs. */
    method PosDecsRest(slot: u32) returns (rest: u32)
      requires Valid() && 4 <= slot < END_POS_MODEL_IX as u32
      modifies rdec, probs
      ensures Valid() && rest < Pow2(slot / 2 - 1)
      ensures Decoded(rdec.Coded(), probs[..], rest as nat) == RestSpec(old(rdec.Coded()), rdec.src, old(probs[..]), slot as nat)
    {
      var n_direct_bits := slot / 2 - 1;
      var top := DistBase(slot);
      DistBaseFits(slot, n_direct_bits, top);
      ghost var c0, p0 := rdec.Coded(), probs[..];
      rest := ReverseTree(POS_DECS + top - slot, n_direct_bits);
      RestOfPosDecs(c0, rdec.src, p0, slot as nat);
    }

    /** From slot 14 on: direct bits, then the 4 bits of the align tree. */
    method DirectRest(slot: u32) returns (rest: u32)
      requires Valid() && END_POS_MODEL_IX as u32 <= slot < 64
      modifies rdec, probs
      ensures Valid() && rest < Pow2(slot / 2 - 1)
      ensures Decoded(rdec.Coded(), probs[..], rest as nat) == RestSpec(old(rdec.Coded()), rdec.src, old(probs[..]), slot as nat)
    {
      var n_direct_bits := slot / 2 - 1;
      SlotTop(slot);
      ghost var c0, p0 := rdec.Coded(), probs[..];
      var direct := rdec.DecDirectBits(n_direct_bits - N_ALIGN_BITS);
      assert probs[..] == p0;
      var align := ReverseTree(ALIGN, N_ALIGN_BITS);
      DirectFits(direct, align, n_direct_bits);
      rest := direct * 0x10 + align;
      RestOfDirect(c0, rdec.src, p0, slot as nat);
    }

    /**
     * What holds between the packets of dec(), on the decoder's objects:
     * they are valid, and the values in Between hold of the window.
     */
    ghost predicate Decoding(state: u32, rep: seq<u32>, unpack: u64, packets: seq<Packet>)
      reads this, rdec, ownd, ownd.buf, ownd.dst, probs, lit_probs
    {
      && Valid()
      && Between(state, rep, unpack as int, packets, props.dict_sz as int, ownd.init, ownd.history, ownd.dst.Length)
    }

    /** A literal packet: dec_lit, then the literal state change. */
    method LitPacket(state: u32, rep: seq<u32>, unpack: u64, ghost packets: seq<Packet>)
      returns (state': u32, unpack': u64, ghost packets': seq<Packet>)
      requires Decoding(state, rep, unpack, packets) && unpack > 0
      modifies rdec, lit_probs, ownd, ownd.buf, ownd.dst
      ensures Decoding(state', rep, unpack', packets')
      ensures state' as int == AfterLiteral(state as int) && unpack' == unpack - 1
      ensures |packets'| == |packets| + 1 && packets'[..|packets|] == packets && packets'[|packets|].Literal?
      ensures Cur(state' as nat, rep, unpack' as nat, packets')
        == LitStep(old(Cur(state as nat, rep, unpack as nat, packets)), rdec.src, props, ownd.init)
    {
      ghost var h := ownd.history;
      ghost var s0 := Cur(state as nat, rep, unpack as nat, packets);
      ghost var b := LitInto(state, rep, unpack, packets);
      state', unpack', packets' := LitTail(state, rep, unpack, packets, h, b);
      LitStepIs(s0, rdec.src, props, ownd.init, Decoded(rdec.Coded(), lit_probs[..], 0x100 + b as nat), b,
                Cur(state' as nat, rep, unpack' as nat, packets'));
    }

    /** dec_lit in the literal context the values of dec() give: the byte put, and the literal it decodes. */
    method LitInto(state: u32, rep: seq<u32>, unpack: u64, ghost packets: seq<Packet>) returns (ghost b: byte)
      requires Decoding(state, rep, unpack, packets)
      modifies rdec, lit_probs, ownd, ownd.buf, ownd.dst
      ensures Valid() && ownd.history == old(ownd.history) + [b]
      ensures var s := old(Cur(state as nat, rep, unpack as nat, packets));
        Decoded(rdec.Coded(), lit_probs[..], 0x100 + b as nat)
          == LitSpec(s.c, rdec.src, s.lit, LitCells(s, props), s.state, MatchByte(s, ownd.init))
    {
      ghost var s0 := Cur(state as nat, rep, unpack as nat, packets);
      BetweenRegs(state, rep, unpack as int, packets, props.dict_sz as int, ownd.init, ownd.history, ownd.dst.Length);
      LitContextOf(ownd, s0, props, state, rep[0]);
      b := DecLit(state, rep[0], LitCells(s0, props), MatchByte(s0, ownd.init));
      assert old(Cur(state as nat, rep, unpack as nat, packets)) == s0;
    }

    /** The literal state change once dec_lit has put b after the bytes h, with one byte less to come. */
    method LitTail(state: u32, rep: seq<u32>, unpack: u64, ghost packets: seq<Packet>, ghost h: seq<byte>, ghost b: byte)
      returns (state': u32, unpack': u64, ghost packets': seq<Packet>)
      requires Valid() && unpack > 0 && ownd.history == h + [b]
      requires Between(state, rep, unpack as int, packets, props.dict_sz as int, ownd.init, h, ownd.dst.Length)
      ensures Decoding(state', rep, unpack', packets')
      ensures state' as int == AfterLiteral(state as int) && unpack' == unpack - 1 && packets' == packets + [Literal(b)]
    {
      state' := AfterLiteral(state as int) as u32;
      unpack' := unpack - 1;
      packets' := packets + [Literal(b)];
      BetweenLiteral(state, rep, unpack as int, packets, props.dict_sz as int, ownd.init, h, ownd.dst.Length, b);
    }

    /** A short rep: the one byte rep[0] + 1 back, put again. */
    method ShortRep(state: u32, rep: seq<u32>, unpack: u64, ghost packets: seq<Packet>)
      returns (state': u32, unpack': u64, ghost packets': seq<Packet>)
      requires Decoding(state, rep, unpack, packets) && unpack > 0
      modifies ownd, ownd.buf, ownd.dst
      ensures Decoding(state', rep, unpack', packets')
      ensures state' as int == AfterShortRep(state as int) && unpack' == unpack - 1
      ensures packets' == packets + [Copy(rep[0] as int + 1, 1)]
      ensures (Go, Cur(state' as nat, rep, unpack' as nat, packets'))
        == CopyStep(old(Cur(state as nat, rep, unpack as nat, packets)), ownd.init, AfterShortRep(state as nat), 1)
    {
      ghost var s0 := Cur(state as nat, rep, unpack as nat, packets);
      state' := AfterShortRep(state as int) as u32;
      unpack', packets' := PutShort(state, state', rep, unpack, packets);
      CopyStepIs(s0, ownd.init, AfterShortRep(state as nat), 1, Cur(state' as nat, rep, unpack' as nat, packets'));
    }

    /** The window side of a short rep: put_back(rep[0] + 1). */
    method PutShort(state: u32, state': u32, rep: seq<u32>, unpack: u64, ghost packets: seq<Packet>)
      returns (unpack': u64, ghost packets': seq<Packet>)
      requires Decoding(state, rep, unpack, packets) && unpack > 0 && state' as int == AfterShortRep(state as int)
      modifies ownd, ownd.buf, ownd.dst
      ensures Decoding(state', rep, unpack', packets')
      ensures unpack' == unpack - 1 && packets' == packets + [Copy(rep[0] as int + 1, 1)]
      ensures ownd.history == old(ownd.history) + Copied(ownd.init + old(ownd.history), rep[0] as nat + 1, 1)
      ensures rdec.Coded() == old(rdec.Coded()) && probs[..] == old(probs[..]) && lit_probs[..] == old(lit_probs[..])
    {
      ghost var h := ownd.history;
      BetweenRegs(state, rep, unpack as int, packets, props.dict_sz as int, ownd.init, h, ownd.dst.Length);
      BetweenCopy(state, state', rep, unpack as int, packets, props.dict_sz as int, ownd.init, h, ownd.dst.Length, 1);
      ownd.PutBack(rep[0] + 1);
      unpack' := unpack - 1;
      packets' := packets + [Copy(rep[0] as int + 1, 1)];
    }

    /**
     * The tail every match shares: the two lengths below the smallest
     * added, a failure when fewer bytes are still to come, otherwise
     * cp_match from rep[0] + 1 back.
     */
    method CopyTail(state: u32, state': u32, rep: seq<u32>, len: u32, unpack: u64, ghost packets: seq<Packet>)
      returns (fail: bool, unpack': u64, ghost packets': seq<Packet>)
      requires Decoding(state, rep, unpack, packets) && len as int < LEN_SYMBOLS && 7 <= state' < N_STATES as u32
      modifies ownd, ownd.buf, ownd.dst
      ensures !fail ==> Decoding(state', rep, unpack', packets')
      ensures fail <==> unpack as int < len as int + MATCH_MIN_LEN
      ensures !fail ==> unpack' as int == unpack as int - (len as int + MATCH_MIN_LEN)
      ensures !fail ==> packets' == packets + [Copy(rep[0] as int + 1, len as int + MATCH_MIN_LEN)]
      ensures var r := CopyStep(old(Cur(state as nat, rep, unpack as nat, packets)), ownd.init, state' as nat,
                                len as nat + MATCH_MIN_LEN);
        (fail <==> r.0 == Fail) && (!fail ==> Cur(state' as nat, rep, unpack' as nat, packets') == r.1)
    {
      var n := len + MATCH_MIN_LEN as u32;
      if unpack < n as u64 {
        return true, unpack, packets;
      }
      fail := false;
      ghost var s0 := Cur(state as nat, rep, unpack as nat, packets);
      BetweenRegs(state, rep, unpack as int, packets, props.dict_sz as int, ownd.init, ownd.history, ownd.dst.Length);
      assert n as nat == len as nat + MATCH_MIN_LEN;
      ghost var t := DecSt(s0.c, s0.probs, s0.lit, state' as nat, rep, s0.h + Copied(ownd.init + s0.h, rep[0] as nat + 1, n as nat),
                           s0.unpack - n as nat, s0.packets + [Copy(rep[0] as nat + 1, n as nat)]);
      CopyStepIs(s0, ownd.init, state' as nat, n as nat, t);
      unpack', packets' := CopyMatch(state, state', rep, n, unpack, packets);
      assert Cur(state' as nat, rep, unpack' as nat, packets') == t;
    }

    /** cp_match(dec.ownd, rep[0] + 1, n) as a packet. */
    method CopyMatch(state: u32, state': u32, rep: seq<u32>, n: u32, unpack: u64, ghost packets: seq<Packet>)
      returns (unpack': u64, ghost packets': seq<Packet>)
      requires Decoding(state, rep, unpack, packets) && n as int <= unpack as int && 7 <= state' < N_STATES as u32
      modifies ownd, ownd.buf, ownd.dst
      ensures Decoding(state', rep, unpack', packets')
      ensures unpack' as int == unpack as int - n as int && packets' == packets + [Copy(rep[0] as int + 1, n as int)]
      ensures ownd.history == old(ownd.history) + Copied(ownd.init + old(ownd.history), rep[0] as nat + 1, n as nat)
    {
      ghost var h := ownd.history;
      BetweenRegs(state, rep, unpack as int, packets, props.dict_sz as int, ownd.init, h, ownd.dst.Length);
      BetweenCopy(state, state', rep, unpack as int, packets, props.dict_sz as int, ownd.init, h, ownd.dst.Length, n as int);
      ownd.CpMatch(rep[0] + 1, n);
      unpack' := unpack - n as u64;
      packets' := packets + [Copy(rep[0] as int + 1, n as int)];
    }

    /**
     * The distance of a rep match other than rep[0]: is_rep_g1 and
     * is_rep_g2 pick rep[1], rep[2] or rep[3], which moves to the front.
     */
    method RepPick(state: u32, rep: seq<u32>) returns (rep': seq<u32>, ghost k: nat)
      requires Valid() && state < N_STATES as u32 && |rep| == 4
      modifies rdec, probs
      ensures Valid() && 1 <= k < 4 && rep' == MoveToFront(rep, k)
      ensures Decoded(rdec.Coded(), probs[..], k) == PickSpec(old(rdec.Coded()), rdec.src, old(probs[..]), state as nat)
    {
      var dist: u32;
      rep' := rep;
      var b := Bit(IS_REP_G1 + state as int);
      if b == 0 {
        dist := rep'[1];
        k := 1;
      } else {
        b := Bit(IS_REP_G2 + state as int);
        if b == 0 {
          dist := rep'[2];
          k := 2;
        } else {
          dist := rep'[3];
          rep' := rep'[3 := rep'[2]];
          k := 3;
        }
        rep' := rep'[2 := rep'[1]];
      }
      rep' := rep'[1 := rep'[0]];
      rep' := rep'[0 := dist];
    }

    /**
     * A rep packet, after the is_rep bit: a short rep, or a rep match
     * whose distance is one of the four remembered and whose length the
     * rep length decoder gives.
     */
    method RepPacket(state: u32, rep: seq<u32>, unpack: u64, ghost packets: seq<Packet>, pos_state: u32)
      returns (fail: bool, state': u32, rep': seq<u32>, unpack': u64, ghost packets': seq<Packet>)
      requires Decoding(state, rep, unpack, packets) && unpack > 0 && pos_state < 16
      modifies rdec, probs, ownd, ownd.buf, ownd.dst
      ensures !fail ==> Decoding(state', rep', unpack', packets') && unpack' < unpack
      ensures !fail ==> exists k :: 0 <= k < 4 && rep' == MoveToFront(rep, k)
      ensures !fail ==> state' as int == AfterShortRep(state as int) || state' as int == AfterRep(state as int)
      ensures !fail ==> |packets'| == |packets| + 1 && packets'[..|packets|] == packets
      ensures var r := RepStep(old(Cur(state as nat, rep, unpack as nat, packets)), rdec.src, ownd.init, pos_state as nat);
        (fail <==> r.0 == Fail) && (!fail ==> Cur(state' as nat, rep', unpack' as nat, packets') == r.1)
    {
      ghost var s0 := Cur(state as nat, rep, unpack as nat, packets);
      var b := Bit(IS_REP_G0 + state as int);
      ghost var g0 := Decoded(rdec.Coded(), probs[..], b as nat);
      if b == 0 {
        RepStepZero(s0, rdec.src, ownd.init, pos_state as nat, g0, Cur(state as nat, rep, unpack as nat, packets));
        fail, state', rep', unpack', packets' := RepZeroPacket(state, rep, unpack, packets, pos_state);
      } else {
        ghost var k;
        rep', k := RepPick(state, rep);
        RepStepPick(s0, rdec.src, ownd.init, pos_state as nat, g0, Decoded(rdec.Coded(), probs[..], k),
                    Cur(state as nat, rep, unpack as nat, packets));
        fail, state', unpack', packets' := RepCopy(state, rep, rep', k, unpack, packets, pos_state);
      }
    }

    /** A rep packet once is_rep_g0 was 0: a short rep, or a rep match from rep[0]. */
    method RepZeroPacket(state: u32, rep: seq<u32>, unpack: u64, ghost packets: seq<Packet>, pos_state: u32)
      returns (fail: bool, state': u32, rep': seq<u32>, unpack': u64, ghost packets': seq<Packet>)
      requires Decoding(state, rep, unpack, packets) && unpack > 0 && pos_state < 16
      modifies rdec, probs, ownd, ownd.buf, ownd.dst
      ensures !fail ==> Decoding(state', rep', unpack', packets') && unpack' < unpack
      ensures !fail ==> rep' == MoveToFront(rep, 0)
      ensures !fail ==> state' as int == AfterShortRep(state as int) || state' as int == AfterRep(state as int)
      ensures !fail ==> |packets'| == |packets| + 1 && packets'[..|packets|] == packets
      ensures var r := RepZero(old(Cur(state as nat, rep, unpack as nat, packets)), rdec.src, ownd.init, pos_state as nat);
        (fail <==> r.0 == Fail) && (!fail ==> Cur(state' as nat, rep', unpack' as nat, packets') == r.1)
    {
      ghost var t := Cur(state as nat, rep, unpack as nat, packets);
      BetweenRegs(state, rep, unpack as int, packets, props.dict_sz as int, ownd.init, ownd.history, ownd.dst.Length);
      rep' := rep;
      assert rep' == MoveToFront(rep, 0);
      var b := Bit(IS_REP_0LONG + state as int * 16 + pos_state as int);
      ghost var long := Decoded(rdec.Coded(), probs[..], b as nat);
      if b == 0 {
        RepZeroShort(t, rdec.src, ownd.init, pos_state as nat, long, Cur(state as nat, rep, unpack as nat, packets));
        state', unpack', packets' := ShortRep(state, rep, unpack, packets);
        return false, state', rep', unpack', packets';
      }
      RepZeroLong(t, rdec.src, ownd.init, pos_state as nat, long, Cur(state as nat, rep, unpack as nat, packets));
      fail, state', unpack', packets' := RepCopy(state, rep, rep', 0, unpack, packets, pos_state);
    }

    /** A rep match once its distance is picked: the rep length, then the copy. */
    method RepCopy(state: u32, rep: seq<u32>, rep': seq<u32>, ghost k: nat, unpack: u64, ghost packets: seq<Packet>, pos_state: u32)
      returns (fail: bool, state': u32, unpack': u64, ghost packets': seq<Packet>)
      requires Decoding(state, rep, unpack, packets) && pos_state < 16 && k < 4 && rep' == MoveToFront(rep, k)
      modifies rdec, probs, ownd, ownd.buf, ownd.dst
      ensures !fail ==> Decoding(state', rep', unpack', packets') && unpack' < unpack
      ensures !fail ==> state' as int == AfterRep(state as int)
      ensures !fail ==> |packets'| == |packets| + 1 && packets'[..|packets|] == packets
      ensures var s := old(Cur(state as nat, rep, unpack as nat, packets));
        var r := RepMatch(s, LenSpec(s.c, rdec.src, s.probs, REP_LEN_DEC, pos_state as nat), ownd.init, k);
        (fail <==> r.0 == Fail) && (!fail ==> Cur(state' as nat, rep', unpack' as nat, packets') == r.1)
    {
      ghost var h := ownd.history;
      ghost var m := Cur(state as nat, rep, unpack as nat, packets);
      BetweenMoveToFront(state, rep, k, unpack as int, packets, props.dict_sz as int, ownd.init, h, ownd.dst.Length);
      var len := DecLen(REP_LEN_DEC, pos_state);
      state' := AfterRep(state as int) as u32;
      RepMatchIs(m, ownd.init, k, Decoded(rdec.Coded(), probs[..], len as nat),
                 Cur(state as nat, rep', unpack as nat, packets), state' as nat, len as nat + MATCH_MIN_LEN);
      fail, unpack', packets' := CopyTail(state, state', rep', len, unpack, packets);
      if !fail {
        assert packets'[..|packets|] == packets;
      }
    }

    /**
     * A match with a new distance: remembered distances shift back, the
     * length decoder and dec_dist give length and distance, and the end
     * marker, a destination already full and a distance the window cannot
     * serve each stop the packet before anything is copied.
     */
    method MatchPacket(state: u32, rep: seq<u32>, unpack: u64, ghost packets: seq<Packet>, pos_state: u32)
      returns (out: Outcome, state': u32, rep': seq<u32>, unpack': u64, ghost packets': seq<Packet>)
      requires Decoding(state, rep, unpack, packets) && pos_state < 16
      modifies rdec, probs, ownd, ownd.buf, ownd.dst
      ensures out == EndMark ==> Decoding(state, rep, unpack, packets)
      ensures out == Go ==> Decoding(state', rep', unpack', packets') && unpack' < unpack
      ensures out == Go ==> state' as int == AfterMatch(state as int) && |rep'| == 4 && rep'[1..] == rep[..3]
      ensures out == Go ==> |packets'| == |packets| + 1 && packets'[..|packets|] == packets
      ensures out == Go ==> packets'[|packets|].Copy? && packets'[|packets|].dist == rep'[0] as int + 1
      ensures var r := MatchStep(old(Cur(state as nat, rep, unpack as nat, packets)), rdec.src, props, ownd.init, pos_state as nat);
        && out == r.0
        && (out == EndMark ==> Cur(state as nat, rep, unpack as nat, packets) == r.1)
        && (out == Go ==> Cur(state' as nat, rep', unpack' as nat, packets') == r.1)
    {
      ghost var h := ownd.history;
      ghost var s0 := Cur(state as nat, rep, unpack as nat, packets);
      BetweenRegs(state, rep, unpack as int, packets, props.dict_sz as int, ownd.init, h, ownd.dst.Length);
      rep' := rep[3 := rep[2]];
      rep' := rep'[2 := rep'[1]];
      rep' := rep'[1 := rep'[0]];
      var len := DecLen(LEN_DEC, pos_state);
      ghost var l := Decoded(rdec.Coded(), probs[..], len as nat);
      state' := AfterMatch(state as int) as u32;
      var dist;
      ghost var slot;
      dist, slot := DecDist(len);
      rep' := rep'[0 := dist];
      ShiftIsPush(rep, dist);
      MatchStepIs(s0, rdec.src, props, ownd.init, pos_state as nat, l);
      TookIs(Cur(state as nat, rep, unpack as nat, packets), s0, Decoded(rdec.Coded(), probs[..], dist as nat));
      out, unpack', packets' := MatchTail(state, state', rep, rep', dist, len, unpack, packets);
    }

    /**
     * The checks after the distance, then the copy: the end marker, a
     * destination already full, a distance outside the dictionary and one
     * check_dist refuses each stop before anything is copied.
     */
    method MatchTail(state: u32, state': u32, rep: seq<u32>, rep': seq<u32>, dist: u32, len: u32, unpack: u64,
                     ghost packets: seq<Packet>)
      returns (out: Outcome, unpack': u64, ghost packets': seq<Packet>)
      requires Decoding(state, rep, unpack, packets) && len as int < LEN_SYMBOLS
      requires state' as int == AfterMatch(state as int) && rep' == PushDist(rep, dist)
      modifies ownd, ownd.buf, ownd.dst
      ensures out == EndMark ==> Decoding(state, rep, unpack, packets)
      ensures out == Go ==> Decoding(state', rep', unpack', packets') && unpack' < unpack
      ensures out == Go ==> |packets'| == |packets| + 1 && packets'[..|packets|] == packets
      ensures out == Go ==> packets'[|packets|].Copy? && packets'[|packets|].dist == rep'[0] as int + 1
      ensures var r := MatchFrom(old(Cur(state as nat, rep, unpack as nat, packets)), dist as nat, props, ownd.init, state' as nat, len as nat);
        && out == r.0
        && (out == EndMark ==> Cur(state as nat, rep, unpack as nat, packets) == r.1)
        && (out == Go ==> Cur(state' as nat, rep', unpack' as nat, packets') == r.1)
    {
      ghost var h := ownd.history;
      ghost var t := Cur(state as nat, rep, unpack as nat, packets);
      BetweenRegs(state, rep, unpack as int, packets, props.dict_sz as int, ownd.init, h, ownd.dst.Length);
      unpack', packets' := unpack, packets;
      if dist == END_MARKER {
        return EndMark, unpack', packets';
      }
      if unpack == 0 {
        return Fail, unpack', packets';
      }
      if dist >= props.dict_sz || !ownd.CheckDist(dist) {
        return Fail, unpack', packets';
      }
      RegsPush(state, state, rep, dist, props.dict_sz as int, |h|, ownd.buf_len as int);
      MatchFromIs(t, dist, props, ownd.init, state' as nat, len as nat, Cur(state as nat, rep', unpack as nat, packets));
      var fail;
      fail, unpack', packets' := CopyTail(state, state', rep', len, unpack, packets);
      out := if fail then Fail else Go;
    }

    /**
     * One pass of dec()'s loop: the is_match bit picks a literal, the
     * is_rep bit a rep packet, otherwise a match with a new distance. A
     * packet that would pass the destination's end, a rep before any byte
     * and a distance the window cannot serve fail.
     */
    method DecPacket(state: u32, rep: seq<u32>, unpack: u64, ghost packets: seq<Packet>)
      returns (out: Outcome, state': u32, rep': seq<u32>, unpack': u64, ghost packets': seq<Packet>)
      requires Decoding(state, rep, unpack, packets)
      modifies rdec, probs, lit_probs, ownd, ownd.buf, ownd.dst
      ensures out == EndMark ==> Decoding(state, rep, unpack, packets)
      ensures out == Go ==> Decoding(state', rep', unpack', packets') && unpack' < unpack
      ensures out == Go ==> |packets'| == |packets| + 1 && packets'[..|packets|] == packets
      ensures var r := Step(old(Cur(state as nat, rep, unpack as nat, packets)), rdec.src, props, ownd.init);
        && out == r.0
        && (out == EndMark ==> Cur(state as nat, rep, unpack as nat, packets) == r.1)
        && (out == Go ==> Cur(state' as nat, rep', unpack' as nat, packets') == r.1)
    {
      ghost var s0 := Cur(state as nat, rep, unpack as nat, packets);
      BetweenRegs(state, rep, unpack as int, packets, props.dict_sz as int, ownd.init, ownd.history, ownd.dst.Length);
      Pow2Monotone(props.pb as nat, 4);
      Pow2Of32();
      var pos_state := ownd.total_i % Pow2(props.pb as nat) as u32;
      var b := Bit(IS_MATCH + state as int * 16 + pos_state as int);
      StepIs(s0, rdec.src, props, ownd.init, pos_state as nat, Decoded(rdec.Coded(), probs[..], b as nat),
             Cur(state as nat, rep, unpack as nat, packets));
      if b == 0 {
        if unpack == 0 {
          return Fail, state, rep, unpack, packets;
        }
        state', unpack', packets' := LitPacket(state, rep, unpack, packets);
        return Go, state', rep, unpack', packets';
      }
      out, state', rep', unpack', packets' := CopyPacket(state, rep, unpack, packets, pos_state);
    }

    /**
     * After an is_match bit of 1: the is_rep bit, then a rep packet, which
     * needs a byte still to come and a byte already put, or a match.
     */
    method CopyPacket(state: u32, rep: seq<u32>, unpack: u64, ghost packets: seq<Packet>, pos_state: u32)
      returns (out: Outcome, state': u32, rep': seq<u32>, unpack': u64, ghost packets': seq<Packet>)
      requires Decoding(state, rep, unpack, packets) && pos_state < 16
      modifies rdec, probs, ownd, ownd.buf, ownd.dst
      ensures out == EndMark ==> Decoding(state, rep, unpack, packets)
      ensures out == Go ==> Decoding(state', rep', unpack', packets') && unpack' < unpack
      ensures out == Go ==> |packets'| == |packets| + 1 && packets'[..|packets|] == packets
      ensures var r := RepOrMatch(old(Cur(state as nat, rep, unpack as nat, packets)), rdec.src, props, ownd.init, pos_state as nat);
        && out == r.0
        && (out == EndMark ==> Cur(state as nat, rep, unpack as nat, packets) == r.1)
        && (out == Go ==> Cur(state' as nat, rep', unpack' as nat, packets') == r.1)
    {
      ghost var t := Cur(state as nat, rep, unpack as nat, packets);
      BetweenRegs(state, rep, unpack as int, packets, props.dict_sz as int, ownd.init, ownd.history, ownd.dst.Length);
      var b := Bit(IS_REP + state as int);
      RepOrMatchIs(t, rdec.src, props, ownd.init, pos_state as nat, Decoded(rdec.Coded(), probs[..], b as nat),
                   Cur(state as nat, rep, unpack as nat, packets));
      if b != 0 {
        if unpack == 0 || ownd.IsEmpty() {
          return Fail, state, rep, unpack, packets;
        }
        var fail;
        fail, state', rep', unpack', packets' := RepPacket(state, rep, unpack, packets, pos_state);
        out := if fail then Fail else Go;
      } else {
        out, state', rep', unpack', packets' := MatchPacket(state, rep, unpack, packets, pos_state);
      }
    }

    /**
     * dec(dec, unpack_sz): init, then packets until the destination is
     * full and the coder has ended cleanly, or until the end marker. It
     * succeeds only when no byte was read that was not there, the whole
     * source was read and the destination was filled exactly; the bytes
     * put are then the expansion of the packets decoded.
     */
    method Dec(unpack_sz: u64) returns (ok: bool, ghost packets: seq<Packet>)
      requires Shaped() && ownd.history == [] && ownd.dst.Length == unpack_sz as int
      modifies rdec, probs, lit_probs, ownd, ownd.buf, ownd.dst
      ensures var d := Decode(old(rdec.Coded()), rdec.src, props, ownd.init, unpack_sz as nat);
        (ok <==> d.Packets?) && (ok ==> packets == d.ps)
      ensures ok ==> Valid() && !rdec.corrupt && rdec.src_i == |rdec.src| && rdec.IsFinishedOk()
      ensures ok ==> ownd.dst[..] == ownd.history && ownd.Stream() == Unpack(ownd.init, packets)
      ensures ok ==> CopiesIn(packets, props.dict_sz as int)
    {
      packets := [];
      ok := Init();
      if !ok {
        return;
      }
      assert probs[..] == Halves(PROBS_LEN);
      assert lit_probs[..] == Halves(LitProbs(props.lc as nat, props.lp as nat));
      assert Between(0, [0, 0, 0, 0], unpack_sz as int, [], props.dict_sz as int, ownd.init, ownd.history, ownd.dst.Length);
      ok, packets := DecLoop(unpack_sz);
    }

    /**
     * dec()'s loop from state 0 with the four distances 0, then its final
     * test: no byte read that was not there, the whole source read and the
     * destination filled exactly.
     */
    method DecLoop(unpack_sz: u64) returns (ok: bool, ghost packets: seq<Packet>)
      requires Decoding(0, [0, 0, 0, 0], unpack_sz, []) && ownd.dst.Length == unpack_sz as int
      modifies rdec, probs, lit_probs, ownd, ownd.buf, ownd.dst
      ensures var r := Run(old(Cur(0, [0, 0, 0, 0], unpack_sz as nat, [])), rdec.src, props, ownd.init);
        && (ok <==> r.Done? && !r.s.c.corrupt && r.s.c.src_i == |rdec.src| && |r.s.h| == unpack_sz as nat)
        && (ok ==> packets == r.s.packets)
      ensures ok ==> Valid() && !rdec.corrupt && rdec.src_i == |rdec.src| && rdec.IsFinishedOk()
      ensures ok ==> ownd.dst[..] == ownd.history && ownd.Stream() == Unpack(ownd.init, packets)
      ensures ok ==> CopiesIn(packets, props.dict_sz as int)
    {
      var rep: seq<u32> := [0, 0, 0, 0];
      var state: u32 := 0;
      var unpack := unpack_sz;
      packets := [];
      ghost var run := Run(Cur(0, rep, unpack as nat, packets), rdec.src, props, ownd.init);
      while unpack > 0 || !rdec.IsFinishedOk()
        invariant Decoding(state, rep, unpack, packets)
        invariant Run(Cur(state as nat, rep, unpack as nat, packets), rdec.src, props, ownd.init) == run
        decreases unpack
      {
        var out, state', rep', unpack', packets' := DecPacket(state, rep, unpack, packets);
        if out == EndMark {
          if rdec.IsFinishedOk() {
            break;
          }
          return false, packets;
        }
        if out == Fail {
          return false, packets;
        }
        state, rep, unpack, packets := state', rep', unpack', packets';
      }
      assert run == Done(Cur(state as nat, rep, unpack as nat, packets));
      ok := !rdec.corrupt && rdec.src_i == |rdec.src| && ownd.dst_i == ownd.dst.Length;
      if ok {
        Filled(state, rep, unpack, packets);
      }
    }

    /** A destination filled exactly holds the bytes put: the expansion of the packets over the window. */
    lemma Filled(state: u32, rep: seq<u32>, unpack: u64, packets: seq<Packet>)
      requires Decoding(state, rep, unpack, packets) && ownd.dst_i == ownd.dst.Length
      ensures |ownd.history| == ownd.dst.Length && ownd.dst[..] == ownd.history
      ensures ownd.Stream() == Unpack(ownd.init, packets) && CopiesIn(packets, props.dict_sz as int)
    {
      assert forall k :: 0 <= k < ownd.dst.Length ==> ownd.dst[k] == ownd.history[k];
    }
  }

  /** Slot s from 4 on: top two bits 1 and s % 2 over s / 2 - 1 more, all inside 32 bits. */
  lemma SlotTop(slot: nat)
    requires 4 <= slot < 64
    ensures var ndb := slot / 2 - 1; var low := Pow2(ndb);
      && 1 <= ndb <= 30
      && (3 + slot % 2) * low == (2 + slot % 2) * low + low
      && (2 + slot % 2) * low + low <= U32_LIMIT
      && low <= 0x4000_0000
  {
    var ndb := slot / 2 - 1;
    Pow2Monotone(ndb, 30);
    Pow2Of32();
    assert Pow2(30) == 0x4000_0000 by {
      Pow2Add(24, 6);
    }
    MulLe(Pow2(ndb), 3 + slot % 2, 4);
  }

  /** The reverse tree of slot s below 14 lies inside pos_decs. */
  lemma DistBaseFits(slot: nat, ndb: nat, top: nat)
    requires 4 <= slot < END_POS_MODEL_IX && ndb == slot / 2 - 1 && top == (2 + slot % 2) * Pow2(ndb)
    ensures slot <= top && top - slot + Pow2(ndb) <= 1 + N_FULL_DISTS - END_POS_MODEL_IX
  {
    assert Pow2(1) == 2 && Pow2(2) == 4 && Pow2(3) == 8 && Pow2(4) == 16 && Pow2(5) == 32;
  }

  /** The direct bits and the align bits fill the low n bits exactly. */
  lemma DirectFits(direct: nat, align: nat, n: nat)
    requires 4 <= n && direct < Pow2(n - 4) && align < Pow2(4)
    ensures direct * 0x10 + align < Pow2(n)
  {
    Pow2Add(n - 4, 4);
    Pow2Of32();
    assert direct * 0x10 <= (Pow2(n - 4) - 1) * 0x10;
  }

  /** d zero bytes: a fresh create_str. */
  function Zeros(d: nat): (r: Str)
    ensures |r| == d && forall k :: 0 <= k < d ==> r[k] == 0
  {
    seq(d, _ => 0)
  }

  /**
   * What lzma_dec makes of src with the scratch bytes buf and dst_len bytes
   * to decode: nothing unless buf has exactly the length the header asks
   * for; otherwise dec() from the coder at byte 5, over the window the
   * first dict_sz bytes of buf hold.
   */
  ghost function DecodeInto(buf: seq<byte>, dst_len: nat, src: Str): DecodeOut
  {
    var pr := PropsOf(src);
    if |buf| == 0 || pr.buf_sz as nat != |buf| then Rejected
    else
      PropsOfInvalid(src);
      PropsOfValid(src);
      Decode(Coder(0, 0, 5, false), src, pr, buf[..pr.dict_sz], dst_len)
  }

  /**
   * lzma_dec(buf_ptr, buf_len, dst_ptr, dst_len, src_ptr, src_len): the
   * scratch must be exactly the length the header asks for; its first
   * dict_sz bytes are the window and the rest the literal probabilities.
   * On success the destination holds what the packets decoded expand to,
   * over whatever the window held before.
   */
  method LzmaDecInto(buf: array<byte>, dst: array<byte>, src: Str) returns (ok: bool, ghost packets: seq<Packet>)
    requires buf != dst && buf.Length < U64_LIMIT && dst.Length < U64_LIMIT
    modifies buf, dst
    ensures var d := DecodeInto(old(buf[..]), dst.Length, src); (ok <==> d.Packets?) && (ok ==> packets == d.ps)
    ensures buf.Length == 0 ==> !ok
    ensures ok ==> buf.Length == PropsOf(src).buf_sz && |src| >= 5 && src[0] < PROPS_LIMIT
    ensures ok ==> var d := PropsOf(src).dict_sz as int;
      && d <= buf.Length && CopiesIn(packets, d)
      && old(buf[..d]) + dst[..] == Unpack(old(buf[..d]), packets)
  {
    packets := [];
    if buf.Length == 0 {
      return false, packets;
    }
    var props := DecLzmaProps(src);
    if props.buf_sz != buf.Length {
      return false, packets;
    }
    PropsOfInvalid(src);
    PropsOfValid(src);
    var rdec := new RangeDecoder(src, 5);
    var ownd := new OutWindow(buf, props.dict_sz, dst);
    var lit_probs := new u16[LitProbs(props.lc, props.lp)](_ => PROB_INIT);
    var probs := new u16[PROBS_LEN](_ => PROB_INIT);
    var dec := new Decoder(rdec, ownd, props, probs, lit_probs);
    ok, packets := dec.Dec(dst.Length as u64);
  }

  /**
   * lzma_dec(src, dst_len): a zeroed scratch of the length the header asks
   * for and a zeroed destination of dst_len bytes; the destination when
   * decoding succeeds, otherwise the empty string.
   */
  method LzmaDecStr(src: Str, dst_len: u64) returns (r: Str, ghost packets: seq<Packet>)
    ensures var d := DecodeInto(Zeros(PropsOf(src).buf_sz as nat), dst_len as nat, src);
      && (d.Packets? ==> |r| == dst_len as int && packets == d.ps)
      && (!d.Packets? ==> r == [])
    ensures r == [] || |r| == dst_len as int
    ensures PropsOf(src).buf_sz == 0 ==> r == []
    ensures r != [] ==> var d := PropsOf(src).dict_sz as int;
      CopiesIn(packets, d) && Zeros(d) + r == Unpack(Zeros(d), packets)
  {
    packets := [];
    var n := LzmaDecBufLen(src);
    if n == 0 {
      return [], packets;
    }
    var buf := new byte[n](_ => 0);
    var dst := new byte[dst_len](_ => 0);
    ghost var d := PropsOf(src).dict_sz as int;
    PropsOfValid(src);
    assert buf[..] == Zeros(n as nat);
    assert buf[..d] == Zeros(d);
    var ok;
    ok, packets := LzmaDecInto(buf, dst, src);
    if !ok {
      return [], packets;
    }
    r := dst[..];
  }
}
