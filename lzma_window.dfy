/**
 * out_wnd_t of lzma.cpp: the dictionary as a circular buffer, and the
 * destination that every decoded byte is also copied to.
 */
module LzmaWindow {
  import opened Prelude

  /**
   * The cell that holds the byte dist back when the next write goes to
   * cell i of a buffer of len cells: the index byte() computes.
   */
  function Slot(i: int, len: int, dist: int): int
  {
    if dist <= i then i - dist else len - dist + i
  }

  /** Going one cell on moves every byte one further back; the newest is in cell i. */
  lemma SlotStep(i: int, len: int, i': int)
    requires 0 <= i < len && i' == (if i + 1 == len then 0 else i + 1)
    ensures Slot(i', len, 1) == i
    ensures forall d :: 2 <= d <= len ==> Slot(i', len, d) == Slot(i, len, d - 1)
    ensures forall d :: 1 <= d < len ==> Slot(i, len, d) != i
    ensures forall d :: 1 <= d <= len ==> 0 <= Slot(i, len, d) < len
  {
  }

  lemma ModSucc(n: nat, m: nat)
    requires m > 0
    ensures (n + 1) % m == if n % m == m - 1 then 0 else n % m + 1
  {
    var q, r := n / m, n % m;
    assert n == q * m + r;
    if r == m - 1 {
      assert n + 1 == (q + 1) * m;
      DivPlusSmall(q + 1, m, 0);
    } else {
      DivPlusSmall(q, m, r + 1);
    }
  }

  /**
   * Cell Slot(i, |cells|, d) holds the byte d back in s, for every d up to
   * the buffer's length.
   */
  ghost predicate Holds(cells: seq<byte>, i: int, s: seq<byte>)
  {
    && 0 <= i < |cells| <= |s|
    && forall d :: 1 <= d <= |cells| ==> cells[Slot(i, |cells|, d)] == s[|s| - d]
  }

  /** Writing b to the next cell and moving on keeps the buffer in step with s + [b]. */
  lemma HoldsStep(cells: seq<byte>, i: int, s: seq<byte>, b: byte)
    requires Holds(cells, i, s)
    ensures Holds(cells[i := b], if i + 1 == |cells| then 0 else i + 1, s + [b])
  {
    var i' := if i + 1 == |cells| then 0 else i + 1;
    var cells' := cells[i := b];
    SlotStep(i, |cells|, i');
    forall d | 1 <= d <= |cells|
      ensures cells'[Slot(i', |cells|, d)] == (s + [b])[|s| + 1 - d]
    {
      if d > 1 {
        assert cells[Slot(i, |cells|, d - 1)] == s[|s| - (d - 1)];
      }
    }
  }

  /** The first cells of dst are the first bytes of h. */
  ghost predicate Mirrors(cells: seq<byte>, h: seq<byte>)
  {
    forall k :: 0 <= k < |cells| && k < |h| ==> cells[k] == h[k]
  }

  lemma MirrorsStep(cells: seq<byte>, h: seq<byte>, b: byte)
    requires Mirrors(cells, h)
    ensures |h| < |cells| ==> Mirrors(cells[|h| := b], h + [b])
    ensures |h| >= |cells| ==> Mirrors(cells, h + [b])
  {
  }

  /**
   * The bytes cp_match appends when it copies n bytes from dist back onto
   * the stream s, one byte at a time (so a copy may overlap what it adds).
   */
  function Copied(s: seq<byte>, dist: nat, n: nat): (r: seq<byte>)
    requires 1 <= dist <= |s|
    ensures |r| == n
  {
    if n == 0 then []
    else
      var c := Copied(s, dist, n - 1);
      c + [(s + c)[|s| + |c| - dist]]
  }

  /** Each copied byte is the one dist before it in the grown stream. */
  lemma {:induction false} CopiedBytes(s: seq<byte>, dist: nat, n: nat)
    requires 1 <= dist <= |s|
    ensures forall k :: 0 <= k < n && k < dist ==> Copied(s, dist, n)[k] == s[|s| - dist + k]
    ensures forall k :: dist <= k < n ==> Copied(s, dist, n)[k] == Copied(s, dist, n)[k - dist]
  {
    if n > 0 {
      CopiedBytes(s, dist, n - 1);
      var c := Copied(s, dist, n - 1);
      var r := Copied(s, dist, n);
      assert r == c + [(s + c)[|s| + |c| - dist]];
      assert forall k :: 0 <= k < n - 1 ==> r[k] == c[k];
      if n - 1 < dist {
        assert r[n - 1] == (s + c)[|s| - dist + (n - 1)] == s[|s| - dist + (n - 1)];
      } else {
        assert r[n - 1] == (s + c)[|s| + (n - 1 - dist)] == c[n - 1 - dist];
      }
    }
  }

  /** A copy of one byte is the byte dist back. */
  lemma CopiedOne(s: seq<byte>, dist: nat)
    requires 1 <= dist <= |s|
    ensures Copied(s, dist, 1) == [s[|s| - dist]]
  {
    assert Copied(s, dist, 0) == [];
  }

  /** A copy no longer than its distance is a slice of the stream. */
  lemma CopiedSlice(s: seq<byte>, dist: nat, n: nat)
    requires 1 <= dist <= |s| && n <= dist
    ensures Copied(s, dist, n) == s[|s| - dist..|s| - dist + n]
  {
    CopiedBytes(s, dist, n);
  }

  /** A copy of n bytes followed by m more is a copy of n + m bytes. */
  lemma {:induction false} CopiedConcat(s: seq<byte>, dist: nat, n: nat, m: nat)
    requires 1 <= dist <= |s|
    ensures Copied(s, dist, n + m) == Copied(s, dist, n) + Copied(s + Copied(s, dist, n), dist, m)
  {
    if m > 0 {
      CopiedConcat(s, dist, n, m - 1);
      var c := Copied(s, dist, n);
      var d := Copied(s + c, dist, m - 1);
      assert s + c + d == s + (c + d);
    }
  }

  class OutWindow {
    /** buf_ptr and buf_len: the circular dictionary, the first buf_len cells of buf. */
    const buf: array<byte>
    const buf_len: u32
    var buf_i: u32
    var is_full: bool
    /** Count of bytes put so far, on a nat4_t. */
    var total_i: u32

    /** dst_ptr, dst_len and dst_i: where the output goes. */
    const dst: array<byte>
    var dst_i: nat

    /** What buf held before the first byte was put. */
    ghost const init: seq<byte>
    /** Every byte put so far. */
    ghost var history: seq<byte>

    /**
     * The bytes of buf, oldest first, taken as one stream: the first buf_len
     * are the cells as they were before anything was put.
     */
    ghost function Stream(): seq<byte>
      reads this`history
    {
      init + history
    }

    ghost predicate Valid()
      reads this, buf, dst
    {
      buf != dst && BufOk() && DstOk(history)
    }

    /** The circular buffer holds the last buf_len bytes of Stream(). */
    ghost predicate BufOk()
      reads this`buf_i, this`is_full, this`total_i, this`history, buf
    {
      && 0 < buf_len as int <= buf.Length
      && |init| == buf_len as int
      && buf_i as int == |history| % buf_len as int
      && (is_full <==> |history| >= buf_len as int)
      && (!is_full ==> buf_i as int == |history|)
      && total_i as int == |history| % U32_LIMIT
      && Holds(buf[..buf_len], buf_i as int, Stream())
    }

    /** dst starts with h, or with as much of it as fits; dst_i is one past the end once h does not fit. */
    ghost predicate DstOk(h: seq<byte>)
      reads this`dst_i, dst
    {
      && dst_i == (if |h| <= dst.Length then |h| else dst.Length + 1)
      && Mirrors(dst[..], h)
    }

    /** The window lzma_dec sets up: nothing put yet. */
    constructor(buf: array<byte>, buf_len: u32, dst: array<byte>)
      requires buf != dst && 0 < buf_len as int <= buf.Length
      ensures Valid() && history == [] && init == buf[..buf_len]
      ensures this.buf == buf && this.buf_len == buf_len && this.dst == dst
    {
      this.buf := buf;
      this.buf_len := buf_len;
      this.buf_i := 0;
      this.is_full := false;
      this.total_i := 0;
      this.dst := dst;
      this.dst_i := 0;
      this.init := buf[..buf_len];
      this.history := [];
    }

    /**
     * put(): one more byte in the dictionary and, while there is room, in
     * the destination; past its end dst_i stays one beyond.
     */
    method Put(b: byte)
      requires Valid()
      modifies this, buf, dst
      ensures Valid() && history == old(history) + [b]
      ensures forall k :: |history| <= k < dst.Length ==> dst[k] == old(dst[k])
    {
      ghost var h0 := history;
      PutBuf(b);
      PutDst(b, h0);
    }

    /** The part of put() that writes the circular buffer. */
    method PutBuf(b: byte)
      requires BufOk()
      modifies this`buf_i, this`is_full, this`total_i, this`history, buf
      ensures BufOk() && history == old(history) + [b]
    {
      ghost var s0 := Stream();
      ghost var cells, i0 := buf[..buf_len], buf_i as int;
      HoldsStep(cells, i0, s0, b);
      ModSucc(|history|, buf_len as int);
      ModSucc(|history|, U32_LIMIT);
      total_i := if total_i == 0xFFFF_FFFF then 0 else total_i + 1;
      buf[buf_i] := b;
      assert buf[..buf_len] == cells[i0 := b];
      buf_i := buf_i + 1;
      if buf_i == buf_len {
        buf_i := 0;
        is_full := true;
      }
      history := history + [b];
      assert Stream() == s0 + [b];
    }

    /** The part of put() that writes the destination, h being the bytes before b. */
    method PutDst(b: byte, ghost h: seq<byte>)
      requires DstOk(h)
      modifies this`dst_i, dst
      ensures DstOk(h + [b])
      ensures forall k :: |h| + 1 <= k < dst.Length ==> dst[k] == old(dst[k])
    {
      MirrorsStep(dst[..], h, b);
      if dst_i >= dst.Length {
        dst_i := dst.Length + 1;
        return;
      }
      dst[dst_i] := b;
      dst_i := dst_i + 1;
    }

    /** byte(): the byte dist back; for dist beyond what was put, a cell still as it was. */
    function Byte(dist: u32): (r: byte)
      reads this, buf, dst
      requires Valid() && dist <= buf_len
      ensures 1 <= dist ==> r == Stream()[|Stream()| - dist as int]
      ensures 1 <= dist as int <= |history| ==> r == history[|history| - dist as int]
    {
      assert buf[..buf_len][Slot(buf_i as int, buf_len as int, dist as int)] == buf[Slot(buf_i as int, buf_len as int, dist as int)];
      buf[Slot(buf_i as int, buf_len as int, dist as int)]
    }

    /** cp_match(): len bytes, each the one dist back at the time it is put. */
    method CpMatch(dist: u32, len: u32)
      requires Valid() && 1 <= dist <= buf_len
      modifies this, buf, dst
      ensures Valid() && history == old(history) + Copied(old(Stream()), dist as int, len as int)
      ensures forall k :: |history| <= k < dst.Length ==> dst[k] == old(dst[k])
    {
      ghost var s0, h0 := Stream(), history;
      var i: u32 := 0;
      while i < len
        invariant i <= len && Valid()
        invariant history == h0 + Copied(s0, dist as int, i as int)
        invariant forall k :: |history| <= k < dst.Length ==> dst[k] == old(dst[k])
      {
        CopyOne(dist, s0, h0, i as int);
        i := i + 1;
      }
    }

    /** One round of cp_match's loop: the i-th byte of the copy. */
    method CopyOne(dist: u32, ghost s0: seq<byte>, ghost h0: seq<byte>, ghost i: nat)
      requires Valid() && 1 <= dist <= buf_len && s0 == init + h0
      requires history == h0 + Copied(s0, dist as int, i)
      modifies this, buf, dst
      ensures Valid() && history == h0 + Copied(s0, dist as int, i + 1)
      ensures forall k :: |history| <= k < dst.Length ==> dst[k] == old(dst[k])
    {
      ghost var c := Copied(s0, dist as int, i);
      assert Stream() == s0 + c;
      var b := Byte(dist);
      Put(b);
      assert history == h0 + (c + [b]);
    }

    /** put(ownd, byte(ownd, dist)): the byte dist back, put again, as a short rep does. */
    method PutBack(dist: u32)
      requires Valid() && 1 <= dist <= buf_len
      modifies this, buf, dst
      ensures Valid() && history == old(history) + Copied(old(Stream()), dist as int, 1)
    {
      ghost var s0 := Stream();
      var b := Byte(dist);
      CopiedOne(s0, dist as int);
      Put(b);
    }

    /**
     * check_dist(): true when dist is at most the bytes put, or once the
     * buffer has wrapped.
     */
    function CheckDist(dist: u32): (r: bool)
      reads this, buf, dst
      requires Valid()
      ensures r <==> dist as int <= |history| || |history| >= buf_len as int
    {
      dist <= buf_i || is_full
    }

    /** is_empty(): nothing put yet. */
    function IsEmpty(): (r: bool)
      reads this, buf, dst
      requires Valid()
      ensures r <==> history == []
    {
      buf_i == 0 && !is_full
    }
  }

  /**
   * check_dist(rep0) admits rep0 equal to the bytes put, while the match
   * then copies from rep0 + 1 back: its first byte is the last cell of buf
   * as it was before anything was put, not a decoded byte.
   */
  lemma CheckDistAdmitsOneBeyond(w: OutWindow)
    requires w.Valid() && |w.history| < w.buf_len as int
    ensures w.CheckDist(|w.history| as u32)
    ensures w.Byte(|w.history| as u32 + 1) == w.init[w.buf_len - 1]
  {
  }
}
