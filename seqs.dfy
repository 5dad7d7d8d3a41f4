/**
 * seq_t of prelude.hpp: an owned buffer `ptr` of `len` elements, null exactly
 * when empty, resized by grow and shrink into a freshly allocated, zeroed buffer.
 */
module Seqs {

  /** The elements of `s` with `k` copies of `z` inserted before index `at`. */
  function Inserted<T>(s: seq<T>, at: nat, k: nat, z: T): (r: seq<T>)
    requires at <= |s|
    ensures |r| == |s| + k
    ensures forall i :: 0 <= i < at ==> r[i] == s[i]
    ensures forall i :: at <= i < at + k ==> r[i] == z
    ensures forall i :: at <= i < |s| ==> r[i + k] == s[i]
  {
    s[..at] + seq(k, _ => z) + s[at..]
  }

  /** The elements of `s` without the `k` starting at index `at`. */
  function Removed<T>(s: seq<T>, at: nat, k: nat): (r: seq<T>)
    requires at + k <= |s|
    ensures |r| == |s| - k
    ensures forall i :: 0 <= i < at ==> r[i] == s[i]
    ensures forall i :: at <= i < |r| ==> r[i] == s[i + k]
  {
    s[..at] + s[at + k..]
  }

  /** shrink undoes grow at the same place. */
  lemma RemovedInserted<T>(s: seq<T>, at: nat, k: nat, z: T)
    requires at <= |s|
    ensures Removed(Inserted(s, at, k, z), at, k) == s
  {
    var r := Removed(Inserted(s, at, k, z), at, k);
    assert |r| == |s|;
    forall i | 0 <= i < |s| ensures r[i] == s[i] {
    }
  }

  /** The element-by-element move loop of grow and shrink, from one buffer into another. */
  method MoveRange<T>(dst: array<T>, dst_at: nat, src: array<T>, src_at: nat, count: nat)
    requires dst != src
    requires dst_at + count <= dst.Length && src_at + count <= src.Length
    modifies dst
    ensures dst[..] == old(dst[..dst_at]) + src[src_at..src_at + count] + old(dst[dst_at + count..])
  {
    for i := 0 to count
      invariant forall j :: 0 <= j < dst.Length ==> dst[j] == if dst_at <= j < dst_at + i then src[src_at + j - dst_at] else old(dst[j])
    {
      dst[dst_at + i] := src[src_at + i];
    }
    assert dst[..] == old(dst[..dst_at]) + src[src_at..src_at + count] + old(dst[dst_at + count..]);
  }

  class Buffer<T(0)> {
    var ptr: array?<T>
    var len: nat
    /** The element value that zeroed memory holds. */
    const zero: T

    ghost predicate Valid()
      reads this
    {
      (ptr == null <==> len == 0) && (ptr != null ==> ptr.Length == len)
    }

    ghost function Elems(): (s: seq<T>)
      requires Valid()
      reads this, ptr
      ensures |s| == len
    {
      if ptr == null then [] else ptr[..]
    }

    /** operator bool: a sequence is truthy when it is not empty. */
    function IsTruthy(): (r: bool)
      requires Valid()
      reads this, ptr
      ensures r <==> Elems() != []
    {
      len > 0
    }

    /** operator [] for an element inside the sequence. */
    function At(i: nat): (x: T)
      requires Valid() && i < len
      reads this, ptr
      ensures x == Elems()[i]
    {
      ptr[i]
    }

    /** seq_t(): the empty sequence. */
    constructor (zero: T)
      ensures Valid() && Elems() == [] && ptr == null && this.zero == zero
    {
      ptr := null;
      len := 0;
      this.zero := zero;
    }

    /** grow: insert `k` zeroed elements before index `at`. */
    method Grow(at: nat, k: nat)
      requires Valid() && at <= len
      modifies this
      ensures Valid()
      ensures Elems() == Inserted(old(Elems()), at, k, zero)
      ensures k == 0 ==> ptr == old(ptr)
      ensures k > 0 ==> fresh(ptr)
    {
      if k == 0 {
        return;
      }
      var old_ptr, old_len := ptr, len;
      ghost var was := Elems();
      var fresh_ptr := new T[old_len + k](_ => zero);
      assert fresh_ptr[..] == seq(old_len + k, _ => zero);
      if old_ptr != null {
        MoveRange(fresh_ptr, 0, old_ptr, 0, at);
        assert fresh_ptr[..] == was[..at] + seq(old_len + k - at, _ => zero);
        MoveRange(fresh_ptr, at + k, old_ptr, at, old_len - at);
      }
      assert fresh_ptr[..] == was[..at] + seq(k, _ => zero) + was[at..];
      ptr, len := fresh_ptr, old_len + k;
      assert Elems() == Inserted(was, at, k, zero);
    }

    /** shrink: remove the `k` elements starting at index `at`. */
    method Shrink(at: nat, k: nat)
      requires Valid() && at + k <= len
      modifies this
      ensures Valid()
      ensures Elems() == Removed(old(Elems()), at, k)
      ensures k == 0 ==> ptr == old(ptr)
      ensures k > 0 && len > 0 ==> fresh(ptr)
    {
      if k == 0 {
        return;
      }
      var old_ptr, new_len := ptr, len - k;
      ghost var was := Elems();
      if new_len == 0 {
        ptr, len := null, 0;
        return;
      }
      var fresh_ptr := new T[new_len](_ => zero);
      MoveRange(fresh_ptr, 0, old_ptr, 0, at);
      MoveRange(fresh_ptr, at, old_ptr, at + k, new_len - at);
      ptr, len := fresh_ptr, new_len;
      assert Elems() == Removed(was, at, k);
    }
  }

  /** create_seq(len): `len` zeroed elements. */
  method CreateSeq<T(0)>(len: nat, zero: T) returns (s: Buffer<T>)
    ensures fresh(s) && s.Valid() && s.zero == zero
    ensures s.ptr == null || fresh(s.ptr)
    ensures s.Elems() == seq(len, _ => zero)
  {
    s := new Buffer(zero);
    s.Grow(0, len);
    assert s.Elems() == seq(len, _ => zero);
  }

  /** create_seq(ptr, len): a copy of the first `len` elements at `ptr`. */
  method CreateSeqFrom<T(0)>(src: seq<T>, len: nat, zero: T) returns (s: Buffer<T>)
    requires len <= |src|
    ensures fresh(s) && s.Valid() && s.zero == zero
    ensures s.ptr == null || fresh(s.ptr)
    ensures s.Elems() == src[..len]
  {
    s := new Buffer(zero);
    s.Grow(0, len);
    if len == 0 {
      return;
    }
    for ix := 0 to len
      invariant s.Valid() && s.ptr != null && s.len == len && fresh(s.ptr)
      invariant forall j :: 0 <= j < ix ==> s.ptr[j] == src[j]
    {
      s.ptr[ix] := src[ix];
    }
    assert s.Elems() == src[..len];
  }
}
