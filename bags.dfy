/**
 * bag_t of bag.hpp: a multiset kept in a seq_t of cells, where a cell holding
 * the null element is free. Insertion reuses the first free cell or grows the
 * cells; removal nulls a cell in place; iteration skips the free cells.
 */
module Bags {
  import opened Prelude
  import opened Seqs

  /** The index of the first cell holding z, or |s| when there is none. */
  function FirstNull<T(==)>(s: seq<T>, z: T): (i: nat)
    ensures i <= |s|
    ensures forall k :: 0 <= k < i ==> s[k] != z
    ensures i < |s| ==> s[i] == z
    decreases |s|
  {
    if s == [] then 0
    else if s[0] == z then 0
    else 1 + FirstNull(s[1..], z)
  }

  /**
   * The cells after insert(bag, el): el goes into the first null cell; with no
   * null cell the cells grow by clamp(len, 1, max) at the end and el goes into
   * the first new cell.
   */
  function InsertInto<T(==)>(s: seq<T>, z: T, el: T): (r: seq<T>)
  {
    var i := FirstNull(s, z);
    if i < |s| then s[i := el]
    else s + [el] + seq((if |s| < 1 then 1 else |s|) - 1, _ => z)
  }

  /** The non-null elements of the cells: the multiset the bag stands for. */
  function NonNull<T(==)>(s: seq<T>, z: T): multiset<T>
    decreases |s|
  {
    if s == [] then multiset{}
    else NonNull(s[..|s| - 1], z) + (if s[|s| - 1] == z then multiset{} else multiset{s[|s| - 1]})
  }

  /** The indices of the non-null cells from index `at` on, in increasing order. */
  function Occupied<T(==)>(s: seq<T>, z: T, at: nat): seq<nat>
    decreases |s| - at
  {
    if at >= |s| then []
    else if s[at] != z then [at] + Occupied(s, z, at + 1)
    else Occupied(s, z, at + 1)
  }

  lemma {:induction false} NonNullConcat<T>(a: seq<T>, b: seq<T>, z: T)
    ensures NonNull(a + b, z) == NonNull(a, z) + NonNull(b, z)
    decreases |b|
  {
    if b == [] {
      assert a + b == a;
    } else {
      var b' := b[..|b| - 1];
      assert (a + b)[..|a + b| - 1] == a + b';
      NonNullConcat(a, b', z);
    }
  }

  lemma NonNullSingle<T>(x: T, z: T)
    ensures NonNull([x], z) == if x == z then multiset{} else multiset{x}
  {
    assert [x][..0] == [];
  }

  /** Writing x into cell i replaces that cell's element in the multiset. */
  lemma NonNullUpdate<T>(s: seq<T>, i: nat, x: T, z: T)
    requires i < |s|
    ensures NonNull(s[i := x], z) + NonNull([s[i]], z) == NonNull(s, z) + NonNull([x], z)
  {
    assert s == s[..i] + [s[i]] + s[i + 1..];
    assert s[i := x] == s[..i] + [x] + s[i + 1..];
    NonNullConcat(s[..i] + [s[i]], s[i + 1..], z);
    NonNullConcat(s[..i], [s[i]], z);
    NonNullConcat(s[..i] + [x], s[i + 1..], z);
    NonNullConcat(s[..i], [x], z);
  }

  lemma {:induction false} NonNullNulls<T>(n: nat, z: T)
    ensures NonNull(seq(n, _ => z), z) == multiset{}
  {
    if n > 0 {
      assert seq(n, _ => z)[..n - 1] == seq(n - 1, _ => z);
      NonNullNulls(n - 1, z);
    }
  }

  /**
   * Insertion: the cells keep their length when one was free and el went into
   * the first free one; otherwise they grow, by at least one cell, and keep
   * their old contents as a prefix.
   */
  lemma InsertShape<T>(s: seq<T>, z: T, el: T)
    ensures var r := InsertInto(s, z, el); var i := FirstNull(s, z);
      && (i < |s| ==> |r| == |s| && r[i] == el && forall k :: 0 <= k < |s| && k != i ==> r[k] == s[k])
      && (i == |s| ==>
            |r| == (if |s| == 0 then 1 else 2 * |s|) && r[..|s|] == s && r[|s|] == el
            && forall k :: |s| < k < |r| ==> r[k] == z)
  {
  }

  /** The bag is a multiset: inserting a non-null element adds exactly that element. */
  lemma InsertAddsElement<T>(s: seq<T>, z: T, el: T)
    requires el != z
    ensures NonNull(InsertInto(s, z, el), z) == NonNull(s, z) + multiset{el}
  {
    var i := FirstNull(s, z);
    if i < |s| {
      NonNullUpdate(s, i, el, z);
      NonNullSingle(s[i], z);
      NonNullSingle(el, z);
    } else {
      var k := (if |s| < 1 then 1 else |s|) - 1;
      NonNullConcat(s + [el], seq(k, _ => z), z);
      NonNullConcat(s, [el], z);
      NonNullSingle(el, z);
      NonNullNulls(k, z);
    }
  }

  /** The bag is a multiset: removing a cell's element takes away exactly that element. */
  lemma RemoveTakesElement<T>(s: seq<T>, z: T, i: nat)
    requires i < |s|
    ensures NonNull(s[i := z], z) + NonNull([s[i]], z) == NonNull(s, z)
    ensures s[i] != z ==> multiset{s[i]} <= NonNull(s, z)
  {
    NonNullUpdate(s, i, z, z);
    NonNullSingle(z, z);
    NonNullSingle(s[i], z);
  }

  /** Occupied lists exactly the non-null cells at or after `at`, in increasing order. */
  lemma {:induction false} OccupiedShape<T>(s: seq<T>, z: T, at: nat)
    ensures forall k :: 0 <= k < |Occupied(s, z, at)| ==> at <= Occupied(s, z, at)[k] < |s| && s[Occupied(s, z, at)[k]] != z
    ensures forall k :: at <= k < |s| && s[k] != z ==> k in Occupied(s, z, at)
    ensures forall j, k :: 0 <= j < k < |Occupied(s, z, at)| ==> Occupied(s, z, at)[j] < Occupied(s, z, at)[k]
    decreases |s| - at
  {
    if at < |s| {
      OccupiedShape(s, z, at + 1);
    }
  }

  /** Skipping null cells skips nothing that Occupied lists. */
  lemma {:induction false} OccupiedSkip<T>(s: seq<T>, z: T, a: nat, b: nat)
    requires a <= b <= |s| && forall k :: a <= k < b ==> s[k] == z
    ensures Occupied(s, z, a) == Occupied(s, z, b)
    decreases b - a
  {
    if a < b {
      OccupiedSkip(s, z, a + 1, b);
    }
  }

  /** A bag: its cells, with the cells' zero as the null element. */
  class Bag<T(==,0)> {
    const cells: Buffer<T>

    ghost predicate Valid()
      reads this, cells
    {
      cells.Valid()
    }

    ghost function Elems(): seq<T>
      requires Valid()
      reads this, cells, cells.ptr
    {
      cells.Elems()
    }

    /** bag_t{}: no cells. */
    constructor (zero: T)
      ensures Valid() && fresh(cells) && cells.zero == zero && Elems() == []
    {
      cells := new Buffer(zero);
    }

    /** operator bool: the bag holds a non-null element. */
    method IsTruthy() returns (r: bool)
      requires Valid()
      ensures r <==> exists k :: 0 <= k < |Elems()| && Elems()[k] != cells.zero
      ensures r <==> NonNull(Elems(), cells.zero) != multiset{}
    {
      if cells.ptr != null {
        for i := 0 to cells.len
          invariant forall k :: 0 <= k < i ==> cells.ptr[k] == cells.zero
        {
          if cells.ptr[i] != cells.zero {
            NoNullIsEmpty(Elems(), cells.zero);
            return true;
          }
        }
      }
      NoNullIsEmpty(Elems(), cells.zero);
      return false;
    }

    /** insert: the first null cell takes el, or the cells grow and the first new cell does. */
    method Insert(el: T)
      requires Valid() && cells.len <= U64_MAX
      modifies cells, cells.ptr
      ensures Valid()
      ensures Elems() == InsertInto(old(Elems()), cells.zero, el)
    {
      ghost var was := Elems();
      if cells.ptr != null {
        for i := 0 to cells.len
          invariant cells.Valid() && cells.ptr != null && Elems() == was
          invariant forall k :: 0 <= k < i ==> cells.ptr[k] != cells.zero
        {
          if cells.ptr[i] == cells.zero {
            FirstNullIs(was, cells.zero, i);
            cells.ptr[i] := el;
            return;
          }
        }
      }
      FirstNullIs(was, cells.zero, cells.len);
      var dest_i := cells.len;
      var k := Clamp(cells.len, 1, U64_MAX);
      cells.Grow(cells.len, k);
      cells.ptr[dest_i] := el;
      assert Elems() == was + [el] + seq(k - 1, _ => cells.zero);
    }

    /** remove: the cell at index i (which must lie inside the cells) becomes null. */
    method Remove(i: nat)
      requires Valid() && i < cells.len
      modifies cells.ptr
      ensures Valid()
      ensures Elems() == old(Elems())[i := cells.zero]
    {
      cells.ptr[i] := cells.zero;
    }
  }

  lemma NoNullIsEmpty<T>(s: seq<T>, z: T)
    ensures (exists k :: 0 <= k < |s| && s[k] != z) <==> NonNull(s, z) != multiset{}
  {
    if exists k :: 0 <= k < |s| && s[k] != z {
      var k :| 0 <= k < |s| && s[k] != z;
      RemoveTakesElement(s, z, k);
    } else {
      NullsAreEmpty(s, z);
    }
  }

  lemma {:induction false} NullsAreEmpty<T>(s: seq<T>, z: T)
    requires forall k :: 0 <= k < |s| ==> s[k] == z
    ensures NonNull(s, z) == multiset{}
    decreases |s|
  {
    if s != [] {
      NullsAreEmpty(s[..|s| - 1], z);
    }
  }

  lemma FirstNullIs<T>(s: seq<T>, z: T, i: nat)
    requires i <= |s| && (forall k :: 0 <= k < i ==> s[k] != z) && (i < |s| ==> s[i] == z)
    ensures FirstNull(s, z) == i
  {
  }

  /**
   * bag_iter_t: `at` and `end` point into the cells; as indices, `end` is the
   * cells' length.
   */
  class BagIter<T(==,0)> {
    var at: nat
    var end: nat
    const cells: Buffer<T>

    ghost predicate Valid()
      reads this, cells
    {
      cells.Valid() && at <= end == cells.len
    }

    /** An iterator over `cells` standing at index `at`. */
    constructor (cells: Buffer<T>, at: nat)
      requires cells.Valid() && at <= cells.len
      ensures Valid() && this.cells == cells && this.at == at
    {
      this.cells := cells;
      this.at := at;
      end := cells.len;
    }

    /** skip_unoccupied_cells: advance `at` to the next non-null cell, or to `end`. */
    method SkipUnoccupied()
      requires Valid()
      modifies this
      ensures Valid() && end == old(end) && old(at) <= at
      ensures forall k :: old(at) <= k < at ==> cells.Elems()[k] == cells.zero
      ensures at < end ==> cells.Elems()[at] != cells.zero
      ensures Occupied(cells.Elems(), cells.zero, old(at)) == Occupied(cells.Elems(), cells.zero, at)
    {
      ghost var start := at;
      while at != end
        invariant Valid() && start <= at
        invariant forall k :: start <= k < at ==> cells.Elems()[k] == cells.zero
        decreases end - at
      {
        if cells.ptr[at] != cells.zero {
          break;
        }
        at := at + 1;
      }
      OccupiedSkip(cells.Elems(), cells.zero, start, at);
    }

    /** operator *: the element under the iterator. */
    function Deref(): (el: T)
      requires Valid() && at < end
      reads this, cells, cells.ptr
      ensures el == cells.Elems()[at]
    {
      cells.ptr[at]
    }

    /** operator ++: step past the current cell, then skip null cells. */
    method Incr()
      requires Valid()
      modifies this
      ensures Valid() && end == old(end) && old(at) <= at
      ensures old(at) < end ==> old(at) < at
      ensures forall k :: old(at) < k < at ==> cells.Elems()[k] == cells.zero
      ensures at < end ==> cells.Elems()[at] != cells.zero
    {
      if at != end {
        at := at + 1;
      }
      SkipUnoccupied();
    }
  }

  /** begin(bag): an iterator at the first non-null cell. */
  method Begin<T(==,0)>(bag: Bag<T>) returns (iter: BagIter<T>)
    requires bag.Valid()
    ensures fresh(iter) && iter.Valid() && iter.cells == bag.cells
    ensures Occupied(bag.Elems(), bag.cells.zero, 0) == Occupied(bag.Elems(), bag.cells.zero, iter.at)
    ensures iter.at < iter.end ==> bag.Elems()[iter.at] != bag.cells.zero
  {
    iter := new BagIter(bag.cells, 0);
    iter.SkipUnoccupied();
  }

  /** end(bag): an iterator at the end of the cells. */
  method End<T(==,0)>(bag: Bag<T>) returns (iter: BagIter<T>)
    requires bag.Valid()
    ensures fresh(iter) && iter.Valid() && iter.cells == bag.cells && iter.at == iter.end
  {
    iter := new BagIter(bag.cells, bag.cells.len);
  }

  /** operator != on two iterators over the same cells. */
  function Ne<T(==,0)>(left: BagIter<T>, right: BagIter<T>): (r: bool)
    requires left.end == right.end
    reads left, right
    ensures r <==> left.at != right.at
  {
    left.at != right.at
  }

  /** The cells s with every cell listed in idx made null. */
  function NullAt<T>(s: seq<T>, z: T, idx: seq<nat>): (r: seq<T>)
    ensures |r| == |s|
    decreases |idx|
  {
    if idx == [] then s
    else
      var r := NullAt(s, z, idx[..|idx| - 1]);
      if idx[|idx| - 1] < |r| then r[idx[|idx| - 1] := z] else r
  }

  /** Exactly the listed cells are null afterwards; the others keep their element. */
  lemma {:induction false} NullAtCells<T>(s: seq<T>, z: T, idx: seq<nat>)
    ensures forall k :: 0 <= k < |s| ==> NullAt(s, z, idx)[k] == if k in idx then z else s[k]
    decreases |idx|
  {
    if idx != [] {
      var idx' := idx[..|idx| - 1];
      NullAtCells(s, z, idx');
      assert idx == idx' + [idx[|idx| - 1]];
    }
  }

  lemma NullAtSnoc<T>(s: seq<T>, z: T, idx: seq<nat>, at: nat)
    requires at < |s|
    ensures NullAt(s, z, idx + [at]) == NullAt(s, z, idx)[at := z]
  {
    assert (idx + [at])[..|idx|] == idx;
  }

  function Min(a: nat, b: nat): nat
  {
    if a < b then a else b
  }

  /** What VisitRemoving knows after visiting the cells in `visited`. */
  ghost predicate Visiting<T(0)>(bag: Bag<T>, it: BagIter<T>, s0: seq<T>, limit: nat, visited: seq<nat>, removed: seq<nat>)
    reads bag, bag.cells, bag.cells.ptr, it
  {
    && it.cells == bag.cells && bag.Valid() && it.Valid() && it.end == |s0|
    && visited + Occupied(s0, bag.cells.zero, it.at) == Occupied(s0, bag.cells.zero, 0)
    && (it.at < it.end ==> s0[it.at] != bag.cells.zero)
    && removed == visited[..Min(limit, |visited|)]
    && (forall k :: 0 <= k < |removed| ==> removed[k] < it.at)
    && bag.Elems() == NullAt(s0, bag.cells.zero, removed)
  }

  /**
   * A range-based for over the bag that removes each element it visits while
   * fewer than `limit` have been visited, counting the visits: it visits
   * exactly the non-null cells, in index order, and the removals do not
   * disturb the visit; afterwards the first `limit` of them are null.
   */
  method VisitRemoving<T(==,0)>(bag: Bag<T>, limit: nat) returns (count: nat, ghost visited: seq<nat>)
    requires bag.Valid()
    modifies bag.cells.ptr
    ensures bag.Valid()
    ensures visited == Occupied(old(bag.Elems()), bag.cells.zero, 0) && count == |visited|
    ensures bag.Elems() == NullAt(old(bag.Elems()), bag.cells.zero, visited[..Min(limit, |visited|)])
  {
    ghost var s0 := bag.Elems();
    var it := Begin(bag);
    var last := End(bag);
    count := 0;
    visited := [];
    ghost var removed: seq<nat> := [];
    while Ne(it, last)
      invariant it != last && last.end == it.end && last.at == last.end
      invariant Visiting(bag, it, s0, limit, visited, removed) && count == |visited|
      modifies bag.cells.ptr, it
      decreases it.end - it.at
    {
      visited, removed := VisitOne(bag, it, limit, count, s0, visited, removed);
      count := count + 1;
    }
  }

  /** One round of VisitRemoving's loop: its body, then the iterator's ++. */
  method VisitOne<T(==,0)>(bag: Bag<T>, it: BagIter<T>, limit: nat, count: nat,
                           ghost s0: seq<T>, ghost visited: seq<nat>, ghost removed: seq<nat>)
    returns (ghost visited': seq<nat>, ghost removed': seq<nat>)
    requires Visiting(bag, it, s0, limit, visited, removed) && it.at < it.end && count == |visited|
    modifies bag.cells.ptr, it
    ensures Visiting(bag, it, s0, limit, visited', removed') && |visited'| == count + 1
    ensures old(it.at) < it.at && it.end == old(it.end)
  {
    var z := bag.cells.zero;
    var at := it.at;
    PrefixStep(visited, limit, at);
    removed' := removed;
    if count < limit {
      NullAtSnoc(s0, z, removed, at);
      bag.Remove(at);
      removed' := removed + [at];
    }
    NullAtAbove(s0, z, removed', at);
    ghost var mid := bag.Elems();
    it.Incr();
    assert it.cells.Elems() == mid;
    VisitAdvance(s0, z, visited, at, it.at, mid);
    visited' := visited + [at];
  }

  lemma PrefixStep(visited: seq<nat>, limit: nat, at: nat)
    ensures (visited + [at])[..Min(limit, |visited| + 1)] ==
      if |visited| < limit then visited[..Min(limit, |visited|)] + [at] else visited[..Min(limit, |visited|)]
  {
  }

  /** The iterator's step from one occupied cell to the next skips no occupied cell. */
  lemma VisitAdvance<T>(s0: seq<T>, z: T, vis: seq<nat>, at: nat, nxt: nat, mid: seq<T>)
    requires at < nxt <= |s0| == |mid| && s0[at] != z
    requires vis + Occupied(s0, z, at) == Occupied(s0, z, 0)
    requires forall k :: at < k < |s0| ==> mid[k] == s0[k]
    requires forall k :: at < k < nxt ==> mid[k] == z
    requires nxt < |s0| ==> mid[nxt] != z
    ensures (vis + [at]) + Occupied(s0, z, nxt) == Occupied(s0, z, 0)
    ensures nxt < |s0| ==> s0[nxt] != z
  {
    OccupiedSkip(s0, z, at + 1, nxt);
    var rest := Occupied(s0, z, nxt);
    assert Occupied(s0, z, at) == [at] + rest;
    AppendAssoc(vis, [at], rest);
  }

  /** Cells above every removed index keep their element. */
  lemma NullAtAbove<T>(s0: seq<T>, z: T, removed: seq<nat>, at: nat)
    requires forall k :: 0 <= k < |removed| ==> removed[k] <= at
    ensures forall k :: at < k < |s0| ==> NullAt(s0, z, removed)[k] == s0[k]
  {
    NullAtCells(s0, z, removed);
  }

  lemma AppendAssoc<T>(a: seq<T>, b: seq<T>, c: seq<T>)
    ensures (a + b) + c == a + (b + c)
  {
  }
}
