/** Storage slots and the range utilities darray composes: allocation of a
    block, construction and destruction of element ranges, and moves in
    either direction. These stand for the helpers of expu/mem_utils.hpp
    (`uninitialised_copy`, `uninitialised_move`, `copy`, `move`,
    `backward_move`, `destroy_range`, `_ctg_duplicate`), which are not part
    of this model: with elements treated as plain values, constructing into
    a slot and assigning to it both store the value, and a move leaves the
    source slot holding its value. */
module Ranges {
  import opened Sequences

  /** One slot of an allocated block: no live element, or a constructed one. */
  datatype Slot<T> = Empty | Full(value: T)

  /** `allocate(n)`: a fresh block of `n` slots, none constructed. */
  method Allocate<T>(n: nat) returns (a: array<Slot<T>>)
    ensures fresh(a) && a.Length == n
    ensures forall k {:trigger a[k]} :: 0 <= k < n ==> a[k] == Empty
  {
    a := new Slot<T>[n](_ => Empty);
  }

  /** `destroy_range(first, last)`: the slots `[from, to)` hold no element
      afterwards; every other slot is untouched. */
  method DestroyRange<T>(a: array<Slot<T>>, from: nat, to: nat)
    requires from <= to <= a.Length
    modifies a
    ensures forall k {:trigger a[k]} :: 0 <= k < a.Length ==>
      a[k] == if from <= k < to then Empty else old(a[k])
  {
    var j := from;
    while j < to
      invariant from <= j <= to
      invariant forall k {:trigger a[k]} :: 0 <= k < a.Length ==>
        a[k] == if from <= k < j then Empty else old(a[k])
    {
      a[j] := Empty;
      j := j + 1;
    }
  }

  /** `uninitialised_copy(r, a + dest)` / `copy(r, a + dest)`: the values of
      `r` are stored, in order, from slot `dest` on. */
  method ConstructRange<T>(r: seq<T>, a: array<Slot<T>>, dest: nat)
    requires dest + |r| <= a.Length
    modifies a
    ensures forall k {:trigger a[k]} :: 0 <= k < a.Length ==>
      a[k] == if dest <= k < dest + |r| then Full(r[k - dest]) else old(a[k])
  {
    var j := 0;
    while j < |r|
      invariant 0 <= j <= |r|
      invariant forall k {:trigger a[k]} :: 0 <= k < a.Length ==>
        a[k] == if dest <= k < dest + j then Full(r[k - dest]) else old(a[k])
    {
      a[dest + j] := Full(r[j]);
      j := j + 1;
    }
  }

  /** `uninitialised_move` / `move` of the slots `[from, to)` of `src` to
      the slots from `dest` on of `dst`, front to back. Within one block the
      destination must lie below the source or past its end, where a
      front-to-back move reads every slot before overwriting it. */
  method MoveRange<T>(src: array<Slot<T>>, from: nat, to: nat, dst: array<Slot<T>>, dest: nat)
    requires from <= to <= src.Length && dest + (to - from) <= dst.Length
    requires src == dst ==> dest <= from || to <= dest
    modifies dst
    ensures forall k {:trigger dst[k]} :: 0 <= k < dst.Length ==>
      dst[k] == if dest <= k < dest + (to - from) then old(src[k - dest + from]) else old(dst[k])
  {
    ghost var s, d := src[..], dst[..];
    var j := 0;
    while j < to - from
      invariant 0 <= j <= to - from
      invariant forall k {:trigger dst[k]} :: 0 <= k < dst.Length ==>
        dst[k] == if dest <= k < dest + j then s[k - dest + from] else d[k]
      invariant src != dst ==> src[..] == s
    {
      dst[dest + j] := src[from + j];
      j := j + 1;
    }
  }

  /** `backward_move(first, last, dest_last)`: the slots `[from, to)` move up
      to end at `destEnd`, back to front, so that an overlapping move to a
      higher address reads every slot before overwriting it. */
  method MoveBackward<T>(a: array<Slot<T>>, from: nat, to: nat, destEnd: nat)
    requires from <= to <= destEnd <= a.Length
    modifies a
    ensures forall k {:trigger a[k]} :: 0 <= k < a.Length ==>
      a[k] == if destEnd - (to - from) <= k < destEnd then old(a[k - (destEnd - to)]) else old(a[k])
  {
    ghost var s := a[..];
    var j := 0;
    while j < to - from
      invariant 0 <= j <= to - from
      invariant forall k {:trigger a[k]} :: 0 <= k < a.Length ==>
        a[k] == if destEnd - j <= k < destEnd then s[k - (destEnd - to)] else s[k]
    {
      a[destEnd - 1 - j] := a[to - 1 - j];
      j := j + 1;
    }
  }

  /** `std::rotate(a + lo, a + mid, a + hi)`: the slots `[mid, hi)` move to
      `lo` and the slots `[lo, mid)` follow them, as `Rotated` says of the
      first `hi` slots; the slots from `hi` on are untouched. Each slot of
      `[lo, hi)` is stored from a copy of the block taken first. */
  method Rotate<T>(a: array<Slot<T>>, lo: nat, mid: nat, hi: nat)
    requires lo <= mid <= hi <= a.Length
    modifies a
    ensures forall k {:trigger a[k]} :: 0 <= k < a.Length ==>
      a[k] == if lo <= k < hi then Rotated(old(a[..hi]), lo, mid)[k] else old(a[k])
  {
    var saved := a[..];
    ghost var t := Rotated(saved[..hi], lo, mid);
    var j := lo;
    while j < hi
      invariant lo <= j <= hi
      invariant forall k {:trigger a[k]} :: 0 <= k < a.Length && !(lo <= k < j) ==> a[k] == saved[k]
      invariant forall k {:trigger a[k]} :: lo <= k < j ==> a[k] == t[k]
    {
      var v := if j < lo + (hi - mid) then saved[j + (mid - lo)] else saved[j - (hi - mid)];
      assert v == t[j];
      a[j] := v;
      j := j + 1;
    }
  }

  /** `_ctg_duplicate(src, src + count, capacity)` over a block: a fresh
      block of `capacity` slots holding copies of the first `count` slots. */
  method DuplicateSlots<T>(src: array<Slot<T>>, count: nat, capacity: nat) returns (a: array<Slot<T>>)
    requires count <= src.Length && count <= capacity
    ensures fresh(a) && a.Length == capacity
    ensures forall k {:trigger a[k]} :: 0 <= k < capacity ==> a[k] == if k < count then src[k] else Empty
  {
    a := Allocate(capacity);
    MoveRange(src, 0, count, a, 0);
  }

  /** `_ctg_duplicate(range, capacity)`: a fresh block of `capacity` slots
      holding the elements of `range`. */
  method DuplicateRange<T>(range: seq<T>, capacity: nat) returns (a: array<Slot<T>>)
    requires |range| <= capacity
    ensures fresh(a) && a.Length == capacity
    ensures forall k {:trigger a[k]} :: 0 <= k < capacity ==> a[k] == if k < |range| then Full(range[k]) else Empty
  {
    a := Allocate(capacity);
    ConstructRange(range, a, 0);
  }
}
