/** `expu::darray`: a growable array over one contiguous block. The block
    descriptor `first/last/end` becomes the array `block` (its length is the
    capacity, `end - first`) and the count `last` of constructed slots
    (`last - first`); the ghost `Contents` is the sequence of live elements. */
module DArrays {
  import opened Results
  import opened Growth
  import opened Sequences
  import opened Ranges

  /** The memory provider, reduced to what darray observes of it: two
      allocators are interchangeable exactly when they compare equal. */
  datatype Allocator = Allocator(id: nat)

  /** A default-constructed allocator. */
  const DefaultAllocator := Allocator(0)

  /** Where element construction throws during `emplace`: nowhere, in the
      constructor of the new element, or there and again when the shifted
      element is moved back into the vacated slot. */
  datatype Fault = NoFault | ElementFails | ElementAndRestoreFail

  /** Block `b` holds exactly the elements `s` in its first `n` slots and no
      live element after them. */
  ghost predicate Holds<T>(b: array<Slot<T>>, n: nat, s: seq<T>)
    reads b
  {
    && n <= b.Length && |s| == n
    && (forall k {:trigger b[k]} :: 0 <= k < n ==> b[k] == Full(s[k]))
    && (forall k {:trigger b[k]} :: n <= k < b.Length ==> b[k] == Empty)
  }

  /** Block `b` holds `m - 1` elements `s` in its first `m` slots, with a
      gap (a slot holding no element) at index `at`. */
  ghost predicate Gapped<T>(b: array<Slot<T>>, at: nat, m: nat, s: seq<T>)
    reads b
  {
    && at < m <= b.Length <= MaxSize && |s| == m - 1
    && (forall k {:trigger b[k]} :: 0 <= k < at ==> b[k] == Full(s[k]))
    && b[at] == Empty
    && (forall k {:trigger b[k]} :: at < k < m ==> b[k] == Full(s[k - 1]))
    && (forall k {:trigger b[k]} :: m <= k < b.Length ==> b[k] == Empty)
  }

  class DArray<T> {
    var block: array<Slot<T>>  // [first, end): the allocated block
    var last: nat              // last - first: the number of constructed elements
    var alloc: Allocator
    ghost var Contents: seq<T>

    /** The block descriptor invariant `first <= last <= end`, with the
        elements in `[first, last)` and nothing live in `[last, end)`. */
    ghost predicate Valid()
      reads this, block
    {
      Holds(block, last, Contents) && block.Length <= MaxSize
    }

    // ---------------------------------------------------------------
    // Construction

    /** `darray()`: empty, with no block. */
    constructor ()
      ensures Valid() && fresh(block)
      ensures Contents == [] && block.Length == 0 && alloc == DefaultAllocator
    {
      block := new Slot<T>[0];
      last := 0;
      alloc := DefaultAllocator;
      Contents := [];
    }

    /** `darray(const Alloc&)`: empty, with no block, using `a`. */
    constructor WithAllocator(a: Allocator)
      ensures Valid() && fresh(block)
      ensures Contents == [] && block.Length == 0 && alloc == a
    {
      block := new Slot<T>[0];
      last := 0;
      alloc := a;
      Contents := [];
    }

    /** `darray(const darray&, const Alloc&)`: a copy of `other`'s elements
        in a new block of `other`'s capacity. */
    constructor CopyWithAllocator(other: DArray<T>, a: Allocator)
      requires other.Valid()
      ensures Valid() && fresh(block) && alloc == a
      ensures Contents == other.Contents && block.Length == other.block.Length
    {
      var b := DuplicateSlots(other.block, other.last, other.block.Length);
      block := b;
      last := other.last;
      alloc := a;
      Contents := other.Contents;
    }

    /** `darray(const darray&)`: as the copy with an allocator, using the
        allocator `select_on_container_copy_construction` gives, which by
        default is a copy of `other`'s. */
    constructor Copy(other: DArray<T>)
      requires other.Valid()
      ensures Valid() && fresh(block) && alloc == other.alloc
      ensures Contents == other.Contents && block.Length == other.block.Length
    {
      var b := DuplicateSlots(other.block, other.last, other.block.Length);
      block := b;
      last := other.last;
      alloc := other.alloc;
      Contents := other.Contents;
    }

    /** `darray(darray&&, const Alloc&)`: when `a` differs from `other`'s
        allocator, each element is transferred into a new block of `other`'s
        capacity and `other` keeps its block; otherwise the block is stolen
        and `other` is left with no block. */
    constructor MoveWithAllocator(other: DArray<T>, a: Allocator)
      requires other.Valid()
      modifies other
      ensures Valid() && other.Valid() && alloc == a
      ensures Contents == old(other.Contents)
      ensures a != old(other.alloc) ==>
        && fresh(block) && block.Length == old(other.block.Length)
        && other.block == old(other.block) && other.Contents == old(other.Contents)
      ensures a == old(other.alloc) ==>
        && block == old(other.block)
        && fresh(other.block) && other.block.Length == 0 && other.Contents == []
    {
      if a != other.alloc {
        var b := DuplicateSlots(other.block, other.last, other.block.Length);
        block := b;
        last := other.last;
        alloc := a;
        Contents := other.Contents;
      } else {
        block := other.block;
        last := other.last;
        alloc := a;
        Contents := other.Contents;
        var none := Allocate<T>(0);
        other.block, other.last, other.Contents := none, 0, [];
      }
    }

    /** `darray(darray&&)`: takes `other`'s allocator and block; `other` is
        left with no block. */
    constructor Move(other: DArray<T>)
      requires other.Valid()
      modifies other
      ensures Valid() && other.Valid() && alloc == old(other.alloc)
      ensures block == old(other.block) && Contents == old(other.Contents)
      ensures fresh(other.block) && other.block.Length == 0 && other.Contents == []
      ensures other.alloc == old(other.alloc)
    {
      block := other.block;
      last := other.last;
      alloc := other.alloc;
      Contents := other.Contents;
      var none := Allocate<T>(0);
      other.block, other.last, other.Contents := none, 0, [];
    }

    /** `darray(InputIt, Sentinel, const Alloc&)` for a single-pass range:
        starts empty and appends each element with `emplace_back`. A range
        longer than `max_size()` makes an append throw. */
    constructor FromInput(range: seq<T>, a: Allocator)
      requires |range| <= MaxSize
      ensures Valid() && fresh(block) && alloc == a
      ensures Contents == range && block.Length == AppendCapacity(0, 0, |range|)
    {
      block := new Slot<T>[0];
      last := 0;
      alloc := a;
      Contents := [];
      new;
      var j := 0;
      while j < |range|
        invariant 0 <= j <= |range|
        invariant Valid() && fresh(block) && alloc == a
        invariant Contents == range[..j]
        invariant block.Length == AppendCapacity(0, 0, j)
      {
        var r := EmplaceBack(range[j]);
        j := j + 1;
      }
      assert range[..j] == range;
    }

    /** `darray(FwdIt, Sentinel, const Alloc&)` for a multi-pass range: one
        block of exactly the range's length. A range longer than
        `max_size()` makes the allocation throw. */
    constructor FromRange(range: seq<T>, a: Allocator)
      requires |range| <= MaxSize
      ensures Valid() && fresh(block) && alloc == a
      ensures Contents == range && block.Length == |range|
    {
      var b := DuplicateRange(range, |range|);
      block := b;
      last := |range|;
      alloc := a;
      Contents := range;
    }

    /** `_darray_data::steal`: takes `other`'s block; `other` is left with
        no block. Whatever block this array held before is dropped, not
        released: the move constructor steals into an empty array, and move
        assignment releases its block with `_clear_dealloc` first. */
    method Steal(other: DArray<T>)
      requires other.Valid() && other != this
      modifies this, other
      ensures Valid() && other.Valid()
      ensures block == old(other.block) && Contents == old(other.Contents)
      ensures fresh(other.block) && other.block.Length == 0 && other.Contents == []
      ensures alloc == old(alloc) && other.alloc == old(other.alloc)
    {
      block, last, Contents := other.block, other.last, other.Contents;
      var none := Allocate<T>(0);
      other.block, other.last, other.Contents := none, 0, [];
    }

    // ---------------------------------------------------------------
    // Observers

    /** `size()`: `last - first`. */
    function Size(): (r: nat)
      reads this, block
      requires Valid()
      ensures r == |Contents|
    {
      last
    }

    /** `capacity()`: `end - first`; never below the size nor above
        `max_size()`. */
    function Capacity(): (r: nat)
      reads this, block
      requires Valid()
      ensures |Contents| <= r <= MaxSize
    {
      block.Length
    }

    /** `empty()`: `last == first`. */
    function IsEmpty(): (r: bool)
      reads this, block
      requires Valid()
      ensures r <==> Contents == []
    {
      last == 0
    }

    /** `operator[](index)`, unchecked: the caller guarantees `index < size()`. */
    function At(index: nat): (r: T)
      reads this, block
      requires Valid() && index < |Contents|
      ensures r == Contents[index]
    {
      block[index].value
    }

    /** `front()`: the first element, or `out_of_range` on an empty array. */
    function Front(): (r: Result<T>)
      reads this, block
      requires Valid()
      ensures r.Err? <==> Contents == []
      ensures r.Err? ==> r.error == OutOfRange
      ensures r.Ok? ==> r.value == Contents[0]
    {
      if last != 0 then Ok(block[0].value) else Err(OutOfRange)
    }

    /** `back()`: the last element, or `out_of_range` on an empty array. */
    function Back(): (r: Result<T>)
      reads this, block
      requires Valid()
      ensures r.Err? <==> Contents == []
      ensures r.Err? ==> r.error == OutOfRange
      ensures r.Ok? ==> r.value == Contents[|Contents| - 1]
    {
      if last != 0 then Ok(block[last - 1].value) else Err(OutOfRange)
    }

    /** Traversal from `begin()` to `end()`: the elements in order. */
    method Elements() returns (s: seq<T>)
      requires Valid()
      ensures s == Contents
    {
      s := [];
      var k := 0;
      while k < last
        invariant 0 <= k <= last
        invariant s == Contents[..k]
      {
        s := s + [block[k].value];
        k := k + 1;
      }
    }

    // ---------------------------------------------------------------
    // Block replacement

    /** `_replace`: release the current block (its elements are destroyed
        with it) and adopt `newBlock` holding `newContents`. */
    method Replace(newBlock: array<Slot<T>>, newLast: nat, ghost newContents: seq<T>)
      requires Holds(newBlock, newLast, newContents) && newBlock.Length <= MaxSize
      modifies this
      ensures Valid() && block == newBlock && Contents == newContents && alloc == old(alloc)
    {
      block, last, Contents := newBlock, newLast, newContents;
    }

    /** `_resize_assign`: a new block of `newCapacity` slots holding `range`
        replaces the current one; a block beyond `max_size()` cannot be
        allocated and nothing changes. */
    method ResizeAssign(range: seq<T>, newCapacity: nat) returns (r: Outcome)
      requires Valid() && |range| <= newCapacity
      modifies this
      ensures Valid() && alloc == old(alloc)
      ensures newCapacity <= MaxSize ==>
        r == Done && fresh(block) && block.Length == newCapacity && Contents == range
      ensures MaxSize < newCapacity ==>
        r == Failed(CapacityExceeded) && block == old(block) && Contents == old(Contents)
    {
      if MaxSize < newCapacity {
        return Failed(CapacityExceeded);
      }
      var b := DuplicateRange(range, newCapacity);
      Replace(b, |range|, range);
      r := Done;
    }

    /** `_unchecked_grow_exactly` (the path for elements whose move cannot
        throw): the elements move to a new block of exactly `newCapacity`
        slots. */
    method UncheckedGrowExactly(newCapacity: nat) returns (r: Outcome)
      requires Valid() && last <= newCapacity
      modifies this
      ensures Valid() && alloc == old(alloc) && Contents == old(Contents)
      ensures newCapacity <= MaxSize ==> r == Done && fresh(block) && block.Length == newCapacity
      ensures MaxSize < newCapacity ==> r == Failed(CapacityExceeded) && block == old(block)
    {
      if MaxSize < newCapacity {
        return Failed(CapacityExceeded);
      }
      var b := DuplicateSlots(block, last, newCapacity);
      Replace(b, last, Contents);
      r := Done;
    }

    /** `_grow_geometric(min)`: grow exactly to `_calculate_growth(min)`. */
    method GrowGeometric(minCapacity: nat) returns (r: Outcome)
      requires Valid()
      modifies this
      ensures Valid() && alloc == old(alloc) && Contents == old(Contents)
      ensures match CalculateGrowth(old(last), MaxSize, minCapacity)
        case Ok(c) => r == Done && fresh(block) && block.Length == c
        case Err(e) => r == Failed(e) && block == old(block)
    {
      var g := CalculateGrowth(last, MaxSize, minCapacity);
      if g.Err? {
        return Failed(g.error);
      }
      r := UncheckedGrowExactly(g.value);
    }

    /** `reserve(n)`: grows to exactly `n` slots when `n` exceeds the
        capacity, keeping the elements; otherwise does nothing. */
    method Reserve(n: nat) returns (r: Outcome)
      requires Valid()
      modifies this
      ensures Valid() && alloc == old(alloc) && Contents == old(Contents)
      ensures n <= old(block.Length) ==> r == Done && block == old(block)
      ensures old(block.Length) < n <= MaxSize ==> r == Done && fresh(block) && block.Length == n
      ensures MaxSize < n ==> r == Failed(CapacityExceeded) && block == old(block)
    {
      if block.Length < n {
        r := UncheckedGrowExactly(n);
      } else {
        r := Done;
      }
    }

    /** `shrink_to_fit()`: moves the elements to a block of exactly their
        number, unless the block is already full. */
    method ShrinkToFit()
      requires Valid()
      modifies this
      ensures Valid() && alloc == old(alloc) && Contents == old(Contents)
      ensures block.Length == |Contents|
      ensures old(last) == old(block.Length) ==> block == old(block)
      ensures old(last) < old(block.Length) ==> fresh(block)
    {
      if last != block.Length {
        var b := DuplicateSlots(block, last, last);
        Replace(b, last, Contents);
      }
    }
  
    // ---------------------------------------------------------------
    // Single-element insertion

    /** `u_emplace_back`: constructs `x` in the first free slot; the caller
        guarantees that one exists. */
    method UEmplaceBack(x: T)
      requires Valid() && last < block.Length
      modifies this, block
      ensures Valid() && block == old(block) && alloc == old(alloc)
      ensures Contents == old(Contents) + [x]
    {
      block[last] := Full(x);
      last := last + 1;
      Contents := Contents + [x];
    }

    /** `emplace(at, x)`. With a free slot, `x` is appended when `at` is the
        end; otherwise the last element is moved into the free slot, the
        elements from `at` shift up by one, and `x` is constructed at `at`.
        Without one, a block of `_calculate_growth(capacity() + 1)` slots
        receives `x` and then the elements around it. `fault` says where
        element construction throws: the array is then left as it was,
        except when moving the shifted element back also throws, which
        truncates the array at `at`. */
    method Emplace(at: nat, x: T, fault: Fault) returns (r: Result<nat>)
      requires Valid() && at <= |Contents|
      modifies this, block
      ensures Valid() && alloc == old(alloc)
      ensures old(last) == old(block.Length) == MaxSize ==>
        r == Err(CapacityExceeded) && block == old(block) && Contents == old(Contents)
      ensures CanAppend(old(last), old(block.Length)) && fault == NoFault ==>
        && r == Ok(at) && Contents == Inserted(old(Contents), at, [x])
        && block.Length == NextCapacity(old(last), old(block.Length))
        && (old(last) < old(block.Length) ==> block == old(block))
        && (old(last) == old(block.Length) ==> fresh(block))
      ensures CanAppend(old(last), old(block.Length)) && fault != NoFault ==>
        && r == Err(ConstructionFailure) && block == old(block)
        && Contents == if fault == ElementAndRestoreFail && at < old(last) < old(block.Length)
                       then old(Contents)[..at] else old(Contents)
    {
      if last != block.Length {
        if at == last {
          if fault != NoFault {
            return Err(ConstructionFailure);
          }
          UEmplaceBack(x);
          InsertedAtEnd(old(Contents), [x]);
          return Ok(at);
        }
        r := EmplaceShifting(at, x, fault);
      } else {
        var g := CalculateGrowth(last, MaxSize, block.Length + 1);
        if g.Err? {
          return Err(CapacityExceeded);
        }
        r := EmplaceReallocating(at, x, fault, g.value);
      }
    }

    /** The in-place path of `emplace` before the end: a gap is opened at
        `at` and receives `x`. When constructing `x` throws, the gap is
        closed again; when closing it throws too, the shifted tail is
        destroyed and the array ends at `at`. */
    method EmplaceShifting(at: nat, x: T, fault: Fault) returns (r: Result<nat>)
      requires Valid() && at < last < block.Length
      modifies block, `last, `Contents
      ensures Valid()
      ensures fault == NoFault ==> r == Ok(at) && Contents == Inserted(old(Contents), at, [x])
      ensures fault == ElementFails ==> r == Err(ConstructionFailure) && Contents == old(Contents)
      ensures fault == ElementAndRestoreFail ==>
        r == Err(ConstructionFailure) && Contents == old(Contents)[..at]
    {
      ghost var s := Contents;
      OpenGap(at);
      if fault == NoFault {
        block[at] := Full(x);
        Contents := Inserted(s, at, [x]);
        r := Ok(at);
      } else if fault == ElementFails {
        CloseGap(at);
        r := Err(ConstructionFailure);
      } else {
        DestroyRange(block, at + 1, last);
        last := at;
        Contents := s[..at];
        r := Err(ConstructionFailure);
      }
    }

    /** The first steps of the in-place `emplace`: the last element is
        moved into the free slot, the others from `at` shift up by one
        (`backward_move`), and the element left at `at` is destroyed. */
    method OpenGap(at: nat)
      requires Valid() && at < last < block.Length
      modifies block, `last
      ensures last == old(last) + 1 && at + 1 < last && Gapped(block, at, last, Contents)
    {
      ghost var s := Contents;
      var n := last;
      block[n] := block[n - 1];
      last := n + 1;
      MoveBackward(block, at, n - 1, n);
      block[at] := Empty;
    }

    /** The rollback of the in-place `emplace`: the element after the gap
        moves back into it and the rest of the tail moves down by one. */
    method CloseGap(at: nat)
      requires Gapped(block, at, last, Contents) && at + 1 < last
      modifies block, `last
      ensures last == old(last) - 1 && Valid()
    {
      var n := last;
      // the move back into the gap and `move(next(post_at), last, post_at)`
      // together are one front-to-back move of [at + 1, last) down by one
      MoveRange(block, at + 1, n, block, at);
      last := n - 1;
      block[n - 1] := Empty;
    }

    /** The reallocating path of `emplace`: `x` is constructed first in a
        new block of `newCapacity` slots, then the elements before and after
        `at` are moved around it. When constructing `x` throws, the new
        block is released and nothing changes. */
    method EmplaceReallocating(at: nat, x: T, fault: Fault, newCapacity: nat) returns (r: Result<nat>)
      requires Valid() && at <= last && last < newCapacity <= MaxSize
      modifies this
      ensures Valid() && alloc == old(alloc)
      ensures fault == NoFault ==>
        && r == Ok(at) && Contents == Inserted(old(Contents), at, [x])
        && fresh(block) && block.Length == newCapacity
      ensures fault != NoFault ==>
        r == Err(ConstructionFailure) && block == old(block) && Contents == old(Contents)
    {
      var newBlock := Allocate<T>(newCapacity);
      if fault != NoFault {
        return Err(ConstructionFailure);
      }
      newBlock[at] := Full(x);
      if at == last {
        MoveRange(block, 0, last, newBlock, 0);
      } else {
        MoveRange(block, 0, at, newBlock, 0);
        MoveRange(block, at, last, newBlock, at + 1);
      }
      ghost var t := Inserted(Contents, at, [x]);
      assert forall k {:trigger newBlock[k]} :: 0 <= k < last + 1 ==> newBlock[k] == Full(t[k]);
      Replace(newBlock, last + 1, t);
      r := Ok(at);
    }

    /** `emplace_back(x)`: `emplace` at the end. */
    method EmplaceBack(x: T) returns (r: Result<nat>)
      requires Valid()
      modifies this, block
      ensures Valid() && alloc == old(alloc)
      ensures block == old(block) || fresh(block)
      ensures r.Ok? <==> CanAppend(old(last), old(block.Length))
      ensures r.Ok? ==>
        && r.value == old(|Contents|) && Contents == old(Contents) + [x]
        && block.Length == NextCapacity(old(last), old(block.Length))
        && (old(last) < old(block.Length) ==> block == old(block))
      ensures r.Err? ==> r.error == CapacityExceeded && block == old(block) && Contents == old(Contents)
    {
      r := Emplace(last, x, NoFault);
      InsertedAtEnd(old(Contents), [x]);
    }

    /** `push_back(x)`: `emplace_back` without the iterator. */
    method PushBack(x: T) returns (r: Outcome)
      requires Valid()
      modifies this, block
      ensures Valid() && alloc == old(alloc)
      ensures block == old(block) || fresh(block)
      ensures r.Done? <==> CanAppend(old(last), old(block.Length))
      ensures r.Done? ==>
        && Contents == old(Contents) + [x]
        && block.Length == NextCapacity(old(last), old(block.Length))
        && (old(last) < old(block.Length) ==> block == old(block))
      ensures r.Failed? ==> r.error == CapacityExceeded && block == old(block) && Contents == old(Contents)
    {
      var e := EmplaceBack(x);
      r := if e.Ok? then Done else Failed(e.error);
    }

    // ---------------------------------------------------------------
    // Range insertion

    /** `insert(at, first, last)` for a multi-pass range. An empty range
        changes nothing, not even the block. When the free slots cannot
        take the range, a block of `_calculate_growth(size() + |range|)`
        slots receives the range and then the elements around it.
        Otherwise the tail after `at` makes room in place: by a move into
        the free slots and a backward move when the range is shorter than
        the tail, or by one move past the range when it is not. */
    method InsertRange(at: nat, range: seq<T>) returns (r: Outcome)
      requires Valid() && at <= |Contents|
      modifies this, block
      ensures Valid() && alloc == old(alloc)
      ensures range == [] ==> r == Done && block == old(block) && Contents == old(Contents)
      ensures |range| <= old(block.Length) - old(last) ==>
        r == Done && block == old(block) && Contents == Inserted(old(Contents), at, range)
      ensures old(block.Length) - old(last) < |range| ==>
        match CalculateGrowth(old(last), MaxSize, old(last) + |range|)
          case Ok(c) =>
            && r == Done && fresh(block) && block.Length == c
            && Contents == Inserted(old(Contents), at, range)
          case Err(e) => r == Failed(e) && block == old(block) && Contents == old(Contents)
    {
      if |range| == 0 {
        InsertedNothing(Contents, at);
        return Done;
      }
      if block.Length - last < |range| {
        var g := CalculateGrowth(last, MaxSize, last + |range|);
        if g.Err? {
          return Failed(g.error);
        }
        InsertReallocating(at, range, g.value);
      } else if |range| < last - at {
        InsertBeforeLongTail(at, range);
      } else {
        InsertBeforeShortTail(at, range);
      }
      r := Done;
    }

    /** The reallocating path of the multi-pass `insert`: the range is
        constructed in a new block of `newCapacity` slots first, then the
        elements before and after `at` are moved around it. */
    method InsertReallocating(at: nat, range: seq<T>, newCapacity: nat)
      requires Valid() && at <= last && last + |range| <= newCapacity <= MaxSize
      modifies this
      ensures Valid() && alloc == old(alloc) && fresh(block) && block.Length == newCapacity
      ensures Contents == Inserted(old(Contents), at, range)
    {
      var newBlock := Allocate<T>(newCapacity);
      ConstructRange(range, newBlock, at);
      MoveRange(block, 0, at, newBlock, 0);
      MoveRange(block, at, last, newBlock, at + |range|);
      ghost var t := Inserted(Contents, at, range);
      assert forall k {:trigger newBlock[k]} :: 0 <= k < last + |range| ==> newBlock[k] == Full(t[k]);
      Replace(newBlock, last + |range|, t);
    }

    /** The in-place path of the multi-pass `insert` when the range is
        shorter than the tail after `at`: the last `|range|` elements move
        into the free slots, the rest of the tail moves back to end where
        they were, and the range is assigned from `at`. */
    method InsertBeforeLongTail(at: nat, range: seq<T>)
      requires Valid() && at + |range| < last && last + |range| <= block.Length
      modifies block, `last, `Contents
      ensures Valid() && Contents == Inserted(old(Contents), at, range)
    {
      ghost var s := Contents;
      var n := last;
      var len := |range|;
      MoveRange(block, n - len, n, block, n);
      assert forall k {:trigger block[k]} :: n <= k < n + len ==> block[k] == Full(s[k - len]);
      MoveBackward(block, at, n - len, n);
      assert forall k {:trigger block[k]} :: at + len <= k < n + len ==> block[k] == Full(s[k - len]);
      ConstructRange(range, block, at);
      ghost var t := Inserted(s, at, range);
      assert forall k {:trigger block[k]} :: 0 <= k < n + len ==> block[k] == Full(t[k]);
      last := n + len;
      Contents := t;
    }

    /** The in-place path of the multi-pass `insert` when the range is at
        least as long as the tail after `at`: the tail moves past the
        range, the front of the range is assigned over the tail's old
        slots and the rest is constructed in the free slots after them. */
    method InsertBeforeShortTail(at: nat, range: seq<T>)
      requires Valid() && at <= last <= at + |range| && last + |range| <= block.Length
      modifies block, `last, `Contents
      ensures Valid() && Contents == Inserted(old(Contents), at, range)
    {
      ghost var s := Contents;
      var n := last;
      var shift := n - at;
      ghost var t := Inserted(s, at, range);
      MoveRange(block, at, n, block, at + |range|);
      assert forall k {:trigger block[k]} :: at + |range| <= k < n + |range| ==> block[k] == Full(t[k]);
      ConstructRange(range[..shift], block, at);
      ConstructRange(range[shift..], block, n);
      assert forall k {:trigger block[k]} :: at <= k < at + |range| ==> block[k] == Full(t[k]);
      last := n + |range|;
      Contents := t;
    }

    /** `insert(at, first, last)` for a single-pass range: each element is
        appended with `emplace_back`, and unless `at` is the end the
        appended elements are rotated into place. An append that would
        exceed `max_size()` throws, leaving the elements appended so far
        at the end. */
    method InsertInput(at: nat, range: seq<T>) returns (r: Outcome)
      requires Valid() && at <= |Contents|
      modifies this, block
      ensures Valid() && alloc == old(alloc)
      ensures block == old(block) || fresh(block)
      ensures r.Done? <==> old(last) + |range| <= MaxSize
      ensures old(last) + |range| <= old(block.Length) ==> block == old(block)
      ensures r.Done? ==>
        && Contents == Inserted(old(Contents), at, range)
        && block.Length == AppendCapacity(old(last), old(block.Length), |range|)
      ensures r.Failed? ==>
        r.error == CapacityExceeded && Contents == old(Contents) + range[..MaxSize - old(last)]
    {
      ghost var s := Contents;
      var prevSize := last;
      r := AppendAll(range);
      if r.Failed? {
        return;
      }
      if at != prevSize {
        RotateElements(at, prevSize);
        RotatedAppended(s, at, range);
      } else {
        InsertedAtEnd(s, range);
      }
    }

    /** `std::rotate(begin() + at, begin() + mid, end())` over the elements. */
    method RotateElements(at: nat, mid: nat)
      requires Valid() && at <= mid <= last
      modifies block, `Contents
      ensures Valid() && Contents == Rotated(old(Contents), at, mid)
    {
      ghost var t := Rotated(Contents, at, mid);
      Rotate(block, at, mid, last);
      assert forall k {:trigger block[k]} :: 0 <= k < last ==> block[k] == Full(t[k]);
      Contents := t;
    }

    /** One step of the `emplace_back` loop over `range`: `range[..k]` has
        been appended to `s`, which had `size` elements in `cap` slots, and
        the array is not yet at `max_size()`; now `range[k]` follows. */
    method AppendOne(range: seq<T>, k: nat, ghost s: seq<T>, ghost size: nat, ghost cap: nat)
      requires Valid() && size <= cap <= MaxSize && k < |range| && last == size + k < MaxSize
      requires Contents == s + range[..k]
      requires block.Length == AppendCapacity(size, cap, k)
      modifies this, block
      ensures Valid() && alloc == old(alloc)
      ensures block == old(block) || fresh(block)
      ensures old(last) < old(block.Length) ==> block == old(block)
      ensures Contents == s + range[..k + 1]
      ensures block.Length == AppendCapacity(size, cap, k + 1)
    {
      AppendCapacityNext(size, cap, k);
      var e := EmplaceBack(range[k]);
      assert range[..k + 1] == range[..k] + [range[k]];
    }

    /** The `emplace_back` loop over a single-pass range: appends the
        elements in order while the array is below `max_size()`, and
        returns how many it appended. */
    method AppendWhileRoom(range: seq<T>) returns (n: nat)
      requires Valid()
      modifies this, block
      ensures Valid() && alloc == old(alloc)
      ensures block == old(block) || fresh(block)
      ensures n == if old(last) + |range| <= MaxSize then |range| else MaxSize - old(last)
      ensures old(last) + |range| <= old(block.Length) ==> block == old(block)
      ensures Contents == old(Contents) + range[..n]
      ensures block.Length == AppendCapacity(old(last), old(block.Length), n)
    {
      ghost var s := Contents;
      ghost var c := block.Length;
      var prevSize := last;
      n := 0;
      while n < |range| && last < MaxSize
        invariant 0 <= n <= |range| && last == prevSize + n <= MaxSize
        invariant Valid() && alloc == old(alloc)
        invariant block == old(block) || fresh(block)
        invariant prevSize + |range| <= c ==> block == old(block)
        invariant Contents == s + range[..n]
        invariant block.Length == AppendCapacity(prevSize, c, n)
      {
        AppendOne(range, n, s, prevSize, c);
        n := n + 1;
      }
    }

    /** The `emplace_back` loop over a single-pass range shared by `insert`
        and `assign`: the elements are appended in order until one would
        take the array beyond `max_size()`. */
    method AppendAll(range: seq<T>) returns (r: Outcome)
      requires Valid()
      modifies this, block
      ensures Valid() && alloc == old(alloc)
      ensures block == old(block) || fresh(block)
      ensures r.Done? <==> old(last) + |range| <= MaxSize
      ensures old(last) + |range| <= old(block.Length) ==> block == old(block)
      ensures r.Done? ==>
        && Contents == old(Contents) + range
        && block.Length == AppendCapacity(old(last), old(block.Length), |range|)
      ensures r.Failed? ==>
        r.error == CapacityExceeded && Contents == old(Contents) + range[..MaxSize - old(last)]
    {
      var n := AppendWhileRoom(range);
      if n < |range| {
        r := Failed(CapacityExceeded);
      } else {
        assert range[..n] == range;
        r := Done;
      }
    }

    // ---------------------------------------------------------------
    // Assignment

    /** `_alt_alloc_assign(alt, first, last)`, and so `assign(first, last)`
        for a multi-pass range: a range beyond the capacity goes to a new
        block of exactly its length; otherwise the range is assigned over
        the elements and constructed after them, and elements past its
        length are destroyed. The allocator the new elements are made with
        is not observable here. */
    method AssignRange(range: seq<T>) returns (r: Outcome)
      requires Valid()
      modifies this, block
      ensures Valid() && alloc == old(alloc)
      ensures |range| <= old(block.Length) ==> r == Done && block == old(block) && Contents == range
      ensures old(block.Length) < |range| <= MaxSize ==>
        r == Done && fresh(block) && block.Length == |range| && Contents == range
      ensures MaxSize < |range| ==>
        r == Failed(CapacityExceeded) && block == old(block) && Contents == old(Contents)
    {
      if block.Length < |range| {
        r := ResizeAssign(range, |range|);
      } else if last < |range| {
        var n := last;
        ConstructRange(range[..n], block, 0);
        ConstructRange(range[n..], block, n);
        assert forall k {:trigger block[k]} :: 0 <= k < |range| ==> block[k] == Full(range[k]);
        last := |range|;
        Contents := range;
        r := Done;
      } else {
        var n := last;
        ConstructRange(range, block, 0);
        DestroyRange(block, |range|, n);
        assert forall k {:trigger block[k]} :: 0 <= k < |range| ==> block[k] == Full(range[k]);
        last := |range|;
        Contents := range;
        r := Done;
      }
    }

    /** `assign(first, last)` for a single-pass range: the range is
        assigned over the elements while both last, the elements left over
        are destroyed, and the rest of the range is appended with
        `emplace_back`. */
    method AssignInput(range: seq<T>) returns (r: Outcome)
      requires Valid()
      modifies this, block
      ensures Valid() && alloc == old(alloc)
      ensures block == old(block) || fresh(block)
      ensures r.Done? <==> |range| <= MaxSize
      ensures r.Done? ==> Contents == range
      ensures r.Done? && |range| <= old(block.Length) ==> block == old(block)
      ensures r.Done? && old(block.Length) < |range| ==>
        block.Length == AppendCapacity(old(last), old(block.Length), |range| - old(last))
      ensures r.Failed? ==> r.error == CapacityExceeded && Contents == range[..MaxSize]
    {
      var m := AssignPrefix(range);
      assert range[..m] + range[m..] == range;
      r := AppendAll(range[m..]);
      if r.Failed? {
        assert range[..m] + range[m..][..MaxSize - m] == range[..MaxSize];
      }
    }

    /** The first phase of the single-pass `assign`: the range is assigned
        over the elements while both last, and the elements left over are
        destroyed. */
    method AssignPrefix(range: seq<T>) returns (m: nat)
      requires Valid()
      modifies block, `last, `Contents
      ensures Valid()
      ensures m == if |range| < old(last) then |range| else old(last)
      ensures Contents == range[..m]
    {
      var n := last;
      var j := 0;
      while j < n && j < |range|
        invariant j <= n && j <= |range|
        invariant forall k :: 0 <= k < block.Length ==>
          block[k] == if k < j then Full(range[k]) else old(block[k])
      {
        block[j] := Full(range[j]);
        j := j + 1;
      }
      DestroyRange(block, j, n);
      last := j;
      Contents := range[..j];
      m := j;
    }

    /** Copy assignment `operator=(const darray&)`: the elements of
        `other`, read from its first to its last constructed slot. When the
        allocator propagates and differs, the elements are assigned first
        and the allocator is taken over after; when it propagates, it is
        taken over before assigning. */
    method CopyAssign(other: DArray<T>, propagate: bool)
      requires Valid() && other.Valid()
      requires other == this || other.block != block
      modifies this, block
      ensures Valid() && Contents == old(other.Contents)
      ensures alloc == if propagate then old(other.alloc) else old(alloc)
      ensures |old(other.Contents)| <= old(block.Length) ==> block == old(block)
      ensures old(block.Length) < |old(other.Contents)| ==>
        fresh(block) && block.Length == |old(other.Contents)|
    {
      var source := other.Elements();
      var otherAlloc := other.alloc;
      if propagate && alloc != otherAlloc {
        var r := AssignRange(source);
        alloc := otherAlloc;
        return;
      }
      if propagate {
        alloc := otherAlloc;
      }
      var r := AssignRange(source);
    }

    /** Move assignment `operator=(darray&&)`. With an allocator that does
        not propagate and differs from `other`'s, the elements are moved
        over one at a time by the single-pass `assign` (a move iterator is
        only an input iterator) and `other` keeps its block. Otherwise the
        current block is released, the allocator is taken over when it
        propagates, and `other`'s block is stolen. */
    method MoveAssign(other: DArray<T>, propagate: bool)
      requires Valid() && other.Valid() && other != this && other.block != block
      modifies this, block, other
      ensures Valid() && other.Valid() && Contents == old(other.Contents)
      ensures !propagate && old(alloc) != old(other.alloc) ==>
        && alloc == old(alloc) && (block == old(block) || fresh(block))
        && (|old(other.Contents)| <= old(block.Length) ==> block == old(block))
        && other.block == old(other.block) && other.Contents == old(other.Contents)
      ensures propagate || old(alloc) == old(other.alloc) ==>
        && alloc == (if propagate then old(other.alloc) else old(alloc))
        && block == old(other.block)
        && fresh(other.block) && other.block.Length == 0 && other.Contents == []
    {
      if !propagate && alloc != other.alloc {
        var source := other.Elements();
        var r := AssignInput(source);
        return;
      }
      if propagate {
        alloc := other.alloc;
      }
      Steal(other);
    }

    // ---------------------------------------------------------------
    // Erasure

    /** `erase(first, last)` as written: the elements in `[f, l)` are
        destroyed and the array then ends at `f`. The elements after `l`
        stay constructed past the new end, so the block invariant survives
        only when nothing follows `l`. */
    method EraseAsWritten(f: nat, l: nat)
      requires Valid() && f <= l <= |Contents|
      modifies block, `last, `Contents
      ensures block == old(block) && last == f && Contents == old(Contents)[..f]
      ensures Valid() <==> l == old(last)
    {
      DestroyRange(block, f, l);
      last := f;
      Contents := Contents[..f];
      if l < old(last) {
        assert block[l] != Empty;
      }
    }

    /** `erase(first, last)` as intended: the elements after `l` move down
        to `f` and the slots they leave at the end are destroyed. The block
        is kept. */
    method Erase(f: nat, l: nat)
      requires Valid() && f <= l <= |Contents|
      modifies block, `last, `Contents
      ensures Valid() && Contents == Erased(old(Contents), f, l)
    {
      ghost var s := Contents;
      var n := last;
      MoveRange(block, l, n, block, f);
      DestroyRange(block, n - (l - f), n);
      last := n - (l - f);
      Contents := Erased(s, f, l);
    }

    /** The range the copy assignment and the grow path for elements whose
        move may throw read as written: every slot from the first to the
        end of the block, constructed or not. */
    ghost function SlotsToEnd(): (r: seq<Slot<T>>)
      reads this, block
      requires Valid()
      ensures |r| == block.Length
      ensures forall k :: 0 <= k < |Contents| ==> r[k] == Full(Contents[k])
    {
      block[..]
    }

    /** Whenever the block has a free slot, the range read as written is
        longer than the array and reaches a slot that holds no element. */
    lemma SlotsToEndPastLast()
      requires Valid() && last < block.Length
      ensures |SlotsToEnd()| > |Contents| && SlotsToEnd()[|Contents|] == Empty
    {
    }
  }

  /** `shrink_to_fit` twice: the second call finds the block full and
      keeps the block the first call left. */
  method ShrinkToFitTwice<T>(d: DArray<T>) returns (first: array<Slot<T>>)
    requires d.Valid()
    modifies d
    ensures d.Valid() && d.Contents == old(d.Contents)
    ensures d.block == first && first.Length == |d.Contents|
  {
    d.ShrinkToFit();
    first := d.block;
    d.ShrinkToFit();
  }

  /** Erasing the element `emplace` just put at `at` gives back the
      elements from before the insertion. */
  method EmplaceThenErase<T>(d: DArray<T>, at: nat, x: T) returns (r: Result<nat>)
    requires d.Valid() && at <= |d.Contents|
    modifies d, d.block
    ensures d.Valid()
    ensures r.Ok? <==> CanAppend(old(|d.Contents|), old(d.block.Length))
    ensures d.Contents == old(d.Contents)
  {
    r := d.Emplace(at, x, NoFault);
    if r.Ok? {
      d.Erase(at, at + 1);
      ErasedInserted(old(d.Contents), at, [x]);
    }
  }

  /** Erasing indices 2 up to 5 of ten elements keeps the first two and
      the last five; truncating at the first erased index keeps two. */
  lemma EraseTenElements()
    ensures Erased([0, 1, 2, 3, 4, 5, 6, 7, 8, 9], 2, 5) == [0, 1, 5, 6, 7, 8, 9]
    ensures [0, 1, 2, 3, 4, 5, 6, 7, 8, 9][..2] == [0, 1]
  {
  }
}
