# expu darray and seq_iter in Dafny

This project models two parts of the expu library.

- `expu::darray` is a growable array over one contiguous block. The block
  is described by three pointers: `first`, `last` (one past the last
  constructed element) and `end` (one past the last allocated slot).
- `expu::seq_iter` is an iterator whose position is an integer.

The model has five modules.

- `Results`: the container's exceptions as explicit outcomes: `Error`,
  `Result`, `Outcome`.
- `Growth`: `_calculate_growth`, and what it implies for a run of appends.
  That covers the capacities reached and the number of element moves:
  `k` appends from empty relocate at most `4k` elements in all (amortized
  constant time per append) as long as `k + k/2` fits `max_size()`; a
  single append that reallocates moves every element.
- `Sequences`: what the operations do to the sequence of elements. It
  defines insertion, erasure and rotation, with the round trips between
  them.
- `Ranges`: the block as an `array<Slot<T>>`, where a slot is `Empty` or
  `Full(value)`. It also holds the range utilities darray calls: move,
  backward move, construct, destroy, duplicate and rotate.
- `DArrays`: the class `DArray`.
  - The array's length is the capacity (`end - first`).
  - `last` counts the constructed slots (`last - first`).
  - The ghost `Contents` is the sequence of live elements.
  - `Valid()` is the block invariant: slots `[0, last)` hold `Contents`,
    slots `[last, capacity)` hold nothing, and the capacity never exceeds
    `max_size()`.
  - Each method is proved against a function of the old state: `Inserted`,
    `Erased`, `Rotated`, `CalculateGrowth`, `NextCapacity` or
    `AppendCapacity`.

`SeqIters` models `seq_iter` as a class whose field `curr` is `_curr`. The
iterator laws are methods that run the operators and state the result.

Where the text description of the library and the code disagree, the model
follows the code:
- Moving with an allocator that compares unequal gives a new block of the
  source's capacity (`other.capacity()`), not of its size.
- `erase` truncates the array. The intended behaviour shifts the tail down.
  See "Findings".

## Model

| member | source | states |
|---|---|---|
| `Growth.CalculateGrowth` | include/expu/containers/darray.hpp:606-616 | fails exactly when `min > max_size`; otherwise `min <= r <= max_size`, and `r` is `max_size` when `size + size/2` would exceed it, else `max(min, size + size/2)` |
| `Growth.NextCapacity` | include/expu/containers/darray.hpp:373 | the capacity after one append exceeds the size and stays within `max_size`; it is unchanged while a slot is free, otherwise `_calculate_growth(capacity + 1)`, which is larger |
| `Growth.AppendCapacity` | include/expu/containers/darray.hpp:414-418 | after `k` appends the block holds all elements, stays within `max_size()`, never shrank, and is unchanged when the elements fit from the start |
| `Growth.AppendCapacityNext` | include/expu/containers/darray.hpp:136 | the capacity after `k + 1` appends is one more `emplace_back` growth step after `k`, the form an append loop needs |
| `Growth.PushBackCapacities` | include/expu/containers/darray.hpp:420-428 | from an empty array, successive `push_back` calls see the capacities 1, 2, 3, 4, 6, 6, 9 |
| `Growth.AppendCapacityPotential` | include/expu/containers/darray.hpp:606-616 | 1.5x growth keeps the capacity within half again the size, once that holds |
| `Growth.AppendMovesAmortized` | include/expu/containers/darray.hpp:606-616 | potential argument: each append costs at most four units of `3*size - 2*capacity`, relocations included |
| `Growth.PushBackAmortized` | include/expu/containers/darray.hpp:420-423 | `k` appends from empty relocate at most `4k` elements in all (amortized constant time) |
| `Sequences.InsertedNothing` | include/expu/containers/darray.hpp:484 | inserting an empty range leaves the sequence unchanged |
| `Sequences.InsertedAtEnd` | include/expu/containers/darray.hpp:414-418 | inserting at the end is appending, so `emplace_back` is `emplace` at `end()` |
| `Sequences.ErasedInserted` | include/expu/containers/darray.hpp:288-295 | with the intended erase (`Erased`, see Findings; the code at lines 293-294 truncates instead), erasing what was just inserted gives back the original sequence |
| `Sequences.RotatedAppended` | include/expu/containers/darray.hpp:449-468 | appending a range and rotating it from the old end to `at` equals inserting it at `at`, so the single-pass insert is correct |
| `Ranges.MoveBackward` | include/expu/containers/darray.hpp:342 | `backward_move` shifts a range up within one block, overlap included; slots outside the destination are untouched |
| `Ranges.Rotate` | include/expu/containers/darray.hpp:461-465 | `std::rotate` leaves the first `hi` slots as `Rotated` says (`[mid, hi)` at `lo`, followed by `[lo, mid)`); the other slots are untouched |
| `DArrays.DArray.constructor` | include/expu/containers/darray.hpp:69-71 | empty, with no block, using a default allocator |
| `DArrays.DArray.WithAllocator` | include/expu/containers/darray.hpp:73-77 | empty, with no block, using the given allocator |
| `DArrays.DArray.CopyWithAllocator` | include/expu/containers/darray.hpp:79-86 | same elements in a new block of the source's capacity |
| `DArrays.DArray.Copy` | include/expu/containers/darray.hpp:88-89 | same elements and capacity, and the source's allocator |
| `DArrays.DArray.MoveWithAllocator` | include/expu/containers/darray.hpp:91-111 | unequal allocator: a new block of the source's capacity with its elements, source unchanged; equal: the source's block is stolen and the source has none |
| `DArrays.DArray.Move` | include/expu/containers/darray.hpp:113-120 | takes the source's block, elements and allocator; the source is left with no block and no elements |
| `DArrays.DArray.FromInput` | include/expu/containers/darray.hpp:128-137 | holds the range; the capacity is the one `|range|` appends from empty reach |
| `DArrays.DArray.FromRange` | include/expu/containers/darray.hpp:139-146 | holds the range, in a block of exactly its length |
| `DArrays.DArray.Steal` | include/expu/containers/darray.hpp:29-34 | takes the other descriptor's block and elements; the other is left with no block |
| `DArrays.DArray.Size` | include/expu/containers/darray.hpp:714-717 | the number of elements |
| `DArrays.DArray.Capacity` | include/expu/containers/darray.hpp:719-722 | never below the size nor above `max_size()` |
| `DArrays.DArray.IsEmpty` | include/expu/containers/darray.hpp:729-732 | true exactly when there are no elements |
| `DArrays.DArray.At` | include/expu/containers/darray.hpp:652-661 | requires `index < size()`; yields the element at `index` |
| `DArrays.DArray.Front` | include/expu/containers/darray.hpp:686-697 | `out_of_range` exactly when empty, else element 0 |
| `DArrays.DArray.Back` | include/expu/containers/darray.hpp:699-710 | `out_of_range` exactly when empty, else the last element |
| `DArrays.DArray.Elements` | include/expu/containers/darray.hpp:736-742 | traversing from `begin()` to `end()` yields the elements in order |
| `DArrays.DArray.Replace` | include/expu/containers/darray.hpp:158-166 | the old block is released and the new block, with its elements, is adopted; the allocator is kept |
| `DArrays.DArray.ResizeAssign` | include/expu/containers/darray.hpp:181-189 | a new block of the requested capacity holds the range; a capacity beyond `max_size()` fails and changes nothing |
| `DArrays.DArray.UncheckedGrowExactly` | include/expu/containers/darray.hpp:595-600 | the elements move to a new block of exactly the requested capacity, or nothing changes when it exceeds `max_size()` |
| `DArrays.DArray.GrowGeometric` | include/expu/containers/darray.hpp:618-621 | grows to exactly `_calculate_growth(min)`, or fails as it does; elements kept |
| `DArrays.DArray.Reserve` | include/expu/containers/darray.hpp:624-628 | nothing changes when `n <= capacity`; otherwise capacity becomes exactly `n` with elements kept, or it fails beyond `max_size()` |
| `DArrays.DArray.ShrinkToFit` | include/expu/containers/darray.hpp:630-648 | capacity equals size afterwards with elements kept; a full block is kept, otherwise a new one is taken |
| `DArrays.ShrinkToFitTwice` | include/expu/containers/darray.hpp:633-634 | a second `shrink_to_fit` keeps the block the first one left |
| `DArrays.DArray.UEmplaceBack` | include/expu/containers/darray.hpp:299-311 | with a free slot, appends in place without reallocating |
| `DArrays.DArray.Emplace` | include/expu/containers/darray.hpp:325-412 | gives `old[..at] + [x] + old[at..]` at index `at`, with the capacity `NextCapacity` gives; fails with nothing changed when full at `max_size()`; on a construction failure it keeps the old block and elements, except that a failed move-back truncates to `old[..at]` |
| `DArrays.DArray.EmplaceShifting` | include/expu/containers/darray.hpp:333-367 | in place: inserts `x` at `at`; if constructing `x` throws, the elements are unchanged; if the move-back throws too, they become `old[..at]` |
| `DArrays.DArray.OpenGap` | include/expu/containers/darray.hpp:334-345 | after moving the last element out, the backward move and the destroy, the block holds the elements with an empty slot at `at` |
| `DArrays.DArray.CloseGap` | include/expu/containers/darray.hpp:351-364 | moving the shifted tail back down gives back a valid block with the old elements |
| `DArrays.DArray.EmplaceReallocating` | include/expu/containers/darray.hpp:372-410 | a new block of the computed capacity holds `old[..at] + [x] + old[at..]`; if constructing `x` throws, the block and elements are unchanged |
| `DArrays.DArray.EmplaceBack` | include/expu/containers/darray.hpp:414-418 | succeeds exactly when an append is possible, gives `old + [x]` with capacity `NextCapacity`; otherwise nothing changes |
| `DArrays.DArray.PushBack` | include/expu/containers/darray.hpp:420-428 | as `emplace_back`, returning no position |
| `DArrays.EmplaceThenErase` | include/expu/containers/darray.hpp:288-412 | with the intended erase (`Erase`/`Erased`, see Findings; the code at lines 293-294 truncates instead), erasing the element `emplace` just inserted gives back the old elements |
| `DArrays.DArray.InsertRange` | include/expu/containers/darray.hpp:473-590 | gives `old[..at] + range + old[at..]`; an empty range changes nothing, not even the block; the block is kept when `end - last >= len`, otherwise it becomes `_calculate_growth(size + len)` or the insert fails with nothing changed |
| `DArrays.DArray.InsertReallocating` | include/expu/containers/darray.hpp:486-515 | a new block of the given capacity holds the inserted sequence |
| `DArrays.DArray.InsertBeforeLongTail` | include/expu/containers/darray.hpp:527-566 | range shorter than the tail: in place, the block holds the inserted sequence |
| `DArrays.DArray.InsertBeforeShortTail` | include/expu/containers/darray.hpp:568-586 | range at least as long as the tail: in place, the block holds the inserted sequence |
| `DArrays.DArray.InsertInput` | include/expu/containers/darray.hpp:449-468 | gives `old[..at] + range + old[at..]` exactly when the result fits `max_size()`, with the capacity the appends reach; otherwise the appended prefix of the range stays at the end |
| `DArrays.DArray.AppendAll` | include/expu/containers/darray.hpp:454-455 | appends the range in order with the capacity the appends reach; it stops at `max_size()` having appended a prefix; the block is kept while the range fits |
| `DArrays.DArray.AppendWhileRoom` | include/expu/containers/darray.hpp:454-455 | appends the range in order while the array is below `max_size()`: the whole range when it fits, otherwise exactly the prefix that reaches `max_size()`; the capacity is the one that many appends reach |
| `DArrays.DArray.AppendOne` | include/expu/containers/darray.hpp:455 | one step of the append loop: the next element of the range follows the ones appended so far, and the capacity is the one `k + 1` appends reach |
| `DArrays.DArray.RotateElements` | include/expu/containers/darray.hpp:458-465 | the elements become `Rotated(old, at, mid)` within the same block |
| `DArrays.DArray.AssignRange` | include/expu/containers/darray.hpp:199-222 | the elements become the range; the block is kept when the range fits, otherwise it becomes a new block of exactly the range's length, or the assign fails beyond `max_size()` |
| `DArrays.DArray.AssignInput` | include/expu/containers/darray.hpp:228-247 | the elements become the range exactly when it fits `max_size()`, keeping the block when it fits the capacity and otherwise reaching the capacity that appending the rest of the range gives; beyond `max_size()` only its first `max_size()` elements are kept |
| `DArrays.DArray.AssignPrefix` | include/expu/containers/darray.hpp:235-240 | the elements become the first `min(size, len)` of the range; the excess is destroyed |
| `DArrays.DArray.CopyAssign` | include/expu/containers/darray.hpp:249-264 | with the corrected `[first, last)` read (see Findings; line 263 reads `[first, end)`), the elements become the other's; the allocator is taken over when it propagates; the block is kept when the other's elements fit, otherwise it becomes a new block of exactly their number |
| `DArrays.DArray.MoveAssign` | include/expu/containers/darray.hpp:266-285 | the elements become the other's; a non-propagating, unequal allocator assigns them one by one, keeping the block when they fit its capacity, and leaves the other unchanged; otherwise the other's block is stolen and the other has none |
| `DArrays.DArray.EraseAsWritten` | include/expu/containers/darray.hpp:288-295 | size becomes `f` with `old[..f]` kept and the block unchanged; the block invariant holds afterwards exactly when nothing followed `l` |
| `DArrays.DArray.Erase` | include/expu/containers/darray.hpp:288-289 | the intended erase: the elements become `old[..f] + old[l..]` and the block is kept |
| `DArrays.DArray.SlotsToEnd` | include/expu/containers/darray.hpp:603 | the range `[first, end)` that `_unchecked_grow_exactly` reads here, and the copy assignment at line 263 too: as long as the capacity, starting with the elements |
| `DArrays.DArray.SlotsToEndPastLast` | include/expu/containers/darray.hpp:263 | with a free slot, `[first, end)` is longer than the array and reaches a slot that holds no element; this is the input of both the copy-assignment finding here and the `_unchecked_grow_exactly` finding at line 603 |
| `DArrays.EraseTenElements` | include/expu/containers/darray.hpp:290-294 | erasing indices 2 up to 5 of ten elements should keep seven; truncating keeps two |
| `SeqIters.SeqIter.constructor` | include/expu/iterators/seq_iter.hpp:22 | the current value is value-initialised (zero) |
| `SeqIters.SeqIter.FromValue` | include/expu/iterators/seq_iter.hpp:24-26 | the current value is the given one |
| `SeqIters.SeqIter.Copy` | include/expu/iterators/seq_iter.hpp:28 | a copy holds the same current value |
| `SeqIters.SeqIter.PreIncrement` | include/expu/iterators/seq_iter.hpp:53-56 | the current value goes up by one |
| `SeqIters.SeqIter.PostIncrement` | include/expu/iterators/seq_iter.hpp:58-63 | returns a fresh copy holding the old value and goes up by one |
| `SeqIters.SeqIter.PreDecrement` | include/expu/iterators/seq_iter.hpp:65-68 | the current value goes down by one |
| `SeqIters.SeqIter.PostDecrement` | include/expu/iterators/seq_iter.hpp:70-75 | returns a fresh copy holding the old value and goes down by one |
| `SeqIters.SeqIter.AddAssign` | include/expu/iterators/seq_iter.hpp:79-82 | the current value goes up by `n` |
| `SeqIters.SeqIter.SubAssign` | include/expu/iterators/seq_iter.hpp:84-87 | the current value goes down by `n` |
| `SeqIters.SeqIter.Swap` | include/expu/iterators/seq_iter.hpp:91-96 | the two current values are exchanged, also when both are the same iterator |
| `SeqIters.Plus` | include/expu/iterators/seq_iter.hpp:121-126 | a fresh copy advanced by `n` |
| `SeqIters.PlusLeft` | include/expu/iterators/seq_iter.hpp:128-133 | a fresh copy advanced by `n` |
| `SeqIters.Minus` | include/expu/iterators/seq_iter.hpp:135-140 | a fresh copy moved back by `n` |
| `SeqIters.Equal` | include/expu/iterators/seq_iter.hpp:108-112 | equal exactly when the difference is zero, so only the current values are compared |
| `SeqIters.Compare` | include/expu/iterators/seq_iter.hpp:102-106 | `Equivalent` exactly when `==` holds; `Less` and `Greater` exactly by the sign of the difference |
| `SeqIters.CompareAntisymmetric` | include/expu/iterators/seq_iter.hpp:102-106 | swapping the operands of `<=>` swaps `Less` and `Greater` and keeps `Equivalent` |
| `SeqIters.DerefYieldsValue` | include/expu/iterators/seq_iter.hpp:39-41 | covers `operator*` (`SeqIters.SeqIter.Deref`): an iterator made from `value` dereferences to `value` |
| `SeqIters.IncrementThenDecrement` | include/expu/iterators/seq_iter.hpp:53-68 | `++` followed by `--` restores the value |
| `SeqIters.PostIncrementBehind` | include/expu/iterators/seq_iter.hpp:58-63 | after `it++`, the returned iterator is one step behind `it` |
| `SeqIters.PostDecrementAhead` | include/expu/iterators/seq_iter.hpp:70-75 | after `it--`, the returned iterator is one step ahead of `it` |
| `SeqIters.DistanceAfterPlus` | include/expu/iterators/seq_iter.hpp:142-146 | covers the free `operator-` (`SeqIters.Difference`): `(it + n) - it == n` for every `n` |
| `SeqIters.MinusUndoesPlus` | include/expu/iterators/seq_iter.hpp:121-140 | `(it + n) - n == it` |
| `SeqIters.PlusCommutes` | include/expu/iterators/seq_iter.hpp:121-133 | `n + it == it + n`, and the two are distinct copies |
| `SeqIters.IndexIsAdvancedValue` | include/expu/iterators/seq_iter.hpp:47-49 | covers `operator[]` (`SeqIters.SeqIter.At`): `it[n]` is the value of `it + n`, `n` steps from `it`, and `it` does not move |

## Left out

- Allocator machinery: `allocator_traits`, the propagation and `is_always_equal` traits, `select_on_container_copy_construction` and the compressed pair. An allocator is a value compared by equality, propagation is a parameter, and `max_size()` is one constant (`Growth.MaxSize`).
- `AssignRange` has no allocator parameter. The allocator `_alt_alloc_assign` constructs with is not observable in this model.
- Element lifetimes: construction, assignment, moving and copying all store the value; a moved-from element keeps its value. Moves in place of copies, and the choice between them by `noexcept` traits, are not modelled.
- The null block is a zero-length array. It is not distinguished from an allocation of zero slots.
- Exceptions are modelled only where `emplace` constructs its element. The `Fault` parameter says where construction throws. Nothing else throws, except requests beyond `max_size()`.
  - The copying and moving paths of `insert` have weak-guarantee rollbacks, which are not modelled.
  - Neither are failures while moving elements during a reallocation.
- `InsertRange`: `size() + |range|` is computed without wrap-around. A range so long that the unsigned sum wraps is not modelled.
- `NextCapacity`: `capacity() + 1` (darray.hpp:373) is computed without wrap-around. With `max_size()` equal to SIZE_MAX, a block full at `max_size()` would make it wrap to 0, so `_calculate_growth(0)` would not throw and the failure would come from `allocate`; the model reports `CapacityExceeded` there instead.
- `FromInput`, `FromRange`: these require the range to fit `max_size()`. With a longer range the C++ constructor throws and no array exists, which a Dafny constructor cannot express.
- `MoveAssign`: requires a different array with a different block. Self-move-assignment is not modelled.
- `CopyAssign`: requires the two arrays not to share a block unless they are the same array.
- `Ranges` stands for the helpers of `expu/mem_utils.hpp`; mem_utils.hpp is not part of this model. `Ranges.Rotate` stores each slot of the rotated range from a copy of the whole block taken first; how `std::rotate` does it is not modelled.
- `CloseGap`: moving the shifted element back into the gap and `move(next(post_at), last, post_at)` are modelled as one front-to-back move of the same slots.
- `upush_back`, `unchecked_front`, `unchecked_back`: these are equivalent to `u_emplace_back`, `operator[](0)` and `operator[](size() - 1)`.
- `begin`/`end` iterators (`ctg_iterator`) and the debug-only `EXPU_VERIFY_DEBUG` checks. Where a debug check is a precondition, it becomes a `requires`.
- The destructor and `_clear_dealloc` are modelled only as the old block being dropped by `Replace` and `Steal`.
- `shrink_to_fit` calls `deallocate` without its allocator argument (darray.hpp:642). That line does not compile, and it lies on a throwing path the model does not have.
- `seq_iter` works on unbounded integers. The wrap-around of `IntType` and `DiffType` and the conversion in `operator[]` are not modelled, and neither is `operator->`. The free `swap(lhs, rhs)` (seq_iter.hpp:114-119) calls `SeqIter.Swap`.
- `tests/src/smm/containers/named_requirements.cpp` holds only compile-time concept checks on standard containers, so there is nothing behavioural to model.

## Findings

| source | as written | input that shows it | evidently intended | confidence | as-written member | corrected member |
|---|---|---|---|---|---|---|
| include/expu/containers/darray.hpp:288-295 | `erase(first, last)` destroys `[first, last)` and sets `last` to `first`. The array is truncated at `first`, and the elements after `last` stay constructed past the new end: they are neither kept nor destroyed. | erase indices `[2, 5)` of a 10-element array: 2 elements remain and 5 are leaked | the tail moves down: 7 elements remain, `old[..2] + old[5..]` | high (not executed) | `DArrays.DArray.EraseAsWritten` | `DArrays.DArray.Erase` |
| include/expu/containers/darray.hpp:263 | copy assignment passes `[other.first, other.end)` to `assign`. Whenever capacity exceeds size, that range includes unconstructed slots. | copy-assign from an array built by five `push_back` calls (5 elements, capacity 6) | `[other.first, other.last)`, so the elements become the other's | high (not executed) | `DArrays.DArray.SlotsToEndPastLast` | `DArrays.DArray.CopyAssign` |
| include/expu/containers/darray.hpp:603 | `_unchecked_grow_exactly`, for elements whose move may throw, copies `[first, end)` into the new block, which includes unconstructed slots | `reserve(10)` on an array of 5 elements and capacity 6 whose element type has a throwing move | copy `[first, last)` and keep the elements | high (not executed) | `DArrays.DArray.SlotsToEnd` | `DArrays.DArray.UncheckedGrowExactly` |
