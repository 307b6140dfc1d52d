/** The growth policy of darray (`_calculate_growth`) and what it implies
    for a sequence of appends: the capacities reached and the amortized
    number of element moves. */
module Growth {
  import opened Results

  /** allocator_traits::max_size of the container's allocator: the largest
      number of elements a block may hold. The default allocator over
      one-byte elements on a 64-bit target gives SIZE_MAX. */
  const MaxSize: nat := 0xFFFF_FFFF_FFFF_FFFF

  function Max(a: nat, b: nat): nat { if a < b then b else a }

  /** `_calculate_growth(min_capacity)` of an array holding `size` elements
      whose allocator allows `maxSize`: fails when the request itself is
      beyond `maxSize`; otherwise grows by half the size, at least to
      `minCapacity`, clamped to `maxSize`. The source computes
      `max_size() - half_size` in unsigned arithmetic, which cannot wrap
      because the container never holds more than `max_size()` elements. */
  function CalculateGrowth(size: nat, maxSize: nat, minCapacity: nat): (r: Result<nat>)
    requires size <= maxSize
    ensures r.Err? <==> maxSize < minCapacity
    ensures r.Err? ==> r.error == CapacityExceeded
    ensures r.Ok? ==> minCapacity <= r.value <= maxSize
    ensures r.Ok? ==> r.value == maxSize || r.value >= size + size / 2
    ensures r.Ok? && size + size / 2 <= maxSize ==> r.value == Max(minCapacity, size + size / 2)
    ensures r.Ok? && size + size / 2 > maxSize ==> r.value == maxSize
  {
    if maxSize < minCapacity then Err(CapacityExceeded)
    else
      var halfSize := size / 2;
      if maxSize - halfSize < size then Ok(maxSize)
      else Ok(Max(minCapacity, size + halfSize))
  }

  /** Whether an array of `size` elements in a block of `cap` slots can take
      one more element by `emplace_back`: either a slot is free or the
      block may still grow. */
  predicate CanAppend(size: nat, cap: nat)
  {
    size <= cap <= MaxSize && (size < cap || cap < MaxSize)
  }

  /** The capacity after one successful `emplace_back`: unchanged while a
      slot is free, otherwise `_calculate_growth(capacity() + 1)`. */
  function NextCapacity(size: nat, cap: nat): (r: nat)
    requires CanAppend(size, cap)
    ensures size < r <= MaxSize
    ensures size < cap ==> r == cap
    ensures size == cap ==> r > cap && CalculateGrowth(size, MaxSize, cap + 1) == Ok(r)
  {
    if size < cap then cap else CalculateGrowth(size, MaxSize, cap + 1).value
  }

  /** The number of elements relocated by one `emplace_back`: all of them
      when the block is full and must be replaced, none otherwise. */
  function MovesOnAppend(size: nat, cap: nat): nat
  {
    if size < cap then 0 else size
  }

  /** The capacity after `k` successful `emplace_back` calls starting from
      `size` elements in `cap` slots: the block then holds all elements,
      has never shrunk, and is unchanged as long as the elements fit. */
  function AppendCapacity(size: nat, cap: nat, k: nat): (r: nat)
    requires size <= cap <= MaxSize && size + k <= MaxSize
    ensures size + k <= r <= MaxSize && cap <= r
    ensures size + k <= cap ==> r == cap
    decreases k
  {
    if k == 0 then cap
    else NextCapacity(size + k - 1, AppendCapacity(size, cap, k - 1))
  }

  /** One more append after `k`: the form an append loop needs. */
  lemma AppendCapacityNext(size: nat, cap: nat, k: nat)
    requires size <= cap <= MaxSize && size + k + 1 <= MaxSize
    ensures AppendCapacity(size, cap, k + 1) == NextCapacity(size + k, AppendCapacity(size, cap, k))
  {
  }

  /** The number of elements relocated by `k` successive `emplace_back`
      calls starting from `size` elements in `cap` slots. */
  function AppendMoves(size: nat, cap: nat, k: nat): nat
    requires size <= cap <= MaxSize && size + k <= MaxSize
    decreases k
  {
    if k == 0 then 0
    else AppendMoves(size, cap, k - 1) + MovesOnAppend(size + k - 1, AppendCapacity(size, cap, k - 1))
  }

  /** From an empty array, successive `push_back` calls see the
      capacities 1, 2, 3, 4, 6, 6, 9. */
  lemma PushBackCapacities()
    ensures AppendCapacity(0, 0, 1) == 1
    ensures AppendCapacity(0, 0, 2) == 2
    ensures AppendCapacity(0, 0, 3) == 3
    ensures AppendCapacity(0, 0, 4) == 4
    ensures AppendCapacity(0, 0, 5) == 6
    ensures AppendCapacity(0, 0, 6) == 6
    ensures AppendCapacity(0, 0, 7) == 9
  {
    assert AppendCapacity(0, 0, 1) == 1;
    assert AppendCapacity(0, 0, 2) == 2;
    assert AppendCapacity(0, 0, 3) == 3;
    assert AppendCapacity(0, 0, 4) == 4;
    assert AppendCapacity(0, 0, 5) == 6;
    assert AppendCapacity(0, 0, 6) == 6;
  }

  /** The 1.5x growth keeps the block at most half again as large as the
      elements, as long as that held at the start. */
  lemma {:induction false} AppendCapacityPotential(size: nat, cap: nat, k: nat)
    requires size <= cap <= MaxSize && size + k <= MaxSize
    requires 2 * cap <= 3 * size
    ensures 2 * AppendCapacity(size, cap, k) <= 3 * (size + k)
    decreases k
  {
    if k > 0 {
      AppendCapacityPotential(size, cap, k - 1);
    }
  }

  /** The amortized accounting behind geometric growth: each append costs
      at most four units of the potential `3 * size - 2 * capacity`,
      relocations included, while growth is not clamped. */
  lemma {:induction false} AppendMovesAmortized(size: nat, cap: nat, k: nat)
    requires size <= cap <= MaxSize && size + k <= MaxSize
    requires (size + k) + (size + k) / 2 <= MaxSize
    ensures AppendMoves(size, cap, k) + 3 * (size + k) <= 4 * k + 3 * size - 2 * cap + 2 * AppendCapacity(size, cap, k)
    decreases k
  {
    if k > 0 {
      AppendMovesAmortized(size, cap, k - 1);
    }
  }

  /** Appending `k` elements one at a time to an empty array relocates at
      most `4 * k` elements in all: `push_back` is amortized constant time. */
  lemma PushBackAmortized(k: nat)
    requires k + k / 2 <= MaxSize
    ensures AppendMoves(0, 0, k) <= 4 * k
  {
    AppendMovesAmortized(0, 0, k);
    AppendCapacityPotential(0, 0, k);
  }
}
