/** `expu::seq_iter`: an iterator over the integers themselves. Its only
    state is the current value, which dereferencing yields and the
    arithmetic operators move. The integer type is unbounded here. */
module SeqIters {

  /** The result of the three-way comparison `<=>`. */
  datatype Ordering = Less | Equivalent | Greater

  class SeqIter {
    var curr: int  // `_curr`

    /** `seq_iter()`: a value-initialised current value. */
    constructor ()
      ensures curr == 0
    {
      curr := 0;
    }

    /** `seq_iter(value)`. */
    constructor FromValue(value: int)
      ensures curr == value
    {
      curr := value;
    }

    /** The copy constructor. */
    constructor Copy(other: SeqIter)
      ensures curr == other.curr
    {
      curr := other.curr;
    }

    /** `operator*`: the current value. */
    function Deref(): int
      reads this
    {
      curr
    }

    /** `operator[](n)`: the value `n` steps from the current one, without
        moving the iterator. */
    function At(n: int): int
      reads this
    {
      curr + n
    }

    /** `operator++()`: advances by one. */
    method PreIncrement()
      modifies this
      ensures curr == old(curr) + 1
    {
      curr := curr + 1;
    }

    /** `operator++(int)`: advances by one and returns a copy holding the
        value from before. */
    method PostIncrement() returns (previous: SeqIter)
      modifies this
      ensures fresh(previous) && previous.curr == old(curr)
      ensures curr == old(curr) + 1
    {
      previous := new SeqIter.FromValue(curr);
      curr := curr + 1;
    }

    /** `operator--()`: steps back by one. */
    method PreDecrement()
      modifies this
      ensures curr == old(curr) - 1
    {
      curr := curr - 1;
    }

    /** `operator--(int)`: steps back by one and returns a copy holding the
        value from before. */
    method PostDecrement() returns (previous: SeqIter)
      modifies this
      ensures fresh(previous) && previous.curr == old(curr)
      ensures curr == old(curr) - 1
    {
      previous := new SeqIter.FromValue(curr);
      curr := curr - 1;
    }

    /** `operator+=(n)`. */
    method AddAssign(n: int)
      modifies this
      ensures curr == old(curr) + n
    {
      curr := curr + n;
    }

    /** `operator-=(n)`. */
    method SubAssign(n: int)
      modifies this
      ensures curr == old(curr) - n
    {
      curr := curr - n;
    }

    /** `swap(other)`, and the free `swap(lhs, rhs)` that calls it: the two
        current values are exchanged; swapping with itself changes nothing. */
    method Swap(other: SeqIter)
      modifies this, other
      ensures curr == old(other.curr) && other.curr == old(curr)
    {
      var held := other.curr;
      other.curr := curr;
      curr := held;
    }
  }

  /** The free `operator+(it, n)`: a copy of `it` advanced by `n`. */
  method Plus(it: SeqIter, n: int) returns (r: SeqIter)
    ensures fresh(r) && r.curr == it.curr + n
  {
    r := new SeqIter.Copy(it);
    r.AddAssign(n);
  }

  /** The free `operator+(n, it)`: a copy of `it` advanced by `n`. */
  method PlusLeft(n: int, it: SeqIter) returns (r: SeqIter)
    ensures fresh(r) && r.curr == it.curr + n
  {
    r := new SeqIter.Copy(it);
    r.AddAssign(n);
  }

  /** The free `operator-(it, n)`: a copy of `it` moved back by `n`. */
  method Minus(it: SeqIter, n: int) returns (r: SeqIter)
    ensures fresh(r) && r.curr == it.curr - n
  {
    r := new SeqIter.Copy(it);
    r.SubAssign(n);
  }

  /** The free `operator-(lhs, rhs)`: the distance from `rhs` to `lhs`. */
  function Difference(lhs: SeqIter, rhs: SeqIter): int
    reads lhs, rhs
  {
    lhs.curr - rhs.curr
  }

  /** The free `operator==`: equal exactly when no distance separates the
      two iterators. */
  function Equal(lhs: SeqIter, rhs: SeqIter): (r: bool)
    reads lhs, rhs
    ensures r <==> Difference(lhs, rhs) == 0
  {
    lhs.Deref() == rhs.Deref()
  }

  /** The free `operator<=>`: the order of the current values, consistent
      with `==` and with the sign of the distance. */
  function Compare(lhs: SeqIter, rhs: SeqIter): (r: Ordering)
    reads lhs, rhs
    ensures r == Equivalent <==> Equal(lhs, rhs)
    ensures r == Less <==> Difference(lhs, rhs) < 0
    ensures r == Greater <==> Difference(rhs, lhs) < 0
  {
    if lhs.Deref() < rhs.Deref() then Less
    else if lhs.Deref() == rhs.Deref() then Equivalent
    else Greater
  }

  /** `<=>` is antisymmetric: the order of two iterators reverses with the
      operands. */
  lemma CompareAntisymmetric(a: SeqIter, b: SeqIter)
    ensures Compare(a, b) == Less <==> Compare(b, a) == Greater
    ensures Compare(a, b) == Equivalent <==> Compare(b, a) == Equivalent
  {
  }

  /** `*seq_iter(value) == value`: dereferencing yields the value the
      iterator was made from. */
  method DerefYieldsValue(value: int) returns (v: int)
    ensures v == value
  {
    var it := new SeqIter.FromValue(value);
    v := it.Deref();
  }

  /** `++it` followed by `--it` gives back the iterator's value. */
  method IncrementThenDecrement(it: SeqIter)
    modifies it
    ensures it.curr == old(it.curr)
  {
    it.PreIncrement();
    it.PreDecrement();
  }

  /** `it++` yields an iterator equal to `it` before the call and one step
      behind it after. */
  method PostIncrementBehind(it: SeqIter) returns (previous: SeqIter)
    modifies it
    ensures Difference(it, previous) == 1
  {
    previous := it.PostIncrement();
  }

  /** `it--` yields an iterator equal to `it` before the call and one step
      ahead of it after. */
  method PostDecrementAhead(it: SeqIter) returns (previous: SeqIter)
    modifies it
    ensures Difference(previous, it) == 1
  {
    previous := it.PostDecrement();
  }

  /** `(it + n) - it == n`. */
  method DistanceAfterPlus(it: SeqIter, n: int) returns (d: int)
    ensures d == n
  {
    var moved := Plus(it, n);
    d := Difference(moved, it);
  }

  /** `(it + n) - n == it`, and `it` itself is left unchanged. */
  method MinusUndoesPlus(it: SeqIter, n: int) returns (back: SeqIter)
    ensures Equal(back, it)
  {
    var moved := Plus(it, n);
    back := Minus(moved, n);
  }

  /** `n + it == it + n`. */
  method PlusCommutes(it: SeqIter, n: int) returns (left: SeqIter, right: SeqIter)
    ensures Equal(left, right) && left != right
  {
    left := PlusLeft(n, it);
    right := Plus(it, n);
  }

  /** `it[n] == *(it + n)`: indexing reads the value `n` steps ahead, and
      leaves `it` where it was. */
  method IndexIsAdvancedValue(it: SeqIter, n: int) returns (value: int, moved: SeqIter)
    ensures value == moved.Deref() && Difference(moved, it) == n
  {
    value := it.At(n);
    moved := Plus(it, n);
  }
}
