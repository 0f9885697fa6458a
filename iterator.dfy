/**
 * `contiguous_iterator<T, forward>` of `ktu/iterator.hpp`: a pointer that
 * walks an array of `T` forwards, or backwards when `forward` is false.
 *
 * A pointer is modelled by its address counted in elements of `T`, so
 * `ptr + 1` is the next element. An iterator as a value is `Iter`; the
 * class `ContiguousIterator` holds one and implements the operators that
 * update it in place (`++`, `--`, `+=`, `-=`).
 */
module Iterator {

  datatype Iter = Iter(ptr: int, forward: bool)

  /** The direction of one step: +1 element forwards, -1 backwards. */
  function Dir(forward: bool): int
  {
    if forward then 1 else -1
  }

  /** `it + diff` for a `size_t` diff: moves diff elements in the iterator's direction. */
  function Plus(it: Iter, diff: nat): (r: Iter)
    ensures r.forward == it.forward
    ensures r.ptr == it.ptr + Dir(it.forward) * diff
  {
    if it.forward then Iter(it.ptr + diff, true) else Iter(it.ptr - diff, false)
  }

  /** `it - diff`: moves diff elements against the iterator's direction. */
  function Minus(it: Iter, diff: nat): (r: Iter)
    ensures r.forward == it.forward
    ensures r.ptr == it.ptr - Dir(it.forward) * diff
  {
    if it.forward then Iter(it.ptr - diff, true) else Iter(it.ptr + diff, false)
  }

  /** `(it + n) - n == it` and `(it - n) + n == it`, in both directions. */
  lemma PlusMinusInverse(it: Iter, n: nat)
    ensures Minus(Plus(it, n), n) == it
    ensures Plus(Minus(it, n), n) == it
  {
  }

  /** A reverse iterator moves opposite to a forward one over the same address. */
  lemma ReverseMovesOpposite(p: int, n: nat)
    ensures Plus(Iter(p, false), n).ptr - p == -(Plus(Iter(p, true), n).ptr - p)
    ensures Minus(Iter(p, false), n).ptr == Plus(Iter(p, true), n).ptr
  {
  }

  /** Steps compose: (it + a) + b == it + (a + b). */
  lemma PlusCompose(it: Iter, a: nat, b: nat)
    ensures Plus(Plus(it, a), b) == Plus(it, a + b)
  {
  }

  /** `a - b` between forward iterators: the element distance `a.ptr - b.ptr`. */
  function Distance(a: Iter, b: Iter): int
    requires a.forward && b.forward
  {
    a.ptr - b.ptr
  }

  /** Advancing a forward iterator by n puts it n elements after where it was. */
  lemma DistanceOfPlus(it: Iter, n: nat)
    requires it.forward
    ensures Distance(Plus(it, n), it) == n
    ensures Distance(it, Plus(it, n)) == 0 - n as int
  {
  }

  /**
   * `operator<=>` is defaulted, so iterators compare by address whatever
   * their direction.
   */
  predicate Less(a: Iter, b: Iter)
  {
    a.ptr < b.ptr
  }

  /**
   * For a forward iterator one step on compares greater; for a reverse
   * iterator it compares smaller, because the comparison sees addresses.
   */
  lemma LessFollowsAddress(it: Iter)
    ensures it.forward ==> Less(it, Plus(it, 1)) && !Less(Plus(it, 1), it)
    ensures !it.forward ==> Less(Plus(it, 1), it) && !Less(it, Plus(it, 1))
  {
  }

  /**
   * `friend operator+(size_t value, const contiguous_iterator &other)` as
   * written: `other + value` forwards but `other - value` backwards.
   */
  function FrontPlusAsWritten(value: nat, it: Iter): (r: Iter)
    ensures r.forward == it.forward
  {
    if it.forward then Plus(it, value) else Minus(it, value)
  }

  /** For a reverse iterator `1 + it` and `it + 1` point at different elements. */
  lemma FrontPlusAsWrittenNotCommutative()
    ensures FrontPlusAsWritten(1, Iter(10, false)) == Iter(11, false)
    ensures Plus(Iter(10, false), 1) == Iter(9, false)
  {
  }

  /** `value + it`, as addition on iterators is meant to be: the same as `it + value`. */
  function FrontPlus(value: nat, it: Iter): (r: Iter)
  {
    Plus(it, value)
  }

  /** `n + it == it + n` in both directions, and it agrees with the forward case of the source. */
  lemma FrontPlusCommutes(n: nat, it: Iter)
    ensures FrontPlus(n, it) == Plus(it, n)
    ensures it.forward ==> FrontPlus(n, it) == FrontPlusAsWritten(n, it)
    ensures Minus(FrontPlus(n, it), n) == it
  {
  }

  /** An iterator object whose pointer the increment operators update in place. */
  class ContiguousIterator {
    var ptr: int
    const forward: bool

    constructor (p: int, fwd: bool)
      ensures ptr == p && forward == fwd
    {
      ptr := p;
      forward := fwd;
    }

    /** The iterator's current value. */
    function Value(): (r: Iter)
      reads this
      ensures r.ptr == ptr && r.forward == forward
    {
      Iter(ptr, forward)
    }

    /** Prefix `++`: one element in the iterator's direction. */
    method Increment()
      modifies this
      ensures ptr == old(ptr) + Dir(forward)
      ensures Value() == Plus(old(Value()), 1)
    {
      if forward {
        ptr := ptr + 1;
      } else {
        ptr := ptr - 1;
      }
    }

    /** Prefix `--`: one element against the iterator's direction. */
    method Decrement()
      modifies this
      ensures ptr == old(ptr) - Dir(forward)
      ensures Value() == Minus(old(Value()), 1)
    {
      if forward {
        ptr := ptr - 1;
      } else {
        ptr := ptr + 1;
      }
    }

    /** Postfix `++`: returns the value before the step. */
    method PostIncrement() returns (result: Iter)
      modifies this
      ensures result == old(Value())
      ensures Value() == Plus(old(Value()), 1)
    {
      result := Value();
      Increment();
    }

    /** Postfix `--`: returns the value before the step. */
    method PostDecrement() returns (result: Iter)
      modifies this
      ensures result == old(Value())
      ensures Value() == Minus(old(Value()), 1)
    {
      result := Value();
      Decrement();
    }

    /** `+= diff` agrees with `+ diff`. */
    method AddAssign(diff: nat)
      modifies this
      ensures Value() == Plus(old(Value()), diff)
    {
      if forward {
        ptr := ptr + diff;
      } else {
        ptr := ptr - diff;
      }
    }

    /** `-= diff` agrees with `- diff`. */
    method SubAssign(diff: nat)
      modifies this
      ensures Value() == Minus(old(Value()), diff)
    {
      if forward {
        ptr := ptr - diff;
      } else {
        ptr := ptr + diff;
      }
    }
  }

  /** `--` undoes `++` on an iterator object, in both directions. */
  method IncrementThenDecrement(it: ContiguousIterator)
    modifies it
    ensures it.ptr == old(it.ptr)
  {
    it.Increment();
    it.Decrement();
  }

  /** `range<InputIt>`: a pair of iterators that `begin()` and `end()` hand back as stored. */
  datatype Range<I> = Range(first: I, last: I)

  function Begin<I>(r: Range<I>): I
  {
    r.first
  }

  function End<I>(r: Range<I>): I
  {
    r.last
  }

  /** Walking a forward range: `end() - begin()` steps from `begin()` reach `end()`. */
  lemma RangeWalk(first: Iter, last: Iter)
    requires first.forward && last.forward && first.ptr <= last.ptr
    ensures Distance(last, first) >= 0
    ensures Plus(Begin(Range(first, last)), Distance(last, first)) == End(Range(first, last))
  {
  }
}
