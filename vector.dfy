/**
 * `ktu::vector<T>` (`ktu/vector.hpp`): a growable array of `T` held as a
 * pointer, a size and a capacity.
 *
 * The allocation is a sequence of `capacity` slots of which the first
 * `size` are the elements. A slot that `new T[capacity]` creates holds a
 * default value, written `blank` here.
 */
module Vectors {
  import opened Bytes

  /** `priv`: the allocation, the size and the capacity. */
  datatype Priv<T> = Priv(size: nat, capacity: nat, data: seq<T>)

  predicate Valid<T>(p: Priv<T>)
  {
    p.size <= p.capacity && |p.data| == p.capacity
  }

  /** The elements, `[begin(), end())`. */
  function Elements<T>(p: Priv<T>): seq<T>
    requires Valid(p)
  {
    p.data[..p.size]
  }

  /** A moved-from or default-constructed vector: null data, no size, no capacity. */
  function Empty<T>(): (r: Priv<T>)
    ensures Valid(r) && Elements(r) == [] && r.capacity == 0
  {
    Priv(0, 0, [])
  }

  function Max(a: nat, b: nat): nat
  {
    if a < b then b else a
  }

  function Blanks<T>(n: nat, blank: T): (r: seq<T>)
    ensures |r| == n && forall i :: 0 <= i < n ==> r[i] == blank
  {
    seq(n, _ => blank)
  }

  /**
   * `reallocate(capacity)`: a fresh allocation of `capacity` slots that
   * receives the first `size` slots of the old one.
   */
  function Reallocated<T>(p: Priv<T>, capacity: nat, blank: T): (r: Priv<T>)
    requires Valid(p) && p.size <= capacity
    ensures Valid(r) && r.size == p.size && r.capacity == capacity
    ensures Elements(r) == Elements(p)
    ensures forall i :: p.size <= i < capacity ==> r.data[i] == blank
  {
    Priv(p.size, capacity, p.data[..p.size] + Blanks(capacity - p.size, blank))
  }

  /**
   * `increase_space(count)`: `count` more slots in use; past the capacity
   * the allocation grows to twice the old size, or to the new size when
   * that is larger.
   */
  function IncreasedSpace<T>(p: Priv<T>, count: nat, blank: T): (r: Priv<T>)
    requires Valid(p)
    ensures Valid(r) && r.size == p.size + count
    ensures r.data[..p.size] == Elements(p)
    ensures r.capacity == if p.size + count <= p.capacity then p.capacity else Max(2 * p.size, p.size + count)
  {
    var n := p.size + count;
    var q := if n > p.capacity then Reallocated(p, Max(2 * p.size, n), blank) else p;
    q.(size := n)
  }

  /** `reserve(capacity)`: a new allocation only when `capacity` exceeds the current one. */
  function Reserved<T>(p: Priv<T>, capacity: nat, blank: T): (r: Priv<T>)
    requires Valid(p)
    ensures Valid(r) && Elements(r) == Elements(p)
    ensures capacity <= p.capacity ==> r == p
    ensures r.capacity == Max(p.capacity, capacity)
  {
    if capacity <= p.capacity then p else Reallocated(p, capacity, blank)
  }

  /** `shrink_to_fit()`: an allocation of exactly `size` slots, unless there is no spare one. */
  function ShrunkToFit<T>(p: Priv<T>, blank: T): (r: Priv<T>)
    requires Valid(p)
    ensures Valid(r) && Elements(r) == Elements(p) && r.capacity == p.size
  {
    if p.capacity <= p.size then p else Reallocated(p, p.size, blank)
  }

  /** `clear()`: no elements; the allocation is kept. */
  function Cleared<T>(p: Priv<T>): (r: Priv<T>)
    requires Valid(p)
    ensures Valid(r) && Elements(r) == [] && r.capacity == p.capacity && r.data == p.data
  {
    p.(size := 0)
  }

  /** `push_back(value)`: one more slot, then `value` stored at the old size. */
  function PushedBack<T>(p: Priv<T>, value: T, blank: T): (r: Priv<T>)
    requires Valid(p)
    ensures Valid(r) && Elements(r) == Elements(p) + [value]
  {
    var q := IncreasedSpace(p, 1, blank);
    var r := q.(data := q.data[p.size := value]);
    assert Elements(r) == Elements(p) + [value] by {
      assert Elements(r)[..p.size] == q.data[..p.size];
    }
    r
  }

  /** `pop_back()`: one element fewer; the allocation is kept. */
  function PoppedBack<T>(p: Priv<T>): (r: Priv<T>)
    requires Valid(p) && p.size >= 1
    ensures Valid(r) && Elements(r) == Elements(p)[..p.size - 1] && r.capacity == p.capacity
  {
    p.(size := p.size - 1)
  }

  /**
   * `resize(n)` as the allocation is meant to behave: `n` slots in use,
   * the old elements kept, and a new allocation of `n` slots only when
   * `n` exceeds the capacity.
   */
  function Resized<T>(p: Priv<T>, n: nat, blank: T): (r: Priv<T>)
    requires Valid(p)
    ensures Valid(r) && r.size == n && r.capacity == Max(p.capacity, n)
    ensures n <= p.size ==> Elements(r) == Elements(p)[..n]
    ensures n >= p.size ==> Elements(r)[..p.size] == Elements(p)
  {
    var q := Reserved(p, n, blank);
    assert q.data[..p.size] == Elements(p);
    q.(size := n)
  }

  /**
   * How many slots `reallocate` copies out of the old allocation during
   * `resize(n)` as written: `priv.size` is set to `n` before `reserve`
   * runs, so a growing resize copies `n` slots.
   */
  function ResizeCopiesAsWritten<T>(p: Priv<T>, n: nat): (c: nat)
    ensures n > p.capacity ==> c == n
    ensures Valid(p) && n > p.capacity ==> c > |p.data| && c > p.size
  {
    if n <= p.capacity then 0 else n
  }

  /** The same count for `Resized`: only the old elements are copied. */
  function ResizeCopies<T>(p: Priv<T>, n: nat): (c: nat)
    requires Valid(p)
    ensures c <= p.capacity
  {
    if n <= p.capacity then 0 else p.size
  }

  /** A growing resize of a vector with an allocation copies past its end, as written. */
  lemma ResizeOverreadsAsWritten()
    ensures var p := Priv(2, 2, [7, 8]);
            Valid(p) && ResizeCopiesAsWritten(p, 5) == 5 && 5 > |p.data| && ResizeCopies(p, 5) == p.size
  {
  }

  /** `at(pos)`: the element, or `None` where `out_of_range` is thrown. */
  function At<T>(p: Priv<T>, pos: nat): (r: Option<T>)
    requires Valid(p)
    ensures r.None? <==> pos >= p.size
    ensures r.Some? ==> r.value == Elements(p)[pos]
  {
    if pos >= p.size then None else Some(p.data[pos])
  }

  /** `push_back` then `at(old size)` gives the value back, and earlier elements are unchanged. */
  lemma AtPushedBack<T>(p: Priv<T>, value: T, blank: T, pos: nat)
    requires Valid(p)
    ensures At(PushedBack(p, value, blank), p.size) == Some(value)
    ensures pos != p.size ==> At(PushedBack(p, value, blank), pos) == At(p, pos)
  {
    var r := PushedBack(p, value, blank);
    assert Elements(r)[p.size] == value;
    if pos < p.size {
      assert Elements(r)[pos] == Elements(p)[pos];
    }
  }

  /** `pop_back` undoes `push_back` on the elements. */
  lemma PopUndoesPush<T>(p: Priv<T>, value: T, blank: T)
    requires Valid(p)
    ensures Elements(PoppedBack(PushedBack(p, value, blank))) == Elements(p)
  {
    assert (Elements(p) + [value])[..p.size] == Elements(p);
  }

  /** A power of two. */
  predicate PowerOfTwo(n: nat)
    decreases n
  {
    n == 1 || (n >= 2 && n % 2 == 0 && PowerOfTwo(n / 2))
  }

  /**
   * Growth by doubling: when every allocation so far came from
   * `push_back`, the capacity is zero or a power of two, and a full
   * vector doubles.
   */
  lemma {:induction false} PushBackDoubles<T>(p: Priv<T>, value: T, blank: T)
    requires Valid(p) && (p.capacity == 0 || PowerOfTwo(p.capacity))
    ensures var r := PushedBack(p, value, blank);
            PowerOfTwo(r.capacity) && r.capacity <= 2 * p.capacity + 1
    ensures p.size == p.capacity >= 1 ==> PushedBack(p, value, blank).capacity == 2 * p.capacity
  {
    var r := PushedBack(p, value, blank);
    if p.size == p.capacity && p.capacity >= 1 {
      assert r.capacity == 2 * p.capacity;
      assert (2 * p.capacity) / 2 == p.capacity;
    }
  }

  /** `ktu::vector<T>`. */
  class Vector<T> {
    var size: nat
    var capacity: nat
    var data: seq<T>
    /** What a slot of a fresh allocation holds. */
    const blank: T

    predicate Valid()
      reads this
    {
      size <= capacity && |data| == capacity
    }

    function Value(): Priv<T>
      reads this
    {
      Priv(size, capacity, data)
    }

    /** `vector()`. */
    constructor (blank: T)
      ensures Valid() && Value() == Empty() && this.blank == blank
    {
      size, capacity, data := 0, 0, [];
      this.blank := blank;
    }

    /** `vector(vector&& other)`: takes the allocation and leaves `other` empty. */
    constructor Moved(other: Vector<T>)
      requires other.Valid()
      modifies other
      ensures Valid() && Value() == old(other.Value()) && blank == other.blank
      ensures other.Valid() && other.Value() == Empty()
    {
      size, capacity, data := other.size, other.capacity, other.data;
      blank := other.blank;
      new;
      other.size, other.capacity, other.data := 0, 0, [];
    }

    /** `operator=(vector&& other)`: the same transfer into an existing vector; a self-move leaves it empty. */
    method MoveAssign(other: Vector<T>)
      requires Valid() && other.Valid()
      modifies this, other
      ensures Valid() && (other != this ==> Value() == old(other.Value()))
      ensures other.Valid() && other.Value() == Empty()
    {
      size, capacity, data := other.size, other.capacity, other.data;
      other.size, other.capacity, other.data := 0, 0, [];
    }

    /** `reallocate(capacity)`: the new slots are filled one by one from the old allocation. */
    method Reallocate(newCapacity: nat)
      requires Valid() && size <= newCapacity
      modifies this
      ensures Valid() && Value() == Reallocated(old(Value()), newCapacity, blank)
    {
      var slots := Blanks(newCapacity, blank);
      var i := 0;
      while i < size
        invariant i <= size && |slots| == newCapacity
        invariant slots[..i] == data[..i]
        invariant forall k :: i <= k < newCapacity ==> slots[k] == blank
      {
        slots := slots[i := data[i]];
        i := i + 1;
      }
      assert slots == data[..size] + Blanks(newCapacity - size, blank);
      data, capacity := slots, newCapacity;
    }

    /** `increase_space(count)`. */
    method IncreaseSpace(count: nat)
      requires Valid()
      modifies this
      ensures Valid() && Value() == IncreasedSpace(old(Value()), count, blank)
    {
      var newSize := size + count;
      if newSize > capacity {
        Reallocate(Max(2 * size, newSize));
      }
      size := newSize;
    }

    /** `reserve(capacity)`. */
    method Reserve(newCapacity: nat)
      requires Valid()
      modifies this
      ensures Valid() && Value() == Reserved(old(Value()), newCapacity, blank)
    {
      if newCapacity <= capacity {
        return;
      }
      Reallocate(newCapacity);
    }

    /** `shrink_to_fit()`. */
    method ShrinkToFit()
      requires Valid()
      modifies this
      ensures Valid() && Value() == ShrunkToFit(old(Value()), blank)
    {
      if capacity <= size {
        return;
      }
      Reallocate(size);
    }

    /** `clear()`. */
    method Clear()
      requires Valid()
      modifies this
      ensures Valid() && Value() == Cleared(old(Value()))
    {
      size := 0;
    }

    /** `push_back(value)`. */
    method PushBack(value: T)
      requires Valid()
      modifies this
      ensures Valid() && Value() == PushedBack(old(Value()), value, blank)
    {
      var index := size;
      IncreaseSpace(1);
      data := data[index := value];
    }

    /** `pop_back()` on a vector with an element. */
    method PopBack()
      requires Valid() && size >= 1
      modifies this
      ensures Valid() && Value() == PoppedBack(old(Value()))
    {
      size := size - 1;
    }

    /** `resize(n)`, with the old elements as the copy. */
    method Resize(n: nat)
      requires Valid()
      modifies this
      ensures Valid() && Value() == Resized(old(Value()), n, blank)
    {
      Reserve(n);
      size := n;
    }

    /** `at(pos)`. */
    method Get(pos: nat) returns (r: Option<T>)
      requires Valid()
      ensures r == At(Value(), pos)
    {
      if pos >= size {
        return None;
      }
      return Some(data[pos]);
    }
  }
}
