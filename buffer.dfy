/**
 * `ktu::buffer` (`ktu/memory/buffer.hpp`, `src/memory/buffer.cpp`): an
 * owning, growable byte store with the three fields `size`, `capacity` and
 * `data`.
 *
 * The pure functions over `Priv` state what each operation does to the
 * three fields; the class `Buffer` updates its fields in place the way the
 * C++ members do and is proved against those functions.  `data` always has
 * `capacity` bytes; the bytes `data[..size]` are the contents.  Bytes that
 * `realloc`/`malloc` leave indeterminate are modelled as zero, and no lemma
 * about the contents depends on them.
 *
 * A typed value `T` is given by its object representation `rep` (its
 * `sizeof(T)` bytes in memory order); `w` is `sizeof(T)` for the typed views.
 */
module Buffers {
  import opened Bytes
  import Bit
  import Parse

  /** The fields of `buffer::priv`. */
  datatype Priv = Priv(size: nat, capacity: nat, data: seq<byte>)

  /** `size <= capacity` and the allocation holds exactly `capacity` bytes. */
  predicate Valid(p: Priv)
  {
    p.size <= p.capacity && |p.data| == p.capacity
  }

  /** The bytes `[data, data + size)`. */
  function Contents(p: Priv): seq<byte>
    requires Valid(p)
  {
    p.data[..p.size]
  }

  function Max(a: nat, b: nat): nat
  {
    if a < b then b else a
  }

  function Fill(n: nat, v: byte): (r: seq<byte>)
    ensures |r| == n && forall i :: 0 <= i < n ==> r[i] == v
  {
    seq(n, _ => v)
  }

  /** `realloc(data, n)`: the first `min(|data|, n)` bytes survive. */
  function Realloc(data: seq<byte>, n: nat): (r: seq<byte>)
    ensures |r| == n
    ensures n <= |data| ==> r == data[..n]
    ensures n > |data| ==> r[..|data|] == data
  {
    if n <= |data| then data[..n] else data + Fill(n - |data|, 0)
  }

  /** `memcpy(data + at, src, |src|)`. */
  function Copied(data: seq<byte>, at: nat, src: seq<byte>): (r: seq<byte>)
    requires at + |src| <= |data|
    ensures |r| == |data| && r[..at] == data[..at] && r[at..at + |src|] == src
    ensures r[at + |src|..] == data[at + |src|..]
  {
    data[..at] + src + data[at + |src|..]
  }

  /**
   * The capacity after growing to `newSize`: unchanged while it fits, else
   * the larger of twice the old size and the new size.
   */
  function Grown(oldSize: nat, newSize: nat, capacity: nat): (r: nat)
    ensures newSize <= capacity ==> r == capacity
    ensures newSize > capacity ==> r >= newSize && r >= 2 * oldSize
    ensures newSize > capacity ==> r == newSize || r == 2 * oldSize
  {
    if newSize <= capacity then capacity else Max(oldSize * 2, newSize)
  }

  /** The default constructor: no allocation. */
  function Empty(): (r: Priv)
    ensures Valid(r) && Contents(r) == [] && r.capacity == 0
  {
    Priv(0, 0, [])
  }

  /**
   * `reserve<copyContents>(n)`: nothing when `n` fits; otherwise the
   * capacity becomes `n`, and the contents survive only with `copyContents`
   * (without it the old block is freed and a fresh one taken).
   */
  function Reserved(p: Priv, n: nat, copy: bool): (r: Priv)
    requires Valid(p)
    ensures Valid(r) && r.size == p.size
    ensures n <= p.capacity ==> r == p
    ensures n > p.capacity ==> r.capacity == n
    ensures copy ==> Contents(r) == Contents(p)
  {
    if n <= p.capacity then p
    else Priv(p.size, n, if copy then Realloc(p.data, n) else Fill(n, 0))
  }

  /**
   * `resize<T, copyContents>(n, c)`: the size becomes `n * sizeof(T)` and the
   * bytes past the old size are set to `c` converted to `unsigned char`.
   */
  function Resized(p: Priv, n: nat, w: nat, c: int, copy: bool): (r: Priv)
    requires Valid(p)
    ensures Valid(r) && r.size == n * w && r.capacity == Max(p.capacity, n * w)
    ensures forall i :: p.size <= i < n * w ==> Contents(r)[i] == c % 256
    ensures copy ==> forall i :: 0 <= i < p.size && i < n * w ==> Contents(r)[i] == Contents(p)[i]
  {
    var q := Reserved(p, n * w, copy);
    var data := if n * w > q.size then Copied(q.data, q.size, Fill(n * w - q.size, c % 256)) else q.data;
    Priv(n * w, q.capacity, data)
  }

  /**
   * `shift(pos, count)`: opens a `count`-byte gap at `pos`.  The tail is
   * moved with `memmove` semantics (the C++ uses `memcpy` on the overlapping
   * ranges).
   */
  function Shifted(p: Priv, pos: nat, count: nat): (r: Priv)
    requires Valid(p) && pos <= p.size
    ensures Valid(r) && r.size == p.size + count
    ensures r.capacity == Grown(p.size, p.size + count, p.capacity)
    ensures Contents(r)[..pos] == Contents(p)[..pos]
    ensures Contents(r)[pos + count..] == Contents(p)[pos..]
  {
    var size := p.size + count;
    var capacity := Grown(p.size, size, p.capacity);
    var d := if size > p.capacity then Realloc(p.data, capacity) else p.data;
    assert d[..p.size] == p.data[..p.size];
    var data := d[..pos + count] + d[pos..p.size] + d[size..];
    assert data[..size] == d[..pos + count] + d[pos..p.size];
    Priv(size, capacity, data)
  }

  /** `erase(pos, count)`: closes the `count` bytes at `pos`; the capacity stays. */
  function Erased(p: Priv, pos: nat, count: nat): (r: Priv)
    requires Valid(p) && pos + count <= p.size
    ensures Valid(r) && r.size == p.size - count && r.capacity == p.capacity
    ensures Contents(r) == Contents(p)[..pos] + Contents(p)[pos + count..]
  {
    var size := p.size - count;
    var data := p.data[..pos] + p.data[pos + count..p.size] + p.data[size..];
    assert data[..size] == p.data[..pos] + p.data[pos + count..p.size];
    Priv(size, p.capacity, data)
  }

  /** `erase(pos, n)` right after `shift(pos, n)` gives back the original contents. */
  lemma EraseUndoesShift(p: Priv, pos: nat, count: nat)
    requires Valid(p) && pos <= p.size
    ensures Contents(Erased(Shifted(p, pos, count), pos, count)) == Contents(p)
  {
    var q := Shifted(p, pos, count);
    var c := Contents(p);
    calc {
      Contents(Erased(q, pos, count));
      Contents(q)[..pos] + Contents(q)[pos + count..];
      c[..pos] + c[pos..];
      { assert c == c[..pos] + c[pos..]; }
      c;
    }
  }

  /**
   * `push_back(ptr, count)`: grows to `max(2 * size, size + count)` only when
   * needed, then copies the `count` bytes to the old end.
   */
  function PushedBack(p: Priv, src: seq<byte>): (r: Priv)
    requires Valid(p)
    ensures Valid(r) && Contents(r) == Contents(p) + src
    ensures r.capacity == Grown(p.size, p.size + |src|, p.capacity)
  {
    var size := p.size + |src|;
    var q := if size > p.capacity then Reserved(p, Max(p.size * 2, size), true) else p;
    var data := Copied(q.data, p.size, src);
    assert data[..size] == q.data[..p.size] + src;
    Priv(size, q.capacity, data)
  }

  /** `insert(pos, ptr, count)`: `shift(pos, count)` then copy into the gap. */
  function Inserted(p: Priv, pos: nat, src: seq<byte>): (r: Priv)
    requires Valid(p) && pos <= p.size
    ensures Valid(r) && Contents(r) == Contents(p)[..pos] + src + Contents(p)[pos..]
    ensures r.capacity == Grown(p.size, p.size + |src|, p.capacity)
  {
    var q := Shifted(p, pos, |src|);
    CopyIntoGap(q.data, q.size, pos, src, Contents(p));
    Priv(q.size, q.capacity, Copied(q.data, pos, src))
  }

  /** Copying into a gap opened at `pos` in `c` gives `c[..pos] + src + c[pos..]`. */
  lemma CopyIntoGap(d: seq<byte>, size: nat, pos: nat, src: seq<byte>, c: seq<byte>)
    requires pos + |src| <= size <= |d| && size == |c| + |src|
    requires d[..size][..pos] == c[..pos] && d[..size][pos + |src|..] == c[pos..]
    ensures Copied(d, pos, src)[..size] == c[..pos] + src + c[pos..]
  {
    var e := Copied(d, pos, src);
    assert e[..size] == e[..pos] + e[pos..pos + |src|] + e[pos + |src|..size];
    assert e[pos + |src|..size] == d[..size][pos + |src|..];
  }

  /** `insert(pos, count, v)` for a one-byte arithmetic `T`: `count` copies of `v`. */
  function FilledIn(p: Priv, pos: nat, count: nat, v: byte): (r: Priv)
    requires Valid(p) && pos <= p.size
    ensures Valid(r) && Contents(r) == Contents(p)[..pos] + Fill(count, v) + Contents(p)[pos..]
  {
    Inserted(p, pos, Fill(count, v))
  }

  /**
   * `insert(pos, count, v)` for a `T` of `w > 1` bytes, as written: the gap
   * is `count * w` bytes and every byte of it is `v` converted to `uint8_t`.
   */
  function FilledInAsWritten(p: Priv, pos: nat, count: nat, w: nat, v: nat): (r: Priv)
    requires Valid(p) && pos <= p.size
    ensures Valid(r) && Contents(r) == Contents(p)[..pos] + Fill(count * w, v % 256) + Contents(p)[pos..]
  {
    Inserted(p, pos, Fill(count * w, v % 256))
  }

  /** `count` little-endian copies of the `w`-byte value `v`. */
  function Copies(v: nat, w: nat, count: nat): (r: seq<byte>)
    ensures |r| == count * w
  {
    if count == 0 then [] else Copies(v, w, count - 1) + LeBytes(v, w)
  }

  /**
   * The evident intent of `insert(pos, count, v)` for a multi-byte `T`:
   * `count` copies of `v`'s representation.
   */
  function FilledInValues(p: Priv, pos: nat, count: nat, w: nat, v: nat): (r: Priv)
    requires Valid(p) && pos <= p.size
    ensures Valid(r) && Contents(r) == Contents(p)[..pos] + Copies(v, w, count) + Contents(p)[pos..]
  {
    Inserted(p, pos, Copies(v, w, count))
  }

  /** Every inserted `w`-byte slot reads back as `v` modulo `256^w`. */
  lemma {:induction false} CopiesReadBack(v: nat, w: nat, count: nat, k: nat)
    requires k < count
    ensures LeValue(Copies(v, w, count)[k * w..(k + 1) * w]) == v % Pow256(w)
  {
    var s := Copies(v, w, count - 1);
    var lo := k * w;
    MulStep(k, w);
    if k == count - 1 {
      assert Copies(v, w, count)[lo..lo + w] == LeBytes(v, w);
      LeValueOfBytes(v, w);
    } else {
      MulLe(k + 1, count - 1, w);
      assert Copies(v, w, count)[lo..lo + w] == s[lo..lo + w];
      CopiesReadBack(v, w, count - 1, k);
    }
  }

  lemma MulStep(a: nat, w: nat)
    ensures (a + 1) * w == a * w + w
  {
  }

  lemma MulLe(a: nat, b: nat, w: nat)
    requires a <= b
    ensures a * w <= b * w
  {
  }

  /** The written bytes differ from the value: inserting one `uint16_t` 0x0102 writes 02 02. */
  lemma FillAsWrittenCounterexample()
    ensures Contents(FilledInAsWritten(Empty(), 0, 1, 2, 0x0102)) == [2, 2]
    ensures Contents(FilledInValues(Empty(), 0, 1, 2, 0x0102)) == [2, 1]
  {
    assert Fill(2, 2) == [2, 2];
    assert LeBytes(0x0102, 2) == [2, 1] by {
      assert LeBytes(0x0102, 2) == [2] + LeBytes(1, 1);
      assert LeBytes(1, 1) == [1] + LeBytes(0, 0);
    }
    assert Copies(0x0102, 2, 1) == [] + LeBytes(0x0102, 2);
  }

  /** `pop_back<T>()`: drops `sizeof(T)` bytes, clamping at empty. */
  function PoppedBack(p: Priv, w: nat): (r: Priv)
    requires Valid(p) && w >= 1
    ensures Valid(r) && r.capacity == p.capacity && r.data == p.data
    ensures Contents(r) == if w <= p.size then Contents(p)[..p.size - w] else []
  {
    // `size - sizeof(T)` wraps around to a value at least `size` exactly when it would go below zero
    Priv(if w <= p.size then p.size - w else 0, p.capacity, p.data)
  }

  /** `assign(ptr, count)`: `resize<uint8_t, false>(count)` then copy. */
  function Assigned(p: Priv, src: seq<byte>): (r: Priv)
    requires Valid(p)
    ensures Valid(r) && Contents(r) == src
    ensures r.capacity == Max(p.capacity, |src|)
  {
    var q := Resized(p, |src|, 1, 0, false);
    Priv(q.size, q.capacity, Copied(q.data, 0, src))
  }

  /** `shrink_to_fit()`: capacity down to size, contents kept. */
  function ShrunkToFit(p: Priv): (r: Priv)
    requires Valid(p)
    ensures Valid(r) && r.capacity == p.size && Contents(r) == Contents(p)
  {
    if p.size == p.capacity then p else Priv(p.size, p.size, Realloc(p.data, p.size))
  }

  /** `size<T>()`: whole elements of `w` bytes. */
  function SizeIn(size: nat, w: nat): nat
    requires w >= 1
  {
    size / w
  }

  /** `end<T>()` as a byte offset: the size rounded down to whole elements. */
  function EndOf(size: nat, w: nat): nat
    requires w >= 1
  {
    size - size % w
  }

  /** `end<T>()` is right after the last whole element and at most `w - 1` bytes short of the end. */
  lemma EndOfElements(size: nat, w: nat)
    requires w >= 1
    ensures EndOf(size, w) == SizeIn(size, w) * w
    ensures EndOf(size, w) <= size < EndOf(size, w) + w
    ensures EndOf(size, w) % w == 0
    ensures w == 1 ==> EndOf(size, w) == size
  {
    var q := SizeIn(size, w);
    assert size == w * q + size % w;
    Bit.MulComm(q, w);
    ModUnique(EndOf(size, w), w, q, 0);
  }

  /** The guard of `at<T>(index)` as written: it throws only when `index * sizeof(T) > size`. */
  predicate AtGuardAsWritten(size: nat, index: nat, w: nat)
  {
    !(index * w > size)
  }

  /** The guard as written lets through an index whose element lies past the end. */
  lemma AtGuardAcceptsEnd()
    ensures AtGuardAsWritten(4, 1, 4) && 1 * 4 + 4 > 4
    ensures AtGuardAsWritten(0, 0, 1)
  {
  }

  /** `at<T>(index)` with the evidently intended guard: the element must lie inside the contents. */
  function At(p: Priv, index: nat, w: nat): (r: Option<seq<byte>>)
    requires Valid(p)
    ensures r.Some? <==> (index + 1) * w <= p.size
    ensures r.Some? ==> |r.value| == w && r.value == Contents(p)[index * w..index * w + w]
  {
    if (index + 1) * w > p.size then None else Some(Contents(p)[index * w..index * w + w])
  }

  /** Where the intended guard accepts, the guard as written does too: only the end cases differ. */
  lemma AtGuardWeaker(size: nat, index: nat, w: nat)
    requires (index + 1) * w <= size
    ensures AtGuardAsWritten(size, index, w)
  {
  }

  /** The result of `operator<=>`. */
  datatype Ordering = Less | Equivalent | Greater

  function Flip(o: Ordering): Ordering
  {
    match o
    case Less => Greater
    case Equivalent => Equivalent
    case Greater => Less
  }

  /** Byte-wise comparison of two equally long sequences: the first difference decides. */
  function Lexicographic(a: seq<byte>, b: seq<byte>): Ordering
    requires |a| == |b|
  {
    if |a| == 0 then Equivalent
    else if a[0] < b[0] then Less
    else if a[0] > b[0] then Greater
    else Lexicographic(a[1..], b[1..])
  }

  /** `operator<=>`: size first, then the first differing byte. */
  function Compare(a: seq<byte>, b: seq<byte>): Ordering
  {
    if |a| < |b| then Less
    else if |a| > |b| then Greater
    else Lexicographic(a, b)
  }

  /** Equivalence is exactly equality of the contents. */
  lemma {:induction false} CompareEquivalent(a: seq<byte>, b: seq<byte>)
    ensures Compare(a, b) == Equivalent <==> a == b
  {
    if |a| == |b| && |a| > 0 {
      CompareEquivalent(a[1..], b[1..]);
      if a[0] == b[0] && a[1..] == b[1..] {
        assert a == [a[0]] + a[1..] && b == [b[0]] + b[1..];
      }
    }
  }

  /** Swapping the operands flips the ordering. */
  lemma {:induction false} CompareFlip(a: seq<byte>, b: seq<byte>)
    ensures Compare(b, a) == Flip(Compare(a, b))
  {
    if |a| == |b| && |a| > 0 && a[0] == b[0] {
      CompareFlip(a[1..], b[1..]);
    }
  }

  /** `Less` on equal sizes means a common prefix followed by a smaller byte. */
  lemma {:induction false} CompareLess(a: seq<byte>, b: seq<byte>)
    requires |a| == |b| && Compare(a, b) == Less
    ensures exists k :: 0 <= k < |a| && a[..k] == b[..k] && a[k] < b[k]
  {
    if a[0] < b[0] {
      assert a[..0] == b[..0];
    } else {
      CompareLess(a[1..], b[1..]);
      var k :| 0 <= k < |a| - 1 && a[1..][..k] == b[1..][..k] && a[1..][k] < b[1..][k];
      assert a[..k + 1] == [a[0]] + a[1..][..k];
      assert b[..k + 1] == [b[0]] + b[1..][..k];
    }
  }

  /** Skipping a common prefix leaves the comparison unchanged. */
  lemma {:induction false} LexicographicSkip(a: seq<byte>, b: seq<byte>, i: nat)
    requires |a| == |b| && i <= |a| && a[..i] == b[..i]
    ensures Lexicographic(a, b) == Lexicographic(a[i..], b[i..])
  {
    if i > 0 {
      assert a[0] == a[..i][0];
      assert a[1..][..i - 1] == a[1..i] == b[1..i] == b[1..][..i - 1];
      LexicographicSkip(a[1..], b[1..], i - 1);
      assert a[1..][i - 1..] == a[i..] && b[1..][i - 1..] == b[i..];
    }
  }

  /** The buffer object: `priv` as three fields updated in place. */
  class Buffer {
    var size: nat
    var capacity: nat
    var data: seq<byte>

    predicate Valid()
      reads this
    {
      size <= capacity && |data| == capacity
    }

    function Value(): Priv
      reads this
    {
      Priv(size, capacity, data)
    }

    function Contents(): seq<byte>
      reads this
      requires Valid()
    {
      data[..size]
    }

    /** `buffer()`. */
    constructor ()
      ensures Valid() && Value() == Empty()
    {
      size := 0;
      capacity := 0;
      data := [];
    }

    /** `reserve<copyContents>(n)`. */
    method Reserve(n: nat, copy: bool)
      requires Valid()
      modifies this
      ensures Valid() && Value() == Reserved(old(Value()), n, copy)
    {
      if n <= capacity {
        return;
      }
      if copy {
        data := Realloc(data, n);
      } else {
        data := Fill(n, 0);
      }
      capacity := n;
    }

    /** `resize<T, copyContents>(n, c)` with `w == sizeof(T)`. */
    method Resize(n: nat, w: nat, c: int, copy: bool)
      requires Valid()
      modifies this
      ensures Valid() && Value() == Resized(old(Value()), n, w, c, copy)
    {
      var newSize := n * w;
      Reserve(newSize, copy);
      ghost var q := Value();
      if newSize > size {
        data := Copied(data, size, Fill(newSize - size, c % 256));
      }
      size := newSize;
      assert Value() == Priv(newSize, q.capacity, data);
    }

    /** `clear()`: only the size changes. */
    method Clear()
      modifies this
      ensures size == 0 && capacity == old(capacity) && data == old(data)
    {
      size := 0;
    }

    /** `shift(pos, count)`. */
    method Shift(pos: nat, count: nat)
      requires Valid() && pos <= size
      modifies this
      ensures Valid() && Value() == Shifted(old(Value()), pos, count)
    {
      var oldSize := size;
      size := size + count;
      if size > capacity {
        capacity := Max(oldSize * 2, size);
        data := Realloc(data, capacity);
      }
      data := data[..pos + count] + data[pos..oldSize] + data[size..];
    }

    /** `erase(pos, count)`. */
    method Erase(pos: nat, count: nat)
      requires Valid() && pos + count <= size
      modifies this
      ensures Valid() && Value() == Erased(old(Value()), pos, count)
    {
      size := size - count;
      data := data[..pos] + data[pos + count..size + count] + data[size..];
    }

    /** `push_back(ptr, count)`. */
    method PushBack(src: seq<byte>)
      requires Valid()
      modifies this
      ensures Valid() && Value() == PushedBack(old(Value()), src)
    {
      var index, newSize := size, size + |src|;
      if newSize > capacity {
        Reserve(Max(size * 2, newSize), true);
      }
      size := newSize;
      data := Copied(data, index, src);
    }

    /**
     * `push_back_big_endian(item, bigEndian)` for a trivially copyable `T`
     * whose object representation is `rep`.
     */
    method PushBackBigEndian(rep: seq<byte>, bigEndian: bool, hostBig: bool)
      requires Valid()
      modifies this
      ensures Valid() && Value() == PushedBack(old(Value()), Bit.BigEndianIf(rep, bigEndian, hostBig))
    {
      PushBack(Bit.BigEndianIf(rep, bigEndian, hostBig));
    }

    /** `push_back_little_endian(item, littleEndian)`. */
    method PushBackLittleEndian(rep: seq<byte>, littleEndian: bool, hostBig: bool)
      requires Valid()
      modifies this
      ensures Valid() && Value() == PushedBack(old(Value()), Bit.LittleEndianIf(rep, littleEndian, hostBig))
    {
      PushBack(Bit.LittleEndianIf(rep, littleEndian, hostBig));
    }

    /** `insert(pos, ptr, count)`; also `insert(pos, value)` with `value`'s representation. */
    method Insert(pos: nat, src: seq<byte>)
      requires Valid() && pos <= size
      modifies this
      ensures Valid() && Value() == Inserted(old(Value()), pos, src)
    {
      Shift(pos, |src|);
      data := Copied(data, pos, src);
    }

    /** `insert(pos, count, v)` for a one-byte `T`: `shift` then `memset`. */
    method InsertFill(pos: nat, count: nat, v: byte)
      requires Valid() && pos <= size
      modifies this
      ensures Valid() && Value() == FilledIn(old(Value()), pos, count, v)
    {
      Shift(pos, count);
      data := Copied(data, pos, Fill(count, v));
    }

    /** `pop_back<T>()`. */
    method PopBack(w: nat)
      requires Valid() && w >= 1
      modifies this
      ensures Valid() && Value() == PoppedBack(old(Value()), w)
    {
      size := if w <= size then size - w else 0;
    }

    /** `assign(ptr, count)`. */
    method Assign(src: seq<byte>)
      requires Valid()
      modifies this
      ensures Valid() && Value() == Assigned(old(Value()), src)
    {
      Resize(|src|, 1, 0, false);
      data := Copied(data, 0, src);
    }

    /** `shrink_to_fit()`. */
    method ShrinkToFit()
      requires Valid()
      modifies this
      ensures Valid() && Value() == ShrunkToFit(old(Value()))
    {
      if size == capacity {
        return;
      }
      data := Realloc(data, size);
      capacity := size;
    }

    /** `swap(other)`: the three fields are exchanged. */
    method Swap(other: Buffer)
      modifies this, other
      ensures Value() == old(other.Value()) && other.Value() == old(Value())
    {
      data, other.data := other.data, data;
      size, other.size := other.size, size;
      capacity, other.capacity := other.capacity, capacity;
    }

    /**
     * `operator==`: sizes first, then whole 8-byte words up to `end<size_t>()`,
     * then the remaining bytes.
     */
    method Equals(other: Buffer) returns (r: bool)
      requires Valid() && other.Valid()
      ensures r <==> Contents() == other.Contents()
    {
      if size != other.size {
        return false;
      }
      var wordEnd := EndOf(size, 8);
      EndOfElements(size, 8);
      var i := 0;
      while i < wordEnd
        invariant 0 <= i <= wordEnd && i % 8 == 0
        invariant data[..i] == other.data[..i]
      {
        assert i + 8 <= wordEnd;
        if data[i..i + 8] != other.data[i..i + 8] {
          assert Contents()[i..i + 8] == data[i..i + 8] && other.Contents()[i..i + 8] == other.data[i..i + 8];
          return false;
        }
        assert data[..i + 8] == data[..i] + data[i..i + 8];
        assert other.data[..i + 8] == other.data[..i] + other.data[i..i + 8];
        i := i + 8;
      }
      while i < size
        invariant wordEnd <= i <= size
        invariant data[..i] == other.data[..i]
      {
        if data[i] != other.data[i] {
          assert Contents()[i] != other.Contents()[i];
          return false;
        }
        assert data[..i + 1] == data[..i] + [data[i]];
        assert other.data[..i + 1] == other.data[..i] + [other.data[i]];
        i := i + 1;
      }
      r := true;
    }

    /** `operator<=>`: sizes first, then byte by byte. */
    method CompareTo(other: Buffer) returns (r: Ordering)
      requires Valid() && other.Valid()
      ensures r == Compare(Contents(), other.Contents())
    {
      if size < other.size {
        return Less;
      } else if size > other.size {
        return Greater;
      }
      var a, b := Contents(), other.Contents();
      var i := 0;
      while i < size
        invariant 0 <= i <= size && a[..i] == b[..i]
      {
        if a[i] < b[i] {
          LexicographicSkip(a, b, i);
          return Less;
        } else if a[i] > b[i] {
          LexicographicSkip(a, b, i);
          return Greater;
        }
        assert a[..i + 1] == a[..i] + [a[i]] && b[..i + 1] == b[..i] + [b[i]];
        i := i + 1;
      }
      LexicographicSkip(a, b, i);
      r := Equivalent;
    }

    /**
     * `input(str, size, flags)`: runs the text decoder; every step's bytes
     * are appended with `push_back` (numeric bytes) or `insert(end(), ...)`
     * (encoded characters), which grow the capacity by the same rule.
     */
    method Input(t: seq<byte>, flags: bv64)
      requires Valid()
      modifies this
      ensures Valid() && Contents() == old(Contents()) + Parse.Decode(t, flags)
      ensures capacity >= old(capacity)
    {
      var s := Parse.Init(flags);
      ghost var start := Contents();
      while !(s.phase == Parse.Top && s.pos == |t|)
        invariant Valid() && s.pos <= |t| && capacity >= old(capacity)
        invariant Contents() + Parse.Run(t, s) == start + Parse.Decode(t, flags)
        decreases Parse.Measure(t, s)
      {
        var r := Parse.StepOnce(t, s);
        Parse.RunStep(t, s, Contents(), start + Parse.Decode(t, flags));
        PushBack(r.out);
        s := r.next;
      }
    }
  }

  /** On any host, `push_back_big_endian` of an integer appends its big-endian bytes. */
  lemma PushBigEndianAppendsBe(p: Priv, v: nat, n: nat, hostBig: bool)
    requires Valid(p)
    ensures Contents(PushedBack(p, Bit.BigEndianIf(if hostBig then BeBytes(v, n) else LeBytes(v, n), true, hostBig)))
            == Contents(p) + BeBytes(v, n)
  {
    Bit.BigEndianStoresBeBytes(v, n, hostBig);
  }

  /** On any host, `push_back_little_endian` of an integer appends its little-endian bytes. */
  lemma PushLittleEndianAppendsLe(p: Priv, v: nat, n: nat, hostBig: bool)
    requires Valid(p)
    ensures Contents(PushedBack(p, Bit.LittleEndianIf(if hostBig then BeBytes(v, n) else LeBytes(v, n), true, hostBig)))
            == Contents(p) + LeBytes(v, n)
  {
    Bit.EndianOnHost(if hostBig then BeBytes(v, n) else LeBytes(v, n), hostBig);
    if hostBig {
      ReverseReverse(LeBytes(v, n));
    }
  }

  /** `insert(pos, src)` is `push_back(src)` at the end, contents and capacity alike. */
  lemma InsertAtEndIsPushBack(p: Priv, src: seq<byte>)
    requires Valid(p)
    ensures Contents(Inserted(p, p.size, src)) == Contents(PushedBack(p, src))
    ensures Inserted(p, p.size, src).capacity == PushedBack(p, src).capacity
  {
    assert Contents(p)[..p.size] == Contents(p);
  }

}
