/**
 * `ktu::view` (`ktu/memory/view.hpp`): a non-owning byte range
 * `[first, last)`.
 *
 * Memory is a byte sequence `mem` and pointers are byte offsets into it.
 * An element of a `w`-byte type `T` at offset `x` is the representation
 * `mem[x..x + w]`.
 */
module Views {
  import opened Bytes
  import Buffers

  /** The two pointers of a view. */
  datatype View = View(first: nat, last: nat)

  /** A view whose range lies inside the memory. */
  predicate Within(mem: seq<byte>, v: View)
  {
    v.first <= v.last <= |mem|
  }

  /** The bytes the view ranges over; never a copy of them. */
  function Range(mem: seq<byte>, v: View): seq<byte>
    requires Within(mem, v)
  {
    mem[v.first..v.last]
  }

  /** `view()`: both pointers null. */
  function Default(): (r: View)
    ensures forall mem: seq<byte> :: Within(mem, r) && Range(mem, r) == []
  {
    View(0, 0)
  }

  /** `view(first, size)` for a `w`-byte `T`: `last` is `size` elements past `first`. */
  function Sized(first: nat, size: nat, w: nat): (r: View)
    ensures r.first == first && r.last - r.first == size * w
  {
    View(first, first + size * w)
  }

  /** `size<T>()`: the whole elements in the range. */
  function Size(v: View, w: nat): nat
    requires w >= 1 && v.first <= v.last
  {
    Buffers.SizeIn(v.last - v.first, w)
  }

  /** `end<T>()`: `last` less the trailing partial element; `last` itself for one-byte `T`. */
  function End(v: View, w: nat): (r: nat)
    requires w >= 1 && v.first <= v.last
  {
    v.last - (v.last - v.first) % w
  }

  /** `end<T>()` closes exactly `size<T>()` whole elements, and loses less than one element. */
  lemma EndAfterElements(v: View, w: nat)
    requires w >= 1 && v.first <= v.last
    ensures End(v, w) == v.first + Size(v, w) * w
    ensures End(v, w) <= v.last < End(v, w) + w
    ensures (End(v, w) - v.first) % w == 0
    ensures w == 1 ==> End(v, w) == v.last
  {
    Buffers.EndOfElements(v.last - v.first, w);
  }

  /** A view of `size` elements has `size` elements. */
  lemma SizedSize(first: nat, size: nat, w: nat)
    requires w >= 1
    ensures Size(Sized(first, size, w), w) == size
    ensures End(Sized(first, size, w), w) == first + size * w
  {
    ModUnique(size * w, w, size, 0);
  }

  /** `slice(size)`: the first `size` bytes. */
  function SliceTo(v: View, size: nat): (r: View)
  {
    View(v.first, v.first + size)
  }

  /** `slice(a, b)`: bytes `a` to `b` of the view. */
  function Slice(v: View, a: nat, b: nat): (r: View)
    requires a <= b
  {
    View(v.first + a, v.first + b)
  }

  /** Slicing shares the memory: a slice reads the same bytes as that part of the view. */
  lemma SliceBytes(mem: seq<byte>, v: View, a: nat, b: nat)
    requires Within(mem, v) && a <= b <= v.last - v.first
    ensures Within(mem, Slice(v, a, b)) && Range(mem, Slice(v, a, b)) == Range(mem, v)[a..b]
    ensures Within(mem, SliceTo(v, b)) && Range(mem, SliceTo(v, b)) == Range(mem, v)[..b]
  {
  }

  /** A pointer into `[first, end<T>()]` a whole number of elements from `first`. */
  predicate OnGrid(v: View, ptr: nat, w: nat)
    requires w >= 1 && v.first <= v.last
  {
    v.first <= ptr <= End(v, w) && (ptr - v.first) % w == 0
  }

  /** The element index of a pointer on the grid. */
  function Index(v: View, ptr: nat, w: nat): (i: nat)
    requires w >= 1 && v.first <= v.last && OnGrid(v, ptr, w)
    ensures i <= Size(v, w) && Offset(v, i, w) == ptr
  {
    var i := (ptr - v.first) / w;
    EndAfterElements(v, w);
    MulLess(i, Size(v, w), w);
    i
  }

  /** `j * w < n * w` exactly when `j < n`. */
  lemma MulLess(j: nat, n: nat, w: nat)
    requires w >= 1
    ensures j < n <==> j * w < n * w
    ensures j <= n <==> j * w <= n * w
  {
    if j < n {
      Buffers.MulLe(j + 1, n, w);
      Buffers.MulStep(j, w);
    } else {
      Buffers.MulLe(n, j, w);
    }
    if j <= n {
      Buffers.MulLe(j, n, w);
    } else {
      Buffers.MulLe(n + 1, j, w);
      Buffers.MulStep(n, w);
    }
  }

  /** The byte offset of element `k` of the view. */
  function Offset(v: View, k: nat, w: nat): nat
  {
    v.first + k * w
  }

  /** Element `k` of the view, for `k < size<T>()`, lies before `end<T>()`. */
  lemma ElemFits(v: View, k: nat, w: nat)
    requires w >= 1 && v.first <= v.last && k < Size(v, w)
    ensures Offset(v, k, w) + w <= End(v, w) <= v.last
  {
    EndAfterElements(v, w);
    Buffers.MulLe(k + 1, Size(v, w), w);
    Buffers.MulStep(k, w);
  }

  /** Element `k` of the view, of `w` bytes. */
  function ElemAt(mem: seq<byte>, v: View, k: nat, w: nat): (r: seq<byte>)
    requires Within(mem, v) && w >= 1 && k < Size(v, w)
    ensures |r| == w
  {
    ElemFits(v, k, w);
    mem[Offset(v, k, w)..Offset(v, k, w) + w]
  }

  /** No element with index in `[i, j)` satisfies `hit`. */
  predicate NoneIn(mem: seq<byte>, v: View, w: nat, i: nat, j: nat, hit: seq<byte> -> bool)
    requires Within(mem, v) && w >= 1 && j <= Size(v, w)
  {
    forall k :: i <= k < j ==> !hit(ElemAt(mem, v, k, w))
  }

  /**
   * `find<match, T>(ptr)` from element `i`: steps over elements until one
   * satisfies `match` or `end<T>()` is reached, and returns that pointer.
   * The C++ reads the element before testing the bound; what it reads at
   * `end<T>()` cannot change the result, so the bound is tested first here.
   */
  method FindIf(mem: seq<byte>, v: View, i: nat, w: nat, hit: seq<byte> -> bool) returns (r: nat, ghost j: nat)
    requires Within(mem, v) && w >= 1 && i <= Size(v, w)
    ensures i <= j <= Size(v, w) && r == Offset(v, j, w)
    ensures NoneIn(mem, v, w, i, j, hit)
    ensures j < Size(v, w) ==> hit(ElemAt(mem, v, j, w))
    ensures j == Size(v, w) <==> r == End(v, w)
  {
    var e := End(v, w);
    r, j := Offset(v, i, w), i;
    Cursor(mem, v, w, j);
    while r < e && !hit(mem[r..r + w])
      invariant i <= j <= Size(v, w) && r == Offset(v, j, w) && CursorAt(mem, v, w, j)
      invariant NoneIn(mem, v, w, i, j, hit)
    {
      FindStep(mem, v, w, i, j, hit);
      r, j := r + w, j + 1;
      Cursor(mem, v, w, j);
    }
  }

  /** What the loop of `find` knows about the pointer to element `j`. */
  predicate CursorAt(mem: seq<byte>, v: View, w: nat, j: nat)
    requires Within(mem, v) && w >= 1 && j <= Size(v, w)
  {
    (Offset(v, j, w) < End(v, w) <==> j < Size(v, w)) &&
    (Offset(v, j, w) == End(v, w) <==> j == Size(v, w)) &&
    (j < Size(v, w) ==> Offset(v, j, w) + w <= |mem| && mem[Offset(v, j, w)..Offset(v, j, w) + w] == ElemAt(mem, v, j, w))
  }

  lemma Cursor(mem: seq<byte>, v: View, w: nat, j: nat)
    requires Within(mem, v) && w >= 1 && j <= Size(v, w)
    ensures CursorAt(mem, v, w, j)
  {
    EndAfterElements(v, w);
    MulLess(j, Size(v, w), w);
    if j < Size(v, w) {
      ElemFits(v, j, w);
    }
  }

  /** Passing a non-matching element `j`: the pointer moves one element on. */
  lemma FindStep(mem: seq<byte>, v: View, w: nat, i: nat, j: nat, hit: seq<byte> -> bool)
    requires Within(mem, v) && w >= 1 && i <= j < Size(v, w)
    requires NoneIn(mem, v, w, i, j, hit) && !hit(ElemAt(mem, v, j, w))
    ensures NoneIn(mem, v, w, i, j + 1, hit) && Offset(v, j + 1, w) == Offset(v, j, w) + w
  {
    Buffers.MulStep(j, w);
  }

  /** `find(match, ptr)` from element `i`: the first element equal to `match`, or `end<T>()`. */
  method Find(mem: seq<byte>, v: View, m: seq<byte>, i: nat, w: nat) returns (r: nat, ghost j: nat)
    requires Within(mem, v) && w >= 1 && i <= Size(v, w)
    ensures i <= j <= Size(v, w) && r == Offset(v, j, w)
    ensures NoneIn(mem, v, w, i, j, x => x == m)
    ensures j < Size(v, w) ==> ElemAt(mem, v, j, w) == m
    ensures j == Size(v, w) <==> r == End(v, w)
  {
    r, j := FindIf(mem, v, i, w, x => x == m);
  }

  /** Whether the bytes of `pat` occur at element `k`, before `end<T>()`. */
  predicate OccursAt(mem: seq<byte>, v: View, w: nat, k: nat, pat: seq<byte>)
    requires Within(mem, v) && w >= 1
  {
    Offset(v, k, w) + |pat| <= End(v, w) && mem[Offset(v, k, w)..Offset(v, k, w) + |pat|] == pat
  }

  /**
   * `find(searcher, ptr)`: `std::search` for the elements of `pat` from
   * element `i` on; the index of the first occurrence, or `size<T>()`
   * (the pointer `end<T>()`) when there is none.
   */
  function Search(mem: seq<byte>, v: View, w: nat, i: nat, pat: seq<byte>): (j: nat)
    requires Within(mem, v) && w >= 1 && i <= Size(v, w)
    ensures i <= j <= Size(v, w)
    ensures j < Size(v, w) ==> OccursAt(mem, v, w, j, pat)
    ensures forall k :: i <= k < j ==> !OccursAt(mem, v, w, k, pat)
    decreases Size(v, w) - i
  {
    if i == Size(v, w) then i
    else if OccursAt(mem, v, w, i, pat) then i
    else Search(mem, v, w, i + 1, pat)
  }

  /** An empty pattern occurs at the start element, unless the view has no elements left. */
  lemma {:induction false} SearchEmpty(mem: seq<byte>, v: View, w: nat, i: nat)
    requires Within(mem, v) && w >= 1 && i < Size(v, w)
    ensures Search(mem, v, w, i, []) == i
  {
    ElemFits(v, i, w);
  }
}
