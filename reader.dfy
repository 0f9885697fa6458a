/**
 * `ktu::reader` and the free pointer readers of `ktu/memory/reader.hpp`: a
 * view with a cursor `ptr` that typed reads advance.
 *
 * As in `Views`, memory is the byte sequence `mem`, pointers are byte
 * offsets, and a value of a `w`-byte type is its representation in memory
 * order.  `T()` is the all-zero representation.
 */
module Readers {
  import opened Bytes
  import Bit
  import Views
  import Buffers

  /** A value read and the pointer after the read. */
  datatype Got = Got(value: seq<byte>, ptr: nat)

  /** `peek<T>(ptr)`: the `w` bytes at `ptr`; the pointer is not touched. */
  function PeekAt(mem: seq<byte>, ptr: nat, w: nat): (r: seq<byte>)
    requires ptr + w <= |mem|
    ensures |r| == w
  {
    mem[ptr..ptr + w]
  }

  /** `read<T>(ptr)`: the value at `ptr`, and `ptr` advanced by `sizeof(T)`. */
  function ReadAt(mem: seq<byte>, ptr: nat, w: nat): (r: Got)
    requires ptr + w <= |mem|
    ensures r.value == PeekAt(mem, ptr, w) && r.ptr == ptr + w
  {
    Got(PeekAt(mem, ptr, w), ptr + w)
  }

  /** `rread<T>(ptr)`: the value at `ptr`, and `ptr` moved back by `sizeof(T)`. */
  function RReadAt(mem: seq<byte>, ptr: nat, w: nat): (r: Got)
    requires ptr + w <= |mem| && w <= ptr
    ensures r.value == PeekAt(mem, ptr, w) && r.ptr + w == ptr
  {
    Got(PeekAt(mem, ptr, w), ptr - w)
  }

  /**
   * The endian conversion of the `_big_endian`/`_little_endian` variants
   * with a runtime condition: `condition ? big_endian(v) : v`, or the
   * little-endian counterpart.
   */
  function Endian(rep: seq<byte>, big: bool, condition: bool, hostBig: bool): (r: seq<byte>)
    ensures !condition ==> r == rep
  {
    if big then Bit.BigEndianIf(rep, condition, hostBig) else Bit.LittleEndianIf(rep, condition, hostBig)
  }

  /** `read_big_endian<T>(ptr, condition)` and `read_little_endian<T>(ptr, condition)`. */
  function ReadEndianAt(mem: seq<byte>, ptr: nat, w: nat, big: bool, condition: bool, hostBig: bool): (r: Got)
    requires ptr + w <= |mem|
    ensures r.ptr == ptr + w
    ensures !condition ==> r == ReadAt(mem, ptr, w)
    ensures condition && big && !hostBig ==> r.value == Reverse(PeekAt(mem, ptr, w))
    ensures condition && !big && !hostBig ==> r.value == PeekAt(mem, ptr, w)
  {
    var g := ReadAt(mem, ptr, w);
    Bit.EndianOnHost(g.value, hostBig);
    Got(Endian(g.value, big, condition, hostBig), g.ptr)
  }

  /** `read` then `rread` puts the pointer back, and `rread` reads the element after the first. */
  lemma ReadThenRRead(mem: seq<byte>, ptr: nat, w: nat)
    requires ptr + 2 * w <= |mem|
    ensures RReadAt(mem, ReadAt(mem, ptr, w).ptr, w).ptr == ptr
    ensures RReadAt(mem, ReadAt(mem, ptr, w).ptr, w).value == mem[ptr + w..ptr + 2 * w]
  {
  }

  /**
   * Writing with `push_back_big_endian` (or `_little_endian`) and reading
   * back at the same place with the same condition gives the value's host
   * representation again, on either host.
   */
  lemma EndianRoundTrip(p: Buffers.Priv, rep: seq<byte>, big: bool, condition: bool, hostBig: bool)
    requires Buffers.Valid(p)
    ensures var q := Buffers.PushedBack(p, Endian(rep, big, condition, hostBig));
            ReadEndianAt(Buffers.Contents(q), p.size, |rep|, big, condition, hostBig).value == rep
  {
    var stored := Endian(rep, big, condition, hostBig);
    var q := Buffers.PushedBack(p, stored);
    assert Buffers.Contents(q)[p.size..p.size + |rep|] == stored;
    Bit.ByteswapInvolution(rep, condition && (big != hostBig));
  }

  /** The position of the `k`-th element of `w` bytes from `a`. */
  function Step(a: nat, k: nat, w: nat): nat
  {
    a + k * w
  }

  /** Every one of the `n` elements from `a` lies in memory and satisfies `hit` exactly when `want` does. */
  predicate RunOf(mem: seq<byte>, a: nat, n: nat, w: nat, hit: seq<byte> -> bool, want: bool)
  {
    forall k :: 0 <= k < n ==> Step(a, k, w) + w <= |mem| && hit(mem[Step(a, k, w)..Step(a, k, w) + w]) == want
  }

  lemma RunOfStep(mem: seq<byte>, a: nat, n: nat, w: nat, hit: seq<byte> -> bool, want: bool)
    requires RunOf(mem, a, n, w, hit, want)
    requires Step(a, n, w) + w <= |mem| && hit(mem[Step(a, n, w)..Step(a, n, w) + w]) == want
    ensures RunOf(mem, a, n + 1, w, hit, want) && Step(a, n + 1, w) == Step(a, n, w) + w
  {
    Buffers.MulStep(n, w);
  }

  /** The guard of `valid<T>()` as written: the cursor is before `end<T>()`. */
  predicate ValidAsWritten(v: Views.View, ptr: nat, w: nat)
    requires w >= 1 && v.first <= v.last
  {
    ptr < Views.End(v, w)
  }

  /** The evident intent of `valid<T>()`: a whole `T` lies inside the view at the cursor. */
  predicate Valid(v: Views.View, ptr: nat, w: nat)
  {
    v.first <= ptr && ptr + w <= v.last
  }

  /**
   * The guard as written lets a read run past the view: five bytes read as
   * `uint32_t` from offset 3, where `end<uint32_t>()` is 4.
   */
  lemma ValidAsWrittenOverreads()
    ensures ValidAsWritten(Views.View(0, 5), 3, 4) && 3 + 4 > 5
    ensures !Valid(Views.View(0, 5), 3, 4)
  {
  }

  /** On the element grid of the view the two guards agree, so the defect needs an unaligned cursor. */
  lemma ValidOnGrid(v: Views.View, k: nat, w: nat)
    requires w >= 1 && v.first <= v.last
    ensures ValidAsWritten(v, Views.Offset(v, k, w), w) <==> Valid(v, Views.Offset(v, k, w), w)
  {
    Views.EndAfterElements(v, w);
    var s := Views.Size(v, w);
    Views.MulLess(k, s, w);
    Buffers.MulStep(k, w);
    Views.MulLess(k + 1, s, w);
    Views.MulLess(s, k + 1, w);
  }

  /** `seek<T>(pos)`: the cursor moves to element `pos` of the view. */
  function SeekPos(v: Views.View, pos: nat, w: nat): nat
  {
    Views.Offset(v, pos, w)
  }

  /** `skip<T>(count)`: the cursor moves `count` elements on. */
  function SkipPos(ptr: nat, count: nat, w: nat): nat
  {
    ptr + count * w
  }

  /** Seeking to element `pos` and skipping `n` is seeking to element `pos + n`. */
  lemma SkipAfterSeek(v: Views.View, pos: nat, n: nat, w: nat)
    ensures SkipPos(SeekPos(v, pos, w), n, w) == SeekPos(v, pos + n, w)
  {
    assert (pos + n) * w == pos * w + n * w;
  }

  class Reader {
    const mem: seq<byte>
    const view: Views.View
    var ptr: nat

    /** `reader(first, last)`. */
    constructor (mem: seq<byte>, first: nat, last: nat)
      requires first <= last <= |mem|
      ensures this.mem == mem && view == Views.View(first, last) && ptr == first
    {
      this.mem := mem;
      view := Views.View(first, last);
      ptr := first;
    }

    predicate Inside()
      reads this
    {
      Views.Within(mem, view)
    }

    /** `valid<T>()` with the evidently intended guard. */
    predicate HasWhole(w: nat)
      reads this
    {
      Valid(view, ptr, w)
    }

    /** `peek<T>()`: a pure read, the cursor is not moved. */
    function Peek(w: nat): (r: seq<byte>)
      reads this
      requires ptr + w <= |mem|
      ensures |r| == w && r == mem[ptr..ptr + w]
    {
      PeekAt(mem, ptr, w)
    }

    /** `speek<T>()`: `T()` unless a whole `T` remains. */
    function SPeek(w: nat): (r: seq<byte>)
      reads this
      requires Inside()
      ensures HasWhole(w) ==> r == mem[ptr..ptr + w]
      ensures !HasWhole(w) ==> r == Buffers.Fill(w, 0)
    {
      if HasWhole(w) then Peek(w) else Buffers.Fill(w, 0)
    }

    /** `is(match)`: the element at the cursor equals `match`. */
    function Is(m: seq<byte>): (r: bool)
      reads this
      requires ptr + |m| <= |mem|
      ensures r <==> mem[ptr..ptr + |m|] == m
    {
      m == Peek(|m|)
    }

    /** `is<match, T>()`. */
    function IsMatch(w: nat, hit: seq<byte> -> bool): bool
      reads this
      requires ptr + w <= |mem|
    {
      hit(Peek(w))
    }

    /** `read<T>()`. */
    method Read(w: nat) returns (value: seq<byte>)
      requires ptr + w <= |mem|
      modifies this
      ensures Got(value, ptr) == ReadAt(mem, old(ptr), w)
    {
      var g := ReadAt(mem, ptr, w);
      value, ptr := g.value, g.ptr;
    }

    /** `rread<T>()`. */
    method RRead(w: nat) returns (value: seq<byte>)
      requires ptr + w <= |mem| && w <= ptr
      modifies this
      ensures Got(value, ptr) == RReadAt(mem, old(ptr), w)
    {
      var g := RReadAt(mem, ptr, w);
      value, ptr := g.value, g.ptr;
    }

    /** `read_big_endian<T>(condition)` and `read_little_endian<T>(condition)`. */
    method ReadEndian(w: nat, big: bool, condition: bool, hostBig: bool) returns (value: seq<byte>)
      requires ptr + w <= |mem|
      modifies this
      ensures Got(value, ptr) == ReadEndianAt(mem, old(ptr), w, big, condition, hostBig)
    {
      var g := ReadEndianAt(mem, ptr, w, big, condition, hostBig);
      value, ptr := g.value, g.ptr;
    }

    /** `sread<T>()`: a read when a whole `T` remains, else `T()` with the cursor left alone. */
    method SRead(w: nat) returns (value: seq<byte>)
      requires Inside()
      modifies this
      ensures old(HasWhole(w)) ==> Got(value, ptr) == ReadAt(mem, old(ptr), w)
      ensures !old(HasWhole(w)) ==> value == Buffers.Fill(w, 0) && ptr == old(ptr)
    {
      if HasWhole(w) {
        value := Read(w);
      } else {
        value := Buffers.Fill(w, 0);
      }
    }

    /** `sread_big_endian<T>(condition)` and `sread_little_endian<T>(condition)`. */
    method SReadEndian(w: nat, big: bool, condition: bool, hostBig: bool) returns (value: seq<byte>)
      requires Inside()
      modifies this
      ensures old(HasWhole(w)) ==> Got(value, ptr) == ReadEndianAt(mem, old(ptr), w, big, condition, hostBig)
      ensures !old(HasWhole(w)) ==> value == Buffers.Fill(w, 0) && ptr == old(ptr)
    {
      if HasWhole(w) {
        value := ReadEndian(w, big, condition, hostBig);
      } else {
        value := Buffers.Fill(w, 0);
      }
    }

    /** `seek<T>(pos)`. */
    method Seek(pos: nat, w: nat)
      modifies this
      ensures ptr == SeekPos(view, pos, w)
    {
      ptr := view.first + pos * w;
    }

    /** `skip<T>(count)`. */
    method Skip(count: nat, w: nat)
      modifies this
      ensures ptr == SkipPos(old(ptr), count, w)
    {
      ptr := ptr + count * w;
    }

    /**
     * `get<match, T>()` (`want` true) and `nget<match, T>()` (`want` false):
     * the cursor passes the longest run of whole elements whose `match`
     * is `want`, and the run is returned as a view.
     */
    method Scan(w: nat, hit: seq<byte> -> bool, want: bool) returns (run: Views.View, ghost n: nat)
      requires Inside() && w >= 1
      modifies this
      ensures run == Views.View(old(ptr), ptr) && ptr == Step(old(ptr), n, w)
      ensures RunOf(mem, old(ptr), n, w, hit, want)
      ensures !HasWhole(w) || hit(Peek(w)) != want
    {
      var first := ptr;
      n := 0;
      while HasWhole(w) && hit(Peek(w)) == want
        invariant ptr == Step(first, n, w) && RunOf(mem, first, n, w, hit, want)
        decreases |mem| - ptr
      {
        RunOfStep(mem, first, n, w, hit, want);
        ptr := ptr + w;
        n := n + 1;
      }
      run := Views.View(first, ptr);
    }

    /** `get<match, T>()`. */
    method Get(w: nat, hit: seq<byte> -> bool) returns (run: Views.View, ghost n: nat)
      requires Inside() && w >= 1
      modifies this
      ensures run == Views.View(old(ptr), ptr) && ptr == Step(old(ptr), n, w)
      ensures RunOf(mem, old(ptr), n, w, hit, true)
      ensures !HasWhole(w) || !hit(Peek(w))
    {
      run, n := Scan(w, hit, true);
    }

    /** `nget<match, T>()`. */
    method NGet(w: nat, hit: seq<byte> -> bool) returns (run: Views.View, ghost n: nat)
      requires Inside() && w >= 1
      modifies this
      ensures run == Views.View(old(ptr), ptr) && ptr == Step(old(ptr), n, w)
      ensures RunOf(mem, old(ptr), n, w, hit, false)
      ensures !HasWhole(w) || hit(Peek(w))
    {
      run, n := Scan(w, hit, false);
    }

    /**
     * `find(match)` from element `i` of the view: the cursor moves to the
     * first element equal to `match` (or `end<T>()`), and the result says
     * whether one was found.
     */
    method Find(m: seq<byte>, w: nat) returns (found: bool, ghost j: nat)
      requires Inside() && w >= 1 && Views.OnGrid(view, ptr, w)
      modifies this
      ensures var i := Views.Index(view, old(ptr), w);
              i <= j <= Views.Size(view, w) && ptr == Views.Offset(view, j, w)
      ensures Views.NoneIn(mem, view, w, Views.Index(view, old(ptr), w), j, x => x == m)
      ensures found <==> j < Views.Size(view, w)
      ensures found ==> Views.ElemAt(mem, view, j, w) == m
    {
      var i := Views.Index(view, ptr, w);
      var r;
      r, j := Views.Find(mem, view, m, i, w);
      ptr := r;
      ValidOnGrid(view, j, w);
      Views.Cursor(mem, view, w, j);
      found := ptr < Views.End(view, w);
    }

    /** `find<match, T>()` from element `i`: as `find(match)` with a predicate. */
    method FindIf(hit: seq<byte> -> bool, w: nat) returns (found: bool, ghost j: nat)
      requires Inside() && w >= 1 && Views.OnGrid(view, ptr, w)
      modifies this
      ensures var i := Views.Index(view, old(ptr), w);
              i <= j <= Views.Size(view, w) && ptr == Views.Offset(view, j, w)
      ensures Views.NoneIn(mem, view, w, Views.Index(view, old(ptr), w), j, hit)
      ensures found <==> j < Views.Size(view, w)
      ensures found ==> hit(Views.ElemAt(mem, view, j, w))
    {
      var i := Views.Index(view, ptr, w);
      var r;
      r, j := Views.FindIf(mem, view, i, w, hit);
      ptr := r;
      Views.Cursor(mem, view, w, j);
      found := ptr < Views.End(view, w);
    }

    /** `find(searcher)` from element `i`: the cursor moves to the first occurrence of `pat`. */
    method FindSequence(pat: seq<byte>, w: nat) returns (found: bool)
      requires Inside() && w >= 1 && Views.OnGrid(view, ptr, w)
      modifies this
      ensures var j := Views.Search(mem, view, w, Views.Index(view, old(ptr), w), pat);
              ptr == Views.Offset(view, j, w) && (found <==> j < Views.Size(view, w))
    {
      var j := Views.Search(mem, view, w, Views.Index(view, ptr, w), pat);
      ptr := Views.Offset(view, j, w);
      Views.Cursor(mem, view, w, j);
      found := ptr < Views.End(view, w);
    }
  }
}
