/**
 * Byte order and bit-field helpers of `ktu/bit.hpp`.
 *
 * A value of a trivially copyable type `T` is represented by its object
 * representation, the `sizeof(T)` bytes it occupies in memory in address
 * order. The host byte order is a parameter `hostBig` (true on a
 * big-endian machine).
 */
module Bit {
  import opened Bytes

  /** 2^64, one more than the largest `uint64_t`. */
  const U64: nat := 0x1_0000_0000_0000_0000

  // ---------------------------------------------------------------------
  // impl::byteswap on 2-, 4- and 8-byte integers (masks and shifts)
  // ---------------------------------------------------------------------

  function Swap16(v: bv16): bv16
  {
    ((v & 0xFF00) >> 8) | ((v & 0xFF) << 8)
  }

  function Swap32(v: bv32): bv32
  {
    ((v & 0xFF000000) >> 24) | ((v & 0x00FF0000) >> 8)
    | ((v & 0x0000FF00) << 8) | ((v & 0x000000FF) << 24)
  }

  function Swap64(v: bv64): bv64
  {
    ((v & 0xFF00000000000000) >> 56) | ((v & 0x00FF000000000000) >> 40)
    | ((v & 0x0000FF0000000000) >> 24) | ((v & 0x000000FF00000000) >> 8)
    | ((v & 0x00000000FF000000) << 8) | ((v & 0x0000000000FF0000) << 24)
    | ((v & 0x000000000000FF00) << 40) | ((v & 0x00000000000000FF) << 56)
  }

  /** Byte `k` (counting from the least significant) of a 64-bit word. */
  function Byte64(v: bv64, k: nat): bv64
    requires k < 8
  {
    match k
    case 0 => v & 0xFF
    case 1 => (v >> 8) & 0xFF
    case 2 => (v >> 16) & 0xFF
    case 3 => (v >> 24) & 0xFF
    case 4 => (v >> 32) & 0xFF
    case 5 => (v >> 40) & 0xFF
    case 6 => (v >> 48) & 0xFF
    case _ => (v >> 56) & 0xFF
  }

  /** Byte `k` of a 32-bit word. */
  function Byte32(v: bv32, k: nat): bv32
    requires k < 4
  {
    match k
    case 0 => v & 0xFF
    case 1 => (v >> 8) & 0xFF
    case 2 => (v >> 16) & 0xFF
    case _ => (v >> 24) & 0xFF
  }

  /** Byte `k` of a 16-bit word. */
  function Byte16(v: bv16, k: nat): bv16
    requires k < 2
  {
    if k == 0 then v & 0xFF else (v >> 8) & 0xFF
  }

  lemma Swap16Involution(v: bv16)
    ensures Swap16(Swap16(v)) == v
  {
  }

  lemma Swap32Involution(v: bv32)
    ensures Swap32(Swap32(v)) == v
  {
  }

  lemma Swap64Involution(v: bv64)
    ensures Swap64(Swap64(v)) == v
  {
  }

  /** The 2-byte swap moves byte k to position 1 - k. */
  lemma Swap16Bytes(v: bv16, k: nat)
    requires k < 2
    ensures Byte16(Swap16(v), k) == Byte16(v, 1 - k)
  {
  }

  /** The 4-byte swap moves byte k to position 3 - k. */
  lemma Swap32Bytes(v: bv32, k: nat)
    requires k < 4
    ensures Byte32(Swap32(v), k) == Byte32(v, 3 - k)
  {
  }

  /** The 8-byte swap moves byte k to position 7 - k. */
  lemma Swap64Bytes(v: bv64, k: nat)
    requires k < 8
    ensures Byte64(Swap64(v), k) == Byte64(v, 7 - k)
  {
    var w := Swap64(v);
    match k
    case 0 => assert w & 0xFF == (v >> 56) & 0xFF;
    case 1 => assert (w >> 8) & 0xFF == (v >> 48) & 0xFF;
    case 2 => assert (w >> 16) & 0xFF == (v >> 40) & 0xFF;
    case 3 => assert (w >> 24) & 0xFF == (v >> 32) & 0xFF;
    case 4 => assert (w >> 32) & 0xFF == (v >> 24) & 0xFF;
    case 5 => assert (w >> 40) & 0xFF == (v >> 16) & 0xFF;
    case 6 => assert (w >> 48) & 0xFF == (v >> 8) & 0xFF;
    case _ => assert (w >> 56) & 0xFF == v & 0xFF;
  }

  lemma Byte64Range(v: bv64, k: nat)
    requires k < 8
    ensures Byte64(v, k) < 256
  {
  }

  /** The object representation of a 64-bit word on a little-endian host. */
  function LeRep64(v: bv64): (r: seq<byte>)
    ensures |r| == 8
  {
    seq(8, k requires 0 <= k < 8 => (Byte64Range(v, k); Byte64(v, k) as int))
  }

  /** On the object representation, the 8-byte swap is byte reversal. */
  lemma Swap64Reverses(v: bv64)
    ensures LeRep64(Swap64(v)) == Reverse(LeRep64(v))
  {
    forall k | 0 <= k < 8
      ensures LeRep64(Swap64(v))[k] == Reverse(LeRep64(v))[k]
    {
      Swap64Bytes(v, k);
    }
  }

  // ---------------------------------------------------------------------
  // byteswap<condition>(value), byteswap(value, condition) on object
  // representations
  // ---------------------------------------------------------------------

  /**
   * `byteswap<condition>`: the value unchanged when `sizeof(T) == 1` or the
   * condition is false, its bytes in reverse order otherwise (the 2/4/8 byte
   * paths through impl::byteswap and the `std::reverse` fallback agree,
   * see Swap64Reverses and ReverseInPlace).
   */
  function Byteswap(rep: seq<byte>, condition: bool): (r: seq<byte>)
    ensures |r| == |rep|
    ensures forall k :: 0 <= k < |rep| ==>
              r[k] == if |rep| == 1 || !condition then rep[k] else rep[|rep| - 1 - k]
  {
    if |rep| == 1 || !condition then rep else Reverse(rep)
  }

  /**
   * `byteswap(value, condition)`: the compile-time swap selected at run
   * time. The bytes are reversed exactly when the condition holds and the
   * value is wider than one byte, as `byteswap<condition>` does.
   */
  function ByteswapIf(rep: seq<byte>, condition: bool): (r: seq<byte>)
    ensures r == if condition && |rep| != 1 then Reverse(rep) else rep
    ensures r == Byteswap(rep, condition)
  {
    if condition then Byteswap(rep, true) else rep
  }

  lemma ByteswapInvolution(rep: seq<byte>, condition: bool)
    ensures Byteswap(Byteswap(rep, condition), condition) == rep
  {
    if |rep| != 1 && condition {
      ReverseReverse(rep);
    }
  }

  /** `little_endian<condition>(value)`: a swap exactly on a big-endian host. */
  function LittleEndian(rep: seq<byte>, condition: bool, hostBig: bool): seq<byte>
  {
    Byteswap(rep, condition && hostBig)
  }

  /** `big_endian<condition>(value)`: a swap exactly on a little-endian host. */
  function BigEndian(rep: seq<byte>, condition: bool, hostBig: bool): seq<byte>
  {
    Byteswap(rep, condition && !hostBig)
  }

  /**
   * `little_endian(value, condition)`: the bytes reversed exactly when the
   * condition holds on a big-endian host and the value is wider than one
   * byte; the same as `little_endian<condition>`.
   */
  function LittleEndianIf(rep: seq<byte>, condition: bool, hostBig: bool): (r: seq<byte>)
    ensures r == if condition && hostBig && |rep| != 1 then Reverse(rep) else rep
    ensures r == LittleEndian(rep, condition, hostBig)
  {
    if condition then LittleEndian(rep, true, hostBig) else rep
  }

  /**
   * `big_endian(value, condition)`: the bytes reversed exactly when the
   * condition holds on a little-endian host and the value is wider than one
   * byte; the same as `big_endian<condition>`.
   */
  function BigEndianIf(rep: seq<byte>, condition: bool, hostBig: bool): (r: seq<byte>)
    ensures r == if condition && !hostBig && |rep| != 1 then Reverse(rep) else rep
    ensures r == BigEndian(rep, condition, hostBig)
  {
    if condition then BigEndian(rep, true, hostBig) else rep
  }

  /**
   * Host dependence: on a little-endian host little_endian is the identity
   * and big_endian reverses the bytes; on a big-endian host the roles swap.
   */
  lemma EndianOnHost(rep: seq<byte>, hostBig: bool)
    ensures !hostBig ==> LittleEndian(rep, true, hostBig) == rep
    ensures !hostBig ==> BigEndian(rep, true, hostBig) == Reverse(rep)
    ensures hostBig ==> BigEndian(rep, true, hostBig) == rep
    ensures hostBig ==> LittleEndian(rep, true, hostBig) == Reverse(rep)
  {
    if |rep| == 1 {
      assert Reverse(rep) == rep;
    }
  }

  /**
   * Storing a number big-endian and reading the stored bytes most
   * significant first gives back the number, on either host.
   */
  lemma BigEndianStoresBeBytes(v: nat, n: nat, hostBig: bool)
    ensures BigEndian(if hostBig then BeBytes(v, n) else LeBytes(v, n), true, hostBig) == BeBytes(v, n)
  {
    if !hostBig {
      EndianOnHost(LeBytes(v, n), hostBig);
    }
  }

  /** The `std::reverse` fallback of byteswap for other sizes, in place. */
  method ReverseInPlace(b: array<byte>)
    modifies b
    ensures b[..] == Reverse(old(b[..]))
  {
    var lo, hi := 0, b.Length;
    while lo + 1 < hi
      invariant 0 <= lo <= b.Length && lo + hi == b.Length && lo <= hi + 1
      invariant forall k :: 0 <= k < lo ==> b[k] == old(b[b.Length - 1 - k])
      invariant forall k :: hi <= k < b.Length ==> b[k] == old(b[b.Length - 1 - k])
      invariant forall k :: lo <= k < hi ==> b[k] == old(b[k])
    {
      hi := hi - 1;
      b[lo], b[hi] := b[hi], b[lo];
      lo := lo + 1;
    }
  }

  // ---------------------------------------------------------------------
  // byte_mask
  // ---------------------------------------------------------------------

  /** The uint8_t rounding `t--; t |= t >> 1; t |= t >> 2; t++` of byte_mask. */
  function RoundUpPow2(n: bv8): (t: bv8)
    ensures 1 <= n <= 8 ==> (t == 1 || t == 2 || t == 4 || t == 8) && n <= t && t < 2 * n
  {
    var t0 := n - 1;
    var t1 := t0 | (t0 >> 1);
    var t2 := t1 | (t1 >> 2);
    t2 + 1
  }

  /**
   * `byte_mask(N)`: `(1 << 8N) - 1` in 64 bits, shifted up on a big-endian
   * host so that it covers the first N bytes of the smallest 1/2/4/8-byte
   * word holding N bytes. A shift by 64 or more is undefined in C++, hence
   * `N < 8`.
   */
  function ByteMask(n: nat, hostBig: bool): (r: nat)
    requires n < 8
    ensures r < Pow256(8)
  {
    var value := Pow256(n) - 1;
    if hostBig then
      RoundUpBelowEight(n);
      var t := RoundUpPow2(n as bv8) as int;
      (value * Pow256(t - n)) % Pow256(8)
    else value
  }

  /** The rounding of N < 8 is a word size 0, 1, 2, 4 or 8 not below N. */
  lemma RoundUpBelowEight(n: nat)
    requires n < 8
    ensures n <= RoundUpPow2(n as bv8) as int <= 8
  {
    if n == 0 {
      assert RoundUpPow2(0) == 0;
    } else {
      assert 1 <= n as bv8 <= 8;
    }
  }

  /** The mask is N bytes of 0xFF followed by zero bytes, in memory order. */
  lemma ByteMaskLittleEndian(n: nat, k: nat)
    requires n < 8 && k < 8
    ensures LeBytes(ByteMask(n, false), 8)[k] == if k < n then 255 else 0
  {
    assert ByteMask(n, false) == Pow256(n) - 1;
    OnesBytes(n, 8, k);
  }

  lemma {:induction false} OnesBytes(n: nat, m: nat, k: nat)
    requires n <= m && k < m
    ensures LeBytes(Pow256(n) - 1, m)[k] == if k < n then 255 else 0
  {
    if k > 0 {
      if n > 0 {
        assert (Pow256(n) - 1) / 256 == Pow256(n - 1) - 1 && (Pow256(n) - 1) % 256 == 255 by {
          ModUnique(Pow256(n) - 1, 256, Pow256(n - 1) - 1, 255);
        }
        OnesBytes(n - 1, m - 1, k - 1);
      } else {
        OnesBytes(0, m - 1, k - 1);
      }
    } else if n > 0 {
      assert (Pow256(n) - 1) % 256 == 255 by {
        ModUnique(Pow256(n) - 1, 256, Pow256(n - 1) - 1, 255);
      }
    }
  }

  /** The bitwise AND of the low w bits of x and y. */
  function AndBits(x: nat, y: nat, w: nat): (r: nat)
    ensures r < Pow2(w)
  {
    if w == 0 then 0 else (x % 2) * (y % 2) + 2 * AndBits(x / 2, y / 2, w - 1)
  }

  /** The bitwise AND of two words of the same size, byte by byte in memory order. */
  function AndBytes(a: seq<byte>, b: seq<byte>): (r: seq<byte>)
    requires |a| == |b|
    ensures |r| == |a|
  {
    seq(|a|, k requires 0 <= k < |a| => (Pow2Eight(); AndBits(a[k], b[k], 8)))
  }

  lemma Pow2Eight()
    ensures Pow2(8) == 256
  {
  }

  /**
   * `byte_mask<N>(ptr)` on a little-endian host: the word of sizeof(T)
   * bytes read at `ptr`, ANDed with the low sizeof(T) bytes of
   * byte_mask(N), keeps its first N bytes and zeroes the others, so its
   * value is that of the first N bytes.
   */
  lemma MaskedRead(word: seq<byte>, n: nat)
    requires n < 8 && |word| <= 8
    ensures var r := AndBytes(word, LeBytes(ByteMask(n, false), 8)[..|word|]);
      (forall k :: 0 <= k < |word| ==> r[k] == if k < n then word[k] else 0) &&
      LeValue(r) == LeValue(word) % Pow256(n)
  {
    var mask := LeBytes(ByteMask(n, false), 8)[..|word|];
    forall k | 0 <= k < |word|
      ensures mask[k] == if k < n then 255 else 0
    {
      ByteMaskLittleEndian(n, k);
    }
    AndFirstBytes(word, mask, n);
  }

  /** ANDing a word with n bytes of 0xFF followed by zero bytes keeps its first n bytes. */
  lemma AndFirstBytes(word: seq<byte>, mask: seq<byte>, n: nat)
    requires |mask| == |word|
    requires forall k :: 0 <= k < |mask| ==> mask[k] == if k < n then 255 else 0
    ensures var r := AndBytes(word, mask);
      (forall k :: 0 <= k < |word| ==> r[k] == if k < n then word[k] else 0) &&
      LeValue(r) == LeValue(word) % Pow256(n)
  {
    var r := AndBytes(word, mask);
    Pow2Eight();
    forall k | 0 <= k < |word|
      ensures r[k] == if k < n then word[k] else 0
    {
      if k < n {
        AndOnes(word[k], 8);
      } else {
        AndZero(word[k], 8);
      }
    }
    if n <= |word| {
      assert r == word[..n] + seq(|word| - n, _ => 0);
      LeValueZeroPad(word[..n], |word| - n);
      LeValuePrefix(word, n);
    } else {
      assert r == word;
      Pow256Mono(|word|, n);
      ModUnique(LeValue(word), Pow256(n), 0, LeValue(word));
    }
  }

  /** ANDing the low w bits of x < 2^w with 2^w - 1 keeps x. */
  lemma {:induction false} AndOnes(x: nat, w: nat)
    requires x < Pow2(w)
    ensures AndBits(x, Pow2(w) - 1, w) == x
  {
    if w > 0 {
      assert (Pow2(w) - 1) % 2 == 1 && (Pow2(w) - 1) / 2 == Pow2(w - 1) - 1;
      AndOnes(x / 2, w - 1);
    }
  }

  /** ANDing with 0 clears every bit. */
  lemma {:induction false} AndZero(x: nat, w: nat)
    ensures AndBits(x, 0, w) == 0
  {
    if w > 0 {
      AndZero(x / 2, w - 1);
    }
  }

  lemma {:induction false} LeValuePrefix(s: seq<byte>, n: nat)
    requires n <= |s|
    ensures LeValue(s) % Pow256(n) == LeValue(s[..n])
  {
    if n > 0 {
      LeValuePrefix(s[1..], n - 1);
      assert s[..n][1..] == s[1..][..n - 1];
      var v := LeValue(s);
      assert v == s[0] + 256 * LeValue(s[1..]);
      DivModStep(v, Pow256(n - 1));
      assert v % 256 == s[0] && v / 256 == LeValue(s[1..]) by {
        ModUnique(v, 256, LeValue(s[1..]), s[0]);
      }
    }
  }

  // ---------------------------------------------------------------------
  // numeric_literal
  // ---------------------------------------------------------------------

  /**
   * `numeric_literal(str)` as written. `str` is the whole character array
   * including its terminating NUL (|str| == N >= 1), `size` is
   * sizeof(value_type) in {1, 2, 4, 8}; the accumulator wraps modulo
   * 256^size. The little-endian loop reads str[N-1] (the NUL) down to str[0];
   * the big-endian loop reads str[0] up to str[N-1].
   */
  method NumericLiteral(str: seq<byte>, size: nat, hostBig: bool) returns (value: nat)
    requires |str| >= 1 && size >= 1
    ensures size == 1 ==> value == str[0]
    ensures size > 1 && !hostBig ==> value == LeValue(str) % Pow256(size)
    ensures size > 1 && hostBig ==> value == BeValue(str) % Pow256(size)
  {
    var n := |str|;
    var p := Pow256(size);
    value := 0;
    if size == 1 {
      value := str[0];
    } else if hostBig {
      var i := 0;
      assert str[..0] == [] && 0 % p == 0;
      while i < n
        invariant 0 <= i <= n
        invariant value == BeValue(str[..i]) % p
      {
        AccumulateStep(str, i, value, p);
        value := (value * 256 + str[i]) % p;
        i := i + 1;
      }
      assert str[..n] == str;
    } else {
      var i := 0;
      ghost var rev := Reverse(str);
      assert rev[..0] == [] && 0 % p == 0;
      while i < n
        invariant 0 <= i <= n
        invariant value == BeValue(rev[..i]) % p
      {
        assert rev[i] == str[n - 1 - i];
        AccumulateStep(rev, i, value, p);
        value := (value * 256 + str[n - 1 - i]) % p;
        i := i + 1;
      }
      assert rev[..n] == rev;
      ReversedLeValue(str);
    }
  }

  lemma ReversedLeValue(s: seq<byte>)
    ensures BeValue(Reverse(s)) == LeValue(s)
  {
    BeValueIsReversedLe(Reverse(s));
    ReverseReverse(s);
  }

  /** One step of the most-significant-first accumulation modulo p. */
  lemma AccumulateStep(s: seq<byte>, i: nat, value: nat, p: nat)
    requires i < |s| && p >= 1 && value == BeValue(s[..i]) % p
    ensures (value * 256 + s[i]) % p == BeValue(s[..i + 1]) % p
  {
    assert s[..i + 1][..i] == s[..i];
    assert BeValue(s[..i + 1]) == BeValue(s[..i]) * 256 + s[i];
    ShiftInMod(BeValue(s[..i]), s[i], p);
  }

  /**
   * On a little-endian host the literal's object representation is the
   * string's bytes: byte k of the result is str[k] while k < N, and 0 past
   * the terminator.
   */
  lemma NumericLiteralLittleEndianBytes(str: seq<byte>, size: nat, k: nat)
    requires |str| >= 1 && size > 1 && k < size
    ensures LeBytes(LeValue(str) % Pow256(size), size)[k] == if k < |str| then str[k] else 0
  {
    LiteralValue(str, size);
    BytesOfLeValue(LiteralBytes(str, size));
  }

  /** Reducing modulo 256^size keeps the value of the first `size` bytes, zero-padded. */
  lemma LiteralValue(str: seq<byte>, size: nat)
    ensures LeValue(str) % Pow256(size) == LeValue(LiteralBytes(str, size))
  {
    if |str| >= size {
      LeValuePrefix(str, size);
    } else {
      LeValueZeroPad(str, size - |str|);
      Pow256Mono(|str|, size);
      SmallMod(LeValue(str), Pow256(size));
    }
  }

  lemma {:induction false} Pow256Mono(a: nat, b: nat)
    requires a <= b
    ensures Pow256(a) <= Pow256(b)
  {
    if a < b {
      Pow256Mono(a, b - 1);
    }
  }

  lemma LeValueBound(s: seq<byte>)
    ensures LeValue(s) < Pow256(|s|)
  {
  }

  lemma {:induction false} LeValueZeroPad(s: seq<byte>, z: nat)
    ensures LeValue(s + seq(z, _ => 0)) == LeValue(s)
  {
    var zs: seq<byte> := seq(z, _ => 0);
    if |s| == 0 {
      assert s + zs == zs;
      ZerosValue(z);
    } else {
      assert (s + zs)[1..] == s[1..] + zs;
      LeValueZeroPad(s[1..], z);
    }
  }

  lemma {:induction false} ZerosValue(z: nat)
    ensures LeValue(seq(z, _ => 0)) == 0
  {
    if z > 0 {
      var zs: seq<byte> := seq(z, _ => 0);
      assert zs[1..] == seq(z - 1, _ => 0);
      ZerosValue(z - 1);
    }
  }

  /**
   * The big-endian loop as written does not reproduce the string when N-1
   * bytes fill the word exactly: for "ab" in a 2-byte word it reads 'a', 'b'
   * and the terminator, and the wrap-around drops 'a', so the stored bytes
   * are 'b', 0 instead of 'a', 'b'.
   */
  lemma NumericLiteralBigEndianDropsFirst()
    ensures var str: seq<byte> := [0x61, 0x62, 0];
            BeBytes(BeValue(str) % Pow256(2), 2) == [0x62, 0]
  {
    var str: seq<byte> := [0x61, 0x62, 0];
    assert str[..2] == [0x61, 0x62] && str[..2][..1] == [0x61];
    assert BeValue(str) == (0x61 * 256 + 0x62) * 256;
    assert BeValue(str) % Pow256(2) == 0x6200;
    assert BeBytes(0x6200, 2) == Reverse(LeBytes(0x6200, 2));
    assert LeBytes(0x6200, 2) == [0, 0x62];
  }

  /** The first `size` bytes of the character array, zero-padded. */
  function LiteralBytes(str: seq<byte>, size: nat): (r: seq<byte>)
    ensures |r| == size
  {
    if |str| >= size then str[..size] else str + seq(size - |str|, _ => 0)
  }

  /**
   * numeric_literal on a big-endian host as evidently intended: the value
   * whose stored bytes, most significant first, are the first `size`
   * bytes of the array.
   */
  method NumericLiteralBigEndian(str: seq<byte>, size: nat) returns (value: nat)
    requires |str| >= 1 && size > 1
    ensures BeBytes(value, size) == LiteralBytes(str, size)
  {
    var bytes := LiteralBytes(str, size);
    var p := Pow256(size);
    value := 0;
    var i := 0;
    assert bytes[..0] == [] && 0 % p == 0;
    while i < size
      invariant 0 <= i <= size
      invariant value == BeValue(bytes[..i]) % p
    {
      AccumulateStep(bytes, i, value, p);
      value := (value * 256 + bytes[i]) % p;
      i := i + 1;
    }
    assert bytes[..size] == bytes;
    SmallMod(BeValue(bytes), p);
    BytesOfBeValue(bytes);
  }

  lemma SmallMod(v: nat, p: nat)
    requires v < p
    ensures v % p == v
  {
  }

  // ---------------------------------------------------------------------
  // align2, highest_bit, field, field_value
  // ---------------------------------------------------------------------

  /**
   * `x | (2^p - 1)` for a natural number: the low p bits set, the others
   * kept. Written with division because Dafny has no bitwise OR on `nat`.
   */
  function OrLowOnes(x: nat, p: nat): (r: nat)
    ensures r % Pow2(p) == Pow2(p) - 1 && r / Pow2(p) == x / Pow2(p)
  {
    var q := x / Pow2(p);
    ModUnique(q * Pow2(p) + (Pow2(p) - 1), Pow2(p), q, Pow2(p) - 1);
    q * Pow2(p) + (Pow2(p) - 1)
  }

  /** `align2(value, power)`: `((value - 1) | ((1 << power) - 1)) + 1` on a 64-bit unsigned integer. */
  function Align2(value: nat, power: nat): nat
    requires value < U64 && power < 64
  {
    (OrLowOnes((value - 1) % U64, power) + 1) % U64
  }

  /**
   * For 1 <= value, when the rounding does not wrap past 2^64, align2
   * rounds up to the next multiple of 2^power: the result is a multiple of
   * 2^power, at least `value` and less than `value + 2^power`.
   */
  lemma Align2RoundsUp(value: nat, power: nat)
    requires 1 <= value < U64 && power < 64
    requires OrLowOnes(value - 1, power) + 1 < U64
    ensures Align2(value, power) % Pow2(power) == 0
    ensures value <= Align2(value, power) < value + Pow2(power)
  {
    var p := Pow2(power);
    var x := value - 1;
    SmallMod(x, U64);
    var q := x / p;
    var r := OrLowOnes(x, power) + 1;
    SmallMod(r, U64);
    assert r == q * p + p;
    assert r == (q + 1) * p;
    ModUnique(r, p, q + 1, 0);
    assert x == q * p + x % p;
  }

  /** The bit at position i of a natural number. */
  function BitAt(x: nat, i: nat): nat
  {
    (x / Pow2(i)) % 2
  }

  /** `highest_bit(value)`: the index of the top set bit, -1 for 0. */
  function HighestBit(value: nat): (r: int)
    ensures value == 0 ==> r == -1
    ensures value > 0 ==> r >= 0 && Pow2(r) <= value < Pow2(r + 1)
  {
    if value == 0 then -1
    else if value == 1 then 0
    else 1 + HighestBit(value / 2)
  }

  /** Count of trailing zero bits, `std::countr_zero`, for a nonzero value. */
  function CountrZero(f: nat): (r: nat)
    requires f > 0
    ensures f % Pow2(r) == 0 && (f / Pow2(r)) % 2 == 1
  {
    if f % 2 == 1 then 0
    else
      var r := CountrZero(f / 2);
      PowDivStep(f, r);
      1 + r
  }

  lemma PowDivStep(f: nat, r: nat)
    requires f % 2 == 0 && (f / 2) % Pow2(r) == 0 && ((f / 2) / Pow2(r)) % 2 == 1
    ensures f % Pow2(r + 1) == 0 && (f / Pow2(r + 1)) % 2 == 1
  {
    var h := f / 2;
    var q := h / Pow2(r);
    assert h == Pow2(r) * q;
    assert f == Pow2(r + 1) * q;
    ModUnique(f, Pow2(r + 1), q, 0);
  }

  /**
   * `field(bit, count)`: `((1 << count) - 1) << bit` evaluated in `int`; the
   * requires keeps the shifts inside a 32-bit int (beyond that it is
   * undefined or wraps).
   */
  function Field(bit: nat, count: nat): nat
    requires bit + count < 32
  {
    (Pow2(count) - 1) * Pow2(bit)
  }

  /** field(bit, count) is below 2^(bit+count) <= 2^31, so it fits a 32-bit int. */
  lemma FieldFits(bit: nat, count: nat)
    requires bit + count < 32
    ensures Field(bit, count) < Pow2(bit + count) <= Pow2(31)
  {
    PowMono(bit + count, 31);
    PowAdd(count, bit);
    MulSubOne(Pow2(count), Pow2(bit));
  }

  lemma MulSubOne(a: nat, b: nat)
    requires a >= 1 && b >= 1
    ensures (a - 1) * b == a * b - b
  {
  }

  /** Exactly the bits bit .. bit+count-1 of field(bit, count) are set. */
  lemma FieldBits(bit: nat, count: nat, i: nat)
    requires bit + count < 32
    ensures BitAt(Field(bit, count), i) == if bit <= i < bit + count then 1 else 0
  {
    ShiftedOnesBits(bit, count, i);
  }

  lemma {:induction false} ShiftedOnesBits(bit: nat, count: nat, i: nat)
    ensures BitAt((Pow2(count) - 1) * Pow2(bit), i) == if bit <= i < bit + count then 1 else 0
  {
    if bit > 0 {
      var y := (Pow2(count) - 1) * Pow2(bit - 1);
      Twice(Pow2(count) - 1, Pow2(bit - 1));
      assert (Pow2(count) - 1) * Pow2(bit) == 2 * y + 0;
      if i == 0 {
        BitOfDouble(y, 0, 0);
      } else {
        BitOfDouble(y, 0, i - 1);
        ShiftedOnesBits(bit - 1, count, i - 1);
      }
    } else {
      assert (Pow2(count) - 1) * Pow2(bit) == Pow2(count) - 1;
      OnesBits(count, i);
    }
  }

  /** Exactly the low `count` bits of 2^count - 1 are set. */
  lemma {:induction false} OnesBits(count: nat, i: nat)
    ensures BitAt(Pow2(count) - 1, i) == if i < count then 1 else 0
  {
    if count > 0 {
      OnesStep(count, i, Pow2(count - 1) - 1);
      if i > 0 {
        OnesBits(count - 1, i - 1);
      }
    } else {
      ZeroBits(i);
    }
  }

  /** 2^count - 1 is 2 (2^(count-1) - 1) + 1: bit 0 is set and the higher bits are those of y. */
  lemma OnesStep(count: nat, i: nat, y: nat)
    requires count > 0 && y == Pow2(count - 1) - 1
    ensures i == 0 ==> BitAt(Pow2(count) - 1, i) == 1
    ensures i > 0 ==> BitAt(Pow2(count) - 1, i) == BitAt(y, i - 1)
  {
    assert Pow2(count) - 1 == 2 * y + 1;
    if i == 0 {
      BitOfDouble(y, 1, 0);
    } else {
      BitOfDouble(y, 1, i - 1);
    }
  }

  lemma ZeroBits(i: nat)
    ensures BitAt(0, i) == 0
  {
    assert 0 / Pow2(i) == 0;
  }

  lemma Twice(a: nat, b: nat)
    ensures a * (2 * b) == 2 * (a * b)
  {
  }

  /** Bits of 2y + low: bit 0 is `low`, bit i+1 is bit i of y. */
  lemma BitOfDouble(y: nat, low: nat, i: nat)
    requires low < 2
    ensures BitAt(2 * y + low, 0) == low
    ensures BitAt(2 * y + low, i + 1) == BitAt(y, i)
  {
    var p := Pow2(i);
    var q, r := y / p, y % p;
    assert y == p * q + r;
    assert 2 * y + low == (2 * p) * q + (2 * r + low);
    ModUnique(2 * y + low, 2 * p, q, 2 * r + low);
  }

  lemma {:induction false} PowAdd(a: nat, b: nat)
    ensures Pow2(a + b) == Pow2(a) * Pow2(b)
  {
    if a > 0 {
      PowAdd(a - 1, b);
    }
  }

  lemma {:induction false} PowMono(a: nat, b: nat)
    requires a <= b
    ensures Pow2(a) <= Pow2(b)
  {
    if a < b {
      PowMono(a, b - 1);
    }
  }

  /**
   * `field_value(field, value)`: `value << countr_zero(field)` in a `width`-bit
   * unsigned type, 0 for an empty field.
   */
  function FieldValue(field: nat, value: nat, width: nat): (r: nat)
    ensures r < Pow2(width)
    ensures field == 0 ==> r == 0
  {
    if field == 0 then 0 else (value * Pow2(CountrZero(field))) % Pow2(width)
  }

  /** A value placed with field_value lands at the field's lowest bit. */
  lemma FieldValueOfField(bit: nat, count: nat, value: nat, width: nat)
    requires bit + count < 32 && count >= 1
    ensures FieldValue(Field(bit, count), value, width) == (value * Pow2(bit)) % Pow2(width)
  {
    CountrZeroOfField(bit, count);
  }

  /** The lowest set bit of field(bit, count) is `bit`. */
  lemma CountrZeroOfField(bit: nat, count: nat)
    requires bit + count < 32 && count >= 1
    ensures Field(bit, count) > 0 && CountrZero(Field(bit, count)) == bit
  {
    var f := Field(bit, count);
    FieldBits(bit, count, bit);
    FieldDivisible(bit, count);
    LowestSetBitUnique(f, CountrZero(f), bit);
  }

  /** Two positions that are both "divisible up to here, set here" coincide. */
  lemma LowestSetBitUnique(f: nat, c: nat, b: nat)
    requires f % Pow2(c) == 0 && BitAt(f, c) == 1
    requires f % Pow2(b) == 0 && BitAt(f, b) == 1
    ensures c == b
  {
    if c < b {
      LowBitsClear(f, b, c);
    } else if c > b {
      LowBitsClear(f, c, b);
    }
  }

  lemma FieldDivisible(bit: nat, count: nat)
    requires bit + count < 32
    ensures Field(bit, count) % Pow2(bit) == 0
  {
    var a, b := Pow2(count) - 1, Pow2(bit);
    assert Field(bit, count) == a * b;
    MulComm(a, b);
    ModUnique(a * b, b, a, 0);
  }

  /** A number divisible by 2^c has every bit below c clear. */
  lemma LowBitsClear(f: nat, c: nat, i: nat)
    requires i < c && f % Pow2(c) == 0
    ensures BitAt(f, i) == 0
  {
    var k := LowFactor(f, c, i);
    ModUnique(f, Pow2(i), 2 * k, 0);
  }

  /** A multiple of 2^c, with i < c, is 2^i times an even number. */
  lemma LowFactor(f: nat, c: nat, i: nat) returns (k: nat)
    requires i < c && f % Pow2(c) == 0
    ensures f == Pow2(i) * (2 * k)
  {
    var q := f / Pow2(c);
    assert f == Pow2(c) * q;
    PowAdd(c - i - 1, i + 1);
    assert Pow2(i + 1) == 2 * Pow2(i);
    k := Pow2(c - i - 1) * q;
    MulRegroup(Pow2(c - i - 1), 2 * Pow2(i), q);
    MulRegroup(2, Pow2(i), k);
  }

  lemma MulComm(a: nat, b: nat)
    ensures a * b == b * a + 0
  {
  }

  /** (a * b) * c == b * (a * c), written out for the solver. */
  lemma MulRegroup(a: nat, b: nat, c: nat)
    ensures (a * b) * c == b * (a * c)
  {
  }
}
