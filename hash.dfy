/**
 * FNV-1a hashing of `ktu/algorithm.hpp`, used by the text decoder to
 * dispatch on keyword names.
 *
 * The hash folds left over the bytes: start at the offset basis, then for
 * each unit XOR it in and multiply by the FNV prime, all modulo the width
 * of `size_t` (64 bits here; the 32-bit constants are modelled too).
 * The constant-evaluated path hashes `char` units, which are signed and
 * sign-extend when XORed into `size_t`; the runtime path hashes the same
 * memory as `uint8_t`.
 */
module Fnv {
  import opened Bytes

  /** A signed `char`. */
  type schar = c: int | -128 <= c < 128

  const Basis64: bv64 := 0xcbf29ce484222325
  const Prime64: bv64 := 0x00000100000001B3
  const Basis32: bv32 := 0x811c9dc5
  const Prime32: bv32 := 0x01000193

  /** One FNV-1a step on a 64-bit state. */
  function Step64(h: bv64, unit: bv64): bv64
  {
    (h ^ unit) * Prime64
  }

  function Step32(h: bv32, unit: bv32): bv32
  {
    (h ^ unit) * Prime32
  }

  /** A `uint8_t` converted to `size_t`: zero extension. */
  function ByteUnit64(b: byte): bv64
  {
    b as bv64
  }

  function ByteUnit32(b: byte): bv32
  {
    b as bv32
  }

  /**
   * A signed `char` converted to `size_t`: sign extension, i.e. a negative
   * char c becomes 2^64 + c, whose low byte is c + 256 and whose other
   * bytes are all 0xFF.
   */
  function CharUnit64(c: schar): bv64
  {
    if c >= 0 then ByteUnit64(c as byte) else 0xFFFF_FFFF_FFFF_FF00 | ByteUnit64((c + 256) as byte)
  }

  /** The 64-bit FNV-1a hash of a byte sequence (the runtime path). */
  function Hash64(s: seq<byte>): bv64
  {
    if |s| == 0 then Basis64 else Step64(Hash64(s[..|s| - 1]), ByteUnit64(s[|s| - 1]))
  }

  /** The 64-bit FNV-1a hash of a `char` sequence (the constant-evaluated path). */
  function HashChars64(s: seq<schar>): bv64
  {
    if |s| == 0 then Basis64 else Step64(HashChars64(s[..|s| - 1]), CharUnit64(s[|s| - 1]))
  }

  /** The 32-bit FNV-1a hash of a byte sequence, for a 4-byte `size_t`. */
  function Hash32(s: seq<byte>): bv32
  {
    if |s| == 0 then Basis32 else Step32(Hash32(s[..|s| - 1]), ByteUnit32(s[|s| - 1]))
  }

  /** The hash of an empty range is the offset basis. */
  lemma HashEmpty()
    ensures Hash64([]) == Basis64 && HashChars64([]) == Basis64 && Hash32([]) == Basis32
  {
  }

  /** The hash folds left: appending a byte is one more FNV-1a step. */
  lemma HashSnoc(s: seq<byte>, b: byte)
    ensures Hash64(s + [b]) == Step64(Hash64(s), ByteUnit64(b))
    ensures Hash32(s + [b]) == Step32(Hash32(s), ByteUnit32(b))
  {
    assert (s + [b])[..|s|] == s;
  }

  /** Hashing a concatenation continues from the hash of the prefix. */
  function Continue64(h: bv64, s: seq<byte>): bv64
  {
    if |s| == 0 then h else Step64(Continue64(h, s[..|s| - 1]), ByteUnit64(s[|s| - 1]))
  }

  lemma {:induction false} HashAppend(a: seq<byte>, b: seq<byte>)
    ensures Hash64(a + b) == Continue64(Hash64(a), b)
  {
    if |b| == 0 {
      assert a + b == a;
    } else {
      var b0, last := b[..|b| - 1], b[|b| - 1];
      var h := Continue64(Hash64(a), b0);
      assert Hash64(a + b0) == h by {
        HashAppend(a, b0);
      }
      assert (a + b)[..|a + b| - 1] == a + b0 && (a + b)[|a + b| - 1] == last;
      assert Hash64(a + b) == Step64(h, ByteUnit64(last));
    }
  }

  /**
   * The two paths agree on memory whose bytes are all below 0x80: the
   * `char` and `uint8_t` readings of such a byte are the same number.
   */
  lemma {:induction false} PathsAgree(chars: seq<schar>, bytes: seq<byte>)
    requires |chars| == |bytes|
    requires forall i :: 0 <= i < |bytes| ==> bytes[i] < 0x80 && chars[i] == bytes[i]
    ensures HashChars64(chars) == Hash64(bytes)
  {
    if |chars| > 0 {
      var n := |chars| - 1;
      var h := Hash64(bytes[..n]);
      assert HashChars64(chars[..n]) == h by {
        PathsAgree(chars[..n], bytes[..n]);
      }
      UnitsAgree(chars[n], bytes[n]);
      assert HashChars64(chars) == Step64(h, ByteUnit64(bytes[n]));
    }
  }

  /** A byte below 0x80 is the same unit read as `char` or as `uint8_t`. */
  lemma UnitsAgree(c: schar, b: byte)
    requires b < 0x80 && c == b
    ensures CharUnit64(c) == ByteUnit64(b)
  {
  }

  /** On a byte of 0x80 or more the paths differ in the XORed unit: the char is sign-extended. */
  lemma HighByteUnitsDiffer(b: byte)
    requires b >= 0x80
    ensures CharUnit64(b - 256) != ByteUnit64(b)
  {
    assert ByteUnit64(b) < 0x100;
  }

  /**
   * `hash(const char (&str)[N])`: the N - 1 characters before the
   * terminating NUL of a string literal.
   */
  function HashLiteral(lit: seq<schar>): (r: bv64)
    requires |lit| >= 1 && lit[|lit| - 1] == 0
  {
    HashChars64(lit[..|lit| - 1])
  }

  /** The terminator never enters a literal's hash. */
  lemma HashLiteralExcludesTerminator(s: seq<schar>)
    ensures HashLiteral(s + [0]) == HashChars64(s)
  {
    assert (s + [0])[..|s|] == s;
  }

  /** Known FNV-1a 64 test vectors: "" and "a". */
  lemma KnownVectors()
    ensures Hash64([]) == 0xcbf29ce484222325
    ensures Hash64([97]) == 0xaf63dc4c8601ec8c
  {
    assert [97][..0] == [];
    assert Hash64([97]) == Step64(Basis64, ByteUnit64(97));
    assert ByteUnit64(97) == 97;
    assert (Basis64 ^ 97) == 0xcbf29ce484222344;
    assert (0xcbf29ce484222344 as bv64) * Prime64 == 0xaf63dc4c8601ec8c;
  }

  /** `impl::hash`: the for loop XORing each byte in and multiplying by the prime. */
  method HashLoop(s: seq<byte>) returns (result: bv64)
    ensures result == Hash64(s)
  {
    result := Basis64;
    var i := 0;
    while i < |s|
      invariant 0 <= i <= |s|
      invariant result == Hash64(s[..i])
    {
      assert s[..i + 1][..i] == s[..i];
      result := Step64(result, ByteUnit64(s[i]));
      i := i + 1;
    }
    assert s[..|s|] == s;
  }

  /** The constant-evaluated loop over `char` units. */
  method HashCharsLoop(s: seq<schar>) returns (result: bv64)
    ensures result == HashChars64(s)
  {
    result := Basis64;
    var i := 0;
    while i < |s|
      invariant 0 <= i <= |s|
      invariant result == HashChars64(s[..i])
    {
      assert s[..i + 1][..i] == s[..i];
      result := Step64(result, CharUnit64(s[i]));
      i := i + 1;
    }
    assert s[..|s|] == s;
  }
}
