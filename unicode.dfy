/**
 * Unicode helpers of `ktu/unicode.hpp`: `validUnicode`, the UTF-8, UTF-16
 * and UTF-32 code unit readers and writers, and the string conversions
 * `u16::to_string`/`to_8`, `u32::to_string`/`to_8` and `u32::to_16`.
 *
 * The bodies of the UTF-8 and UTF-16 readers and writers (`u8::impl`,
 * `u16::impl`) live in `unicode.tcc`, which is not part of this model;
 * they are defined here after section 3 of RFC 3629 and section 2 of
 * RFC 2781. A reader given a malformed or truncated sequence yields the
 * value `Invalid` (one past the last code point), which no validity test
 * accepts; a writer given a value above U+10FFFF writes nothing.
 * Code units are stored least significant byte first unless the
 * big-endian flag is set (a little-endian host).
 */
module Unicode {
  import opened Bytes
  import Bit

  /** The value a reader yields for a malformed sequence. */
  const Invalid: nat := 0x110000

  /** `validUnicode(codepoint)` exactly as written. */
  predicate ValidUnicode(c: nat)
  {
    c != 0 && (c < 0xD800 || (0xDFFF < c && c < 0x10FFFF))
  }

  /** A Unicode scalar value (section 3.9 of the Unicode Standard). */
  predicate IsScalar(c: nat)
  {
    c <= 0x10FFFF && !(0xD800 <= c <= 0xDFFF)
  }

  /**
   * validUnicode accepts the scalar values other than U+0000 and U+10FFFF:
   * it also rejects the last scalar value, which the standard allows.
   */
  lemma ValidUnicodeScalars(c: nat)
    ensures ValidUnicode(c) <==> IsScalar(c) && c != 0 && c != 0x10FFFF
    ensures IsScalar(0x10FFFF) && !ValidUnicode(0x10FFFF)
    ensures !ValidUnicode(Invalid)
  {
  }

  datatype Decoded = Decoded(cp: nat, len: nat)

  // ---------------------------------------------------------------------
  // UTF-8 (RFC 3629 section 3)
  // ---------------------------------------------------------------------

  /** `u8::write`: the UTF-8 form of `cp`, nothing above U+10FFFF. */
  function Utf8Encode(cp: nat): (r: seq<byte>)
    ensures |r| <= 4
    ensures cp <= 0x10FFFF <==> |r| > 0
    ensures cp < 0x80 ==> r == [cp]
  {
    if cp < 0x80 then [cp]
    else if cp < 0x800 then [0xC0 + cp / 64, 0x80 + cp % 64]
    else if cp < 0x10000 then [0xE0 + cp / 4096, 0x80 + (cp / 64) % 64, 0x80 + cp % 64]
    else if cp <= 0x10FFFF then
      [0xF0 + cp / 262144, 0x80 + (cp / 4096) % 64, 0x80 + (cp / 64) % 64, 0x80 + cp % 64]
    else []
  }

  predicate IsCont(b: byte)
  {
    0x80 <= b < 0xC0
  }

  /**
   * `u8::read`: decodes the code point at the start of `s` and how many
   * bytes it takes; overlong forms, surrogates, values above U+10FFFF and
   * truncated or malformed sequences yield `Invalid` and one byte.
   */
  function Utf8Decode(s: seq<byte>): (d: Decoded)
    requires |s| > 0
    ensures 1 <= d.len <= |s| && d.len <= 4
    ensures d.cp == Invalid || IsScalar(d.cp)
    ensures s[0] < 0x80 ==> d == Decoded(s[0], 1)
  {
    var b0: int := s[0];
    if b0 < 0x80 then Decoded(b0, 1)
    else if 0xC2 <= b0 < 0xE0 && |s| >= 2 && IsCont(s[1]) then
      Decoded((b0 - 0xC0) * 64 + (s[1] as int - 0x80), 2)
    else if 0xE0 <= b0 < 0xF0 && |s| >= 3 && IsCont(s[1]) && IsCont(s[2]) then
      var cp := (b0 - 0xE0) * 4096 + (s[1] as int - 0x80) * 64 + (s[2] as int - 0x80);
      if cp >= 0x800 && IsScalar(cp) then Decoded(cp, 3) else Decoded(Invalid, 1)
    else if 0xF0 <= b0 < 0xF5 && |s| >= 4 && IsCont(s[1]) && IsCont(s[2]) && IsCont(s[3]) then
      var cp := (b0 - 0xF0) * 262144 + (s[1] as int - 0x80) * 4096 + (s[2] as int - 0x80) * 64 + (s[3] as int - 0x80);
      if 0x10000 <= cp <= 0x10FFFF then Decoded(cp, 4) else Decoded(Invalid, 1)
    else Decoded(Invalid, 1)
  }

  lemma DivDiv(x: nat, a: nat, b: nat)
    requires a > 0 && b > 0
    ensures x / a / b == x / (a * b)
  {
    var q := x / a / b;
    var r1 := x % a;
    var r2 := (x / a) % b;
    assert x / a == b * q + r2;
    assert x == a * (x / a) + r1;
    assert x == (a * b) * q + (a * r2 + r1) by {
      assert a * (b * q + r2) == (a * b) * q + a * r2;
    }
    assert a * r2 + r1 < a * b by {
      assert a * r2 <= a * (b - 1);
      assert a * (b - 1) == a * b - a;
    }
    ModUnique(x, a * b, q, a * r2 + r1);
  }

  /** Splits x into its quotient and remainder by 64. */
  lemma Split64(x: nat)
    ensures x == (x / 64) * 64 + x % 64
  {
  }

  lemma Utf8EncodeDecode2(cp: nat, rest: seq<byte>)
    requires 0x80 <= cp < 0x800
    ensures Utf8Decode(Utf8Encode(cp) + rest) == Decoded(cp, 2)
  {
    var s := Utf8Encode(cp) + rest;
    assert s[0] == 0xC0 + cp / 64 && s[1] == 0x80 + cp % 64;
    Split64(cp);
  }

  lemma Utf8EncodeDecode3(cp: nat, rest: seq<byte>)
    requires 0x800 <= cp < 0x10000 && IsScalar(cp)
    ensures Utf8Decode(Utf8Encode(cp) + rest) == Decoded(cp, 3)
  {
    var s := Utf8Encode(cp) + rest;
    assert s[0] == 0xE0 + cp / 4096 && s[1] == 0x80 + (cp / 64) % 64 && s[2] == 0x80 + cp % 64;
    DivDiv(cp, 64, 64);
    Split64(cp);
    Split64(cp / 64);
    assert cp == (cp / 4096) * 4096 + ((cp / 64) % 64) * 64 + cp % 64;
  }

  lemma Utf8EncodeDecode4(cp: nat, rest: seq<byte>)
    requires 0x10000 <= cp <= 0x10FFFF
    ensures Utf8Decode(Utf8Encode(cp) + rest) == Decoded(cp, 4)
  {
    var s := Utf8Encode(cp) + rest;
    assert s[0] == 0xF0 + cp / 262144 && s[1] == 0x80 + (cp / 4096) % 64;
    assert s[2] == 0x80 + (cp / 64) % 64 && s[3] == 0x80 + cp % 64;
    DivDiv(cp, 64, 64);
    DivDiv(cp, 4096, 64);
    Split64(cp);
    Split64(cp / 64);
    Split64(cp / 4096);
    assert cp == (cp / 262144) * 262144 + ((cp / 4096) % 64) * 4096 + ((cp / 64) % 64) * 64 + cp % 64;
  }

  /** Reading back the UTF-8 form of a scalar value gives the value and its length. */
  lemma Utf8EncodeDecode(cp: nat, rest: seq<byte>)
    requires IsScalar(cp)
    ensures Utf8Decode(Utf8Encode(cp) + rest) == Decoded(cp, |Utf8Encode(cp)|)
  {
    if cp < 0x80 {
    } else if cp < 0x800 {
      Utf8EncodeDecode2(cp, rest);
    } else if cp < 0x10000 {
      Utf8EncodeDecode3(cp, rest);
    } else {
      Utf8EncodeDecode4(cp, rest);
    }
  }

  lemma Utf8Canonical2(s: seq<byte>)
    requires |s| >= 2 && 0xC2 <= s[0] < 0xE0 && IsCont(s[1])
    ensures Utf8Encode(Utf8Decode(s).cp) == s[..2]
  {
    var a: nat, b: nat := s[0] as int - 0xC0, s[1] as int - 0x80;
    var cp := a * 64 + b;
    ModUnique(cp, 64, a, b);
  }

  lemma Utf8Canonical3(s: seq<byte>)
    requires |s| >= 3 && 0xE0 <= s[0] < 0xF0 && IsCont(s[1]) && IsCont(s[2])
    requires Utf8Decode(s).cp != Invalid
    ensures Utf8Encode(Utf8Decode(s).cp) == s[..3]
  {
    var a: nat, b: nat, c: nat := s[0] as int - 0xE0, s[1] as int - 0x80, s[2] as int - 0x80;
    var cp := a * 4096 + b * 64 + c;
    assert Utf8Decode(s).cp == cp;
    ModUnique(cp, 64, a * 64 + b, c);
    ModUnique(a * 64 + b, 64, a, b);
    DivDiv(cp, 64, 64);
  }

  lemma Utf8Canonical4(s: seq<byte>)
    requires |s| >= 4 && 0xF0 <= s[0] < 0xF5 && IsCont(s[1]) && IsCont(s[2]) && IsCont(s[3])
    requires Utf8Decode(s).cp != Invalid
    ensures Utf8Encode(Utf8Decode(s).cp) == s[..4]
  {
    var a: nat, b: nat, c: nat, d: nat := s[0] as int - 0xF0, s[1] as int - 0x80, s[2] as int - 0x80, s[3] as int - 0x80;
    var cp := a * 262144 + b * 4096 + c * 64 + d;
    assert Utf8Decode(s).cp == cp;
    ModUnique(cp, 64, a * 4096 + b * 64 + c, d);
    ModUnique(a * 4096 + b * 64 + c, 64, a * 64 + b, c);
    ModUnique(a * 64 + b, 64, a, b);
    DivDiv(cp, 64, 64);
    DivDiv(cp, 4096, 64);
  }

  /**
   * The reader accepts only shortest forms: whatever it decodes to a code
   * point is exactly that code point's UTF-8 form.
   */
  lemma Utf8Canonical(s: seq<byte>)
    requires |s| > 0 && Utf8Decode(s).cp != Invalid
    ensures Utf8Encode(Utf8Decode(s).cp) == s[..Utf8Decode(s).len]
  {
    var b0 := s[0];
    if b0 < 0x80 {
    } else if 0xC2 <= b0 < 0xE0 && |s| >= 2 && IsCont(s[1]) {
      Utf8Canonical2(s);
    } else if 0xE0 <= b0 < 0xF0 && |s| >= 3 && IsCont(s[1]) && IsCont(s[2]) {
      Utf8Canonical3(s);
    } else {
      Utf8Canonical4(s);
    }
  }

  /** The UTF-8 form of a sequence of code points. */
  function Utf8EncodeAll(cps: seq<nat>): seq<byte>
  {
    if |cps| == 0 then [] else Utf8Encode(cps[0]) + Utf8EncodeAll(cps[1..])
  }

  /** Decodes a whole byte string, one code point after the other. */
  function Utf8DecodeAll(s: seq<byte>): seq<nat>
    decreases |s|
  {
    if |s| == 0 then [] else
      var d := Utf8Decode(s);
      [d.cp] + Utf8DecodeAll(s[d.len..])
  }

  predicate AllScalars(cps: seq<nat>)
  {
    forall i :: 0 <= i < |cps| ==> IsScalar(cps[i])
  }

  /** Decoding the UTF-8 form of scalar values gives them back. */
  lemma {:induction false} Utf8RoundTripAll(cps: seq<nat>)
    requires AllScalars(cps)
    ensures Utf8DecodeAll(Utf8EncodeAll(cps)) == cps
  {
    if |cps| > 0 {
      var e := Utf8Encode(cps[0]);
      var rest := Utf8EncodeAll(cps[1..]);
      Utf8EncodeDecode(cps[0], rest);
      assert (e + rest)[|e|..] == rest;
      Utf8RoundTripAll(cps[1..]);
    }
  }

  // ---------------------------------------------------------------------
  // UTF-16 (RFC 2781 section 2)
  // ---------------------------------------------------------------------

  /** The UTF-16 code units of `cp`, nothing above U+10FFFF. */
  function Utf16Units(cp: nat): (r: seq<nat>)
    ensures |r| <= 2
    ensures forall i :: 0 <= i < |r| ==> r[i] < 0x10000
    ensures cp <= 0x10FFFF <==> |r| > 0
  {
    if cp < 0x10000 then [cp]
    else if cp <= 0x10FFFF then [0xD800 + (cp - 0x10000) / 1024, 0xDC00 + (cp - 0x10000) % 1024]
    else []
  }

  predicate IsHighSurrogate(u: nat)
  {
    0xD800 <= u <= 0xDBFF
  }

  predicate IsLowSurrogate(u: nat)
  {
    0xDC00 <= u <= 0xDFFF
  }

  /** Decodes the code point at the start of a unit sequence and how many units it takes. */
  function Utf16DecodeUnits(u: seq<nat>): (d: Decoded)
    requires |u| > 0
    ensures 1 <= d.len <= |u| && d.len <= 2
  {
    if !(0xD800 <= u[0] <= 0xDFFF) then Decoded(u[0], 1)
    else if IsHighSurrogate(u[0]) && |u| >= 2 && IsLowSurrogate(u[1]) then
      Decoded(0x10000 + (u[0] - 0xD800) * 1024 + (u[1] - 0xDC00), 2)
    else Decoded(Invalid, 1)
  }

  /** Reading back the UTF-16 units of a scalar value gives the value and the unit count. */
  lemma Utf16EncodeDecodeUnits(cp: nat, rest: seq<nat>)
    requires IsScalar(cp)
    ensures Utf16DecodeUnits(Utf16Units(cp) + rest) == Decoded(cp, |Utf16Units(cp)|)
  {
    if cp >= 0x10000 {
      var v := cp - 0x10000;
      assert v == (v / 1024) * 1024 + v % 1024;
    }
  }

  /** A decoded valid code point's units are exactly the units read. */
  lemma Utf16CanonicalUnits(u: seq<nat>)
    requires |u| > 0 && (forall i :: 0 <= i < |u| ==> u[i] < 0x10000)
    requires ValidUnicode(Utf16DecodeUnits(u).cp)
    ensures Utf16Units(Utf16DecodeUnits(u).cp) == u[..Utf16DecodeUnits(u).len]
  {
    if 0xD800 <= u[0] <= 0xDFFF {
      var a, b := u[0] - 0xD800, u[1] - 0xDC00;
      ModUnique(a * 1024 + b, 1024, a, b);
    }
  }

  // ---------------------------------------------------------------------
  // Code units in memory
  // ---------------------------------------------------------------------

  /** An n-byte unit as stored in memory: little- or big-endian. */
  function UnitBytes(v: nat, n: nat, be: bool): (r: seq<byte>)
    ensures |r| == n
  {
    if be then BeBytes(v, n) else LeBytes(v, n)
  }

  /** The value of an n-byte unit read from memory. */
  function UnitValue(s: seq<byte>, be: bool): (r: nat)
    ensures r < Pow256(|s|)
  {
    if be then BeValue(s) else LeValue(s)
  }

  lemma UnitValueOfBytes(v: nat, n: nat, be: bool)
    requires v < Pow256(n)
    ensures UnitValue(UnitBytes(v, n, be), be) == v
  {
    if be {
      BeValueOfBytes(v, n);
    } else {
      LeValueOfBytes(v, n);
    }
    ModUnique(v, Pow256(n), 0, v);
  }

  lemma UnitBytesOfValue(s: seq<byte>, be: bool)
    ensures UnitBytes(UnitValue(s, be), |s|, be) == s
  {
    if be {
      BytesOfBeValue(s);
    } else {
      BytesOfLeValue(s);
    }
  }

  /**
   * `u32::write<be>(c)` is `big_endian<be>(c)`: its object representation on
   * a little-endian host is the little-endian bytes of `c`, reversed when
   * `be` is set.
   */
  lemma Utf32WriteIsBigEndian(cp: nat, be: bool)
    ensures UnitBytes(cp, 4, be) == Bit.BigEndian(LeBytes(cp, 4), be, false)
  {
  }

  /** The UTF-16 form of `cp` in memory: each unit as two bytes. */
  function Utf16Encode(cp: nat, be: bool): (r: seq<byte>)
    ensures |r| == 2 * |Utf16Units(cp)|
  {
    var u := Utf16Units(cp);
    if |u| == 0 then [] else if |u| == 1 then UnitBytes(u[0], 2, be)
    else UnitBytes(u[0], 2, be) + UnitBytes(u[1], 2, be)
  }

  /** The units a UTF-16 reader looks at: the first one, and the second when present. */
  function Utf16UnitsAt(s: seq<byte>, be: bool): (r: seq<nat>)
    requires |s| >= 2
    ensures 1 <= |r| <= 2 && (|r| == 2 <==> |s| >= 4)
    ensures forall i :: 0 <= i < |r| ==> r[i] < 0x10000 && r[i] == UnitValue(s[2 * i..2 * i + 2], be)
  {
    assert Pow256(2) == 0x10000;
    if |s| >= 4 then [UnitValue(s[..2], be), UnitValue(s[2..4], be)] else [UnitValue(s[..2], be)]
  }

  /** `u16::read<be>`: the code point at the start of `s`, two bytes per unit. */
  function Utf16Decode(s: seq<byte>, be: bool): (d: Decoded)
    requires |s| > 0
    ensures 1 <= d.len <= |s|
  {
    if |s| < 2 then Decoded(Invalid, |s|)
    else
      var d := Utf16DecodeUnits(Utf16UnitsAt(s, be));
      Decoded(d.cp, 2 * d.len)
  }

  /** `u32::read<be>`: one 4-byte unit, whatever its value. */
  function Utf32Decode(s: seq<byte>, be: bool): (d: Decoded)
    requires |s| > 0
    ensures 1 <= d.len <= |s|
  {
    if |s| < 4 then Decoded(Invalid, |s|) else Decoded(UnitValue(s[..4], be), 4)
  }

  // ---------------------------------------------------------------------
  // The five encodings a buffer can be rendered in or read from
  // ---------------------------------------------------------------------

  datatype Encoding = Utf8 | Utf16(be: bool) | Utf32(be: bool)

  /** The code units the writer of `enc` produces for `cp`, in memory. */
  function Encode(enc: Encoding, cp: nat): (r: seq<byte>)
    ensures |r| <= 4
  {
    match enc
    case Utf8 => Utf8Encode(cp)
    case Utf16(be) => Utf16Encode(cp, be)
    case Utf32(be) => UnitBytes(cp, 4, be)
  }

  /** The reader of `enc` at the start of `s`. */
  function DecodeChunk(enc: Encoding, s: seq<byte>): (d: Decoded)
    requires |s| > 0
    ensures 1 <= d.len <= |s|
  {
    match enc
    case Utf8 => Utf8Decode(s)
    case Utf16(be) => Utf16Decode(s, be)
    case Utf32(be) => Utf32Decode(s, be)
  }

  /** `factor`: the writers count units, and a unit is 1 << factor bytes. */
  function Factor(enc: Encoding): nat
  {
    match enc
    case Utf8 => 0
    case Utf16(_) => 1
    case Utf32(_) => 2
  }

  /** The unit count a writer returns. */
  function UnitCount(enc: Encoding, cp: nat): nat
  {
    match enc
    case Utf8 => |Utf8Encode(cp)|
    case Utf16(_) => |Utf16Units(cp)|
    case Utf32(_) => 1
  }

  /** `write(codepoint, buf) << factor` is the number of bytes the writer stored. */
  lemma WrittenBytes(enc: Encoding, cp: nat)
    ensures |Encode(enc, cp)| == UnitCount(enc, cp) * Pow2(Factor(enc))
  {
  }

  lemma Utf16EncodeDecode(cp: nat, be: bool, rest: seq<byte>)
    requires IsScalar(cp)
    ensures Utf16Decode(Utf16Encode(cp, be) + rest, be) == Decoded(cp, |Utf16Encode(cp, be)|)
  {
    var u := Utf16Units(cp);
    var s := Utf16Encode(cp, be) + rest;
    assert Pow256(2) == 0x10000;
    UnitValueOfBytes(u[0], 2, be);
    assert s[..2] == UnitBytes(u[0], 2, be);
    var units := Utf16UnitsAt(s, be);
    if |u| == 2 {
      UnitValueOfBytes(u[1], 2, be);
      assert s[2..4] == UnitBytes(u[1], 2, be);
      assert units == u;
      Utf16EncodeDecodeUnits(cp, []);
      assert u + [] == u;
    } else {
      assert units[0] == u[0];
      Utf16EncodeDecodeUnits(cp, units[1..]);
      assert units == u + units[1..];
    }
  }

  /** A valid code point read in `enc` is written back as exactly the bytes read. */
  lemma Utf16Canonical(s: seq<byte>, be: bool)
    requires |s| > 0 && ValidUnicode(Utf16Decode(s, be).cp)
    ensures Utf16Encode(Utf16Decode(s, be).cp, be) == s[..Utf16Decode(s, be).len]
  {
    var units := Utf16UnitsAt(s, be);
    var d := Utf16DecodeUnits(units);
    Utf16CanonicalUnits(units);
    UnitBytesOfValue(s[..2], be);
    if d.len == 2 {
      UnitBytesOfValue(s[2..4], be);
      assert s[..4] == s[..2] + s[2..4];
    }
  }

  /** Writing a valid code point in `enc` and reading it back gives the code point and the length written. */
  lemma EncodeDecode(enc: Encoding, cp: nat, rest: seq<byte>)
    requires ValidUnicode(cp)
    ensures |Encode(enc, cp)| > 0
    ensures DecodeChunk(enc, Encode(enc, cp) + rest) == Decoded(cp, |Encode(enc, cp)|)
  {
    match enc
    case Utf8 => Utf8EncodeDecode(cp, rest);
    case Utf16(be) => Utf16EncodeDecode(cp, be, rest);
    case Utf32(be) =>
      var s := UnitBytes(cp, 4, be) + rest;
      assert s[..4] == UnitBytes(cp, 4, be);
      assert Pow256(4) == 0x1_0000_0000;
      UnitValueOfBytes(cp, 4, be);
  }

  /** Reading a valid code point and writing it back in the same encoding reproduces the bytes read. */
  lemma Canonical(enc: Encoding, s: seq<byte>)
    requires |s| > 0 && ValidUnicode(DecodeChunk(enc, s).cp)
    ensures Encode(enc, DecodeChunk(enc, s).cp) == s[..DecodeChunk(enc, s).len]
  {
    match enc
    case Utf8 => Utf8Canonical(s);
    case Utf16(be) => Utf16Canonical(s, be);
    case Utf32(be) => UnitBytesOfValue(s[..4], be);
  }

  // ---------------------------------------------------------------------
  // u32::read / rread / write on a pointer
  // ---------------------------------------------------------------------

  /**
   * `u32::read<be>(&ptr)`: the unit at `ptr`, endian-corrected, and the
   * pointer advanced by one 4-byte unit.
   */
  method Read32(mem: seq<byte>, ptr: nat, be: bool) returns (cp: nat, next: nat)
    requires ptr + 4 <= |mem|
    ensures cp == UnitValue(mem[ptr..ptr + 4], be) && next == ptr + 4
  {
    cp := UnitValue(mem[ptr..ptr + 4], be);
    next := ptr + 4;
  }

  /** `u32::rread<be>(&ptr)`: the unit at `ptr`, and the pointer moved back one unit. */
  method RRead32(mem: seq<byte>, ptr: nat, be: bool) returns (cp: nat, next: int)
    requires ptr + 4 <= |mem|
    ensures cp == UnitValue(mem[ptr..ptr + 4], be) && next == ptr - 4
  {
    cp := UnitValue(mem[ptr..ptr + 4], be);
    next := ptr - 4;
  }

  /** `u32::write<be>(c)` stored to memory: four bytes. */
  function Write32(cp: nat, be: bool): (r: seq<byte>)
    requires cp < 0x1_0000_0000
    ensures |r| == 4
  {
    UnitBytes(cp, 4, be)
  }

  /** With the same endianness, reading the unit `u32::write` produced returns the code point. */
  lemma Read32OfWrite32(cp: nat, be: bool)
    requires cp < 0x1_0000_0000
    ensures UnitValue(Write32(cp, be), be) == cp
  {
    assert Pow256(4) == 0x1_0000_0000;
    UnitValueOfBytes(cp, 4, be);
  }

  // ---------------------------------------------------------------------
  // String conversions
  // ---------------------------------------------------------------------

  /** `big_endian<be>` applied to a 16-bit unit's value on a little-endian host. */
  function Swap16If(u: nat, be: bool): (r: nat)
    requires u < 0x10000
    ensures r < 0x10000
  {
    if be then (u % 256) * 256 + u / 256 else u
  }

  /** `big_endian<be>` applied to a 32-bit unit's value on a little-endian host. */
  function Swap32If(u: nat, be: bool): nat
  {
    if be then BeValue(LeBytes(u, 4)) else u
  }

  predicate Units16(str: seq<nat>)
  {
    forall i :: 0 <= i < |str| ==> str[i] < 0x10000
  }

  /** `u16::read<be>` at the start of a u16string: one or two units, byte-swapped when `be`. */
  function Read16(str: seq<nat>, be: bool): (d: Decoded)
    requires |str| > 0 && Units16(str)
    ensures 1 <= d.len <= |str|
  {
    var units := if |str| >= 2 then [Swap16If(str[0], be), Swap16If(str[1], be)] else [Swap16If(str[0], be)];
    Utf16DecodeUnits(units)
  }

  /** The code points a u16string holds, read one after the other with `u16::read<be>`. */
  function Decode16(str: seq<nat>, be: bool): seq<nat>
    requires Units16(str)
    decreases |str|
  {
    if |str| == 0 then []
    else
      var d := Read16(str, be);
      [d.cp] + Decode16(str[d.len..], be)
  }

  /** The code points a u32string holds, read with `u32::read<be>`. */
  function Decode32(str: seq<nat>, be: bool): seq<nat>
  {
    if |str| == 0 then [] else [Swap32If(str[0], be)] + Decode32(str[1..], be)
  }

  lemma {:induction false} Utf8EncodeAllAppend(a: seq<nat>, b: seq<nat>)
    ensures Utf8EncodeAll(a + b) == Utf8EncodeAll(a) + Utf8EncodeAll(b)
  {
    if |a| == 0 {
      assert a + b == b;
    } else {
      assert (a + b)[0] == a[0];
      assert (a + b)[1..] == a[1..] + b;
      Utf8EncodeAllAppend(a[1..], b);
    }
  }

  /**
   * `u16::to_string<be>` and `u16::to_8<be>`: read each code point from the
   * u16string and append its UTF-8 form.
   */
  method U16ToString(str: seq<nat>, be: bool) returns (result: seq<byte>)
    requires Units16(str)
    ensures result == Utf8EncodeAll(Decode16(str, be))
  {
    result := [];
    var ptr := 0;
    assert str[0..] == str;
    ghost var total := Utf8EncodeAll(Decode16(str, be));
    while ptr != |str|
      invariant 0 <= ptr <= |str| && Units16(str[ptr..])
      invariant result + Utf8EncodeAll(Decode16(str[ptr..], be)) == total
      decreases |str| - ptr
    {
      ptr, result := U16Next(str, ptr, be, result, total);
    }
  }

  /** One turn of the u16 loop: the code point at ptr read and written in UTF-8. */
  method U16Next(str: seq<nat>, ptr: nat, be: bool, done: seq<byte>, ghost total: seq<byte>) returns (next: nat, out: seq<byte>)
    requires Units16(str) && ptr < |str|
    requires Units16(str[ptr..]) && done + Utf8EncodeAll(Decode16(str[ptr..], be)) == total
    ensures ptr < next <= |str| && Units16(str[next..])
    ensures out + Utf8EncodeAll(Decode16(str[next..], be)) == total
  {
    var d := Read16(str[ptr..], be);
    U16Step(str, ptr, be, done, total);
    out := done + Utf8Encode(d.cp);
    next := ptr + d.len;
  }

  /** Appending the UTF-8 form of the code point read at ptr keeps the text plus the rest of the conversion. */
  lemma U16Step(str: seq<nat>, ptr: nat, be: bool, done: seq<byte>, total: seq<byte>)
    requires Units16(str) && ptr < |str|
    requires Units16(str[ptr..]) && done + Utf8EncodeAll(Decode16(str[ptr..], be)) == total
    ensures var d := Read16(str[ptr..], be);
      ptr + d.len <= |str| && Units16(str[ptr + d.len..]) &&
      (done + Utf8Encode(d.cp)) + Utf8EncodeAll(Decode16(str[ptr + d.len..], be)) == total
  {
    var rest := str[ptr..];
    var d := Read16(rest, be);
    assert rest[d.len..] == str[ptr + d.len..];
    var tail := Decode16(rest[d.len..], be);
    assert Decode16(rest, be) == [d.cp] + tail;
    Utf8EncodeAllAppend([d.cp], tail);
    assert Utf8EncodeAll([d.cp]) == Utf8Encode(d.cp) by {
      assert [d.cp][1..] == [];
    }
  }

  /**
   * `u32::to_string<be>` and `u32::to_8<be>`: read each unit and append its
   * UTF-8 form.
   */
  method U32ToString(str: seq<nat>, be: bool) returns (result: seq<byte>)
    ensures result == Utf8EncodeAll(Decode32(str, be))
  {
    result := [];
    var ptr := 0;
    ghost var total := Utf8EncodeAll(Decode32(str, be));
    assert str[0..] == str;
    while ptr != |str|
      invariant 0 <= ptr <= |str|
      invariant result + Utf8EncodeAll(Decode32(str[ptr..], be)) == total
      decreases |str| - ptr
    {
      result := U32Next(str, ptr, be, result, total);
      ptr := ptr + 1;
    }
  }

  /** One turn of the u32 loop: the unit at ptr, byte-swapped when `be`, written in UTF-8. */
  method U32Next(str: seq<nat>, ptr: nat, be: bool, done: seq<byte>, ghost total: seq<byte>) returns (out: seq<byte>)
    requires ptr < |str| && done + Utf8EncodeAll(Decode32(str[ptr..], be)) == total
    ensures out + Utf8EncodeAll(Decode32(str[ptr + 1..], be)) == total
  {
    var piece := Utf8Encode(Swap32If(str[ptr], be));
    ghost var rest := Utf8EncodeAll(Decode32(str[ptr + 1..], be));
    assert str[ptr..][1..] == str[ptr + 1..];
    assert Utf8EncodeAll(Decode32(str[ptr..], be)) == piece + rest;
    out := done + piece;
    assert out + rest == done + (piece + rest);
  }

  /** Converting u32 text of scalar values to UTF-8 loses nothing: decoding gives the code points back. */
  lemma U32ToStringRoundTrip(str: seq<nat>)
    requires AllScalars(str)
    ensures Utf8DecodeAll(Utf8EncodeAll(Decode32(str, false))) == str
  {
    Decode32Identity(str);
    Utf8RoundTripAll(str);
  }

  lemma {:induction false} Decode32Identity(str: seq<nat>)
    ensures Decode32(str, false) == str
  {
    if |str| > 0 {
      Decode32Identity(str[1..]);
    }
  }

  /**
   * The loop condition of `u32::to_16` as written: `str.data() + str.size()`,
   * a pointer one past a string's characters, converted to bool. It does
   * not mention the loop pointer at all.
   */
  predicate To16GuardAsWritten(data: nat, size: nat)
    requires data > 0
  {
    data + size != 0
  }

  /** The intended loop condition: the loop pointer is before the end of the string. */
  predicate To16Guard(data: nat, size: nat, ptr: nat)
  {
    ptr < data + size
  }

  /** With the pointer at the end of the string the written guard still holds where the intended one fails, so the loop never stops there. */
  lemma To16GuardAsWrittenAtEnd(data: nat, size: nat)
    requires data > 0
    ensures To16GuardAsWritten(data, size) && !To16Guard(data, size, data + size)
  {
  }

  /** The UTF-16 units of `cp`, each stored with `big_endian<be>`. */
  function StoredUnits16(cp: nat, be: bool): (r: seq<nat>)
    ensures |r| == |Utf16Units(cp)|
    ensures forall i :: 0 <= i < |r| ==> r[i] == Swap16If(Utf16Units(cp)[i], be)
  {
    var u := Utf16Units(cp);
    if |u| == 0 then [] else if |u| == 1 then [Swap16If(u[0], be)]
    else [Swap16If(u[0], be), Swap16If(u[1], be)]
  }

  /** The UTF-16 units of a sequence of code points, each stored with `big_endian<be>`. */
  function Utf16UnitsAll(cps: seq<nat>, be: bool): seq<nat>
  {
    if |cps| == 0 then [] else StoredUnits16(cps[0], be) + Utf16UnitsAll(cps[1..], be)
  }

  /**
   * `u32::to_16<srcBe, dstBe>` with the loop stopping at the end of the
   * source: each unit read is inserted as its UTF-16 units.
   */
  method U32ToU16(str: seq<nat>, srcBe: bool, dstBe: bool) returns (result: seq<nat>)
    ensures result == Utf16UnitsAll(Decode32(str, srcBe), dstBe)
  {
    result := [];
    var ptr := 0;
    while ptr != |str|
      invariant 0 <= ptr <= |str|
      invariant result + Utf16UnitsAll(Decode32(str[ptr..], srcBe), dstBe) == Utf16UnitsAll(Decode32(str, srcBe), dstBe)
      decreases |str| - ptr
    {
      var cp := Swap32If(str[ptr], srcBe);
      U32ToU16Step(str, ptr, srcBe, dstBe, result, Utf16UnitsAll(Decode32(str, srcBe), dstBe));
      result := result + StoredUnits16(cp, dstBe);
      ptr := ptr + 1;
    }
    assert str[0..] == str;
  }

  /** Appending the units of the code point at ptr keeps the text plus the rest of the conversion. */
  lemma U32ToU16Step(str: seq<nat>, ptr: nat, srcBe: bool, dstBe: bool, done: seq<nat>, total: seq<nat>)
    requires ptr < |str|
    requires done + Utf16UnitsAll(Decode32(str[ptr..], srcBe), dstBe) == total
    ensures (done + StoredUnits16(Swap32If(str[ptr], srcBe), dstBe)) + Utf16UnitsAll(Decode32(str[ptr + 1..], srcBe), dstBe) == total
  {
    assert str[ptr..][1..] == str[ptr + 1..];
    assert Decode32(str[ptr..], srcBe) == [Swap32If(str[ptr], srcBe)] + Decode32(str[ptr + 1..], srcBe);
  }
}
