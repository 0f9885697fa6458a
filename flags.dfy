/**
 * The `buf_io` flag word of `ktu/ios.hpp` and the manipulators of
 * `src/ios.cpp` that update it.
 *
 * The word is the stream's `long` slot (64 bits). The enumerators are
 * 32-bit unsigned (`fmt` is bit 31), so `~field` is computed in 32 bits and
 * zero-extended: every manipulator also clears bits 32 to 63, which no
 * reader of the word looks at.
 */
module BufIo {
  import opened Bytes
  import Digits
  import Unicode

  const BaseField: bv64 := 0x3
  const HexValue: bv64 := 0x0
  const DecValue: bv64 := 0x1
  const OctValue: bv64 := 0x2
  const BinValue: bv64 := 0x3

  const EncodingField: bv64 := 0x1C
  const NumericValue: bv64 := 0x00
  const AsciiValue: bv64 := 0x04
  const Latin1Value: bv64 := 0x08
  const Utf8Value: bv64 := 0x0C
  const Utf16leValue: bv64 := 0x10
  const Utf16beValue: bv64 := 0x14
  const Utf32leValue: bv64 := 0x18
  const Utf32beValue: bv64 := 0x1C

  const ZfillField: bv64 := 0x20
  const ZfillValue: bv64 := 0x0
  const NozfillValue: bv64 := 0x20

  const FmtinfoField: bv64 := 0x40
  const NofmtinfoValue: bv64 := 0x0
  const FmtinfoValue: bv64 := 0x40

  const EosField: bv64 := 0x80
  const EndlValue: bv64 := 0x0
  const EndfValue: bv64 := 0x80

  const FmtField: bv64 := 0x8000_0000
  const NofmtValue: bv64 := 0x0
  const FmtValue: bv64 := 0x8000_0000

  /** The encodings a buffer is rendered in. */
  datatype Mode = Numeric | Ascii | Latin1 | Unicode(enc: Unicode.Encoding)

  /** The name of an encoding, as the formatter writes it and the decoder's keywords spell it. */
  function ModeName(m: Mode): (r: seq<byte>)
    ensures 5 <= |r| <= 8
  {
    match m
    case Numeric => [0x6E, 0x75, 0x6D, 0x65, 0x72, 0x69, 0x63] // "numeric"
    case Ascii => [0x61, 0x73, 0x63, 0x69, 0x69] // "ascii"
    case Latin1 => [0x6C, 0x61, 0x74, 0x69, 0x6E, 0x5F, 0x31] // "latin_1"
    case Unicode(Utf8) => [0x75, 0x74, 0x66, 0x5F, 0x38] // "utf_8"
    case Unicode(Utf16(be)) => if be then [0x75, 0x74, 0x66, 0x5F, 0x31, 0x36, 0x62, 0x65] else [0x75, 0x74, 0x66, 0x5F, 0x31, 0x36, 0x6C, 0x65] // "utf_16be", "utf_16le"
    case Unicode(Utf32(be)) => if be then [0x75, 0x74, 0x66, 0x5F, 0x33, 0x32, 0x62, 0x65] else [0x75, 0x74, 0x66, 0x5F, 0x33, 0x32, 0x6C, 0x65] // "utf_32be", "utf_32le"
  }

  /** The name of a base. */
  function BaseName(b: Digits.Base): (r: seq<byte>)
    ensures |r| == 3
  {
    match b
    case Bin => [0x62, 0x69, 0x6E] // "bin"
    case Oct => [0x6F, 0x63, 0x74] // "oct"
    case Dec => [0x64, 0x65, 0x63] // "dec"
    case Hex => [0x68, 0x65, 0x78] // "hex"
  }

  /** The field a manipulator sets, and the value it puts there. */
  datatype Manipulator =
    | SetBase(base: Digits.Base)
    | SetMode(mode: Mode)
    | Zfill | Nozfill
    | Fmtinfo | Nofmtinfo
    | Endl | Endf
    | Fmt | Nofmt

  function BaseValue(b: Digits.Base): bv64
  {
    match b
    case Hex => HexValue
    case Dec => DecValue
    case Oct => OctValue
    case Bin => BinValue
  }

  function ModeValue(m: Mode): bv64
  {
    match m
    case Numeric => NumericValue
    case Ascii => AsciiValue
    case Latin1 => Latin1Value
    case Unicode(Utf8) => Utf8Value
    case Unicode(Utf16(be)) => if be then Utf16beValue else Utf16leValue
    case Unicode(Utf32(be)) => if be then Utf32beValue else Utf32leValue
  }

  function FieldOf(m: Manipulator): bv64
  {
    match m
    case SetBase(_) => BaseField
    case SetMode(_) => EncodingField
    case Zfill => ZfillField
    case Nozfill => ZfillField
    case Fmtinfo => FmtinfoField
    case Nofmtinfo => FmtinfoField
    case Endl => EosField
    case Endf => EosField
    case Fmt => FmtField
    case Nofmt => FmtField
  }

  /** The value a manipulator ORs in; `zfill`, `nofmtinfo`, `endl` and `nofmt` OR nothing. */
  function ValueOf(m: Manipulator): bv64
  {
    match m
    case SetBase(b) => BaseValue(b)
    case SetMode(e) => ModeValue(e)
    case Zfill => ZfillValue
    case Nozfill => NozfillValue
    case Fmtinfo => FmtinfoValue
    case Nofmtinfo => NofmtinfoValue
    case Endl => EndlValue
    case Endf => EndfValue
    case Fmt => FmtValue
    case Nofmt => NofmtValue
  }

  /** Whether a manipulator only clears its field. */
  predicate ClearsOnly(m: Manipulator)
  {
    m.Zfill? || m.Nofmtinfo? || m.Endl? || m.Nofmt?
  }

  /** `~field` of a 32-bit unsigned enumerator, zero-extended to the `long` word. */
  function Complement(field: bv64): bv64
  {
    !field & 0xFFFF_FFFF
  }

  /** The six fields of the word. */
  predicate IsField(f: bv64)
  {
    f == BaseField || f == EncodingField || f == ZfillField
    || f == FmtinfoField || f == EosField || f == FmtField
  }

  /** Two different fields of the word share no bit. */
  lemma FieldsDisjoint(a: bv64, b: bv64)
    requires IsField(a) && IsField(b) && a != b
    ensures a & b == 0
  {
  }

  /** Every named value lies inside its field. */
  lemma ValuesInsideFields(m: Manipulator)
    ensures ValueOf(m) & !FieldOf(m) == 0
  {
    var v, f := ValueOf(m), FieldOf(m);
    match m
    case SetBase(b) => BaseValueInside(b);
    case SetMode(e) => ModeValueInside(e);
    case Zfill => assert v & !f == 0;
    case Nozfill => assert v & !f == 0;
    case Fmtinfo => assert v & !f == 0;
    case Nofmtinfo => assert v & !f == 0;
    case Endl => assert v & !f == 0;
    case Endf => assert v & !f == 0;
    case Fmt => assert v & !f == 0;
    case Nofmt => assert v & !f == 0;
  }

  /** Every manipulator sets one of the six fields. */
  lemma FieldOfIsField(m: Manipulator)
    ensures IsField(FieldOf(m))
  {
  }

  lemma BaseValueInside(b: Digits.Base)
    ensures BaseValue(b) & !BaseField == 0
  {
    match b
    case Hex =>
    case Dec =>
    case Oct =>
    case Bin =>
  }

  lemma ModeValueInside(m: Mode)
    ensures ModeValue(m) & !EncodingField == 0
  {
    match m
    case Numeric =>
    case Ascii =>
    case Latin1 =>
    case Unicode(Utf8) =>
    case Unicode(Utf16(be)) =>
    case Unicode(Utf32(be)) =>
  }

  /** The documented defaults (hex, numeric, zfill, nofmtinfo, endl, nofmt) are all 0. */
  lemma DefaultsAreZero()
    ensures BaseValue(Digits.Hex) == 0 && ModeValue(Numeric) == 0
    ensures ZfillValue == 0 && NofmtinfoValue == 0 && EndlValue == 0 && NofmtValue == 0
  {
  }

  /** The base in the word. */
  function BaseOf(flags: bv64): (b: Digits.Base)
    ensures BaseValue(b) == flags & BaseField
  {
    var v := flags & BaseField;
    if v == HexValue then Digits.Hex
    else if v == DecValue then Digits.Dec
    else if v == OctValue then Digits.Oct
    else Digits.Bin
  }

  /** The encoding in the word. */
  function ModeOf(flags: bv64): (m: Mode)
    ensures ModeValue(m) == flags & EncodingField
  {
    var v := flags & EncodingField;
    if v == NumericValue then Numeric
    else if v == AsciiValue then Ascii
    else if v == Latin1Value then Latin1
    else if v == Utf8Value then Unicode(Unicode.Utf8)
    else if v == Utf16leValue then Unicode(Unicode.Utf16(false))
    else if v == Utf16beValue then Unicode(Unicode.Utf16(true))
    else if v == Utf32leValue then Unicode(Unicode.Utf32(false))
    else Unicode(Unicode.Utf32(true))
  }

  /** Four bases in two bits and eight encodings in three: distinct values, read back unchanged. */
  lemma ValuesDistinct(b1: Digits.Base, b2: Digits.Base, m1: Mode, m2: Mode)
    ensures BaseValue(b1) == BaseValue(b2) ==> b1 == b2
    ensures ModeValue(m1) == ModeValue(m2) ==> m1 == m2
    ensures BaseOf(BaseValue(b1)) == b1 && ModeOf(ModeValue(m1)) == m1
  {
  }

  predicate IsNozfill(flags: bv64)
  {
    flags & NozfillValue != 0
  }

  predicate IsFmtinfo(flags: bv64)
  {
    flags & FmtinfoValue != 0
  }

  predicate IsFmt(flags: bv64)
  {
    flags & FmtValue != 0
  }

  /** `iword(manipFlagId) &= ~field; iword(manipFlagId) |= value`. */
  function Apply(flags: bv64, m: Manipulator): (r: bv64)
  {
    (flags & Complement(FieldOf(m))) | ValueOf(m)
  }

  /**
   * A manipulator leaves its value in its field, every other field as it
   * was, and bits 32 to 63 clear.
   */
  lemma ApplySetsOnlyItsField(flags: bv64, m: Manipulator, other: bv64)
    requires IsField(other) && other != FieldOf(m)
    ensures Apply(flags, m) & FieldOf(m) == ValueOf(m)
    ensures Apply(flags, m) & other == flags & other
    ensures Apply(flags, m) & 0xFFFF_FFFF_0000_0000 == 0
    ensures ClearsOnly(m) ==> Apply(flags, m) & FieldOf(m) == 0
  {
    ValuesInsideFields(m);
    FieldOfIsField(m);
    var f := FieldOf(m);
    assert other & f == 0 by {
      FieldsDisjoint(other, f);
    }
    SetField(flags, f, ValueOf(m), other);
  }

  /** Clearing a 32-bit field and ORing in a value inside it. */
  lemma SetField(flags: bv64, field: bv64, value: bv64, other: bv64)
    requires value & !field == 0 && other & field == 0
    requires field & 0xFFFF_FFFF_0000_0000 == 0 && other & 0xFFFF_FFFF_0000_0000 == 0
    ensures ((flags & Complement(field)) | value) & field == value
    ensures ((flags & Complement(field)) | value) & other == flags & other
    ensures ((flags & Complement(field)) | value) & 0xFFFF_FFFF_0000_0000 == 0
  {
  }

  /** `bin`, `oct`, `dec`, `hex` select the base and keep the encoding. */
  lemma ApplyBase(flags: bv64, b: Digits.Base)
    ensures BaseOf(Apply(flags, SetBase(b))) == b
    ensures ModeOf(Apply(flags, SetBase(b))) == ModeOf(flags)
  {
    var r := Apply(flags, SetBase(b));
    ApplySetsOnlyItsField(flags, SetBase(b), EncodingField);
    ValuesDistinct(BaseOf(r), b, ModeOf(r), ModeOf(flags));
  }

  /** The encoding manipulators select the encoding and keep the base. */
  lemma ApplyMode(flags: bv64, e: Mode)
    ensures ModeOf(Apply(flags, SetMode(e))) == e
    ensures BaseOf(Apply(flags, SetMode(e))) == BaseOf(flags)
  {
    var r := Apply(flags, SetMode(e));
    ApplySetsOnlyItsField(flags, SetMode(e), BaseField);
    ValuesDistinct(BaseOf(r), BaseOf(flags), ModeOf(r), e);
  }

  /** The one-bit manipulators set or clear their bit. */
  lemma ApplySwitch(flags: bv64, m: Manipulator)
    requires !m.SetBase? && !m.SetMode?
    ensures m == Nozfill ==> IsNozfill(Apply(flags, m))
    ensures m == Zfill ==> !IsNozfill(Apply(flags, m))
    ensures m == Fmtinfo ==> IsFmtinfo(Apply(flags, m))
    ensures m == Nofmtinfo ==> !IsFmtinfo(Apply(flags, m))
    ensures m == Fmt ==> IsFmt(Apply(flags, m))
    ensures m == Nofmt ==> !IsFmt(Apply(flags, m))
  {
    ApplySetsOnlyItsField(flags, m, BaseField);
  }

  /** The stream state the manipulators and `setgrouping` write to. */
  class StreamState {
    var flags: bv64
    var grouping: nat

    constructor ()
      ensures flags == 0 && grouping == 0
    {
      flags := 0;
      grouping := 0;
    }

    /** A manipulator applied to the stream: two in-place updates of the flag word. */
    method Manipulate(m: Manipulator)
      modifies this
      ensures flags == Apply(old(flags), m) && grouping == old(grouping)
    {
      flags := flags & Complement(FieldOf(m));
      flags := flags | ValueOf(m);
    }

    /** `os << setgrouping(n)`: the number of bytes between spaces, 0 for none. */
    method SetGrouping(n: nat)
      modifies this
      ensures grouping == n && flags == old(flags)
    {
      grouping := n;
    }
  }
}
