/**
 * The text decoder of `buffer::input`: it turns the text the formatter
 * writes back into bytes.
 *
 * The source is one function whose mode loops jump into each other with
 * `goto`; the model names the point the control flow is at:
 *  - Top: the loop of the current encoding (numeric digits, ASCII bytes,
 *    Latin-1 or Unicode code points read as UTF-8);
 *  - Section: inside a `[`, where the digits of the current base are
 *    bytes (`numericSection`);
 *  - Header: after `[[`, reading directives such as `hex` or `utf_8`
 *    (`updateFormatting`).
 * A State records the read position and the current encoding and base.
 * The decoder is specified by the functions Step and Run, and carried out
 * by the method Input, which reads numbers, identifiers and hashes with
 * the same loops as the source.
 */
module Parse {
  import opened Bytes
  import Bit
  import Digits
  import Unicode
  import Fnv
  import BufIo

  // ---------------------------------------------------------------------
  // Directives
  // ---------------------------------------------------------------------

  /** A directive that `updateFormatting` acts on: a base or an encoding. */
  datatype Keyword = SetBase(base: Digits.Base) | SetMode(mode: BufIo.Mode)

  /** The name a directive is spelled with: the formatter's name of the base or encoding. */
  function KeywordText(k: Keyword): (r: seq<byte>)
    ensures 3 <= |r| <= 8
  {
    match k
    case SetBase(b) => BufIo.BaseName(b)
    case SetMode(m) => BufIo.ModeName(m)
  }

  /** The case label of a directive: `ktu::hash("bin")` and so on, evaluated. */
  function Label(k: Keyword): bv64
  {
    match k
    case SetBase(Bin) => 0x0054_1819_134f_de3e
    case SetBase(Oct) => 0x1a35_9f19_21f1_37e9
    case SetBase(Dec) => 0xca9a_1718_f461_dfb3
    case SetBase(Hex) => 0x334a_2419_2fe3_74ca
    case SetMode(Numeric) => 0x4ad5_b305_f1e5_27a8
    case SetMode(Ascii) => 0x3f54_01bc_741d_9310
    case SetMode(Latin1) => 0xbf69_48f2_6cc8_3491
    case SetMode(Unicode(Utf8)) => 0x609d_5877_2afa_9e31
    case SetMode(Unicode(Utf16(be))) => if be then 0x57ce_dc90_6bb0_f9e9 else 0x57f0_d890_6bcd_d983
    case SetMode(Unicode(Utf32(be))) => if be then 0x8775_c481_2078_4dfb else 0x878a_a881_208a_7a71
  }

  /**
   * The switch on the hash of an identifier, its cases in source order:
   * the directive whose label the hash equals, if there is one.
   */
  function Dispatch(h: bv64): (r: Option<Keyword>)
    ensures r.Some? ==> Label(r.value) == h
    ensures r.None? ==> forall k :: Label(k) != h
  {
    if h == Label(SetBase(Digits.Bin)) then Some(SetBase(Digits.Bin))
    else if h == Label(SetBase(Digits.Oct)) then Some(SetBase(Digits.Oct))
    else if h == Label(SetBase(Digits.Dec)) then Some(SetBase(Digits.Dec))
    else if h == Label(SetBase(Digits.Hex)) then Some(SetBase(Digits.Hex))
    else if h == Label(SetMode(BufIo.Numeric)) then Some(SetMode(BufIo.Numeric))
    else if h == Label(SetMode(BufIo.Ascii)) then Some(SetMode(BufIo.Ascii))
    else if h == Label(SetMode(BufIo.Latin1)) then Some(SetMode(BufIo.Latin1))
    else if h == Label(SetMode(BufIo.Unicode(Unicode.Utf8))) then Some(SetMode(BufIo.Unicode(Unicode.Utf8)))
    else if h == Label(SetMode(BufIo.Unicode(Unicode.Utf16(false)))) then Some(SetMode(BufIo.Unicode(Unicode.Utf16(false))))
    else if h == Label(SetMode(BufIo.Unicode(Unicode.Utf16(true)))) then Some(SetMode(BufIo.Unicode(Unicode.Utf16(true))))
    else if h == Label(SetMode(BufIo.Unicode(Unicode.Utf32(false)))) then Some(SetMode(BufIo.Unicode(Unicode.Utf32(false))))
    else if h == Label(SetMode(BufIo.Unicode(Unicode.Utf32(true)))) then Some(SetMode(BufIo.Unicode(Unicode.Utf32(true))))
    else None
  }

  /** The twelve labels are distinct, so no case of the switch shadows another. */
  lemma LabelsDistinct(k1: Keyword, k2: Keyword)
    ensures Label(k1) == Label(k2) ==> k1 == k2
  {
  }

  /** The switch selects each directive by its own label. */
  lemma DispatchLabel(k: Keyword)
    ensures Dispatch(Label(k)) == Some(k)
  {
    var r := Dispatch(Label(k));
    LabelsDistinct(r.value, k);
  }

  /** One more byte of a name: one FNV step from the hash of what came before. */
  lemma HashNext(s: seq<byte>, b: byte, h: bv64, h2: bv64)
    requires Fnv.Hash64(s) == h && Fnv.Step64(h, Fnv.ByteUnit64(b)) == h2
    ensures Fnv.Hash64(s + [b]) == h2
  {
    Fnv.HashSnoc(s, b);
  }

  /** The hash of "bin". */
  lemma HashBin()
    ensures Fnv.Hash64([0x62, 0x69, 0x6E]) == 0x0054_1819_134f_de3e
  {
    var s: seq<byte> := [];
    HashNext(s, 0x62, Fnv.Basis64, 0xaf63_df4c_8601_f1a5);
    HashNext(s + [0x62], 0x69, 0xaf63_df4c_8601_f1a5, 0x08a6_3b07_b54d_dda4);
    HashNext(s + [0x62] + [0x69], 0x6E, 0x08a6_3b07_b54d_dda4, 0x0054_1819_134f_de3e);
    assert s + [0x62] + [0x69] + [0x6E] == [0x62, 0x69, 0x6E];
  }

  /** The hash of "oct". */
  lemma HashOct()
    ensures Fnv.Hash64([0x6F, 0x63, 0x74]) == 0x1a35_9f19_21f1_37e9
  {
    var s: seq<byte> := [];
    HashNext(s, 0x6F, Fnv.Basis64, 0xaf63_e24c_8601_f6be);
    HashNext(s + [0x6F], 0x63, 0xaf63_e24c_8601_f6be, 0x08b0_6507_b556_7987);
    HashNext(s + [0x6F] + [0x63], 0x74, 0x08b0_6507_b556_7987, 0x1a35_9f19_21f1_37e9);
    assert s + [0x6F] + [0x63] + [0x74] == [0x6F, 0x63, 0x74];
  }

  /** The hash of "dec". */
  lemma HashDec()
    ensures Fnv.Hash64([0x64, 0x65, 0x63]) == 0xca9a_1718_f461_dfb3
  {
    var s: seq<byte> := [];
    HashNext(s, 0x64, Fnv.Basis64, 0xaf63_d94c_8601_e773);
    HashNext(s + [0x64], 0x65, 0xaf63_d94c_8601_e773, 0x0891_5307_b53b_aa62);
    HashNext(s + [0x64] + [0x65], 0x63, 0x0891_5307_b53b_aa62, 0xca9a_1718_f461_dfb3);
    assert s + [0x64] + [0x65] + [0x63] == [0x64, 0x65, 0x63];
  }

  /** The hash of "hex". */
  lemma HashHex()
    ensures Fnv.Hash64([0x68, 0x65, 0x78]) == 0x334a_2419_2fe3_74ca
  {
    var s: seq<byte> := [];
    HashNext(s, 0x68, Fnv.Basis64, 0xaf63_e54c_8601_fbd7);
    HashNext(s + [0x68], 0x65, 0xaf63_e54c_8601_fbd7, 0x08ba_5307_b55e_af76);
    HashNext(s + [0x68] + [0x65], 0x78, 0x08ba_5307_b55e_af76, 0x334a_2419_2fe3_74ca);
    assert s + [0x68] + [0x65] + [0x78] == [0x68, 0x65, 0x78];
  }

  /** The hash of "nume", on the way to "numeric". */
  lemma HashNume()
    ensures Fnv.Hash64([0x6E, 0x75, 0x6D, 0x65]) == 0x5b9f_e1ba_5285_2302
  {
    var s: seq<byte> := [];
    HashNext(s, 0x6E, Fnv.Basis64, 0xaf63_e34c_8601_f871);
    HashNext(s + [0x6E], 0x75, 0xaf63_e34c_8601_f871, 0x08b3_3f07_b558_6ecc);
    HashNext(s + [0x6E] + [0x75], 0x6D, 0x08b3_3f07_b558_6ecc, 0x2102_bb19_2543_fb93);
    HashNext(s + [0x6E] + [0x75] + [0x6D], 0x65, 0x2102_bb19_2543_fb93, 0x5b9f_e1ba_5285_2302);
    assert s + [0x6E] + [0x75] + [0x6D] + [0x65] == [0x6E, 0x75, 0x6D, 0x65];
  }

  /** The hash of "numeric". */
  lemma HashNumeric()
    ensures Fnv.Hash64([0x6E, 0x75, 0x6D, 0x65, 0x72, 0x69, 0x63]) == 0x4ad5_b305_f1e5_27a8
  {
    HashNume();
    var s: seq<byte> := [0x6E, 0x75, 0x6D, 0x65];
    HashNext(s, 0x72, 0x5b9f_e1ba_5285_2302, 0x35cf_ff9a_383b_3750);
    HashNext(s + [0x72], 0x69, 0x35cf_ff9a_383b_3750, 0xaba6_8c0d_8c9e_d5db);
    HashNext(s + [0x72] + [0x69], 0x63, 0xaba6_8c0d_8c9e_d5db, 0x4ad5_b305_f1e5_27a8);
    assert s + [0x72] + [0x69] + [0x63] == [0x6E, 0x75, 0x6D, 0x65, 0x72, 0x69, 0x63];
  }

  /** The hash of "ascii". */
  lemma HashAscii()
    ensures Fnv.Hash64([0x61, 0x73, 0x63, 0x69, 0x69]) == 0x3f54_01bc_741d_9310
  {
    var s: seq<byte> := [];
    HashNext(s, 0x61, Fnv.Basis64, 0xaf63_dc4c_8601_ec8c);
    HashNext(s + [0x61], 0x73, 0xaf63_dc4c_8601_ec8c, 0x089c_5507_b545_b54d);
    HashNext(s + [0x61] + [0x73], 0x63, 0x089c_5507_b545_b54d, 0xe759_aa19_0572_dd2a);
    HashNext(s + [0x61] + [0x73] + [0x63], 0x69, 0xe759_aa19_0572_dd2a, 0x9039_4b84_422d_f8d9);
    HashNext(s + [0x61] + [0x73] + [0x63] + [0x69], 0x69, 0x9039_4b84_422d_f8d9, 0x3f54_01bc_741d_9310);
    assert s + [0x61] + [0x73] + [0x63] + [0x69] + [0x69] == [0x61, 0x73, 0x63, 0x69, 0x69];
  }

  /** The hash of "lati", on the way to "latin_1". */
  lemma HashLati()
    ensures Fnv.Hash64([0x6C, 0x61, 0x74, 0x69]) == 0x044c_edad_9050_2135
  {
    var s: seq<byte> := [];
    HashNext(s, 0x6C, Fnv.Basis64, 0xaf63_e14c_8601_f50b);
    HashNext(s + [0x6C], 0x61, 0xaf63_e14c_8601_f50b, 0x08ad_3f07_b554_031e);
    HashNext(s + [0x6C] + [0x61], 0x74, 0x08ad_3f07_b554_031e, 0x1265_8419_1dc1_cd1e);
    HashNext(s + [0x6C] + [0x61] + [0x74], 0x69, 0x1265_8419_1dc1_cd1e, 0x044c_edad_9050_2135);
    assert s + [0x6C] + [0x61] + [0x74] + [0x69] == [0x6C, 0x61, 0x74, 0x69];
  }

  /** The hash of "latin_1". */
  lemma HashLatin1()
    ensures Fnv.Hash64([0x6C, 0x61, 0x74, 0x69, 0x6E, 0x5F, 0x31]) == 0xbf69_48f2_6cc8_3491
  {
    HashLati();
    var s: seq<byte> := [0x6C, 0x61, 0x74, 0x69];
    HashNext(s, 0x6E, 0x044c_edad_9050_2135, 0x9ed9_38ec_3828_ada1);
    HashNext(s + [0x6E], 0x5F, 0x9ed9_38ec_3828_ada1, 0x13c9_b763_6d1f_a69a);
    HashNext(s + [0x6E] + [0x5F], 0x31, 0x13c9_b763_6d1f_a69a, 0xbf69_48f2_6cc8_3491);
    assert s + [0x6E] + [0x5F] + [0x31] == [0x6C, 0x61, 0x74, 0x69, 0x6E, 0x5F, 0x31];
  }

  /** The hash of "utf_", which the five Unicode names share. */
  lemma HashUtf()
    ensures Fnv.Hash64([0x75, 0x74, 0x66, 0x5F]) == 0x844c_8ee4_0692_86b3
  {
    var s: seq<byte> := [];
    HashNext(s, 0x75, Fnv.Basis64, 0xaf63_e84c_8602_00f0);
    HashNext(s + [0x75], 0x74, 0xaf63_e84c_8602_00f0, 0x08c4_3e07_b566_e04c);
    HashNext(s + [0x75] + [0x74], 0x66, 0x08c4_3e07_b566_e04c, 0x4c55_9119_3dce_e75e);
    HashNext(s + [0x75] + [0x74] + [0x66], 0x5F, 0x4c55_9119_3dce_e75e, 0x844c_8ee4_0692_86b3);
    assert s + [0x75] + [0x74] + [0x66] + [0x5F] == [0x75, 0x74, 0x66, 0x5F];
  }

  /** The hash of "utf_8". */
  lemma HashUtf8()
    ensures Fnv.Hash64([0x75, 0x74, 0x66, 0x5F, 0x38]) == 0x609d_5877_2afa_9e31
  {
    HashUtf();
    var s: seq<byte> := [0x75, 0x74, 0x66, 0x5F];
    HashNext(s, 0x38, 0x844c_8ee4_0692_86b3, 0x609d_5877_2afa_9e31);
    assert s + [0x38] == [0x75, 0x74, 0x66, 0x5F, 0x38];
  }

  /** The hash of "utf_16". */
  lemma HashUtf16()
    ensures Fnv.Hash64([0x75, 0x74, 0x66, 0x5F, 0x31, 0x36]) == 0x25dc_d77e_07c0_ab70
  {
    HashUtf();
    var s: seq<byte> := [0x75, 0x74, 0x66, 0x5F];
    HashNext(s, 0x31, 0x844c_8ee4_0692_86b3, 0x609d_4f77_2afa_8ee6);
    HashNext(s + [0x31], 0x36, 0x609d_4f77_2afa_8ee6, 0x25dc_d77e_07c0_ab70);
    assert s + [0x31] + [0x36] == [0x75, 0x74, 0x66, 0x5F, 0x31, 0x36];
  }

  /** The hash of "utf_16le". */
  lemma HashUtf16le()
    ensures Fnv.Hash64([0x75, 0x74, 0x66, 0x5F, 0x31, 0x36, 0x6C, 0x65]) == 0x57f0_d890_6bcd_d983
  {
    HashUtf16();
    var s: seq<byte> := [0x75, 0x74, 0x66, 0x5F, 0x31, 0x36];
    HashNext(s, 0x6C, 0x25dc_d77e_07c0_ab70, 0x16ed_4727_2c62_c094);
    HashNext(s + [0x6C], 0x65, 0x16ed_4727_2c62_c094, 0x57f0_d890_6bcd_d983);
    assert s + [0x6C] + [0x65] == [0x75, 0x74, 0x66, 0x5F, 0x31, 0x36, 0x6C, 0x65];
  }

  /** The hash of "utf_16be". */
  lemma HashUtf16be()
    ensures Fnv.Hash64([0x75, 0x74, 0x66, 0x5F, 0x31, 0x36, 0x62, 0x65]) == 0x57ce_dc90_6bb0_f9e9
  {
    HashUtf16();
    var s: seq<byte> := [0x75, 0x74, 0x66, 0x5F, 0x31, 0x36];
    HashNext(s, 0x62, 0x25dc_d77e_07c0_ab70, 0x16ed_3d27_2c62_af96);
    HashNext(s + [0x62], 0x65, 0x16ed_3d27_2c62_af96, 0x57ce_dc90_6bb0_f9e9);
    assert s + [0x62] + [0x65] == [0x75, 0x74, 0x66, 0x5F, 0x31, 0x36, 0x62, 0x65];
  }

  /** The hash of "utf_32". */
  lemma HashUtf32()
    ensures Fnv.Hash64([0x75, 0x74, 0x66, 0x5F, 0x33, 0x32]) == 0x25d6_537e_07bb_5f76
  {
    HashUtf();
    var s: seq<byte> := [0x75, 0x74, 0x66, 0x5F];
    HashNext(s, 0x33, 0x844c_8ee4_0692_86b3, 0x609d_4d77_2afa_8b80);
    HashNext(s + [0x33], 0x32, 0x609d_4d77_2afa_8b80, 0x25d6_537e_07bb_5f76);
    assert s + [0x33] + [0x32] == [0x75, 0x74, 0x66, 0x5F, 0x33, 0x32];
  }

  /** The hash of "utf_32le". */
  lemma HashUtf32le()
    ensures Fnv.Hash64([0x75, 0x74, 0x66, 0x5F, 0x33, 0x32, 0x6C, 0x65]) == 0x878a_a881_208a_7a71
  {
    HashUtf32();
    var s: seq<byte> := [0x75, 0x74, 0x66, 0x5F, 0x33, 0x32];
    HashNext(s, 0x6C, 0x25d6_537e_07bb_5f76, 0x068e_f927_2362_992e);
    HashNext(s + [0x6C], 0x65, 0x068e_f927_2362_992e, 0x878a_a881_208a_7a71);
    assert s + [0x6C] + [0x65] == [0x75, 0x74, 0x66, 0x5F, 0x33, 0x32, 0x6C, 0x65];
  }

  /** The hash of "utf_32be". */
  lemma HashUtf32be()
    ensures Fnv.Hash64([0x75, 0x74, 0x66, 0x5F, 0x33, 0x32, 0x62, 0x65]) == 0x8775_c481_2078_4dfb
  {
    HashUtf32();
    var s: seq<byte> := [0x75, 0x74, 0x66, 0x5F, 0x33, 0x32];
    HashNext(s, 0x62, 0x25d6_537e_07bb_5f76, 0x068e_f327_2362_8efc);
    HashNext(s + [0x62], 0x65, 0x068e_f327_2362_8efc, 0x8775_c481_2078_4dfb);
    assert s + [0x62] + [0x65] == [0x75, 0x74, 0x66, 0x5F, 0x33, 0x32, 0x62, 0x65];
  }

  /** The runtime hash of each base's name is its case label. */
  lemma BaseLabelIsHash(b: Digits.Base)
    ensures Fnv.Hash64(BufIo.BaseName(b)) == Label(SetBase(b))
  {
    match b
    case Bin => HashBin();
    case Oct => HashOct();
    case Dec => HashDec();
    case Hex => HashHex();
  }

  /** The runtime hash of each Unicode encoding's name is its case label. */
  lemma UnicodeLabelIsHash(enc: Unicode.Encoding)
    ensures Fnv.Hash64(BufIo.ModeName(BufIo.Unicode(enc))) == Label(SetMode(BufIo.Unicode(enc)))
  {
    match enc
    case Utf8 => HashUtf8();
    case Utf16(be) => if be { HashUtf16be(); } else { HashUtf16le(); }
    case Utf32(be) => if be { HashUtf32be(); } else { HashUtf32le(); }
  }

  /** The runtime hash of each directive's name is its case label. */
  lemma LabelIsHash(k: Keyword)
    ensures Fnv.Hash64(KeywordText(k)) == Label(k)
  {
    match k
    case SetBase(b) => BaseLabelIsHash(b);
    case SetMode(Numeric) => HashNumeric();
    case SetMode(Ascii) => HashAscii();
    case SetMode(Latin1) => HashLatin1();
    case SetMode(Unicode(enc)) => UnicodeLabelIsHash(enc);
  }

  /**
   * Every directive's name is an identifier of ASCII letters, digits and
   * `_` that starts with a letter.
   */
  lemma NameShape(k: Keyword)
    ensures Digits.IsVariableStart(KeywordText(k)[0])
    ensures forall i :: 0 <= i < |KeywordText(k)| ==> Digits.IsVariableChar(KeywordText(k)[i]) && KeywordText(k)[i] < 0x80
  {
  }

  /** A directive's name as the `char`s of a string literal, terminator excluded. */
  function LiteralChars(s: seq<byte>): (r: seq<Fnv.schar>)
    requires forall i :: 0 <= i < |s| ==> s[i] < 0x80
    ensures |r| == |s| && forall i :: 0 <= i < |s| ==> r[i] == s[i]
  {
    seq(|s|, i requires 0 <= i < |s| => s[i] as Fnv.schar)
  }

  /**
   * The case labels are hashed on the constant-evaluated path, over the
   * `char`s of the literal; the identifier is hashed at run time over its
   * bytes. Directive names are ASCII, so both give the label.
   */
  lemma LiteralLabel(k: Keyword)
    ensures forall i :: 0 <= i < |KeywordText(k)| ==> KeywordText(k)[i] < 0x80
    ensures Fnv.HashLiteral(LiteralChars(KeywordText(k)) + [0]) == Label(k)
  {
    var s := KeywordText(k);
    NameShape(k);
    var chars := LiteralChars(s);
    Fnv.HashLiteralExcludesTerminator(chars);
    assert Fnv.HashChars64(chars) == Fnv.Hash64(s) by {
      Fnv.PathsAgree(chars, s);
    }
    LabelIsHash(k);
  }

  // ---------------------------------------------------------------------
  // The decoder's state and one step of it
  // ---------------------------------------------------------------------

  /** Where the control flow of the decoder is; see the module comment. */
  datatype Phase = Top | Section | Header

  /** The read position in the text, the current encoding and base, and the phase. */
  datatype State = State(pos: nat, mode: BufIo.Mode, base: Digits.Base, phase: Phase)

  /** The bytes one step appends to the buffer, and the state after it. */
  datatype Stepped = Stepped(out: seq<byte>, next: State)

  /** The two `switch`es on the format word that choose the base and the first loop. */
  function Init(flags: bv64): State
  {
    State(0, BufIo.ModeOf(flags), BufIo.BaseOf(flags), Top)
  }

  /** The decoder has left its last loop: at the end of the text, outside any section. */
  predicate Done(t: seq<byte>, s: State)
  {
    s.phase == Top && s.pos == |t|
  }

  function Rank(p: Phase): nat
  {
    match p
    case Top => 0
    case Section => 1
    case Header => 2
  }

  /** Every step reads a byte, or leaves a section or header at the end of the text. */
  function Measure(t: seq<byte>, s: State): nat
    requires s.pos <= |t|
  {
    3 * (|t| - s.pos) + Rank(s.phase)
  }

  /** `push_back<value_type>`: the buffer's bytes are `uint8_t`, so a wider value is cut to its low byte. */
  function Truncate(v: nat): byte
  {
    v % 256
  }

  /**
   * `push_back<value_type>(readNumeric(ptr, size))`: up to Size(base)
   * digits of the base, their value cut to a byte.
   */
  function Number(t: seq<byte>, s: State): (r: Stepped)
    requires s.pos < |t| && Digits.IsDigit(t[s.pos], s.base)
    ensures s.pos < r.next.pos <= |t| && r.next == s.(pos := r.next.pos)
  {
    var e := Digits.ReadEnd(t, s.pos, s.base, Digits.Size(s.base));
    Stepped([Truncate(Digits.Accumulate(t[s.pos..e], s.base) % Bit.U64)], s.(pos := e))
  }

  /**
   * The characters each text loop keeps: printable ASCII; Latin-1 adds
   * what lies above 0xA0; a Unicode loop keeps everything above 0x1F.
   */
  predicate Kept(mode: BufIo.Mode, c: nat)
  {
    match mode
    case Numeric => false
    case Ascii => 0x1F < c < 0x7F
    case Latin1 => (0x1F < c < 0x7F) || c > 0xA0
    case Unicode(_) => c > 0x1F
  }

  /**
   * How a character is stored: the ASCII and Latin-1 loops push the byte
   * (`writeChar`), a Unicode loop stores what the writer of its encoding
   * writes.
   */
  function Written(mode: BufIo.Mode, c: nat): (r: seq<byte>)
    requires !mode.Unicode? ==> c < 256
    ensures !mode.Unicode? ==> r == [c as byte]
  {
    if mode.Unicode? then Unicode.Encode(mode.enc, c) else [c as byte]
  }

  /**
   * The character after a backslash: it is read as UTF-8 (cut to a
   * `char` outside the Unicode loop) and stored only if it is `[` or `\`.
   * A backslash that ends the text is not modelled past: the decoder stops.
   */
  function Escaped(t: seq<byte>, s: State, i: nat): (r: Stepped)
    requires s.pos < i <= |t|
    ensures s.pos < r.next.pos <= |t| && r.next == s.(pos := r.next.pos)
  {
    if i == |t| then Stepped([], s.(pos := i))
    else
      var d := Unicode.Utf8Decode(t[i..]);
      var c := if s.mode.Unicode? then d.cp else d.cp % 256;
      Stepped(if c == 0x5B || c == 0x5C then Written(s.mode, c) else [], s.(pos := i + d.len))
  }

  /**
   * One character `c` of a text loop, read from `s.pos` up to `next`:
   * `[` opens a section, `\` escapes, a newline is stored as a space,
   * a kept character is stored and anything else is dropped.
   */
  function Character(t: seq<byte>, s: State, c: nat, next: nat): (r: Stepped)
    requires s.phase == Top && s.pos < next <= |t|
    requires !s.mode.Unicode? ==> c < 256
    ensures s.pos < r.next.pos <= |t| && r.next.phase != Header
  {
    if c == 0x5B then Stepped([], s.(pos := next, phase := Section))
    else if c == 0x5C then Escaped(t, s, next)
    else if c == 0x0A then Stepped(Written(s.mode, 0x20), s.(pos := next))
    else if Kept(s.mode, c) then Stepped(Written(s.mode, c), s.(pos := next))
    else Stepped([], s.(pos := next))
  }

  /**
   * One pass of the loop of the current encoding. The numeric loop reads
   * a number where a digit of the base starts and skips everything else;
   * the ASCII loop reads a byte, the Latin-1 loop a UTF-8 code point cut to
   * a `char`, a Unicode loop a whole code point.
   */
  function TopStep(t: seq<byte>, s: State): (r: Stepped)
    requires s.phase == Top && s.pos < |t|
    ensures s.pos < r.next.pos <= |t| && r.next.phase != Header
  {
    var p := s.pos;
    match s.mode
    case Numeric =>
      if Digits.IsDigit(t[p], s.base) then Number(t, s)
      else if t[p] == 0x5B then Stepped([], s.(pos := p + 1, phase := Section))
      else Stepped([], s.(pos := p + 1))
    case Ascii => Character(t, s, t[p], p + 1)
    case Latin1 =>
      var d := Unicode.Utf8Decode(t[p..]);
      Character(t, s, d.cp % 256, p + d.len)
    case Unicode(_) =>
      var d := Unicode.Utf8Decode(t[p..]);
      Character(t, s, d.cp, p + d.len)
  }

  /**
   * One pass of `numericSection`: outside the numeric loop a digit starts
   * a number; otherwise the byte is consumed, `]` closes the section and
   * `[` opens a header. The end of the text ends the section.
   */
  function SectionStep(t: seq<byte>, s: State): (r: Stepped)
    requires s.phase == Section && s.pos <= |t|
    ensures r.next.pos <= |t| && Measure(t, r.next) < Measure(t, s)
  {
    if s.pos == |t| then Stepped([], s.(phase := Top))
    else
      var v := t[s.pos];
      if !s.mode.Numeric? && Digits.IsDigit(v, s.base) then Number(t, s)
      else if v == 0x5D then Stepped([], s.(pos := s.pos + 1, phase := Top))
      else if v == 0x5B then Stepped([], s.(pos := s.pos + 1, phase := Header))
      else Stepped([], s.(pos := s.pos + 1))
  }

  /** The state a directive leaves: a base replaces the base, an encoding the encoding. */
  function Apply(s: State, k: Option<Keyword>): (r: State)
    ensures r.pos == s.pos && r.phase == s.phase
  {
    match k
    case None => s
    case Some(SetBase(b)) => s.(base := b)
    case Some(SetMode(m)) => s.(mode := m)
  }

  /**
   * One pass of `updateFormatting`: bytes that cannot start an identifier
   * are skipped, `]` among them closing the header; an identifier is read
   * and dispatched on its hash. A new encoding re-enters the header from
   * the new loop, so the header goes on either way. The end of the text
   * ends the header.
   */
  function HeaderStep(t: seq<byte>, s: State): (r: Stepped)
    requires s.phase == Header && s.pos <= |t|
    ensures r.next.pos <= |t| && Measure(t, r.next) < Measure(t, s)
  {
    if s.pos == |t| then Stepped([], s.(phase := Section))
    else
      var v := t[s.pos];
      if !Digits.IsVariableStart(v) then
        Stepped([], s.(pos := s.pos + 1, phase := if v == 0x5D then Section else Header))
      else
        var e := Digits.VariableEnd(t, s.pos);
        Stepped([], Apply(s.(pos := e), Dispatch(Fnv.Hash64(t[s.pos..e]))))
  }

  function Step(t: seq<byte>, s: State): (r: Stepped)
    requires s.pos <= |t| && !Done(t, s)
    ensures r.next.pos <= |t| && Measure(t, r.next) < Measure(t, s)
  {
    match s.phase
    case Top => TopStep(t, s)
    case Section => SectionStep(t, s)
    case Header => HeaderStep(t, s)
  }

  /** Everything the decoder appends from state `s` to the end. */
  function Run(t: seq<byte>, s: State): seq<byte>
    requires s.pos <= |t|
    decreases Measure(t, s)
  {
    if Done(t, s) then [] else Step(t, s).out + Run(t, Step(t, s).next)
  }

  /** `buffer::input(text, flags)`: the bytes the decoder appends. */
  function Decode(t: seq<byte>, flags: bv64): seq<byte>
  {
    Run(t, Init(flags))
  }

  // ---------------------------------------------------------------------
  // What the decoder promises about plain text
  // ---------------------------------------------------------------------

  /** Text the ASCII loop copies: printable characters other than `[` and `\`, and newlines. */
  predicate Plain(c: byte)
  {
    (0x20 <= c < 0x7F && c != 0x5B && c != 0x5C) || c == 0x0A
  }

  /** The text with each newline replaced by a space. */
  function Spaced(t: seq<byte>): (r: seq<byte>)
    ensures |r| == |t|
    ensures forall i :: 0 <= i < |t| ==> r[i] == (if t[i] == 0x0A then 0x20 else t[i])
  {
    seq(|t|, i requires 0 <= i < |t| => if t[i] == 0x0A then 0x20 else t[i])
  }

  /** One plain byte in the ASCII loop: stored, a newline as a space, and the loop goes on. */
  lemma AsciiPlainStep(t: seq<byte>, s: State)
    requires s.phase == Top && s.mode == BufIo.Ascii && s.pos < |t| && Plain(t[s.pos])
    ensures Step(t, s) == Stepped([if t[s.pos] == 0x0A then 0x20 else t[s.pos]], s.(pos := s.pos + 1))
  {
    assert TopStep(t, s) == Character(t, s, t[s.pos], s.pos + 1);
  }

  /** The ASCII loop stores plain text as it is, with newlines turned into spaces. */
  lemma {:induction false} AsciiPlain(t: seq<byte>, s: State)
    requires s.phase == Top && s.mode == BufIo.Ascii && s.pos <= |t|
    requires forall i :: s.pos <= i < |t| ==> Plain(t[i])
    ensures Run(t, s) == Spaced(t[s.pos..])
    decreases |t| - s.pos
  {
    if s.pos < |t| {
      var next := s.(pos := s.pos + 1);
      AsciiPlainStep(t, s);
      assert Run(t, s) == Step(t, s).out + Run(t, next);
      AsciiPlain(t, next);
      assert Spaced(t[s.pos..]) == Step(t, s).out + Spaced(t[s.pos + 1..]);
    }
  }

  /** A backslash before `[` or `\` in a text loop stores that character and nothing else. */
  lemma EscapeStores(t: seq<byte>, s: State)
    requires s.phase == Top && s.pos + 1 < |t| && !s.mode.Numeric?
    requires t[s.pos] == 0x5C && (t[s.pos + 1] == 0x5B || t[s.pos + 1] == 0x5C)
    ensures Step(t, s) == Stepped(Written(s.mode, t[s.pos + 1]), s.(pos := s.pos + 2))
  {
    assert Unicode.Utf8Decode(t[s.pos..]) == Unicode.Decoded(0x5C, 1);
    assert Unicode.Utf8Decode(t[s.pos + 1..]) == Unicode.Decoded(t[s.pos + 1], 1);
  }

  /** A directive's name followed by a byte that cannot continue an identifier is read whole. */
  lemma NameEnd(t: seq<byte>, i: nat, k: Keyword)
    requires i + |KeywordText(k)| <= |t| && t[i..i + |KeywordText(k)|] == KeywordText(k)
    requires !Digits.IsVariableChar(Digits.At(t, i + |KeywordText(k)|))
    ensures Digits.IsVariableStart(t[i])
    ensures Digits.VariableEnd(t, i) == i + |KeywordText(k)|
  {
    var n := |KeywordText(k)|;
    NameShape(k);
    assert t[i] == KeywordText(k)[0];
    forall j | i <= j < i + n
      ensures Digits.IsVariableChar(t[j])
    {
      assert t[j] == KeywordText(k)[j - i];
    }
    VariableRunTo(t, i, i + n);
  }

  /** The switch on the hash of a directive's name selects that directive. */
  lemma DispatchName(k: Keyword, name: seq<byte>)
    requires name == KeywordText(k)
    ensures Dispatch(Fnv.Hash64(name)) == Some(k)
  {
    LabelIsHash(k);
    DispatchLabel(k);
  }

  /** A header step on an identifier reads it whole and dispatches on its hash. */
  lemma HeaderIdentifier(t: seq<byte>, s: State, e: nat, d: Option<Keyword>)
    requires s.phase == Header && s.pos < |t| && Digits.IsVariableStart(t[s.pos])
    requires e == Digits.VariableEnd(t, s.pos) && d == Dispatch(Fnv.Hash64(t[s.pos..e]))
    ensures Step(t, s) == Stepped([], Apply(s.(pos := e), d))
  {
  }

  /**
   * A directive's name followed by a byte that cannot continue an
   * identifier switches the state to that base or encoding and moves past
   * the name.
   */
  lemma DirectiveSwitches(t: seq<byte>, s: State, k: Keyword)
    requires s.phase == Header && s.pos + |KeywordText(k)| <= |t|
    requires t[s.pos..s.pos + |KeywordText(k)|] == KeywordText(k)
    requires !Digits.IsVariableChar(Digits.At(t, s.pos + |KeywordText(k)|))
    ensures Step(t, s) == Stepped([], Apply(s.(pos := s.pos + |KeywordText(k)|), Some(k)))
  {
    var e := s.pos + |KeywordText(k)|;
    NameEnd(t, s.pos, k);
    DispatchName(k, t[s.pos..e]);
    HeaderIdentifier(t, s, e, Some(k));
  }

  /** An identifier run that stops at `j` ends there. */
  lemma {:induction false} VariableRunTo(t: seq<byte>, i: nat, j: nat)
    requires i <= j <= |t|
    requires forall k :: i <= k < j ==> Digits.IsVariableChar(t[k])
    requires !Digits.IsVariableChar(Digits.At(t, j))
    ensures Digits.VariableRun(t, i) == j
    decreases j - i
  {
    if i < j {
      VariableRunTo(t, i + 1, j);
    }
  }

  // ---------------------------------------------------------------------
  // The decoder as the source runs it
  // ---------------------------------------------------------------------

  /** `push_back<value_type>(readNumeric(ptr, size))`. */
  method ReadNumber(t: seq<byte>, s: State) returns (r: Stepped)
    requires s.pos < |t| && Digits.IsDigit(t[s.pos], s.base)
    ensures r == Number(t, s)
  {
    var value, j := Digits.ReadNumeric(t, s.pos, s.base, Digits.Size(s.base));
    r := Stepped([Truncate(value)], s.(pos := j));
  }

  /** One pass of `updateFormatting`'s loop: skip a byte, or read and dispatch an identifier. */
  method HeaderOnce(t: seq<byte>, s: State) returns (r: Stepped)
    requires s.phase == Header && s.pos <= |t|
    ensures r == HeaderStep(t, s)
  {
    if s.pos == |t| {
      return Stepped([], s.(phase := Section));
    }
    var v := t[s.pos];
    if !Digits.IsVariableStart(v) {
      return Stepped([], s.(pos := s.pos + 1, phase := if v == 0x5D then Section else Header));
    }
    var e := Digits.ReadVariable(t, s.pos);
    var h := Fnv.HashLoop(t[s.pos..e]);
    r := Stepped([], Apply(s.(pos := e), Dispatch(h)));
  }

  /** One pass of `numericSection`'s loop. */
  method SectionOnce(t: seq<byte>, s: State) returns (r: Stepped)
    requires s.phase == Section && s.pos <= |t|
    ensures r == SectionStep(t, s)
  {
    if s.pos == |t| {
      return Stepped([], s.(phase := Top));
    }
    var v := t[s.pos];
    if !s.mode.Numeric? && Digits.IsDigit(v, s.base) {
      r := ReadNumber(t, s);
    } else if v == 0x5D {
      r := Stepped([], s.(pos := s.pos + 1, phase := Top));
    } else if v == 0x5B {
      r := Stepped([], s.(pos := s.pos + 1, phase := Header));
    } else {
      r := Stepped([], s.(pos := s.pos + 1));
    }
  }

  /** One pass of the loop of the current encoding. */
  method TopOnce(t: seq<byte>, s: State) returns (r: Stepped)
    requires s.phase == Top && s.pos < |t|
    ensures r == TopStep(t, s)
  {
    if s.mode.Numeric? {
      var v := t[s.pos];
      if Digits.IsDigit(v, s.base) {
        r := ReadNumber(t, s);
      } else if v == 0x5B {
        r := Stepped([], s.(pos := s.pos + 1, phase := Section));
      } else {
        r := Stepped([], s.(pos := s.pos + 1));
      }
    } else if s.mode.Ascii? {
      r := Character(t, s, t[s.pos], s.pos + 1);
    } else {
      var d := Unicode.Utf8Decode(t[s.pos..]);
      var c := if s.mode.Latin1? then d.cp % 256 else d.cp;
      r := Character(t, s, c, s.pos + d.len);
    }
  }

  /** The state after one step, and the bytes it appends, as the loops compute them. */
  method StepOnce(t: seq<byte>, s: State) returns (r: Stepped)
    requires s.pos <= |t| && !Done(t, s)
    ensures r == Step(t, s)
  {
    match s.phase
    case Top => r := TopOnce(t, s);
    case Section => r := SectionOnce(t, s);
    case Header => r := HeaderOnce(t, s);
  }

  /** Appending one step's bytes keeps the rest of the run ahead. */
  lemma RunStep(t: seq<byte>, s: State, done: seq<byte>, total: seq<byte>)
    requires s.pos <= |t| && !Done(t, s) && done + Run(t, s) == total
    ensures (done + Step(t, s).out) + Run(t, Step(t, s).next) == total
  {
  }

  /** `buffer::input(ptr, ssize, flags)`: the bytes appended are the decoding of the text. */
  method Input(t: seq<byte>, flags: bv64) returns (out: seq<byte>)
    ensures out == Decode(t, flags)
  {
    var s := Init(flags);
    out := [];
    while !(s.phase == Top && s.pos == |t|)
      invariant s.pos <= |t|
      invariant out + Run(t, s) == Decode(t, flags)
      decreases Measure(t, s)
    {
      var r := StepOnce(t, s);
      RunStep(t, s, out, Decode(t, flags));
      out := out + r.out;
      s := r.next;
    }
  }
}
