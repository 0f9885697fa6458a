/**
 * The decoder reads back what the formatter writes: with `fmt` on,
 * `buffer::input` applied to the text `os << buf_io::output(buf)` writes,
 * under the same format word, appends exactly the buffer's bytes.
 *
 * The proof follows the output piece by piece (the `[[...]]` header, a
 * run of digits, a literal character, a bracket) and shows what the
 * decoder's steps make of each piece, read from a position in the whole
 * text.
 */
module RoundTrip {
  import opened Bytes
  import Bit
  import Digits
  import Unicode
  import BufIo
  import Format
  import Parse

  // ---------------------------------------------------------------------
  // Pieces of the text
  // ---------------------------------------------------------------------

  /** A piece x + y at position p of t holds x at p and y right after it. */
  lemma Split(t: seq<byte>, p: nat, x: seq<byte>, y: seq<byte>)
    requires p + |x| + |y| <= |t| && t[p..p + |x| + |y|] == x + y
    ensures t[p..p + |x|] == x && t[p + |x|..p + |x| + |y|] == y
  {
    assert t[p..p + |x|] == t[p..p + |x| + |y|][..|x|];
    assert t[p + |x|..p + |x| + |y|] == t[p..p + |x| + |y|][|x|..];
  }

  /** Three pieces x, y, z at p: x at p, z after y, and y's first byte right after x. */
  lemma Split3(t: seq<byte>, p: nat, x: seq<byte>, y: seq<byte>, z: seq<byte>)
    requires p + |x| + |y| + |z| <= |t| && t[p..p + |x| + |y| + |z|] == x + (y + z)
    ensures t[p..p + |x|] == x && t[p + |x| + |y|..p + |x| + |y| + |z|] == z
    ensures y != [] ==> t[p + |x|] == y[0]
  {
    Split(t, p, x, y + z);
    Split(t, p + |x|, y, z);
    if y != [] {
      assert t[p + |x|] == t[p + |x|..p + |x| + |y|][0];
    }
  }

  /** A piece at the end of t: x + y at p, up to the end. */
  lemma SplitEnd(t: seq<byte>, p: nat, x: seq<byte>, y: seq<byte>)
    requires p <= |t| && t[p..] == x + y
    ensures p + |x| <= |t| && t[p..p + |x|] == x && t[p + |x|..] == y
  {
    assert t[p..p + |x|] == t[p..][..|x|];
    assert t[p + |x|..] == t[p..][|x|..];
  }

  /** A step whose result is known: the run stores its bytes and goes on from its state. */
  lemma RunVia(t: seq<byte>, s: Parse.State, out: seq<byte>, next: Parse.State)
    requires s.pos <= |t| && !Parse.Done(t, s) && Parse.Step(t, s) == Parse.Stepped(out, next)
    ensures Parse.Run(t, s) == out + Parse.Run(t, next)
  {
  }

  /** Two steps that store nothing: the run goes on from the second one's state. */
  lemma RunVia2(t: seq<byte>, s: Parse.State, s1: Parse.State, s2: Parse.State)
    requires s.pos <= |t| && s1.pos <= |t| && !Parse.Done(t, s) && !Parse.Done(t, s1)
    requires Parse.Step(t, s) == Parse.Stepped([], s1) && Parse.Step(t, s1) == Parse.Stepped([], s2)
    ensures Parse.Run(t, s) == Parse.Run(t, s2)
  {
    RunVia(t, s, [], s1);
    RunVia(t, s1, [], s2);
  }

  /** The bytes the output puts around digits are not digits of any base. */
  lemma NotDigits(base: Digits.Base)
    ensures !Digits.IsDigit(0x00, base) && !Digits.IsDigit(0x20, base) && !Digits.IsDigit(0x3A, base)
    ensures !Digits.IsDigit(0x5B, base) && !Digits.IsDigit(0x5D, base)
  {
  }

  // ---------------------------------------------------------------------
  // Digit runs
  // ---------------------------------------------------------------------

  /** Where the decoder reads digits: the numeric loop, or a section of a text loop. */
  predicate InDigits(s: Parse.State)
  {
    (s.phase == Parse.Top && s.mode.Numeric?) || (s.phase == Parse.Section && !s.mode.Numeric?)
  }

  /**
   * Up to Size(base) digits at s.pos, followed by a byte that is not a
   * digit unless they are Size(base) already, are read as one number.
   */
  lemma ReadDigits(t: seq<byte>, s: Parse.State, d: seq<byte>)
    requires Digits.AllDigits(d, s.base) && 1 <= |d| <= Digits.Size(s.base)
    requires s.pos + |d| <= |t| && t[s.pos..s.pos + |d|] == d
    requires |d| == Digits.Size(s.base) || !Digits.IsDigit(Digits.At(t, s.pos + |d|), s.base)
    ensures s.pos < |t| && Digits.IsDigit(t[s.pos], s.base)
    ensures Parse.Number(t, s) == Parse.Stepped([Parse.Truncate(Digits.Accumulate(d, s.base) % Bit.U64)], s.(pos := s.pos + |d|))
  {
    assert t[s.pos] == d[0];
    Digits.ReadDigitsPrefix(t, s.pos, s.pos + |d|, s.base, Digits.Size(s.base));
  }

  /** Where digits are read, a digit starts a number. */
  lemma StepNumber(t: seq<byte>, s: Parse.State)
    requires InDigits(s) && s.pos < |t| && Digits.IsDigit(t[s.pos], s.base)
    ensures Parse.Step(t, s) == Parse.Number(t, s)
  {
  }

  /** Digits of the value v, read where digits are read, store v. */
  lemma StepDigits(t: seq<byte>, s: Parse.State, d: seq<byte>, v: byte)
    requires InDigits(s) && Digits.AllDigits(d, s.base) && 1 <= |d| <= Digits.Size(s.base)
    requires s.pos + |d| <= |t| && t[s.pos..s.pos + |d|] == d && Digits.Accumulate(d, s.base) == v
    requires |d| == Digits.Size(s.base) || !Digits.IsDigit(Digits.At(t, s.pos + |d|), s.base)
    ensures Parse.Step(t, s) == Parse.Stepped([v], s.(pos := s.pos + |d|))
  {
    ReadDigits(t, s, d);
    StepNumber(t, s);
    Bit.SmallMod(v, Bit.U64);
    Bit.SmallMod(v, 256);
    assert Parse.Truncate(v % Bit.U64) == v;
  }

  /** What the digit text of a byte is made of, and its value. */
  lemma ByteTextFacts(v: byte, st: Format.Style)
    ensures Digits.AllDigits(Format.ByteText(v, st), st.base)
    ensures 1 <= |Format.ByteText(v, st)| <= Digits.Size(st.base)
    ensures !st.nozfill ==> |Format.ByteText(v, st)| == Digits.Size(st.base)
    ensures Digits.Accumulate(Format.ByteText(v, st), st.base) == v
  {
    Digits.ByteDigitsValue(v, st.base, st.nozfill);
  }

  /**
   * The digits of v at s.pos, where digits are read, ending the number
   * (zero-filled, or followed by a byte that is not a digit); s2 is the
   * state just after them.
   */
  predicate ByteAt(t: seq<byte>, s: Parse.State, v: byte, st: Format.Style, s2: Parse.State)
  {
    && InDigits(s) && s.base == st.base && s.pos + |Format.ByteText(v, st)| <= |t|
    && t[s.pos..s.pos + |Format.ByteText(v, st)|] == Format.ByteText(v, st)
    && (!st.nozfill || !Digits.IsDigit(Digits.At(t, s.pos + |Format.ByteText(v, st)|), st.base))
    && s2 == s.(pos := s.pos + |Format.ByteText(v, st)|)
  }

  /** The digits of v placed as ByteAt says are digits of the decoder's base that end a number of value v. */
  lemma ByteDigitsAt(t: seq<byte>, s: Parse.State, v: byte, st: Format.Style, s2: Parse.State)
    requires ByteAt(t, s, v, st, s2)
    ensures s.pos < |t| && Digits.AllDigits(Format.ByteText(v, st), s.base)
    ensures 1 <= |Format.ByteText(v, st)| <= Digits.Size(s.base)
    ensures Digits.Accumulate(Format.ByteText(v, st), s.base) == v
    ensures |Format.ByteText(v, st)| == Digits.Size(s.base)
         || !Digits.IsDigit(Digits.At(t, s.pos + |Format.ByteText(v, st)|), s.base)
  {
    ByteTextFacts(v, st);
  }

  /** The digits of one byte, placed as ByteAt says, are read back as that byte. */
  lemma StepByteText(t: seq<byte>, s: Parse.State, v: byte, st: Format.Style, s2: Parse.State)
    requires ByteAt(t, s, v, st, s2)
    ensures s.pos < |t| && Parse.Step(t, s) == Parse.Stepped([v], s2)
  {
    ByteDigitsAt(t, s, v, st, s2);
    StepDigits(t, s, Format.ByteText(v, st), v);
  }

  lemma RunByteText(t: seq<byte>, s: Parse.State, v: byte, st: Format.Style, s2: Parse.State)
    requires ByteAt(t, s, v, st, s2)
    ensures Parse.Run(t, s) == [v] + Parse.Run(t, s2)
  {
    StepByteText(t, s, v, st, s2);
    RunVia(t, s, [v], s2);
  }

  /** A separator of a digit run is skipped. */
  lemma StepSeparator(t: seq<byte>, s: Parse.State)
    requires InDigits(s) && s.pos < |t| && (t[s.pos] == 0x20 || t[s.pos] == 0x3A)
    ensures Parse.Step(t, s) == Parse.Stepped([], s.(pos := s.pos + 1))
  {
    NotDigits(s.base);
  }

  /** A separator of a digit run at s.pos; s2 is the state just after it. */
  predicate SepAt(t: seq<byte>, s: Parse.State, s2: Parse.State)
  {
    InDigits(s) && s.pos < |t| && (t[s.pos] == 0x20 || t[s.pos] == 0x3A) && s2 == s.(pos := s.pos + 1)
  }

  lemma RunSeparator(t: seq<byte>, s: Parse.State, s2: Parse.State)
    requires SepAt(t, s, s2)
    ensures Parse.Run(t, s) == Parse.Run(t, s2)
  {
    StepSeparator(t, s);
    RunVia(t, s, [], s2);
  }

  /** The digits x of a run at s, up to s2, followed by a byte that is no digit under `nozfill`. */
  predicate RunPiece(t: seq<byte>, s: Parse.State, x: seq<byte>, st: Format.Style, s2: Parse.State)
  {
    && InDigits(s) && s.base == st.base
    && s.pos + |x| <= |t| && t[s.pos..s.pos + |x|] == x
    && (!st.nozfill || !Digits.IsDigit(Digits.At(t, s.pos + |x|), st.base))
    && s2 == s.(pos := s.pos + |x|)
  }

  /** The digit run of b[i..e] at s.pos, where digits are read, ending there; s2 is the state after it. */
  predicate NumRunAt(t: seq<byte>, s: Parse.State, b: seq<byte>, i: nat, e: nat, j: nat, st: Format.Style, s2: Parse.State)
  {
    i < e <= |b| && RunPiece(t, s, Format.NumRun(b, i, e, j, st), st, s2)
  }

  /** A run of one byte is that byte's digits. */
  lemma NumRunLast(t: seq<byte>, s: Parse.State, b: seq<byte>, i: nat, e: nat, j: nat, st: Format.Style, s2: Parse.State)
    requires NumRunAt(t, s, b, i, e, j, st, s2) && i + 1 == e
    ensures ByteAt(t, s, b[i], st, s2)
  {
    assert Format.NumRun(b, i, e, j, st) == Format.ByteText(b[i], st);
  }

  /**
   * The pieces of a run of several bytes at p: the first byte's digits,
   * the separator (if any) and the run of the rest, which is not empty.
   */
  lemma NumRunPieces(t: seq<byte>, p: nat, b: seq<byte>, i: nat, e: nat, j: nat, st: Format.Style)
    requires i + 1 < e <= |b| && p + |Format.NumRun(b, i, e, j, st)| <= |t|
    requires t[p..p + |Format.NumRun(b, i, e, j, st)|] == Format.NumRun(b, i, e, j, st)
    ensures p + |Format.ByteText(b[i], st)| + |Format.Sep(j, st)| + |Format.NumRun(b, i + 1, e, Format.NextCount(j, st), st)|
         == p + |Format.NumRun(b, i, e, j, st)|
    ensures t[p..p + |Format.ByteText(b[i], st)|] == Format.ByteText(b[i], st)
    ensures t[p + |Format.ByteText(b[i], st)| + |Format.Sep(j, st)|..p + |Format.NumRun(b, i, e, j, st)|]
         == Format.NumRun(b, i + 1, e, Format.NextCount(j, st), st)
    ensures Format.Sep(j, st) != [] ==> t[p + |Format.ByteText(b[i], st)|] == Format.Sep(j, st)[0]
    ensures !st.nozfill || !Digits.IsDigit(Digits.At(t, p + |Format.ByteText(b[i], st)|), st.base)
  {
    var d := Format.ByteText(b[i], st);
    var sep := Format.Sep(j, st);
    var rest := Format.NumRun(b, i + 1, e, Format.NextCount(j, st), st);
    assert Format.NumRun(b, i, e, j, st) == d + (sep + rest);
    Split3(t, p, d, sep, rest);
    if sep != [] {
      NotDigits(st.base);
    }
  }

  /** A run of several bytes starts with the first byte's digits, which end its number; s1 is the state after them. */
  lemma NumRunHead(t: seq<byte>, s: Parse.State, b: seq<byte>, i: nat, e: nat, j: nat, st: Format.Style, s2: Parse.State)
    returns (s1: Parse.State)
    requires NumRunAt(t, s, b, i, e, j, st, s2) && i + 1 < e
    ensures ByteAt(t, s, b[i], st, s1)
    ensures s1 == s.(pos := s.pos + |Format.ByteText(b[i], st)|)
  {
    NumRunPieces(t, s.pos, b, i, e, j, st);
    s1 := s.(pos := s.pos + |Format.ByteText(b[i], st)|);
  }

  /**
   * After the first byte's digits (up to s1) come the separator, if any,
   * up to s3, and then the run of the rest.
   */
  lemma NumRunTail(t: seq<byte>, s: Parse.State, b: seq<byte>, i: nat, e: nat, j: nat, st: Format.Style, s2: Parse.State, s1: Parse.State)
    returns (s3: Parse.State)
    requires NumRunAt(t, s, b, i, e, j, st, s2) && i + 1 < e
    requires s1 == s.(pos := s.pos + |Format.ByteText(b[i], st)|)
    ensures s3 == s1 || SepAt(t, s1, s3)
    ensures NumRunAt(t, s3, b, i + 1, e, Format.NextCount(j, st), st, s2)
  {
    var d := Format.ByteText(b[i], st);
    var sep := Format.Sep(j, st);
    var rest := Format.NumRun(b, i + 1, e, Format.NextCount(j, st), st);
    assert Format.NumRun(b, i, e, j, st) == d + (sep + rest);
    s3 := TailPiece(t, s, s1, d, sep, rest, st, s2);
  }

  /** Past the first digits d of d + sep + rest come the separator (' ' or ':', if any) and then rest. */
  lemma TailPiece(t: seq<byte>, s: Parse.State, s1: Parse.State, d: seq<byte>, sep: seq<byte>, rest: seq<byte>, st: Format.Style, s2: Parse.State)
    returns (s3: Parse.State)
    requires RunPiece(t, s, d + (sep + rest), st, s2) && s1 == s.(pos := s.pos + |d|)
    requires |sep| <= 1 && (sep != [] ==> sep[0] == 0x20 || sep[0] == 0x3A)
    ensures s3 == s1 || SepAt(t, s1, s3)
    ensures RunPiece(t, s3, rest, st, s2)
  {
    Split3(t, s.pos, d, sep, rest);
    s3 := s1.(pos := s1.pos + |sep|);
  }

  /** Prepending a byte to the bytes of b[i + 1..e] gives b[i..e], before any tail. */
  lemma ConsTail(b: seq<byte>, i: nat, e: nat, r1: seq<byte>, r2: seq<byte>)
    requires i < e <= |b| && r1 == b[i + 1..e] + r2
    ensures [b[i]] + r1 == b[i..e] + r2
  {
    assert b[i..e] == [b[i]] + b[i + 1..e];
  }

  /** The one byte of b[i..e], before any tail. */
  lemma OneTail(b: seq<byte>, i: nat, e: nat, r: seq<byte>)
    requires i + 1 == e <= |b|
    ensures [b[i]] + r == b[i..e] + r
  {
    assert b[i..e] == [b[i]];
  }

  /** b[i..k] before the bytes of b[k..] gives b[i..]. */
  lemma JoinTail(b: seq<byte>, i: nat, k: nat, x: seq<byte>, r: seq<byte>)
    requires i <= k <= |b| && x == b[i..k] && r == b[k..]
    ensures x + r == b[i..]
  {
    assert b[i..] == b[i..k] + b[k..];
  }

  /** A run of one byte is read back as that byte. */
  lemma ReadNumRunLast(t: seq<byte>, s: Parse.State, b: seq<byte>, i: nat, e: nat, j: nat, st: Format.Style, s2: Parse.State)
    requires NumRunAt(t, s, b, i, e, j, st, s2) && i + 1 == e
    ensures Parse.Run(t, s) == b[i..e] + Parse.Run(t, s2)
  {
    NumRunLast(t, s, b, i, e, j, st, s2);
    RunByteText(t, s, b[i], st, s2);
    OneTail(b, i, e, Parse.Run(t, s2));
  }

  /**
   * A run of digits written for b[i..e] is read back as b[i..e]: each
   * byte's digits give the byte and the separators are skipped.
   */
  lemma {:induction false} ReadNumRun(t: seq<byte>, s: Parse.State, b: seq<byte>, i: nat, e: nat, j: nat, st: Format.Style, s2: Parse.State)
    requires NumRunAt(t, s, b, i, e, j, st, s2)
    ensures Parse.Run(t, s) == b[i..e] + Parse.Run(t, s2)
    decreases e - i
  {
    if i + 1 == e {
      ReadNumRunLast(t, s, b, i, e, j, st, s2);
    } else {
      var s1 := NumRunHead(t, s, b, i, e, j, st, s2);
      var s3 := NumRunTail(t, s, b, i, e, j, st, s2, s1);
      ReadNumRun(t, s3, b, i + 1, e, Format.NextCount(j, st), st, s2);
      if s3 != s1 {
        RunSeparator(t, s1, s3);
      }
      RunByteText(t, s, b[i], st, s1);
      ConsTail(b, i, e, Parse.Run(t, s3), Parse.Run(t, s2));
    }
  }

  // ---------------------------------------------------------------------
  // Literal characters
  // ---------------------------------------------------------------------

  /** The literal of the printable character cp at s.pos, in a text loop; s2 is the state after it. */
  predicate LitAt(t: seq<byte>, s: Parse.State, cp: nat, s2: Parse.State)
  {
    && s.phase == Parse.Top && Format.Printable(cp, s.mode) && (s.mode.Unicode? || cp < 256)
    && s.pos + |Format.Lit(cp, s.mode)| <= |t|
    && t[s.pos..s.pos + |Format.Lit(cp, s.mode)|] == Format.Lit(cp, s.mode)
    && s2 == s.(pos := s.pos + |Format.Lit(cp, s.mode)|)
  }

  /** An escaped `[` or `\` is stored as itself. */
  lemma StepEscapedLit(t: seq<byte>, s: Parse.State, cp: nat, s2: Parse.State)
    requires LitAt(t, s, cp, s2) && (cp == 0x5B || cp == 0x5C)
    ensures Parse.Step(t, s) == Parse.Stepped(Parse.Written(s.mode, cp), s2)
  {
    var lit := Format.Lit(cp, s.mode);
    assert lit == [0x5C, cp as byte];
    assert t[s.pos] == lit[0] && t[s.pos + 1] == lit[1];
    Parse.EscapeStores(t, s);
  }

  /** Any other printable ASCII character is copied. */
  lemma StepAsciiLit(t: seq<byte>, s: Parse.State, cp: nat, s2: Parse.State)
    requires LitAt(t, s, cp, s2) && s.mode == BufIo.Ascii && cp != 0x5B && cp != 0x5C
    ensures Parse.Step(t, s) == Parse.Stepped(Parse.Written(s.mode, cp), s2)
  {
    assert t[s.pos] == Format.Lit(cp, s.mode)[0];
    assert Parse.Step(t, s) == Parse.Character(t, s, cp, s.pos + 1);
  }

  /** The UTF-8 form of a code point at p is read back by the decoder's UTF-8 reader. */
  lemma ReadUtf8(t: seq<byte>, p: nat, cp: nat)
    requires Unicode.IsScalar(cp) && p + |Unicode.Utf8Encode(cp)| <= |t|
    requires t[p..p + |Unicode.Utf8Encode(cp)|] == Unicode.Utf8Encode(cp)
    ensures p < |t| && Unicode.Utf8Decode(t[p..]) == Unicode.Decoded(cp, |Unicode.Utf8Encode(cp)|)
  {
    var u := Unicode.Utf8Encode(cp);
    assert t[p..] == u + t[p + |u|..];
    Unicode.Utf8EncodeDecode(cp, t[p + |u|..]);
  }

  /** Any other printable Latin-1 character is written in UTF-8 and stored as its byte. */
  lemma StepLatin1Lit(t: seq<byte>, s: Parse.State, cp: nat, s2: Parse.State)
    requires LitAt(t, s, cp, s2) && s.mode == BufIo.Latin1 && cp != 0x5B && cp != 0x5C
    ensures Parse.Step(t, s) == Parse.Stepped(Parse.Written(s.mode, cp), s2)
  {
    var u := Unicode.Utf8Encode(cp);
    assert Format.Lit(cp, s.mode) == u;
    ReadUtf8(t, s.pos, cp);
    assert Parse.Step(t, s) == Parse.Character(t, s, cp, s.pos + |u|);
  }

  /** Any other printable code point in a Unicode mode is stored as the encoding's writer writes it. */
  lemma StepUnicodeLit(t: seq<byte>, s: Parse.State, cp: nat, s2: Parse.State)
    requires LitAt(t, s, cp, s2) && s.mode.Unicode? && cp != 0x5B && cp != 0x5C
    ensures Parse.Step(t, s) == Parse.Stepped(Parse.Written(s.mode, cp), s2)
  {
    var u := Unicode.Utf8Encode(cp);
    Unicode.ValidUnicodeScalars(cp);
    assert Format.Lit(cp, s.mode) == u;
    ReadUtf8(t, s.pos, cp);
    assert Parse.Step(t, s) == Parse.Character(t, s, cp, s.pos + |u|);
  }

  /** A literal is read back as what the decoder writes for its character. */
  lemma RunLit(t: seq<byte>, s: Parse.State, cp: nat, s2: Parse.State)
    requires LitAt(t, s, cp, s2)
    ensures Parse.Run(t, s) == Parse.Written(s.mode, cp) + Parse.Run(t, s2)
  {
    if cp == 0x5B || cp == 0x5C {
      StepEscapedLit(t, s, cp, s2);
    } else if s.mode == BufIo.Ascii {
      StepAsciiLit(t, s, cp, s2);
    } else if s.mode == BufIo.Latin1 {
      StepLatin1Lit(t, s, cp, s2);
    } else {
      StepUnicodeLit(t, s, cp, s2);
    }
    RunVia(t, s, Parse.Written(s.mode, cp), s2);
  }

  /** A printable character read at i of b is stored as the bytes it was read from. */
  lemma WrittenChunk(b: seq<byte>, cs: seq<Unicode.Decoded>, i: nat, mode: BufIo.Mode)
    requires Format.Decodes(b, cs, mode) && i < |b| && Format.Printable(cs[i].cp, mode)
    ensures mode.Unicode? || cs[i].cp < 256
    ensures i + cs[i].len <= |b| && Parse.Written(mode, cs[i].cp) == b[i..i + cs[i].len]
  {
    var c := cs[i];
    assert c == Format.ChunkAt(b, i, mode);
    if mode.Unicode? {
      Unicode.ValidUnicodeScalars(c.cp);
      Unicode.Canonical(mode.enc, b[i..]);
      assert b[i..][..c.len] == b[i..i + c.len];
    } else {
      assert b[i..i + 1] == [b[i]];
    }
  }

  // ---------------------------------------------------------------------
  // Brackets
  // ---------------------------------------------------------------------

  /** `[` in the loop of the current encoding opens a section. */
  lemma OpenSection(t: seq<byte>, s: Parse.State)
    requires s.phase == Parse.Top && s.pos < |t| && t[s.pos] == 0x5B
    ensures Parse.Step(t, s) == Parse.Stepped([], s.(pos := s.pos + 1, phase := Parse.Section))
  {
    NotDigits(s.base);
    if !s.mode.Numeric? && !s.mode.Ascii? {
      assert Unicode.Utf8Decode(t[s.pos..]) == Unicode.Decoded(0x5B, 1);
    }
  }

  /** `]` in a section closes it. */
  lemma CloseSection(t: seq<byte>, s: Parse.State)
    requires s.phase == Parse.Section && s.pos < |t| && t[s.pos] == 0x5D
    ensures Parse.Step(t, s) == Parse.Stepped([], s.(pos := s.pos + 1, phase := Parse.Top))
  {
    NotDigits(s.base);
  }

  /** `[` at s.pos in the loop of the current encoding; s2 is the section just inside it. */
  predicate OpenAt(t: seq<byte>, s: Parse.State, s2: Parse.State)
  {
    s.phase == Parse.Top && s.pos < |t| && t[s.pos] == 0x5B && s2 == s.(pos := s.pos + 1, phase := Parse.Section)
  }

  /** `]` at s.pos in a section; s2 is the loop just after it. */
  predicate CloseAt(t: seq<byte>, s: Parse.State, s2: Parse.State)
  {
    s.phase == Parse.Section && s.pos < |t| && t[s.pos] == 0x5D && s2 == s.(pos := s.pos + 1, phase := Parse.Top)
  }

  lemma RunOpenSection(t: seq<byte>, s: Parse.State, s2: Parse.State)
    requires OpenAt(t, s, s2)
    ensures Parse.Run(t, s) == Parse.Run(t, s2)
  {
    OpenSection(t, s);
    RunVia(t, s, [], s2);
  }

  lemma RunCloseSection(t: seq<byte>, s: Parse.State, s2: Parse.State)
    requires CloseAt(t, s, s2)
    ensures Parse.Run(t, s) == Parse.Run(t, s2)
  {
    CloseSection(t, s);
    RunVia(t, s, [], s2);
  }

  /** The bracket `[` digits of b[i..e] `]` at s.pos in a text loop; s2 is the state after it. */
  predicate BracketAt(t: seq<byte>, s: Parse.State, b: seq<byte>, i: nat, e: nat, st: Format.Style, s2: Parse.State)
  {
    && s.phase == Parse.Top && !s.mode.Numeric? && s.base == st.base && i < e <= |b|
    && s.pos + |Format.NumRun(b, i, e, 0, st)| + 2 <= |t|
    && t[s.pos..s.pos + |Format.NumRun(b, i, e, 0, st)| + 2] == [0x5B] + Format.NumRun(b, i, e, 0, st) + [0x5D]
    && s2 == s.(pos := s.pos + |Format.NumRun(b, i, e, 0, st)| + 2)
  }

  /** A bracket is an opening `[`, a digit run ending at `]`, and the closing `]`. */
  lemma BracketParts(t: seq<byte>, s: Parse.State, b: seq<byte>, i: nat, e: nat, st: Format.Style, s2: Parse.State)
    returns (s1: Parse.State, s3: Parse.State)
    requires BracketAt(t, s, b, i, e, st, s2)
    ensures OpenAt(t, s, s1) && NumRunAt(t, s1, b, i, e, 0, st, s3) && CloseAt(t, s3, s2)
  {
    s1, s3 := BracketPieces(t, s, Format.NumRun(b, i, e, 0, st), st, s2);
  }

  /** `[`, a piece of digits x, and `]` at s.pos of a text loop. */
  lemma BracketPieces(t: seq<byte>, s: Parse.State, nr: seq<byte>, st: Format.Style, s2: Parse.State)
    returns (s1: Parse.State, s3: Parse.State)
    requires s.phase == Parse.Top && !s.mode.Numeric? && s.base == st.base
    requires s.pos + |nr| + 2 <= |t| && t[s.pos..s.pos + |nr| + 2] == [0x5B] + nr + [0x5D]
    requires s2 == s.(pos := s.pos + |nr| + 2)
    ensures OpenAt(t, s, s1) && RunPiece(t, s1, nr, st, s3) && CloseAt(t, s3, s2)
  {
    var p := s.pos;
    var q := p + 1 + |nr|;
    Split(t, p, [0x5B], nr + [0x5D]);
    Split(t, p + 1, nr, [0x5D]);
    assert t[p] == t[p..p + 1][0];
    assert t[q] == t[q..q + 1][0];
    assert Digits.At(t, q) == 0x5D;
    NotDigits(st.base);
    s1 := s.(pos := p + 1, phase := Parse.Section);
    s3 := s1.(pos := q);
  }

  /** A bracket in a text loop is read back as the bytes of its run. */
  lemma ReadBracket(t: seq<byte>, s: Parse.State, b: seq<byte>, i: nat, e: nat, st: Format.Style, s2: Parse.State)
    requires BracketAt(t, s, b, i, e, st, s2)
    ensures Parse.Run(t, s) == b[i..e] + Parse.Run(t, s2)
  {
    var s1, s3 := BracketParts(t, s, b, i, e, st, s2);
    RunOpenSection(t, s, s1);
    ReadNumRun(t, s1, b, i, e, 0, st, s3);
    RunCloseSection(t, s3, s2);
  }

  // ---------------------------------------------------------------------
  // The text modes
  // ---------------------------------------------------------------------

  /** The rendering of b[i..] from s.pos to the end of t, in a text loop. */
  predicate RenderAt(t: seq<byte>, s: Parse.State, b: seq<byte>, cs: seq<Unicode.Decoded>, i: nat, st: Format.Style)
  {
    && Format.Decodes(b, cs, s.mode) && i <= |b| && s.phase == Parse.Top && s.base == st.base && s.pos <= |t|
    && t[s.pos..] == Format.Render(b, cs, i, s.mode, st)
  }

  /** A rendering that starts with a literal: the literal, then the rendering of what follows it. */
  lemma RenderLit(t: seq<byte>, s: Parse.State, b: seq<byte>, cs: seq<Unicode.Decoded>, i: nat, st: Format.Style)
    returns (s2: Parse.State)
    requires RenderAt(t, s, b, cs, i, st) && i < |b| && Format.Printable(cs[i].cp, s.mode)
    ensures (s.mode.Unicode? || cs[i].cp < 256) && i + cs[i].len <= |b|
    ensures Parse.Written(s.mode, cs[i].cp) == b[i..i + cs[i].len]
    ensures LitAt(t, s, cs[i].cp, s2) && RenderAt(t, s2, b, cs, i + cs[i].len, st)
  {
    WrittenChunk(b, cs, i, s.mode);
    var lit := Format.Lit(cs[i].cp, s.mode);
    SplitEnd(t, s.pos, lit, Format.Render(b, cs, i + cs[i].len, s.mode, st));
    s2 := s.(pos := s.pos + |lit|);
  }

  /** A rendering that starts with a bracket: the bracket, then the rendering from its end. */
  lemma RenderBracket(t: seq<byte>, s: Parse.State, b: seq<byte>, cs: seq<Unicode.Decoded>, i: nat, st: Format.Style)
    returns (e: nat, s2: Parse.State)
    requires RenderAt(t, s, b, cs, i, st) && i < |b| && !Format.Printable(cs[i].cp, s.mode)
    ensures i < e <= |b| && BracketAt(t, s, b, i, e, st, s2) && RenderAt(t, s2, b, cs, e, st)
  {
    e := Format.BracketEnd(cs, i, s.mode);
    var nr := Format.NumRun(b, i, e, 0, st);
    SplitEnd(t, s.pos, [0x5B] + nr + [0x5D], Format.Render(b, cs, e, s.mode, st));
    s2 := s.(pos := s.pos + |nr| + 2);
  }

  /** The loop of a text mode reads the rendering of b[i..] back as b[i..]. */
  lemma {:induction false} ReadRender(t: seq<byte>, s: Parse.State, b: seq<byte>, cs: seq<Unicode.Decoded>, i: nat, st: Format.Style)
    requires RenderAt(t, s, b, cs, i, st)
    ensures Parse.Run(t, s) == b[i..]
    decreases |b| - i
  {
    if i == |b| {
      assert s.pos == |t|;
    } else if Format.Printable(cs[i].cp, s.mode) {
      var s2 := RenderLit(t, s, b, cs, i, st);
      RunLit(t, s, cs[i].cp, s2);
      ReadRender(t, s2, b, cs, i + cs[i].len, st);
      JoinTail(b, i, i + cs[i].len, Parse.Written(s.mode, cs[i].cp), Parse.Run(t, s2));
    } else {
      var e, s2 := RenderBracket(t, s, b, cs, i, st);
      ReadBracket(t, s, b, i, e, st, s2);
      ReadRender(t, s2, b, cs, e, st);
      JoinTail(b, i, e, b[i..e], Parse.Run(t, s2));
    }
  }

  // ---------------------------------------------------------------------
  // The header
  // ---------------------------------------------------------------------

  /** Where the pieces of a header `[[m n]]` at p of t lie. */
  lemma HeaderBytes(t: seq<byte>, p: nat, m: seq<byte>, n: seq<byte>)
    requires p + |m| + |n| + 5 <= |t|
    requires t[p..p + |m| + |n| + 5] == [0x5B, 0x5B] + m + [0x20] + n + [0x5D, 0x5D]
    ensures t[p] == 0x5B && t[p + 1] == 0x5B && t[p + 2..p + 2 + |m|] == m && t[p + 2 + |m|] == 0x20
    ensures t[p + 3 + |m|..p + 3 + |m| + |n|] == n && t[p + 3 + |m| + |n|] == 0x5D && t[p + 4 + |m| + |n|] == 0x5D
  {
    var q := p + 2 + |m|;
    var r := q + 1 + |n|;
    assert [0x5B, 0x5B] + m + [0x20] + n + [0x5D, 0x5D] == [0x5B, 0x5B] + (m + ([0x20] + (n + [0x5D, 0x5D])));
    Split(t, p, [0x5B, 0x5B], m + ([0x20] + (n + [0x5D, 0x5D])));
    Split(t, p + 2, m, [0x20] + (n + [0x5D, 0x5D]));
    Split(t, q, [0x20], n + [0x5D, 0x5D]);
    Split(t, q + 1, n, [0x5D, 0x5D]);
    assert t[p] == t[p..p + 2][0] && t[p + 1] == t[p..p + 2][1];
    assert t[q] == t[q..q + 1][0];
    assert t[r] == t[r..r + 2][0] && t[r + 1] == t[r..r + 2][1];
  }

  /** The brackets and the space of a header `[[m n]]` at p of t. */
  lemma HeaderEdges(t: seq<byte>, p: nat, m: seq<byte>, n: seq<byte>)
    requires p + |m| + |n| + 5 <= |t|
    requires t[p..p + |m| + |n| + 5] == [0x5B, 0x5B] + m + [0x20] + n + [0x5D, 0x5D]
    ensures t[p] == 0x5B && t[p + 1] == 0x5B && t[p + 2 + |m|] == 0x20
    ensures t[p + 3 + |m| + |n|] == 0x5D && t[p + 4 + |m| + |n|] == 0x5D
  {
    HeaderBytes(t, p, m, n);
  }

  /** `[` in a section opens a header. */
  lemma OpenHeader(t: seq<byte>, s: Parse.State)
    requires s.phase == Parse.Section && s.pos < |t| && t[s.pos] == 0x5B
    ensures Parse.Step(t, s) == Parse.Stepped([], s.(pos := s.pos + 1, phase := Parse.Header))
  {
    NotDigits(s.base);
  }

  /** A space in a header is skipped. */
  lemma HeaderSkip(t: seq<byte>, s: Parse.State)
    requires s.phase == Parse.Header && s.pos < |t| && t[s.pos] == 0x20
    ensures Parse.Step(t, s) == Parse.Stepped([], s.(pos := s.pos + 1))
  {
  }

  /** `]` ends a header. */
  lemma HeaderClose(t: seq<byte>, s: Parse.State)
    requires s.phase == Parse.Header && s.pos < |t| && t[s.pos] == 0x5D
    ensures Parse.Step(t, s) == Parse.Stepped([], s.(pos := s.pos + 1, phase := Parse.Section))
  {
  }

  /** `[[` in the loop of the current encoding opens a header. */
  lemma RunOpenHeader(t: seq<byte>, s: Parse.State)
    requires s.phase == Parse.Top && s.pos + 1 < |t| && t[s.pos] == 0x5B && t[s.pos + 1] == 0x5B
    ensures Parse.Run(t, s) == Parse.Run(t, s.(pos := s.pos + 2, phase := Parse.Header))
  {
    var s1 := s.(pos := s.pos + 1, phase := Parse.Section);
    OpenSection(t, s);
    OpenHeader(t, s1);
    RunVia2(t, s, s1, s.(pos := s.pos + 2, phase := Parse.Header));
  }

  /** `]]` closes a header and the section around it. */
  lemma RunCloseHeader(t: seq<byte>, s: Parse.State)
    requires s.phase == Parse.Header && s.pos + 1 < |t| && t[s.pos] == 0x5D && t[s.pos + 1] == 0x5D
    ensures Parse.Run(t, s) == Parse.Run(t, s.(pos := s.pos + 2, phase := Parse.Top))
  {
    var s1 := s.(pos := s.pos + 1, phase := Parse.Section);
    HeaderClose(t, s);
    CloseSection(t, s1);
    RunVia2(t, s, s1, s.(pos := s.pos + 2, phase := Parse.Top));
  }

  /** A directive naming the mode or base already in force changes nothing and stores nothing. */
  lemma KeepDirective(t: seq<byte>, s: Parse.State, k: Parse.Keyword)
    requires s.phase == Parse.Header && s.pos + |Parse.KeywordText(k)| <= |t|
    requires t[s.pos..s.pos + |Parse.KeywordText(k)|] == Parse.KeywordText(k)
    requires !Digits.IsVariableChar(Digits.At(t, s.pos + |Parse.KeywordText(k)|))
    requires k == Parse.SetMode(s.mode) || k == Parse.SetBase(s.base)
    ensures Parse.Step(t, s) == Parse.Stepped([], s.(pos := s.pos + |Parse.KeywordText(k)|))
  {
    Parse.DirectiveSwitches(t, s, k);
  }

  /** The encoding's name in a header at s.pos names the encoding in force: reading it changes nothing. */
  lemma HeaderModeStep(t: seq<byte>, s: Parse.State)
    requires s.pos + |Format.Header(s.mode, s.base)| <= |t|
    requires t[s.pos..s.pos + |Format.Header(s.mode, s.base)|] == Format.Header(s.mode, s.base)
    ensures Parse.Step(t, s.(pos := s.pos + 2, phase := Parse.Header))
         == Parse.Stepped([], s.(pos := s.pos + 2 + |BufIo.ModeName(s.mode)|, phase := Parse.Header))
  {
    var m, n := BufIo.ModeName(s.mode), BufIo.BaseName(s.base);
    HeaderBytes(t, s.pos, m, n);
    KeepDirective(t, s.(pos := s.pos + 2, phase := Parse.Header), Parse.SetMode(s.mode));
  }

  /** The base's name in a header at s.pos names the base in force: reading it changes nothing. */
  lemma HeaderBaseStep(t: seq<byte>, s: Parse.State)
    requires s.pos + |Format.Header(s.mode, s.base)| <= |t|
    requires t[s.pos..s.pos + |Format.Header(s.mode, s.base)|] == Format.Header(s.mode, s.base)
    ensures Parse.Step(t, s.(pos := s.pos + 3 + |BufIo.ModeName(s.mode)|, phase := Parse.Header))
         == Parse.Stepped([], s.(pos := s.pos + 3 + |BufIo.ModeName(s.mode)| + |BufIo.BaseName(s.base)|, phase := Parse.Header))
  {
    var m, n := BufIo.ModeName(s.mode), BufIo.BaseName(s.base);
    HeaderBytes(t, s.pos, m, n);
    KeepDirective(t, s.(pos := s.pos + 3 + |m|, phase := Parse.Header), Parse.SetBase(s.base));
  }

  /**
   * The shape of a header at s.pos: `[[` up to h0 (inside the header),
   * a first name up to h1, a space up to h2, a second name up to h3, and
   * `]]` up to e, back in the loop.
   */
  predicate HeaderShape(t: seq<byte>, s: Parse.State, h0: Parse.State, h1: Parse.State, h2: Parse.State, h3: Parse.State, e: Parse.State)
  {
    && s.phase == Parse.Top && s.pos + 1 < |t| && t[s.pos] == 0x5B && t[s.pos + 1] == 0x5B
    && h1.pos < |t| && t[h1.pos] == 0x20 && h3.pos + 1 < |t| && t[h3.pos] == 0x5D && t[h3.pos + 1] == 0x5D
    && h0 == s.(pos := s.pos + 2, phase := Parse.Header)
    && h1 == s.(pos := h1.pos, phase := Parse.Header) && h2 == h1.(pos := h1.pos + 1)
    && h3 == s.(pos := h3.pos, phase := Parse.Header) && e == s.(pos := h3.pos + 2)
  }

  /**
   * A header whose two names each leave the state as it is: the run
   * goes on after it as if it were not there.
   */
  lemma RunHeaderShape(t: seq<byte>, s: Parse.State, h0: Parse.State, h1: Parse.State, h2: Parse.State, h3: Parse.State, e: Parse.State)
    requires HeaderShape(t, s, h0, h1, h2, h3, e)
    requires Parse.Step(t, h0) == Parse.Stepped([], h1) && Parse.Step(t, h2) == Parse.Stepped([], h3)
    ensures Parse.Run(t, s) == Parse.Run(t, e)
  {
    RunOpenHeader(t, s);
    HeaderSkip(t, h1);
    RunVia2(t, h0, h1, h2);
    RunVia(t, h2, [], h3);
    RunCloseHeader(t, h3);
  }

  /** The `[[<encoding> <base>]]` header at s.pos of t, in the loop; e is the state after it. */
  predicate HeaderAt(t: seq<byte>, s: Parse.State, e: Parse.State)
  {
    && s.phase == Parse.Top && s.pos + |Format.Header(s.mode, s.base)| <= |t|
    && t[s.pos..s.pos + |Format.Header(s.mode, s.base)|] == Format.Header(s.mode, s.base)
    && e == s.(pos := s.pos + |Format.Header(s.mode, s.base)|)
  }

  /** Where the names of the header at s.pos start and end. */
  lemma HeaderFrame(t: seq<byte>, s: Parse.State, e: Parse.State) returns (h0: Parse.State, h1: Parse.State, h2: Parse.State, h3: Parse.State)
    requires HeaderAt(t, s, e)
    ensures HeaderShape(t, s, h0, h1, h2, h3, e)
    ensures h0 == s.(pos := s.pos + 2, phase := Parse.Header)
    ensures h1 == s.(pos := s.pos + 2 + |BufIo.ModeName(s.mode)|, phase := Parse.Header)
    ensures h2 == s.(pos := s.pos + 3 + |BufIo.ModeName(s.mode)|, phase := Parse.Header)
    ensures h3 == s.(pos := s.pos + 3 + |BufIo.ModeName(s.mode)| + |BufIo.BaseName(s.base)|, phase := Parse.Header)
  {
    var m, n := BufIo.ModeName(s.mode), BufIo.BaseName(s.base);
    HeaderEdges(t, s.pos, m, n);
    h0, h1 := s.(pos := s.pos + 2, phase := Parse.Header), s.(pos := s.pos + 2 + |m|, phase := Parse.Header);
    h2, h3 := s.(pos := s.pos + 3 + |m|, phase := Parse.Header), s.(pos := s.pos + 3 + |m| + |n|, phase := Parse.Header);
  }

  /**
   * The `[[<encoding> <base>]]` header, read in the encoding and base it
   * names, leaves the decoder where it was and stores nothing.
   */
  lemma ReadHeader(t: seq<byte>, s: Parse.State, e: Parse.State)
    requires HeaderAt(t, s, e)
    ensures Parse.Run(t, s) == Parse.Run(t, e)
  {
    var h0, h1, h2, h3 := HeaderFrame(t, s, e);
    HeaderModeStep(t, s);
    HeaderBaseStep(t, s);
    RunHeaderShape(t, s, h0, h1, h2, h3, e);
  }

  // ---------------------------------------------------------------------
  // The round trip
  // ---------------------------------------------------------------------

  /** The numeric body from s.pos to the end of t is one digit run that ends the text. */
  lemma BodyDigits(t: seq<byte>, s: Parse.State, b: seq<byte>, st: Format.Style) returns (s2: Parse.State)
    requires |b| > 0 && s.phase == Parse.Top && s.mode.Numeric? && s.base == st.base && s.pos <= |t|
    requires t[s.pos..] == Format.Body(b, s.mode, st)
    ensures NumRunAt(t, s, b, 0, |b|, 0, st, s2) && Parse.Done(t, s2)
  {
    var nr := Format.NumRun(b, 0, |b|, 0, st);
    assert t[s.pos..s.pos + |nr|] == nr;
    NotDigits(st.base);
    s2 := s.(pos := s.pos + |nr|);
  }

  /** The body of the output, read from where it starts, gives back the buffer. */
  lemma ReadBody(t: seq<byte>, s: Parse.State, b: seq<byte>, st: Format.Style)
    requires |b| > 0 && s.phase == Parse.Top && s.base == st.base && s.pos <= |t|
    requires t[s.pos..] == Format.Body(b, s.mode, st)
    ensures Parse.Run(t, s) == b
  {
    if s.mode.Numeric? {
      var s2 := BodyDigits(t, s, b, st);
      ReadNumRun(t, s, b, 0, |b|, 0, st, s2);
      assert b[0..|b|] == b;
    } else {
      ReadRender(t, s, b, Format.Chars(b, s.mode), 0, st);
      assert b[0..] == b;
    }
  }

  /**
   * With `fmt` on, the decoder reads the formatted output of a buffer
   * back as the buffer, whatever the encoding, base, fill, grouping and
   * header.
   */
  lemma DecodeOutput(b: seq<byte>, flags: bv64, grouping: nat)
    requires BufIo.IsFmt(flags)
    ensures Parse.Decode(Format.Output(b, flags, grouping), flags) == b
  {
    var t := Format.Output(b, flags, grouping);
    var s := Parse.Init(flags);
    var st := Format.StyleOf(flags, grouping);
    if |b| > 0 {
      var body := Format.Body(b, s.mode, st);
      if BufIo.IsFmtinfo(flags) {
        var h := Format.Header(s.mode, s.base);
        assert t == h + body;
        assert t[..|h|] == h;
        ReadHeader(t, s, s.(pos := |h|));
        assert t[|h|..] == body;
        ReadBody(t, s.(pos := |h|), b, st);
      } else {
        assert t == body;
        ReadBody(t, s, b, st);
      }
    }
  }
}
