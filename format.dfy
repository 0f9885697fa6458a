/**
 * The formatted output of a buffer, `operator<<(std::ostream&,
 * buf_io::output)` of `src/ios.cpp`, and the bit printer `io::bits` it
 * uses for base 2.
 *
 * With the `fmt` flag off the bytes are copied verbatim. With it on, an
 * optional `[[<encoding> <base>]]` header comes first, then:
 *  - numeric mode: every byte as digits in the stream's base, separated
 *    by ' ' after each `grouping` bytes and by ':' otherwise when
 *    `nozfill` (digits then have no fixed width);
 *  - text modes: printable characters literally (UTF-8 for Latin-1 and
 *    the Unicode encodings, with '\' and '[' escaped by '\'); each run
 *    of unprintable input goes into one `[...]` bracket holding its raw
 *    bytes as digits, separated as in numeric mode.
 *
 * The stream is modelled by the text it receives. `Output` is the
 * specification; `Format` is the imperative formatter proved against it.
 */
module Format {
  import opened Bytes
  import Bit
  import Digits
  import Unicode
  import BufIo

  /** The digit style of a stream: its base, `nozfill` and `grouping`. */
  datatype Style = Style(base: Digits.Base, nozfill: bool, grouping: nat)

  /** The text one byte becomes: `setw(width)` with fill '0', then the digits. */
  function ByteText(v: byte, st: Style): seq<byte>
  {
    Digits.ByteDigits(v, st.base, st.nozfill)
  }

  /**
   * The separator written after the j-th byte of a group (j counts the bytes
   * since the last ' '): ' ' when `++j == grouping`, else ':' under
   * `nozfill`, else nothing.
   */
  function Sep(j: nat, st: Style): (r: seq<byte>)
    ensures |r| <= 1
    ensures r == [0x20] <==> j + 1 == st.grouping
  {
    if j + 1 == st.grouping then [0x20] else if st.nozfill then [0x3A] else []
  }

  /** The group counter after a separator: reset by ' ', incremented otherwise. */
  function NextCount(j: nat, st: Style): (r: nat)
    ensures r == 0 || r == j + 1
    ensures r == 0 <==> j + 1 == st.grouping
  {
    if j + 1 == st.grouping then 0 else j + 1
  }

  /** The digits of the bytes b[i..e] (at least one) with the separators between them, the counter at j. */
  function NumRun(b: seq<byte>, i: nat, e: nat, j: nat, st: Style): seq<byte>
    requires i < e <= |b|
    decreases e - i
  {
    ByteText(b[i], st) + if i + 1 == e then [] else Sep(j, st) + NumRun(b, i + 1, e, NextCount(j, st), st)
  }

  // ---------------------------------------------------------------------
  // Text modes
  // ---------------------------------------------------------------------

  /** The modes whose output mixes characters and brackets. */
  predicate IsText(mode: BufIo.Mode)
  {
    !mode.Numeric?
  }

  /**
   * The character at byte i: one byte in ASCII and Latin-1 mode; one
   * chunk decoded by the encoding's reader in a Unicode mode.
   */
  function ChunkAt(b: seq<byte>, i: nat, mode: BufIo.Mode): (c: Unicode.Decoded)
    requires IsText(mode) && i < |b|
    ensures 1 <= c.len <= |b| - i
    ensures !mode.Unicode? ==> c == Unicode.Decoded(b[i], 1)
  {
    if mode.Unicode? then Unicode.DecodeChunk(mode.enc, b[i..]) else Unicode.Decoded(b[i], 1)
  }

  /** A character written as itself: 0x20..0x7E, also above 0xA0 in Latin-1, any valid code point from 0x20 in Unicode. */
  predicate Printable(cp: nat, mode: BufIo.Mode)
  {
    match mode
    case Numeric => false
    case Ascii => 0x1F < cp < 0x7F
    case Latin1 => (0x1F < cp < 0x7F) || cp > 0xA0
    case Unicode(_) => Unicode.ValidUnicode(cp) && 0x1F < cp
  }

  /** The test that keeps a bracket open: unprintable, and in Unicode also '['. */
  predicate Continues(cp: nat, mode: BufIo.Mode)
  {
    match mode
    case Numeric => false
    case Ascii => cp < 0x20 || cp > 0x7E
    case Latin1 => cp < 0x20 || (cp > 0x7E && cp < 0xA1)
    case Unicode(_) => !Unicode.ValidUnicode(cp) || cp < 0x20 || cp == 0x5B
  }

  /**
   * The two tests are complements on the characters of ASCII and Latin-1
   * mode; in Unicode mode a '[' is printable at the start of a run but
   * continues a bracket already open.
   */
  lemma ContinuesIsUnprintable(cp: nat, mode: BufIo.Mode)
    requires IsText(mode) && (!mode.Unicode? ==> cp < 0x100)
    ensures !Continues(cp, mode) ==> Printable(cp, mode)
    ensures Continues(cp, mode) && Printable(cp, mode) <==> mode.Unicode? && cp == 0x5B
  {
  }

  /** The escape written before '\' and '['. */
  function Escape(cp: nat): (r: seq<byte>)
    ensures r == [0x5C] <==> cp == 0x5C || cp == 0x5B
    ensures r == [] <==> !(cp == 0x5C || cp == 0x5B)
  {
    if cp == 0x5C || cp == 0x5B then [0x5C] else []
  }

  /** A printable character: its escape, then the byte itself in ASCII mode, its UTF-8 form otherwise. */
  function Lit(cp: nat, mode: BufIo.Mode): (r: seq<byte>)
    requires Printable(cp, mode)
  {
    Escape(cp) + if mode == BufIo.Ascii then [cp as byte] else Unicode.Utf8Encode(cp)
  }

  /** A table of characters by position: each one ends inside the buffer. */
  predicate Steps(cs: seq<Unicode.Decoded>)
  {
    forall k :: 0 <= k < |cs| ==> 1 <= cs[k].len <= |cs| - k
  }

  /**
   * cs holds the character the reader returns at every position of b. The
   * quantifier fires only where a read `ChunkAt` appears, which keeps the
   * decoders out of the proofs that only step through the table.
   */
  predicate Decodes(b: seq<byte>, cs: seq<Unicode.Decoded>, mode: BufIo.Mode)
  {
    IsText(mode) && |cs| == |b| && Steps(cs)
    && forall k {:trigger ChunkAt(b, k, mode)} :: 0 <= k < |b| ==> cs[k] == ChunkAt(b, k, mode)
  }

  /** The characters read at every position of b. */
  function Chars(b: seq<byte>, mode: BufIo.Mode): (cs: seq<Unicode.Decoded>)
    requires IsText(mode)
    ensures Decodes(b, cs, mode)
  {
    seq(|b|, k requires 0 <= k < |b| => ChunkAt(b, k, mode))
  }

  /**
   * The end of the bracket whose first character starts at i: it takes
   * that character and every following one that `Continues`, up to the
   * end of the buffer.
   */
  function BracketEnd(cs: seq<Unicode.Decoded>, i: nat, mode: BufIo.Mode): (e: nat)
    requires Steps(cs) && i < |cs|
    ensures i + cs[i].len <= e <= |cs|
    ensures e < |cs| ==> !Continues(cs[e].cp, mode)
    decreases |cs| - i
  {
    var next := i + cs[i].len;
    if next == |cs| then |cs|
    else if Continues(cs[next].cp, mode) then BracketEnd(cs, next, mode)
    else next
  }

  /** The text of b[i..] in a text mode, cs being the characters read at each position. */
  function Render(b: seq<byte>, cs: seq<Unicode.Decoded>, i: nat, mode: BufIo.Mode, st: Style): seq<byte>
    requires |cs| == |b| && Steps(cs) && i <= |b|
    decreases |b| - i
  {
    if i == |b| then []
    else
      var c := cs[i];
      if Printable(c.cp, mode) then
        Lit(c.cp, mode) + Render(b, cs, i + c.len, mode, st)
      else
        var e := BracketEnd(cs, i, mode);
        [0x5B] + NumRun(b, i, e, 0, st) + [0x5D] + Render(b, cs, e, mode, st)
  }

  /** The `fmtinfo` header: `[[<encoding> <base>]]`. */
  function Header(mode: BufIo.Mode, base: Digits.Base): seq<byte>
  {
    [0x5B, 0x5B] + BufIo.ModeName(mode) + [0x20] + BufIo.BaseName(base) + [0x5D, 0x5D]
  }

  /** The body of the formatted output of a non-empty buffer. */
  function Body(b: seq<byte>, mode: BufIo.Mode, st: Style): seq<byte>
    requires |b| > 0
  {
    if mode.Numeric? then NumRun(b, 0, |b|, 0, st) else Render(b, Chars(b, mode), 0, mode, st)
  }

  /** The stream style the flags and grouping select. */
  function StyleOf(flags: bv64, grouping: nat): Style
  {
    Style(BufIo.BaseOf(flags), BufIo.IsNozfill(flags), grouping)
  }

  /** Everything `os << output` writes for the buffer b. */
  function Output(b: seq<byte>, flags: bv64, grouping: nat): seq<byte>
  {
    if |b| == 0 then []
    else if !BufIo.IsFmt(flags) then b
    else
      (if BufIo.IsFmtinfo(flags) then Header(BufIo.ModeOf(flags), BufIo.BaseOf(flags)) else [])
      + Body(b, BufIo.ModeOf(flags), StyleOf(flags, grouping))
  }

  // ---------------------------------------------------------------------
  // Properties of the output
  // ---------------------------------------------------------------------

  /** The bytes a digit run is made of: digits of the base, ' ' and ':'. */
  predicate RunByte(c: byte, base: Digits.Base)
  {
    Digits.IsDigit(c, base) || c == 0x20 || c == 0x3A
  }

  predicate RunBytes(s: seq<byte>, base: Digits.Base)
  {
    forall k :: 0 <= k < |s| ==> RunByte(s[k], base)
  }

  lemma RunBytesAppend(s: seq<byte>, t: seq<byte>, base: Digits.Base)
    requires RunBytes(s, base) && RunBytes(t, base)
    ensures RunBytes(s + t, base)
  {
    forall k | 0 <= k < |s + t|
      ensures RunByte((s + t)[k], base)
    {
      if k >= |s| {
        assert (s + t)[k] == t[k - |s|];
      }
    }
  }

  /** A digit run holds only digits of the base, ' ' and ':'. */
  lemma {:induction false} NumRunAlphabet(b: seq<byte>, i: nat, e: nat, j: nat, st: Style)
    requires i < e <= |b|
    ensures RunBytes(NumRun(b, i, e, j, st), st.base)
    decreases e - i
  {
    var d := ByteText(b[i], st);
    assert RunBytes(d, st.base) by {
      Digits.ByteDigitsValue(b[i], st.base, st.nozfill);
    }
    if i + 1 < e {
      var sep, rest := Sep(j, st), NumRun(b, i + 1, e, NextCount(j, st), st);
      assert RunBytes(rest, st.base) by {
        NumRunAlphabet(b, i + 1, e, NextCount(j, st), st);
      }
      assert RunBytes(sep, st.base);
      RunBytesAppend(sep, rest, st.base);
      RunBytesAppend(d, sep + rest, st.base);
      assert NumRun(b, i, e, j, st) == d + (sep + rest);
    } else {
      assert NumRun(b, i, e, j, st) == d + [];
      assert d + [] == d;
    }
  }

  /** Under zero fill each byte takes exactly Size(base) digits, plus one separator per grouping. */
  lemma {:induction false} NumRunLength(b: seq<byte>, i: nat, e: nat, j: nat, st: Style)
    requires i < e <= |b| && !st.nozfill
    ensures |NumRun(b, i, e, j, st)| >= (e - i) * Digits.Size(st.base)
    ensures st.grouping == 0 ==> |NumRun(b, i, e, j, st)| == (e - i) * Digits.Size(st.base)
    decreases e - i
  {
    var s := Digits.Size(st.base);
    Digits.ByteDigitsValue(b[i], st.base, st.nozfill);
    assert |ByteText(b[i], st)| == s;
    if i + 1 < e {
      var rest := NumRun(b, i + 1, e, NextCount(j, st), st);
      NumRunLength(b, i + 1, e, NextCount(j, st), st);
      assert NumRun(b, i, e, j, st) == ByteText(b[i], st) + Sep(j, st) + rest;
      assert (e - i) * s == s + (e - i - 1) * s;
      assert st.grouping == 0 ==> Sep(j, st) == [];
    } else {
      assert (e - i) * s == s;
    }
  }

  /** A buffer is printed verbatim when `fmt` is off, and nothing is printed for an empty one. */
  lemma OutputUnformatted(b: seq<byte>, flags: bv64, grouping: nat)
    ensures |b| == 0 ==> Output(b, flags, grouping) == []
    ensures !BufIo.IsFmt(flags) ==> Output(b, flags, grouping) == b
  {
  }

  /** A printable ASCII text without '\\' or '[' renders as itself. */
  lemma {:induction false} RenderPlainAscii(b: seq<byte>, i: nat, st: Style)
    requires i <= |b|
    requires forall k :: i <= k < |b| ==> 0x20 <= b[k] <= 0x7E && b[k] != 0x5C && b[k] != 0x5B
    ensures Render(b, Chars(b, BufIo.Ascii), i, BufIo.Ascii, st) == b[i..]
    decreases |b| - i
  {
    var cs := Chars(b, BufIo.Ascii);
    if i < |b| {
      RenderPlainAscii(b, i + 1, st);
      assert cs[i] == ChunkAt(b, i, BufIo.Ascii);
      assert b[i..] == [b[i]] + b[i + 1..];
    }
  }

  // ---------------------------------------------------------------------
  // The formatter
  // ---------------------------------------------------------------------

  /** `numeric_format_loop`: every byte with a separator after all but the last. */
  method FormatNumeric(b: seq<byte>, st: Style) returns (out: seq<byte>)
    requires |b| > 0
    ensures out == NumRun(b, 0, |b|, 0, st)
  {
    ghost var total := NumRun(b, 0, |b|, 0, st);
    out := [];
    var cur: nat := 0;
    var j: nat := 0;
    while true
      invariant cur < |b|
      invariant out + NumRun(b, cur, |b|, j, st) == total
      decreases |b| - cur
    {
      DigitsStep(b, cur, |b|, j, st, out, total);
      out := out + ByteText(b[cur], st);
      cur := cur + 1;
      if cur == |b| {
        TailEnd(b, cur, j, st, out, total);
        break;
      }
      TailStep(b, cur, |b|, j, st, out, total);
      out := out + Sep(j, st);
      j := NextCount(j, st);
    }
  }

  /**
   * What follows byte k - 1 of a run ending at e: nothing at the end,
   * else the separator and the rest of the run.
   */
  function Tail(b: seq<byte>, k: nat, e: nat, j: nat, st: Style): seq<byte>
    requires 0 < k <= e <= |b|
  {
    if k == e then [] else Sep(j, st) + NumRun(b, k, e, NextCount(j, st), st)
  }

  /** Writing the digits of byte k leaves its tail to be written. */
  lemma DigitsStep(b: seq<byte>, k: nat, e: nat, j: nat, st: Style, done: seq<byte>, total: seq<byte>)
    requires k < e <= |b| && done + NumRun(b, k, e, j, st) == total
    ensures (done + ByteText(b[k], st)) + Tail(b, k + 1, e, j, st) == total
  {
    assert NumRun(b, k, e, j, st) == ByteText(b[k], st) + Tail(b, k + 1, e, j, st);
    Append3(done, ByteText(b[k], st), Tail(b, k + 1, e, j, st));
  }

  /** Concatenation is associative. */
  lemma Append3<T>(x: seq<T>, y: seq<T>, z: seq<T>)
    ensures (x + y) + z == x + (y + z)
  {
  }

  /** Writing the separator after byte k - 1 leaves the rest of the run from byte k. */
  lemma TailStep(b: seq<byte>, k: nat, e: nat, j: nat, st: Style, done: seq<byte>, total: seq<byte>)
    requires 0 < k < e <= |b| && done + Tail(b, k, e, j, st) == total
    ensures (done + Sep(j, st)) + NumRun(b, k, e, NextCount(j, st), st) == total
  {
    Append3(done, Sep(j, st), NumRun(b, k, e, NextCount(j, st), st));
  }

  /** At the end of the run nothing is left to write. */
  lemma TailEnd(b: seq<byte>, k: nat, j: nat, st: Style, done: seq<byte>, total: seq<byte>)
    requires 0 < k <= |b| && done + Tail(b, k, k, j, st) == total
    ensures done == total
  {
    assert done + [] == done;
  }

  /**
   * `unicode_numeric_format_loop`: the digits of the bytes cur..tmp of one
   * character, with the separators between them; the separator after
   * the last is left to the caller.
   */
  method CharDigits(b: seq<byte>, cur: nat, tmp: nat, ghost end: nat, j0: nat, st: Style, text0: seq<byte>, ghost total: seq<byte>)
    returns (text: seq<byte>, j: nat)
    requires cur < tmp <= end <= |b|
    requires text0 + NumRun(b, cur, end, j0, st) == total
    ensures text + Tail(b, tmp, end, j, st) == total
  {
    text, j := text0, j0;
    var k := cur;
    while true
      invariant cur <= k < tmp
      invariant text + NumRun(b, k, end, j, st) == total
      decreases tmp - k
    {
      ByteStep(b, k, tmp, end, j, st, text, total);
      text := text + ByteText(b[k], st);
      k := k + 1;
      if k == tmp {
        break;
      }
      text := text + Sep(j, st);
      j := NextCount(j, st);
    }
  }

  /**
   * Writing byte k of a character that ends at tmp: its digits, then the
   * separator when another byte of the character follows.
   */
  lemma ByteStep(b: seq<byte>, k: nat, tmp: nat, end: nat, j: nat, st: Style, done: seq<byte>, total: seq<byte>)
    requires k < tmp <= end <= |b| && done + NumRun(b, k, end, j, st) == total
    ensures k + 1 == tmp ==> (done + ByteText(b[k], st)) + Tail(b, tmp, end, j, st) == total
    ensures k + 1 < tmp ==>
      ((done + ByteText(b[k], st)) + Sep(j, st)) + NumRun(b, k + 1, end, NextCount(j, st), st) == total
  {
    if k + 1 < tmp {
      ByteThenSep(b, k, end, j, st, done, total);
    } else {
      DigitsStep(b, k, end, j, st, done, total);
    }
  }

  /** A byte followed by another in the run: its digits, the separator, then the run from the next byte. */
  lemma ByteThenSep(b: seq<byte>, k: nat, end: nat, j: nat, st: Style, done: seq<byte>, total: seq<byte>)
    requires k + 1 < end <= |b| && done + NumRun(b, k, end, j, st) == total
    ensures ((done + ByteText(b[k], st)) + Sep(j, st)) + NumRun(b, k + 1, end, NextCount(j, st), st) == total
  {
    var d := done + ByteText(b[k], st);
    DigitsStep(b, k, end, j, st, done, total);
    TailStep(b, k + 1, end, j, st, d, total);
  }

  /** The reader's call at cur: the character the table holds there. */
  method ReadChar(b: seq<byte>, cur: nat, mode: BufIo.Mode, ghost cs: seq<Unicode.Decoded>) returns (c: Unicode.Decoded)
    requires Decodes(b, cs, mode) && cur < |b|
    ensures c == cs[cur]
  {
    c := ChunkAt(b, cur, mode);
  }

  /**
   * A bracket ends after the next character when the input ends there or
   * that character does not `Continue`; otherwise it ends where the
   * bracket opened at that character does.
   */
  lemma BracketNext(cs: seq<Unicode.Decoded>, i: nat, mode: BufIo.Mode)
    requires Steps(cs) && i < |cs|
    ensures var next := i + cs[i].len;
      if next == |cs| || !Continues(cs[next].cp, mode) then BracketEnd(cs, i, mode) == next
      else BracketEnd(cs, i, mode) == BracketEnd(cs, next, mode)
  {
  }

  /**
   * The bracket ending at end is written up to the character at cur: what
   * is left is the run from cur, its separators counted from j.
   */
  ghost predicate InBracket(b: seq<byte>, cs: seq<Unicode.Decoded>, mode: BufIo.Mode, st: Style,
                            end: nat, total: seq<byte>, cur: nat, j: nat, text: seq<byte>)
  {
    |cs| == |b| && Steps(cs) && cur < end <= |b| && BracketEnd(cs, cur, mode) == end
    && text + NumRun(b, cur, end, j, st) == total
  }

  /**
   * After the digits of the character at cur: the bracket is complete when
   * the input ends or the next character does not `Continue`; otherwise
   * it goes on at the next character, after a separator.
   */
  lemma BracketAdvance(b: seq<byte>, cs: seq<Unicode.Decoded>, cur: nat, next: nat, mode: BufIo.Mode, st: Style,
                       end: nat, j: nat, done: seq<byte>, total: seq<byte>)
    requires |cs| == |b| && Steps(cs) && cur < |b| && next == cur + cs[cur].len && BracketEnd(cs, cur, mode) == end
    requires done + Tail(b, next, end, j, st) == total
    ensures next == |b| || !Continues(cs[next].cp, mode) ==> next == end && done == total
    ensures next < |b| && Continues(cs[next].cp, mode) ==>
      InBracket(b, cs, mode, st, end, total, next, NextCount(j, st), done + Sep(j, st))
  {
    BracketNext(cs, cur, mode);
    if next == |b| || !Continues(cs[next].cp, mode) {
      TailEnd(b, next, j, st, done, total);
    } else {
      TailStep(b, next, end, j, st, done, total);
    }
  }

  /**
   * One character of a bracket: the digits of its bytes, then the read of
   * the next character; more tells whether that one `Continues` the
   * bracket, in which case the separator before it is written too.
   */
  method BracketChar(b: seq<byte>, cur: nat, c: Unicode.Decoded, mode: BufIo.Mode, st: Style,
                     ghost cs: seq<Unicode.Decoded>, ghost end: nat, j: nat, text: seq<byte>, ghost total: seq<byte>)
    returns (next: nat, nc: Unicode.Decoded, nj: nat, ntext: seq<byte>, more: bool)
    requires Decodes(b, cs, mode) && InBracket(b, cs, mode, st, end, total, cur, j, text) && c == cs[cur]
    ensures next == cur + cs[cur].len
    ensures more ==> InBracket(b, cs, mode, st, end, total, next, nj, ntext) && nc == cs[next]
    ensures !more ==> next == end && ntext == total
  {
    ntext, nj := CharDigits(b, cur, cur + c.len, end, j, st, text, total);
    next := cur + c.len;
    BracketAdvance(b, cs, cur, next, mode, st, end, nj, ntext, total);
    nc := c;
    more := false;
    if next < |b| {
      nc := ReadChar(b, next, mode, cs);
      if Continues(nc.cp, mode) {
        more := true;
        ntext := ntext + Sep(nj, st);
        nj := NextCount(nj, st);
      }
    }
  }

  /**
   * The bracket opened at i (`*_invalid_loop`): writes '[' and the digits
   * of every byte of every character until one that does not `Continue`,
   * or the end, then ']'; returns where the next character starts.
   */
  method Bracket(b: seq<byte>, i: nat, mode: BufIo.Mode, st: Style, ghost cs: seq<Unicode.Decoded>)
    returns (text: seq<byte>, e: nat)
    requires Decodes(b, cs, mode) && i < |b|
    ensures e == BracketEnd(cs, i, mode)
    ensures text == [0x5B] + NumRun(b, i, e, 0, st) + [0x5D]
  {
    ghost var end := BracketEnd(cs, i, mode);
    ghost var total := [0x5B] + NumRun(b, i, end, 0, st);
    text := [0x5B];
    var j: nat := 0;
    var cur: nat := i;
    var c := ReadChar(b, i, mode, cs);
    while true
      invariant InBracket(b, cs, mode, st, end, total, cur, j, text) && c == cs[cur]
      decreases |b| - cur
    {
      var more;
      cur, c, j, text, more := BracketChar(b, cur, c, mode, st, cs, end, j, text, total);
      if !more {
        break;
      }
    }
    text := text + [0x5D];
    e := cur;
  }

  /**
   * The text modes: a printable character is written and the next one
   * read; any other opens a bracket. The source's inner run of printable
   * characters is the same loop taken several times.
   */
  method FormatText(b: seq<byte>, mode: BufIo.Mode, st: Style, ghost cs: seq<Unicode.Decoded>) returns (out: seq<byte>)
    requires Decodes(b, cs, mode)
    ensures out == Render(b, cs, 0, mode, st)
  {
    ghost var total := Render(b, cs, 0, mode, st);
    out := [];
    var cur := 0;
    while cur < |b|
      invariant 0 <= cur <= |b|
      invariant out + Render(b, cs, cur, mode, st) == total
      decreases |b| - cur
    {
      cur, out := TextStep(b, mode, st, cs, cur, out, total);
    }
    assert out + [] == out;
  }

  /** One turn of the text loop: the character at cur written literally, or the bracket it opens. */
  method TextStep(b: seq<byte>, mode: BufIo.Mode, st: Style, ghost cs: seq<Unicode.Decoded>, cur: nat, done: seq<byte>, ghost total: seq<byte>)
    returns (next: nat, out: seq<byte>)
    requires Decodes(b, cs, mode) && cur < |b|
    requires done + Render(b, cs, cur, mode, st) == total
    ensures cur < next <= |b| && out + Render(b, cs, next, mode, st) == total
  {
    var c := ReadChar(b, cur, mode, cs);
    if Printable(c.cp, mode) {
      RenderLit(b, cs, cur, mode, st, done, total);
      out := done + Lit(c.cp, mode);
      next := cur + c.len;
    } else {
      var piece;
      piece, next := Bracket(b, cur, mode, st, cs);
      RenderBracket(b, cs, cur, mode, st, done, total);
      out := done + piece;
    }
  }

  /** Writing a printable character at cur leaves the rendering after it. */
  lemma RenderLit(b: seq<byte>, cs: seq<Unicode.Decoded>, cur: nat, mode: BufIo.Mode, st: Style, done: seq<byte>, total: seq<byte>)
    requires |cs| == |b| && Steps(cs) && cur < |b| && Printable(cs[cur].cp, mode)
    requires done + Render(b, cs, cur, mode, st) == total
    ensures (done + Lit(cs[cur].cp, mode)) + Render(b, cs, cur + cs[cur].len, mode, st) == total
  {
    var lit, rest := Lit(cs[cur].cp, mode), Render(b, cs, cur + cs[cur].len, mode, st);
    assert Render(b, cs, cur, mode, st) == lit + rest;
    assert done + (lit + rest) == (done + lit) + rest;
  }

  /** Writing the bracket opened at cur leaves the rendering after it. */
  lemma RenderBracket(b: seq<byte>, cs: seq<Unicode.Decoded>, cur: nat, mode: BufIo.Mode, st: Style, done: seq<byte>, total: seq<byte>)
    requires |cs| == |b| && Steps(cs) && cur < |b| && !Printable(cs[cur].cp, mode)
    requires done + Render(b, cs, cur, mode, st) == total
    ensures var e := BracketEnd(cs, cur, mode);
      (done + ([0x5B] + NumRun(b, cur, e, 0, st) + [0x5D])) + Render(b, cs, e, mode, st) == total
  {
    var e := BracketEnd(cs, cur, mode);
    var piece, rest := [0x5B] + NumRun(b, cur, e, 0, st) + [0x5D], Render(b, cs, e, mode, st);
    assert Render(b, cs, cur, mode, st) == piece + rest;
    assert done + (piece + rest) == (done + piece) + rest;
  }

  /** `operator<<(std::ostream&, const buf_io::output&)`. */
  method Format(b: seq<byte>, flags: bv64, grouping: nat) returns (out: seq<byte>)
    ensures out == Output(b, flags, grouping)
  {
    if |b| == 0 {
      return [];
    }
    if !BufIo.IsFmt(flags) {
      return b;
    }
    var mode := BufIo.ModeOf(flags);
    out := [];
    if BufIo.IsFmtinfo(flags) {
      out := Header(mode, BufIo.BaseOf(flags));
    }
    var st := StyleOf(flags, grouping);
    var body;
    if mode.Numeric? {
      body := FormatNumeric(b, st);
    } else {
      body := FormatText(b, mode, st, Chars(b, mode));
    }
    out := out + body;
  }

  // ---------------------------------------------------------------------
  // io::bits
  // ---------------------------------------------------------------------

  /** The binary digits of v, "0" for 0. */
  function Binary(v: nat): (r: seq<byte>)
    ensures |r| >= 1
  {
    if v == 0 then [0x30] else Digits.Numeral(v, Digits.Bin)
  }

  /** n copies of the fill character. */
  function Repeat(c: byte, n: nat): (r: seq<byte>)
    ensures |r| == n
  {
    seq(n, _ => c)
  }

  /** `io::bits` on a stream of the given width and fill: the digits right-aligned in the width. */
  function BitsText(v: nat, width: int, fill: byte): seq<byte>
  {
    var d := Binary(v);
    Repeat(fill, if width > |d| then width - |d| else 0) + d
  }

  /** The bit printer's text read back in base 2 is the value, after the padding. */
  lemma BitsValue(v: nat, width: int)
    ensures Digits.AllDigits(BitsText(v, width, 0x30), Digits.Bin)
    ensures Digits.Accumulate(BitsText(v, width, 0x30), Digits.Bin) == v
  {
    var d := Binary(v);
    var n: nat := if width > |d| then width - |d| else 0;
    assert Repeat(0x30, n) == Digits.Zeros(n);
    assert Digits.AllDigits(d, Digits.Bin) && Digits.Accumulate(d, Digits.Bin) == v by {
      if v == 0 {
        Digits.AccumulateZeros(1, Digits.Bin);
        assert d == Digits.Zeros(1);
      } else {
        Digits.AccumulateNumeral(v, Digits.Bin);
      }
    }
    Digits.AccumulateLeadingZeros(n, d, Digits.Bin);
  }

  /** For a byte, base 2 in the formatter prints what `io::bits` prints at width 8 (or 0 under `nozfill`) and fill '0'. */
  lemma BitsIsByteText(v: byte, nozfill: bool)
    ensures BitsText(v, if nozfill then 0 else 8, 0x30) == ByteText(v, Style(Digits.Bin, nozfill, 0))
  {
    var d := Binary(v);
    assert d == Digits.Unpadded(v, Digits.Bin);
    var n: nat := if nozfill then 0 else 8 - |d|;
    assert Repeat(0x30, n) == Digits.Zeros(n);
  }

  /** The digit for bit k of v. */
  function BitDigit(v: nat, mask: nat): byte
    requires mask > 0
  {
    if (v / mask) % 2 == 1 then 0x31 else 0x30
  }

  /**
   * `io::bits(os, value)`: finds the highest set bit (bit 0 for 0),
   * shrinks the width by its index for the first digit, then prints one
   * digit per bit down to bit 0. `value & mask` is `(value / mask) % 2`.
   */
  method Bits(v: nat, width: int, fill: byte) returns (text: seq<byte>)
    requires v < Bit.U64
    ensures text == BitsText(v, width, fill)
  {
    var i, mask := TopBit(v);
    var w := if width - i > 0 then width - i else 0;
    text := Repeat(fill, if w > 1 then w - 1 else 0);
    var bits := PrintBits(v, i, mask);
    text := text + bits;
  }

  /** The search of `io::bits` for the highest set bit: mask walks down from bit 63 (to bit 0 for 0). */
  method TopBit(v: nat) returns (i: nat, mask: nat)
    requires v < Bit.U64
    ensures i <= 63 && Printed(v, i, mask, 2 * mask, []) && (v == 0 ==> i == 0)
  {
    mask := 0x8000_0000_0000_0000;
    i := 63;
    TopMask();
    while mask > 1 && (v / mask) % 2 == 0
      invariant 0 <= i <= 63 && mask == Pow2(i)
      invariant v < 2 * mask
      decreases i
    {
      HighBitClear(v, i);
      mask := mask / 2;
      i := i - 1;
    }
    PrintedStart(v, i, mask);
  }

  /** The print loop of `io::bits`: one digit per bit from bit i down to bit 0, which is the numeral of v. */
  method PrintBits(v: nat, i: nat, mask: nat) returns (bits: seq<byte>)
    requires Printed(v, i, mask, 2 * mask, []) && (v == 0 ==> i == 0)
    ensures bits == Binary(v) && |bits| == i + 1
  {
    bits := [];
    var m := mask;
    ghost var k: int := i;
    ghost var above: nat := 2 * mask;
    while m > 0
      invariant -1 <= k <= i && |bits| == i - k
      invariant Printed(v, k, m, above, bits)
      decreases k + 1
    {
      PrintedStep(v, k, m, above, bits);
      bits := bits + [BitDigit(v, m)];
      above := m;
      m := m / 2;
      k := k - 1;
    }
    PrintedAll(v, k, m, above, bits);
  }

  /**
   * The print loop's state: mask is bit k (0 once past bit 0), above the
   * bit above it, and bits the numeral of the bits above bit k ("0" once
   * a zero value has printed its one digit).
   */
  ghost predicate Printed(v: nat, k: int, mask: nat, above: nat, bits: seq<byte>)
  {
    (k >= 0 ==> mask == Pow2(k) && above == 2 * mask && (v > 0 ==> v / mask >= 1)) &&
    (k < 0 ==> mask == 0 && above == 1) &&
    bits == if v == 0 && k < 0 then [0x30] else Digits.Numeral(v / above, Digits.Bin)
  }

  /** Printing the digit of bit k and shifting the mask keeps the state. */
  lemma PrintedStep(v: nat, k: int, mask: nat, above: nat, bits: seq<byte>)
    requires Printed(v, k, mask, above, bits) && mask > 0
    requires v == 0 ==> k == 0
    ensures Printed(v, k - 1, mask / 2, mask, bits + [BitDigit(v, mask)])
  {
    if v > 0 {
      PrintStep(v, mask, above);
    }
    HalfPow(k);
    if k > 0 && v > 0 {
      Unicode.DivDiv(v, mask / 2, 2);
    }
  }

  /** Once the mask is 0 the digits are the binary numeral of v. */
  lemma PrintedAll(v: nat, k: int, mask: nat, above: nat, bits: seq<byte>)
    requires Printed(v, k, mask, above, bits) && mask == 0 && k >= -1
    ensures bits == Binary(v)
  {
  }

  /** The scan starts at bit 63 of a 64-bit value. */
  lemma TopMask()
    ensures Pow2(63) == 0x8000_0000_0000_0000 && 2 * Pow2(63) == Bit.U64
  {
    Pow2Bytes(8);
    assert Pow256(8) == Bit.U64;
  }

  /** Shifting a mask right: 2^k / 2 is 2^(k-1), and 0 for k == 0. */
  lemma HalfPow(k: nat)
    ensures Pow2(k) / 2 == if k > 0 then Pow2(k - 1) else 0
  {
    if k > 0 {
      assert Pow2(k) == 2 * Pow2(k - 1);
    }
  }

  /** Bit i clear and v below 2^(i+1): v is below 2^i. */
  lemma HighBitClear(v: nat, i: nat)
    requires i >= 1 && v < 2 * Pow2(i) && (v / Pow2(i)) % 2 == 0
    ensures v < 2 * Pow2(i - 1) && Pow2(i - 1) == Pow2(i) / 2
  {
    var m := Pow2(i);
    assert m == 2 * Pow2(i - 1);
    if v >= m {
      Bytes.ModUnique(v, m, 1, v - m);
      assert false;
    }
  }

  /**
   * Where the scan stops (bit i set, or i == 0), nothing has been printed
   * yet: the bits above bit i are all clear.
   */
  lemma PrintedStart(v: nat, i: nat, m: nat)
    requires m == Pow2(i) && v < 2 * m
    requires m <= 1 || (v / m) % 2 == 1
    ensures Printed(v, i, m, 2 * m, []) && (v == 0 ==> i == 0)
  {
    Bytes.ModUnique(v, 2 * m, 0, v);
    assert Digits.Numeral(v / (2 * m), Digits.Bin) == [];
    if i > 0 {
      assert m >= 2 by {
        assert m == 2 * Pow2(i - 1);
      }
      var q := v / m;
      assert q % 2 == 1;
      assert v == 0 ==> q == 0;
    }
  }

  /** One printed digit, for the mask m, extends the numeral of the bits above it. */
  lemma PrintStep(v: nat, m: nat, m2: nat)
    requires m >= 1 && m2 == 2 * m && v / m >= 1
    ensures Digits.Numeral(v / m, Digits.Bin) == Digits.Numeral(v / m2, Digits.Bin) + [BitDigit(v, m)]
  {
    var q := v / m;
    Unicode.DivDiv(v, m, 2);
    NumeralStep(q);
  }

  /** The binary numeral of q > 0 is that of q / 2 and then the low bit. */
  lemma NumeralStep(q: nat)
    requires q > 0
    ensures Digits.Numeral(q, Digits.Bin) == Digits.Numeral(q / 2, Digits.Bin) + [if q % 2 == 1 then 0x31 else 0x30]
  {
    var r := q % 2;
    assert Digits.Radix(Digits.Bin) == 2;
    assert Digits.DigitByte(r) == if r == 1 then 0x31 else 0x30;
  }
}
