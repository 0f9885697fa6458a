/**
 * Prefixed integer parsing of `ktu/string.hpp` (`ston32`, `ston64`,
 * `ston<T>`).
 *
 * A C string is a `seq<char>`; reading at or past its end yields the NUL
 * terminator. The grammar is: an optional '-', then either "0" followed by
 * octal digits, "0b" followed by binary digits, "0x" followed by hex
 * digits of either case, or a decimal number starting with '1'..'9'.
 * Digits are accumulated most significant first up to the first character
 * that is not a digit of the base; anything else yields 0. The value wraps
 * modulo 2^width and a leading '-' negates it in two's complement.
 */
module Ston {
  import opened Bytes

  /** The character at `i`, or NUL at and past the end. */
  function At(s: seq<char>, i: nat): char
  {
    if i < |s| then s[i] else '\0'
  }

  predicate IsDigitOf(c: char, base: nat)
  {
    match base
    case 2 => '0' <= c <= '1'
    case 8 => '0' <= c <= '7'
    case 10 => '0' <= c <= '9'
    case _ => ('0' <= c <= '9') || ('A' <= c <= 'F') || ('a' <= c <= 'f')
  }

  /** The value of a digit: `c - '0'`, `c - 0x37` for 'A'..'F', `c - 0x57` for 'a'..'f'. */
  function DigitValue(c: char): (r: nat)
    requires IsDigitOf(c, 16)
    ensures r < 16
    ensures '0' <= c <= '9' ==> r == c as int - '0' as int
  {
    if '0' <= c <= '9' then c as int - '0' as int
    else if 'A' <= c <= 'F' then c as int - 0x37
    else c as int - 0x57
  }

  lemma DigitBelowBase(c: char, base: nat)
    requires base in {2, 8, 10, 16} && IsDigitOf(c, base)
    ensures IsDigitOf(c, 16) && DigitValue(c) < base
  {
  }

  /** The end of the maximal run of `base` digits starting at `i`. */
  function RunEnd(s: seq<char>, i: nat, base: nat): (r: nat)
    requires i <= |s|
    ensures i <= r <= |s|
    ensures forall k :: i <= k < r ==> IsDigitOf(s[k], base)
    ensures r == |s| || !IsDigitOf(s[r], base)
    decreases |s| - i
  {
    if i == |s| || !IsDigitOf(s[i], base) then i else RunEnd(s, i + 1, base)
  }

  predicate AllDigits(d: seq<char>, base: nat)
  {
    forall k :: 0 <= k < |d| ==> IsDigitOf(d[k], base)
  }

  /** The value of a digit string, most significant digit first (unbounded). */
  function Accumulate(d: seq<char>, base: nat): nat
    requires base in {2, 8, 10, 16} && AllDigits(d, base)
  {
    if |d| == 0 then 0
    else
      DigitBelowBase(d[|d| - 1], base);
      Accumulate(d[..|d| - 1], base) * base + DigitValue(d[|d| - 1])
  }

  /** The digits of the run of `base` digits at `i`, and their unbounded value. */
  function RunValue(s: seq<char>, i: nat, base: nat): nat
    requires i <= |s| && base in {2, 8, 10, 16}
  {
    Accumulate(s[i..RunEnd(s, i, base)], base)
  }

  /** Where the digits of `s` start and in which base, or that there are none. */
  datatype Form = NoDigits | Digits(start: nat, base: nat)

  /** Classifies the prefix of `s`: after an optional '-', "0" + octal, "0b", "0x" or '1'..'9'. */
  function FormOf(s: seq<char>): (f: Form)
    ensures f.Digits? ==> f.start <= |s| && f.base in {2, 8, 10, 16}
  {
    var i := if At(s, 0) == '-' then 1 else 0;
    if At(s, i) == '0' then
      if '0' <= At(s, i + 1) <= '7' then Digits(i + 1, 8)
      else if At(s, i + 1) == 'b' then Digits(i + 2, 2)
      else if At(s, i + 1) == 'x' then Digits(i + 2, 16)
      else NoDigits
    else if '1' <= At(s, i) <= '9' then Digits(i, 10)
    else NoDigits
  }

  /** The unsigned magnitude the grammar assigns to `s`, before wrapping. */
  function Magnitude(s: seq<char>): nat
  {
    match FormOf(s)
    case NoDigits => 0
    case Digits(start, base) => RunValue(s, start, base)
  }

  /** Unsigned negation modulo m: `-value` on an unsigned type. */
  function Negate(v: nat, m: nat): (r: nat)
    requires m >= 1 && v < m
    ensures r < m && (v + r) % m == 0
  {
    if v == 0 then 0 else m - v
  }

  /** The result of `ston32` (width 32) or `ston64` (width 64) on `s`. */
  function StonSpec(s: seq<char>, width: nat): (r: nat)
    ensures r < Pow2(width)
  {
    var v := Magnitude(s) % Pow2(width);
    if At(s, 0) == '-' then Negate(v, Pow2(width)) else v
  }

  /** One more digit accumulated in wrapped arithmetic agrees with wrapping afterwards. */
  lemma WrapStep(a: nat, base: nat, d: nat, m: nat)
    requires m >= 1
    ensures ((a % m) * base + d) % m == (a * base + d) % m
  {
    var q := a / m;
    assert a * base + d == (a % m) * base + d + m * (q * base) by {
      assert a == m * q + a % m;
    }
    ModAdd((a % m) * base + d, q * base, m);
  }

  lemma ModAdd(x: nat, k: nat, m: nat)
    requires m >= 1
    ensures (x + m * k) % m == x % m
  {
    ModAddMultiple(x, k, m);
  }

  /** Accumulates the run of `base` digits at `i` modulo m; returns the value and the run's end. */
  method ReadRun(s: seq<char>, i: nat, base: nat, m: nat) returns (value: nat, j: nat)
    requires i <= |s| && base in {2, 8, 10, 16} && m >= 1
    ensures j == RunEnd(s, i, base)
    ensures value == RunValue(s, i, base) % m
  {
    value := 0;
    j := i;
    assert s[i..i] == [] && 0 % m == 0;
    while j < |s| && IsDigitOf(s[j], base)
      invariant i <= j <= |s|
      invariant RunEnd(s, i, base) == RunEnd(s, j, base)
      invariant AllDigits(s[i..j], base)
      invariant value == Accumulate(s[i..j], base) % m
      decreases |s| - j
    {
      RunStep(s, i, j, base, m, value);
      value := (value * base + DigitValue(s[j])) % m;
      j := j + 1;
    }
  }

  /** Taking the digit at j into the wrapped accumulator of s[i..j] gives that of s[i..j + 1]. */
  lemma RunStep(s: seq<char>, i: nat, j: nat, base: nat, m: nat, value: nat)
    requires i <= j < |s| && base in {2, 8, 10, 16} && m >= 1
    requires AllDigits(s[i..j], base) && IsDigitOf(s[j], base)
    requires value == Accumulate(s[i..j], base) % m
    ensures IsDigitOf(s[j], 16) && AllDigits(s[i..j + 1], base)
    ensures (value * base + DigitValue(s[j])) % m == Accumulate(s[i..j + 1], base) % m
  {
    DigitBelowBase(s[j], base);
    assert s[i..j + 1] == s[i..j] + [s[j]];
    AccumulateSnoc(s[i..j], s[j], base);
    WrapStep(Accumulate(s[i..j], base), base, DigitValue(s[j]), m);
  }

  /**
   * `ston32` / `ston64`: the source's branches over the prefix, each digit
   * loop accumulating in the `width`-bit unsigned type.
   */
  method StonW(s: seq<char>, width: nat) returns (result: nat)
    ensures result == StonSpec(s, width)
  {
    var m := Pow2(width);
    var value := 0;
    var i := 0;
    ghost var form := NoDigits;
    var negative := At(s, 0) == '-';
    if negative {
      i := 1;
    }
    if At(s, i) == '0' {
      i := i + 1;
      if '0' <= At(s, i) <= '7' {
        form := Digits(i, 8);
        value, i := ReadRun(s, i, 8, m);
      } else if At(s, i) == 'b' {
        form := Digits(i + 1, 2);
        value, i := ReadRun(s, i + 1, 2, m);
      } else if At(s, i) == 'x' {
        form := Digits(i + 1, 16);
        value, i := ReadRun(s, i + 1, 16, m);
      }
    } else if '1' <= At(s, i) <= '9' {
      form := Digits(i, 10);
      value, i := ReadRun(s, i, 10, m);
    }
    MagnitudeOfForm(s, form, value, m);
    result := if negative then Negate(value, m) else value;
  }

  /** The value read for the form the prefix selects is the magnitude, wrapped. */
  lemma MagnitudeOfForm(s: seq<char>, form: Form, value: nat, m: nat)
    requires m >= 1 && FormOf(s) == form
    requires form.NoDigits? ==> value == 0
    requires form.Digits? ==> value == RunValue(s, form.start, form.base) % m
    ensures value == Magnitude(s) % m
  {
  }

  /** An integral type `T`: `bool`, or an integer type of `bytes` bytes, signed or not. */
  datatype Integral = Bool | Int(bytes: nat, signed: bool)

  function SizeOf(t: Integral): nat
  {
    if t.Bool? then 1 else t.bytes
  }

  /** The number of bits of an integer type, 8 sizeof(T). */
  function Bits(t: Integral): (w: nat)
    requires t.Int? && t.bytes >= 1
    ensures w >= 8
  {
    8 * t.bytes
  }

  /**
   * The conversion of an unsigned result to `T` on return: a nonzero value
   * is `true`; an integer type keeps the value modulo 2^(8 sizeof(T)),
   * read in two's complement when `T` is signed.
   */
  function ToIntegral(v: nat, t: Integral): (r: int)
    requires t.Int? ==> t.bytes >= 1
    ensures t.Bool? ==> r == if v == 0 then 0 else 1
    ensures t.Int? && !t.signed ==> 0 <= r < Pow2(Bits(t)) && r % Pow2(Bits(t)) == v % Pow2(Bits(t))
    ensures t.Int? && t.signed ==> -(Pow2(Bits(t) - 1) as int) <= r < Pow2(Bits(t) - 1) && (r - v) % Pow2(Bits(t)) == 0
  {
    if t.Bool? then (if v == 0 then 0 else 1)
    else
      assert Pow2(Bits(t)) == 2 * Pow2(Bits(t) - 1);
      Wrap(v, Pow2(Bits(t)), Pow2(Bits(t) - 1), t.signed)
  }

  /** v modulo m = 2 half, read in two's complement when `signed`. */
  function Wrap(v: nat, m: nat, half: nat, signed: bool): (r: int)
    requires half >= 1 && m == 2 * half
    ensures !signed ==> 0 <= r < m && r % m == v % m
    ensures signed ==> -(half as int) <= r < half && (r - v) % m == 0
  {
    var u: int := v % m;
    TwosComplement(v, m, half);
    if signed && u >= half then u - m else u
  }

  /**
   * v modulo m = 2 half, shifted down by m when it is at least half,
   * lies in [-half, half) and differs from v by a multiple of m.
   */
  lemma TwosComplement(v: nat, m: nat, half: nat)
    requires half >= 1 && m == 2 * half
    ensures var u: int := v % m;
      0 <= u < m && u % m == v % m && (u - v) % m == 0 &&
      (u >= half ==> -(half as int) <= u - m < half && (u - m - v) % m == 0)
  {
    var q := v / m;
    ModUnique(v % m, m, 0, v % m);
    ModUnique(v % m - v, m, -q, 0);
    ModUnique(v % m - m - v, m, -q - 1, 0);
  }

  /**
   * `ston<T>`: ston32 for types of at most 4 bytes, ston64 otherwise, the
   * result converted to `T`.
   */
  method Ston(s: seq<char>, t: Integral) returns (result: int)
    requires t.Int? ==> t.bytes >= 1
    ensures result == ToIntegral(StonSpec(s, if SizeOf(t) <= 4 then 32 else 64), t)
  {
    var v;
    if SizeOf(t) <= 4 {
      v := StonW(s, 32);
    } else {
      v := StonW(s, 64);
    }
    result := ToIntegral(v, t);
  }

  /** `ston<uint8_t>("300")` is 44, and `ston<int32_t>("-5")` is -5 where `ston<uint32_t>("-5")` is 2^32 - 5. */
  lemma StonConversions()
    ensures ToIntegral(StonSpec("300", 32), Int(1, false)) == 44
    ensures ToIntegral(StonSpec("-5", 32), Int(4, true)) == -5
    ensures ToIntegral(StonSpec("-5", 32), Int(4, false)) == Pow2(32) - 5
  {
    StonOf300();
    StonOfMinus5();
    Uint8Of300();
    Int32OfMinus5();
  }

  lemma Pow2Of32()
    ensures Pow2(32) == 0x1_0000_0000 && Pow2(31) == 0x8000_0000
  {
    Pow2Bytes(4);
  }

  /** 300 converted to `uint8_t` is 300 modulo 256. */
  lemma Uint8Of300()
    ensures ToIntegral(300, Int(1, false)) == 44
  {
    assert Pow2(8) == 256;
    ModUnique(300, 256, 1, 44);
  }

  /** 2^32 - 5 converted to `int32_t` is -5, and to `uint32_t` itself. */
  lemma Int32OfMinus5()
    ensures ToIntegral(Pow2(32) - 5, Int(4, true)) == -5
    ensures ToIntegral(Pow2(32) - 5, Int(4, false)) == Pow2(32) - 5
  {
    Pow2Of32();
    ModUnique(Pow2(32) - 5, Pow2(32), 0, Pow2(32) - 5);
  }

  /** "300" reads as 300. */
  lemma StonOf300()
    ensures StonSpec("300", 32) == 300
  {
    Pow2Of32();
    var s := "300";
    assert FormOf(s) == Digits(0, 10);
    assert RunEnd(s, 3, 10) == 3;
    assert RunEnd(s, 0, 10) == 3;
    assert s[0..3] == s;
    assert s[..2] == "30" && "30"[..1] == "3";
    assert Accumulate(s, 10) == 300;
  }

  /** "-5" reads as the negation of 5 in 32 bits. */
  lemma StonOfMinus5()
    ensures StonSpec("-5", 32) == Pow2(32) - 5
  {
    Pow2Of32();
    var t := "-5";
    assert FormOf(t) == Digits(1, 10);
    assert RunEnd(t, 2, 10) == 2;
    assert RunEnd(t, 1, 10) == 2;
    assert t[1..2] == "5";
    assert Accumulate("5", 10) == 5;
  }

  // ---------------------------------------------------------------------
  // Reference printers and round trips
  // ---------------------------------------------------------------------

  /** The digit character for d < 16, upper-case hex letters. */
  function DigitChar(d: nat): (c: char)
    requires d < 16
    ensures IsDigitOf(c, 16) && DigitValue(c) == d
    ensures d < 10 ==> IsDigitOf(c, 10) && IsDigitOf(c, 8) == (d < 8) && IsDigitOf(c, 2) == (d < 2)
    ensures d >= 10 ==> !IsDigitOf(c, 10)
  {
    if d < 10 then ('0' as int + d) as char else ('A' as int + d - 10) as char
  }

  /** The base-`base` numeral of n > 0, most significant digit first, no leading zero. */
  function Numeral(n: nat, base: nat): (r: seq<char>)
    requires base in {2, 8, 10, 16}
    ensures n == 0 <==> r == []
  {
    if n == 0 then []
    else Numeral(n / base, base) + [DigitChar(n % base)]
  }

  /** A numeral is made of digits of its base and starts with a non-zero digit. */
  lemma {:induction false} NumeralDigits(n: nat, base: nat)
    requires base in {2, 8, 10, 16}
    ensures AllDigits(Numeral(n, base), base)
    ensures n > 0 ==> Numeral(n, base)[0] != '0'
  {
    if n > 0 {
      var q, m := n / base, n % base;
      var init, d := Numeral(q, base), DigitChar(m);
      DivSplit(n, base);
      NumeralDigits(q, base);
      assert Numeral(n, base) == init + [d];
      AccumulateSnoc(init, d, base);
      if q == 0 {
        LeadingDigit(n, base);
      }
    }
  }

  /** A numeral reads back as the number. */
  lemma {:induction false} AccumulateNumeral(n: nat, base: nat)
    requires base in {2, 8, 10, 16}
    ensures AllDigits(Numeral(n, base), base)
    ensures Accumulate(Numeral(n, base), base) == n
  {
    if n > 0 {
      var q, m := n / base, n % base;
      var init, d := Numeral(q, base), DigitChar(m);
      DivSplit(n, base);
      AccumulateNumeral(q, base);
      assert Numeral(n, base) == init + [d];
      AccumulateSnoc(init, d, base);
      ValueStep(Accumulate(init, base), q, base, DigitValue(d), m, n);
    }
    assert AllDigits(Numeral(n, base), base) by {
      NumeralDigits(n, base);
    }
  }

  /** A number below the base is one digit, which is not '0' when the number is not 0. */
  lemma LeadingDigit(n: nat, base: nat)
    requires base in {2, 8, 10, 16} && 0 < n && n / base == 0
    ensures DigitChar(n % base) != '0'
  {
    DivSplit(n, base);
  }

  /** Appending a digit multiplies the value by the base and adds the digit. */
  lemma AccumulateSnoc(init: seq<char>, d: char, base: nat)
    requires base in {2, 8, 10, 16} && AllDigits(init, base) && IsDigitOf(d, base)
    ensures AllDigits(init + [d], base)
    ensures (init + [d])[0] == if |init| > 0 then init[0] else d
    ensures Accumulate(init + [d], base) == Accumulate(init, base) * base + DigitValue(d)
  {
    var r := init + [d];
    assert forall k :: 0 <= k < |init| ==> r[k] == init[k];
    assert r[..|r| - 1] == init;
  }

  lemma ValueStep(a: nat, q: nat, base: nat, dv: nat, m: nat, n: nat)
    requires a == q && dv == m && n == q * base + m
    ensures a * base + dv == n
  {
  }

  lemma DivSplit(n: nat, base: nat)
    requires base >= 2
    ensures n == (n / base) * base + n % base
    ensures n > 0 ==> n / base < n
  {
  }

  /** The run starting at `i` that reaches the end of the string covers it all. */
  lemma RunToEnd(s: seq<char>, i: nat, base: nat)
    requires i <= |s| && AllDigits(s[i..], base)
    ensures RunEnd(s, i, base) == |s|
    decreases |s| - i
  {
    if i < |s| {
      assert s[i..][0] == s[i];
      assert s[i + 1..] == s[i..][1..];
      RunToEnd(s, i + 1, base);
    }
  }

  /** When the digits run to the end of the string, the magnitude is their whole value. */
  lemma MagnitudeOfNumeral(s: seq<char>, start: nat, base: nat, n: nat)
    requires base in {2, 8, 10, 16} && FormOf(s) == Digits(start, base)
    requires s[start..] == Numeral(n, base)
    ensures Magnitude(s) == n
  {
    NumeralDigits(n, base);
    RunToEnd(s, start, base);
    assert s[start..RunEnd(s, start, base)] == s[start..];
    AccumulateNumeral(n, base);
  }

  /** Parsing the decimal numeral of n > 0 gives n modulo 2^width. */
  lemma DecimalRoundTrip(n: nat, width: nat)
    requires n > 0
    ensures StonSpec(Numeral(n, 10), width) == n % Pow2(width)
  {
    NumeralDigits(n, 10);
    var s := Numeral(n, 10);
    assert s[0..] == s;
    assert FormOf(s) == Digits(0, 10);
    MagnitudeOfNumeral(s, 0, 10, n);
  }

  /** Parsing "-" followed by the decimal numeral of n > 0 gives the two's-complement negation. */
  lemma NegativeDecimalRoundTrip(n: nat, width: nat)
    requires n > 0
    ensures StonSpec(['-'] + Numeral(n, 10), width) == Negate(n % Pow2(width), Pow2(width))
  {
    NumeralDigits(n, 10);
    var s := ['-'] + Numeral(n, 10);
    assert s[1..] == Numeral(n, 10);
    assert FormOf(s) == Digits(1, 10);
    MagnitudeOfNumeral(s, 1, 10, n);
  }

  /** Parsing "0x" followed by the hex numeral of n gives n modulo 2^width. */
  lemma HexRoundTrip(n: nat, width: nat)
    ensures StonSpec("0x" + Numeral(n, 16), width) == n % Pow2(width)
  {
    var s := "0x" + Numeral(n, 16);
    assert s[2..] == Numeral(n, 16);
    assert FormOf(s) == Digits(2, 16);
    MagnitudeOfNumeral(s, 2, 16, n);
  }

  /** Parsing "0b" followed by the binary numeral of n gives n modulo 2^width. */
  lemma BinaryRoundTrip(n: nat, width: nat)
    ensures StonSpec("0b" + Numeral(n, 2), width) == n % Pow2(width)
  {
    var s := "0b" + Numeral(n, 2);
    assert s[2..] == Numeral(n, 2);
    assert FormOf(s) == Digits(2, 2);
    MagnitudeOfNumeral(s, 2, 2, n);
  }

  /** Parsing "0" followed by the octal numeral of n > 0 gives n modulo 2^width. */
  lemma OctalRoundTrip(n: nat, width: nat)
    requires n > 0
    ensures StonSpec("0" + Numeral(n, 8), width) == n % Pow2(width)
  {
    NumeralDigits(n, 8);
    var s := "0" + Numeral(n, 8);
    assert s[1..] == Numeral(n, 8);
    assert At(s, 1) == s[1] == Numeral(n, 8)[0];
    assert FormOf(s) == Digits(1, 8);
    MagnitudeOfNumeral(s, 1, 8, n);
  }

  /** Lower-case hex letters are accepted with the same values as upper-case ones. */
  lemma HexEitherCase(c: char)
    requires 'A' <= c <= 'F'
    ensures IsDigitOf(c, 16) && IsDigitOf((c as int + 0x20) as char, 16)
    ensures DigitValue(c) == DigitValue((c as int + 0x20) as char) == c as int - 'A' as int + 10
  {
  }

  /** A lone "0", or a string not starting with a digit or "-digit", yields 0. */
  lemma ZeroCases(s: seq<char>, width: nat)
    ensures StonSpec("0", width) == 0 && StonSpec("-0", width) == 0
    ensures At(s, 0) != '-' && !('0' <= At(s, 0) <= '9') ==> StonSpec(s, width) == 0
  {
    assert FormOf("0") == NoDigits && FormOf("-0") == NoDigits by {
      assert At("0", 1) == '\0' && At("-0", 2) == '\0';
    }
    assert Magnitude("0") == 0 && Magnitude("-0") == 0;
    assert Negate(0, Pow2(width)) == 0;
    if At(s, 0) != '-' && !('0' <= At(s, 0) <= '9') {
      assert FormOf(s) == NoDigits;
    }
  }

  /** Digits stop at the first character outside the base: "12z9" reads as 12. */
  lemma StopsAtNonDigit(width: nat)
    requires width >= 4
    ensures StonSpec("12z9", width) == 12
  {
    var s := "12z9";
    assert FormOf(s) == Digits(0, 10);
    assert RunEnd(s, 2, 10) == 2;
    assert RunEnd(s, 0, 10) == 2;
    assert s[0..2] == "12";
    assert "12"[..1] == "1";
    assert Accumulate("12", 10) == 12;
    assert Magnitude(s) == 12;
    PowMono4(width);
  }

  lemma PowMono4(width: nat)
    requires width >= 4
    ensures Pow2(width) >= 16
  {
    if width > 4 {
      PowMono4(width - 1);
    }
  }
}
