/**
 * The digit readers and the identifier scanner of `src/memory/buffer.cpp`
 * (`readBin`, `readOct`, `readDec`, `readHex`, the `is*` tests,
 * `readVariable`, `isVariableStart`), and the per-byte digit text the
 * formatter of `src/ios.cpp` writes for one byte.
 *
 * Text is a sequence of bytes; reading at or past its end yields NUL, the
 * terminator a `std::string` keeps after its characters. Bytes of 0x80 and
 * above are never digits or identifier characters.
 */
module Digits {
  import opened Bytes
  import Bit

  /** A numeric base of the buffer text format. */
  datatype Base = Bin | Oct | Dec | Hex

  function Radix(b: Base): nat
  {
    match b
    case Bin => 2
    case Oct => 8
    case Dec => 10
    case Hex => 16
  }

  /** The number of digits one byte takes: 8, 3, 3 and 2. */
  function Size(b: Base): nat
  {
    match b
    case Bin => 8
    case Oct => 3
    case Dec => 3
    case Hex => 2
  }

  /** The byte at `i`, or NUL at and past the end. */
  function At(t: seq<byte>, i: nat): byte
  {
    if i < |t| then t[i] else 0
  }

  /** `isBin`: '0' or '1'. */
  predicate IsBin(c: byte)
  {
    c == 0x30 || c == 0x31
  }

  /** `isOct`: '0'..'7'. */
  predicate IsOct(c: byte)
  {
    0x30 <= c <= 0x37
  }

  /** `isDec`: '0'..'9'. */
  predicate IsDec(c: byte)
  {
    0x30 <= c <= 0x39
  }

  /** `Hextable`: the digit value of '0'..'9', 'A'..'F' and 'a'..'f', -1 elsewhere. */
  function HexTable(c: byte): (r: int)
    ensures -1 <= r < 16
  {
    if 0x30 <= c <= 0x39 then c - 0x30
    else if 0x41 <= c <= 0x46 then c - 0x41 + 10
    else if 0x61 <= c <= 0x66 then c - 0x61 + 10
    else -1
  }

  /** `isHex`: the table has an entry for `c`. */
  predicate IsHex(c: byte)
  {
    HexTable(c) != -1
  }

  predicate IsDigit(c: byte, base: Base)
  {
    match base
    case Bin => IsBin(c)
    case Oct => IsOct(c)
    case Dec => IsDec(c)
    case Hex => IsHex(c)
  }

  /**
   * What a reader adds for one digit: `cur & 1`, `cur & 0x7`, `cur - '0'`
   * and `Hextable[cur]`.
   */
  function DigitValue(c: byte, base: Base): (r: nat)
    requires IsDigit(c, base)
    ensures r < Radix(base)
    ensures base != Hex ==> r == c - 0x30
    ensures base == Hex ==> (0x30 <= c <= 0x39 ==> r == c - 0x30) && (0x41 <= c <= 0x46 ==> r == c - 0x37)
  {
    match base
    case Bin => c % 2
    case Oct => c % 8
    case Dec => c - 0x30
    case Hex => HexTable(c)
  }

  /** Both letter cases of a hex digit have the same value. */
  lemma HexEitherCase(c: byte)
    requires 0x41 <= c <= 0x46
    ensures IsHex(c) && IsHex(c + 0x20) && DigitValue(c, Hex) == DigitValue(c + 0x20, Hex)
  {
  }

  predicate AllDigits(d: seq<byte>, base: Base)
  {
    forall k :: 0 <= k < |d| ==> IsDigit(d[k], base)
  }

  /** The value of a digit string, most significant digit first (unbounded). */
  function Accumulate(d: seq<byte>, base: Base): nat
    requires AllDigits(d, base)
  {
    if |d| == 0 then 0
    else Accumulate(d[..|d| - 1], base) * Radix(base) + DigitValue(d[|d| - 1], base)
  }

  /**
   * Where a reader stops: after `size` digits (never, for a negative
   * size), or before the first byte that is not a digit of the base.
   */
  function ReadEnd(t: seq<byte>, i: nat, base: Base, size: int): (j: nat)
    requires i <= |t|
    ensures i <= j <= |t|
    ensures AllDigits(t[i..j], base)
    ensures size >= 0 ==> j - i <= size
    ensures (size < 0 || j - i < size) ==> !IsDigit(At(t, j), base)
    decreases |t| - i
  {
    if size == 0 || !IsDigit(At(t, i), base) then i
    else
      ReadEnd(t, i + 1, base, size - 1)
  }

  lemma AccumulateSnoc(d: seq<byte>, c: byte, base: Base)
    requires AllDigits(d, base) && IsDigit(c, base)
    ensures AllDigits(d + [c], base)
    ensures Accumulate(d + [c], base) == Accumulate(d, base) * Radix(base) + DigitValue(c, base)
  {
    assert (d + [c])[..|d|] == d;
  }

  /** One more digit taken into a wrapping `unsigned long` accumulator. */
  lemma WrapDigit(a: nat, r: nat, v: nat)
    ensures ((a % Bit.U64) * r + v) % Bit.U64 == (a * r + v) % Bit.U64
  {
    var m := Bit.U64;
    var q := a / m;
    assert a == m * q + a % m;
    assert a * r + v == ((a % m) * r + v) + m * (q * r) by {
      assert a * r == (m * q + a % m) * r;
      assert (m * q + a % m) * r == m * q * r + (a % m) * r;
      assert m * q * r == m * (q * r);
    }
    ModAddMultiple((a % m) * r + v, q * r, m);
  }

  /** The accumulator after the digit at `j`: `(ret << k) | digit`, i.e. ret * radix + digit. */
  function TakeDigit(t: seq<byte>, i: nat, j: nat, base: Base, value: nat): (r: nat)
    requires i <= j < |t| && AllDigits(t[i..j], base) && IsDigit(t[j], base)
    requires value == Accumulate(t[i..j], base) % Bit.U64
    ensures AllDigits(t[i..j + 1], base)
    ensures r == Accumulate(t[i..j + 1], base) % Bit.U64
  {
    var cur := t[j];
    assert t[i..j + 1] == t[i..j] + [cur];
    AccumulateSnoc(t[i..j], cur, base);
    WrapDigit(Accumulate(t[i..j], base), Radix(base), DigitValue(cur, base));
    (value * Radix(base) + DigitValue(cur, base)) % Bit.U64
  }

  /**
   * `readBin`, `readOct`, `readDec`, `readHex`: while `size--` is nonzero,
   * stop at a byte that is not a digit without consuming it, otherwise
   * consume it and take it into the accumulator, modulo 2^64.
   */
  method ReadNumeric(t: seq<byte>, i: nat, base: Base, size: int) returns (value: nat, j: nat)
    requires i <= |t|
    ensures j == ReadEnd(t, i, base, size)
    ensures value == Accumulate(t[i..j], base) % Bit.U64
  {
    value := 0;
    j := i;
    var n := size;
    assert t[i..i] == [];
    while n != 0
      invariant Reading(t, i, j, base, n, size, value)
      decreases |t| - j
    {
      var cur := At(t, j);
      if !IsDigit(cur, base) {
        return;
      }
      ReadStep(t, i, j, base, n, size, value);
      n := n - 1;
      value := TakeDigit(t, i, j, base, value);
      j := j + 1;
    }
  }

  /**
   * A reader that started at i has taken the digits t[i..j] into value
   * and has n more to read before it stops where ReadEnd says.
   */
  ghost predicate Reading(t: seq<byte>, i: nat, j: nat, base: Base, n: int, size: int, value: nat)
  {
    i <= j <= |t| && ReadEnd(t, j, base, n) == ReadEnd(t, i, base, size)
    && AllDigits(t[i..j], base) && value == Accumulate(t[i..j], base) % Bit.U64
  }

  /** Taking the digit at j keeps the reader on its way to ReadEnd. */
  lemma ReadStep(t: seq<byte>, i: nat, j: nat, base: Base, n: int, size: int, value: nat)
    requires Reading(t, i, j, base, n, size, value) && n != 0 && j < |t| && IsDigit(t[j], base)
    ensures Reading(t, i, j + 1, base, n - 1, size, TakeDigit(t, i, j, base, value))
  {
  }

  /** With a negative size a reader takes the whole run of digits. */
  lemma {:induction false} ReadUnbounded(t: seq<byte>, i: nat, base: Base, size: int, k: nat)
    requires size < 0 && i <= k <= |t| && AllDigits(t[i..k], base) && !IsDigit(At(t, k), base)
    ensures ReadEnd(t, i, base, size) == k
    decreases k - i
  {
    if i < k {
      assert t[i..k][0] == t[i];
      assert t[i + 1..k] == t[i..k][1..];
      ReadUnbounded(t, i + 1, base, size - 1, k);
    }
  }

  // ---------------------------------------------------------------------
  // Identifiers
  // ---------------------------------------------------------------------

  /** `isVariableStart`: a letter or '_'. */
  predicate IsVariableStart(c: byte)
  {
    (0x41 <= c <= 0x5A) || (0x61 <= c <= 0x7A) || c == 0x5F
  }

  /** A byte `readVariable` continues over: a letter, a decimal digit or '_'. */
  predicate IsVariableChar(c: byte)
  {
    IsVariableStart(c) || IsDec(c)
  }

  /** The end of the run of identifier bytes starting at `i`. */
  function VariableRun(t: seq<byte>, i: nat): (j: nat)
    requires i <= |t|
    ensures i <= j <= |t|
    ensures forall k :: i <= k < j ==> IsVariableChar(t[k])
    ensures !IsVariableChar(At(t, j))
    decreases |t| - i
  {
    if !IsVariableChar(At(t, i)) then i else VariableRun(t, i + 1)
  }

  /** Where `readVariable` stops: `i` unless an identifier starts there, else its end. */
  function VariableEnd(t: seq<byte>, i: nat): (j: nat)
    requires i <= |t|
    ensures i <= j <= |t|
    ensures j > i <==> IsVariableStart(At(t, i))
    ensures j > i ==> !IsVariableChar(At(t, j)) && forall k :: i <= k < j ==> IsVariableChar(t[k])
  {
    if !IsVariableStart(At(t, i)) then i else VariableRun(t, i)
  }

  /** `readVariable(ptr)`: returns `ptr` unless an identifier starts there, else the end of it. */
  method ReadVariable(t: seq<byte>, i: nat) returns (j: nat)
    requires i <= |t|
    ensures j == VariableEnd(t, i)
  {
    j := i;
    if !IsVariableStart(At(t, i)) {
      return;
    }
    while IsVariableChar(At(t, j))
      invariant i <= j <= |t|
      invariant VariableRun(t, j) == VariableRun(t, i)
      decreases |t| - j
    {
      j := j + 1;
    }
  }

  // ---------------------------------------------------------------------
  // The digits the formatter writes for one byte
  // ---------------------------------------------------------------------

  /** The digit for d < 16, upper-case hex letters (`std::uppercase`). */
  function DigitByte(d: nat): (c: byte)
    requires d < 16
  {
    if d < 10 then 0x30 + d else 0x41 + d - 10
  }

  lemma DigitByteIsDigit(d: nat, base: Base)
    requires d < Radix(base)
    ensures IsDigit(DigitByte(d), base) && DigitValue(DigitByte(d), base) == d
  {
  }

  /** The digits of n > 0 in the base, most significant first; none for 0. */
  function Numeral(n: nat, base: Base): (r: seq<byte>)
    ensures n > 0 <==> |r| > 0
  {
    if n == 0 then []
    else Numeral(n / Radix(base), base) + [DigitByte(n % Radix(base))]
  }

  /** A numeral is made of digits of its base and reads back as the number. */
  lemma {:induction false} AccumulateNumeral(n: nat, base: Base)
    ensures AllDigits(Numeral(n, base), base)
    ensures Accumulate(Numeral(n, base), base) == n
  {
    if n > 0 {
      var rad := Radix(base);
      var q, m := n / rad, n % rad;
      var d := DigitByte(m);
      DigitByteIsDigit(m, base);
      assert Numeral(n, base) == Numeral(q, base) + [d];
      AccumulateNumeral(q, base);
      AccumulateSnoc(Numeral(q, base), d, base);
      assert Accumulate(Numeral(n, base), base) == q * rad + m;
    }
  }

  /** n^e over the naturals. */
  function Power(n: nat, e: nat): nat
  {
    if e == 0 then 1 else n * Power(n, e - 1)
  }

  lemma DivBelow(v: nat, r: nat, p: nat)
    requires r >= 1 && v < r * p
    ensures v / r < p
  {
  }

  lemma {:induction false} NumeralLength(n: nat, base: Base, k: nat)
    requires n < Power(Radix(base), k)
    ensures |Numeral(n, base)| <= k
  {
    if n > 0 {
      assert k > 0;
      DivBelow(n, Radix(base), Power(Radix(base), k - 1));
      NumeralLength(n / Radix(base), base, k - 1);
    }
  }

  /** A byte fits in Size(base) digits. */
  lemma ByteFits(base: Base)
    ensures 256 <= Power(Radix(base), Size(base))
  {
    match base
    case Bin => assert Power(2, 8) == 256;
    case Oct => assert Power(8, 3) == 512;
    case Dec => assert Power(10, 3) == 1000;
    case Hex => assert Power(16, 2) == 256;
  }

  /** n '0' digits, the fill `std::setw` pads with. */
  function Zeros(n: nat): (r: seq<byte>)
    ensures |r| == n
  {
    seq(n, _ => 0x30)
  }

  /** Leading zeros do not change a digit string's value. */
  lemma {:induction false} AccumulateLeadingZeros(n: nat, d: seq<byte>, base: Base)
    requires AllDigits(d, base)
    ensures AllDigits(Zeros(n) + d, base)
    ensures Accumulate(Zeros(n) + d, base) == Accumulate(d, base)
    decreases |d|
  {
    var z := Zeros(n);
    assert AllDigits(z + d, base) by {
      forall k | 0 <= k < |z + d|
        ensures IsDigit((z + d)[k], base)
      {
        if k >= |z| {
          assert (z + d)[k] == d[k - |z|];
        }
      }
    }
    if |d| == 0 {
      assert z + d == z;
      AccumulateZeros(n, base);
    } else {
      var init := d[..|d| - 1];
      assert (z + d)[..|z + d| - 1] == z + init;
      AccumulateLeadingZeros(n, init, base);
    }
  }

  lemma {:induction false} AccumulateZeros(n: nat, base: Base)
    ensures AllDigits(Zeros(n), base) && Accumulate(Zeros(n), base) == 0
  {
    if n > 0 {
      AccumulateZeros(n - 1, base);
      assert Zeros(n)[..n - 1] == Zeros(n - 1);
    }
  }

  /** The digits of a byte without padding: its numeral, "0" for 0. */
  function Unpadded(v: byte, base: Base): (n: seq<byte>)
    ensures 1 <= |n| <= Size(base)
  {
    if v == 0 then Zeros(1)
    else
      NumeralFitsByte(v, base);
      Numeral(v, base)
  }

  /** A byte's numeral has at most Size(base) digits. */
  lemma NumeralFitsByte(v: byte, base: Base)
    ensures |Numeral(v as nat, base)| <= Size(base)
  {
    ByteFits(base);
    NumeralLength(v as nat, base, Size(base));
  }

  /** The unpadded digits of a byte stand for the byte. */
  lemma UnpaddedValue(v: byte, base: Base)
    ensures AllDigits(Unpadded(v, base), base)
    ensures Accumulate(Unpadded(v, base), base) == v
  {
    if v == 0 {
      AccumulateZeros(1, base);
    } else {
      AccumulateNumeral(v, base);
    }
  }

  /**
   * The text the formatter writes for one byte: its digits ("0" for 0),
   * zero-padded to Size(base) digits unless `nozfill`.
   */
  function ByteDigits(v: byte, base: Base, nozfill: bool): seq<byte>
  {
    var n := Unpadded(v, base);
    Zeros(if nozfill then 0 else Size(base) - |n|) + n
  }

  /**
   * A byte's digit text is 1 to Size(base) digits of the base, exactly
   * Size(base) under zero fill, and its value is the byte.
   */
  lemma ByteDigitsValue(v: byte, base: Base, nozfill: bool)
    ensures AllDigits(ByteDigits(v, base, nozfill), base)
    ensures 1 <= |ByteDigits(v, base, nozfill)| <= Size(base)
    ensures !nozfill ==> |ByteDigits(v, base, nozfill)| == Size(base)
    ensures Accumulate(ByteDigits(v, base, nozfill), base) == v
  {
    var n := Unpadded(v, base);
    UnpaddedValue(v, base);
    AccumulateLeadingZeros(if nozfill then 0 else Size(base) - |n|, n, base);
  }

  /**
   * A reader of Size(base) digits given a byte's digit text reads exactly
   * that text and returns the byte, provided the text is followed by a
   * byte that is not a digit or fills all Size(base) places.
   */
  lemma ReadByteDigits(v: byte, base: Base, nozfill: bool, rest: seq<byte>)
    requires !nozfill || !IsDigit(At(rest, 0), base)
    ensures ReadEnd(ByteDigits(v, base, nozfill) + rest, 0, base, Size(base)) == |ByteDigits(v, base, nozfill)|
    ensures (ByteDigits(v, base, nozfill) + rest)[..|ByteDigits(v, base, nozfill)|] == ByteDigits(v, base, nozfill)
  {
    var d := ByteDigits(v, base, nozfill);
    var t := d + rest;
    assert AllDigits(d, base) && |d| <= Size(base) && (!nozfill ==> |d| == Size(base)) by {
      ByteDigitsValue(v, base, nozfill);
    }
    assert t[0..|d|] == d;
    assert At(t, |d|) == At(rest, 0);
    ReadDigitsPrefix(t, 0, |d|, base, Size(base));
  }

  lemma {:induction false} ReadDigitsPrefix(t: seq<byte>, i: nat, k: nat, base: Base, size: int)
    requires i <= k <= |t| && AllDigits(t[i..k], base)
    requires size >= k - i
    requires size == k - i || !IsDigit(At(t, k), base)
    ensures ReadEnd(t, i, base, size) == k
    decreases k - i
  {
    if i < k {
      assert t[i..k][0] == t[i];
      assert t[i + 1..k] == t[i..k][1..];
      ReadDigitsPrefix(t, i + 1, k, base, size - 1);
    }
  }
}
