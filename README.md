# ktutils core, modelled in Dafny

This project models the core of ktutils, a C++ toolkit for working with raw bytes:

- **Owning byte buffer.** `ktu::buffer` is a growable `{data, size, capacity}` store. It has gap operations (`shift`, `erase`), doubling growth, typed and endian-aware appends, and byte-wise comparison.
- **Text decoder.** `buffer::input` turns the hybrid text notation (literal runs, `[..]` sections of fixed-width digits, `[[encoding base]]` directives) back into bytes.
- **Read-only range and cursor.** `view` and `reader` provide linear search, slicing, and typed reads that advance a cursor.
- **Text encoder.** `operator<<(ostream, buf_io::output)` writes a buffer in that notation, under a flag word built by the `buf_io` manipulators.
- **Leaf helpers.** These are `bit.hpp` (byte swaps, masks, bit fields, `numeric_literal`), `unicode.hpp` (scalar validity, the UTF-8/16/32 readers and writers, the `to_string`/`to_8`/`to_16` conversions), the FNV-1a `hash`, prefixed integer parsing (`ston`), `pow` by squaring and `contiguous_iterator` arithmetic.
- **In-place containers.** These are the packed string table `basic_multi_string`, the index-linked `list` and the minimal `vector`.

Each module follows one source file or a close group of them:

| module | file | source |
|---|---|---|
| `Bytes` | bytes.dfy | byte and integer-width helpers shared by the rest |
| `Bit` | bit.dfy | `include/ktu/bit.hpp` |
| `Fnv` | hash.dfy | `include/ktu/algorithm.hpp` |
| `IntMath` | intmath.dfy | `include/ktu/math.hpp` |
| `Iterator` | iterator.dfy | `include/ktu/iterator.hpp` |
| `Ston` | ston.dfy | `include/ktu/string.hpp` |
| `Unicode` | unicode.dfy | `include/ktu/unicode.hpp`, `src/unicode.cpp` |
| `BufIo` | flags.dfy | the flag word of `include/ktu/ios.hpp` and the manipulators of `src/ios.cpp` |
| `Digits` | digits.dfy | the digit readers of `src/memory/buffer.cpp` and the digit writers of `src/ios.cpp` |
| `Format` | format.dfy | `operator<<(ostream, buf_io::output)` in `src/ios.cpp` |
| `Parse` | parse.dfy | `buffer::input` in `src/memory/buffer.cpp` |
| `RoundTrip` | roundtrip.dfy | the encoder and the decoder together |
| `Buffers` | buffer.dfy | `include/ktu/memory/buffer.hpp`, `src/memory/buffer.cpp` |
| `Views` | view.dfy | `include/ktu/memory/view.hpp` |
| `Readers` | reader.dfy | `include/ktu/memory/reader.hpp` |
| `Vectors` | vector.dfy | `include/ktu/vector.hpp` |
| `Lists` | list.dfy | `include/ktu/list.hpp` |
| `MultiStrings` | multistring.dfy | `include/ktu/multi_string.hpp` |

The model follows the source's own form:

- **Pure code.** Expressions become functions with named results.
- **Loops.** A loop becomes a method with invariants, proved against a function that specifies it.
- **Objects changed in place.** These become classes: `Buffer`, `Reader`, `StreamState`, `ContiguousIterator`, `Vector`, `List` and `MultiString`. Their methods `modify` their fields and state the new contents.
- **Integer widths.** They are explicit: `size_t` arithmetic is reduced modulo 2^64 where the source relies on wrap-around, and the hash and `ston` results are reduced modulo their widths.
- **Host byte order.** The host is a parameter where the source asks `std::endian::native`, and little-endian elsewhere.
- **Defects.** Where the source is evidently wrong, the model keeps an as-written member with a counterexample beside a corrected one (see "## Findings"). The containers' methods implement the corrected behaviour.

## Model

| member | source | states |
|---|---|---|
| Bit.Swap16Involution | include/ktu/bit.hpp:6-11 | swapping the two bytes of a 16-bit value twice gives the value back |
| Bit.Swap32Involution | include/ktu/bit.hpp:12-20 | the 4-byte swap undoes itself |
| Bit.Swap64Involution | include/ktu/bit.hpp:21-33 | the 8-byte swap undoes itself |
| Bit.Swap16Bytes | include/ktu/bit.hpp:6-11 | the 2-byte swap puts byte k at position 1 - k |
| Bit.Swap32Bytes | include/ktu/bit.hpp:12-20 | the 4-byte swap puts byte k at position 3 - k |
| Bit.Swap64Bytes | include/ktu/bit.hpp:21-33 | the 8-byte swap puts byte k at position 7 - k |
| Bit.Swap64Reverses | include/ktu/bit.hpp:68-70 | on the stored bytes of a word, the 8-byte swap is byte reversal |
| Bit.Byteswap | include/ktu/bit.hpp:49-77 | a one-byte value or a false condition leaves the bytes unchanged; otherwise byte k of the result is byte n-1-k of the value |
| Bit.ByteswapIf | include/ktu/bit.hpp:82-85 | with the condition true and a type wider than one byte the bytes come back in reverse order; otherwise they are unchanged |
| Bit.ByteswapInvolution | include/ktu/bit.hpp:49-77 | byteswap applied twice with the same condition gives the value back |
| Bit.LittleEndianIf | include/ktu/bit.hpp:88-107 | the bytes are reversed exactly when the condition holds, the host is big-endian and the type is wider than one byte; otherwise they are unchanged |
| Bit.BigEndianIf | include/ktu/bit.hpp:110-129 | the bytes are reversed exactly when the condition holds, the host is little-endian and the type is wider than one byte; otherwise they are unchanged |
| Bit.EndianOnHost | include/ktu/bit.hpp:88-121 | on a little-endian host `little_endian` is the identity and `big_endian` reverses the bytes; on a big-endian host the other way round |
| Bit.BigEndianStoresBeBytes | include/ktu/bit.hpp:110-113 | on either host, the bytes `big_endian` stores are the number's bytes most significant first |
| Bit.ReverseInPlace | include/ktu/bit.hpp:71-74 | the fallback reverses the array in place: the new contents are the old ones reversed |
| Bit.RoundUpPow2 | include/ktu/bit.hpp:149-150 | for 1 <= N <= 8 the bit trick yields the smallest of 1, 2, 4, 8 that is at least N |
| Bit.RoundUpBelowEight | include/ktu/bit.hpp:149-150 | for N < 8 the rounded size lies between N and 8 |
| Bit.ByteMaskLittleEndian | include/ktu/bit.hpp:146-154 | on a little-endian host the mask's bytes in memory order are N bytes of 0xFF followed by zero bytes |
| Bit.MaskedRead | include/ktu/bit.hpp:157-161 | ANDing a word read from memory with `byte_mask(N)` keeps each of its first N bytes and zeroes every later one, so its value is the word's modulo 256^N |
| Bit.AndFirstBytes | include/ktu/bit.hpp:157-161 | ANDing bytewise with a mask of N bytes 0xFF followed by zero bytes keeps the first N bytes and zeroes the rest |
| Bit.AndBits | include/ktu/bit.hpp:160 | the bitwise AND of two w-bit values is a w-bit value |
| Bit.AndOnes | include/ktu/bit.hpp:160 | ANDing a w-bit value with w one bits gives the value back |
| Bit.AndZero | include/ktu/bit.hpp:160 | ANDing with zero gives zero |
| Bit.NumericLiteral | include/ktu/bit.hpp:165-194 | a one-byte type takes the first character; otherwise the value is the whole array, terminator included, read least significant first (little-endian host) or most significant first (big-endian host), modulo 256^size |
| Bit.NumericLiteralLittleEndianBytes | include/ktu/bit.hpp:185-191 | on a little-endian host the literal's stored bytes are the string's characters, then zero bytes past the terminator |
| Bit.NumericLiteralBigEndianDropsFirst | include/ktu/bit.hpp:178-184 | as written on a big-endian host, "ab" in a 2-byte word is stored as 'b' and the terminator, not as "ab" |
| Bit.NumericLiteralBigEndian | include/ktu/bit.hpp:178-184 | corrected big-endian path: the stored bytes, most significant first, are the first `size` characters, zero-padded |
| Bit.Align2RoundsUp | include/ktu/bit.hpp:196-199 | for value >= 1 with no 64-bit wrap, align2 is a multiple of 2^power, at least value and less than value + 2^power |
| Bit.HighestBit | include/ktu/bit.hpp:204-207 | -1 for 0; otherwise the r with 2^r <= value < 2^(r+1) |
| Bit.CountrZero | include/ktu/bit.hpp:217 | the count of trailing zeros: 2^r divides the value and the bit at r is set |
| Bit.FieldFits | include/ktu/bit.hpp:210-213 | for bit + count < 32 the field is below 2^(bit+count), so it fits a 32-bit int |
| Bit.FieldBits | include/ktu/bit.hpp:210-213 | exactly bits bit .. bit+count-1 of `field(bit, count)` are set |
| Bit.CountrZeroOfField | include/ktu/bit.hpp:210-217 | the lowest set bit of `field(bit, count)` is `bit` |
| Bit.FieldValue | include/ktu/bit.hpp:214-218 | an empty field gives 0, and the result fits the type's width |
| Bit.FieldValueOfField | include/ktu/bit.hpp:210-218 | a value placed with `field_value(field(bit, count), v)` is v shifted up to `bit`, modulo the width |
| Fnv.HashEmpty | include/ktu/algorithm.hpp:11-22 | hashing nothing yields the offset basis, 0xcbf29ce484222325 for an 8-byte `size_t` and 0x811c9dc5 for a 4-byte one |
| Fnv.HashSnoc | include/ktu/algorithm.hpp:24-27 | one more byte is one more FNV-1a step: XOR the byte in, multiply by the prime, modulo the width |
| Fnv.HashAppend | include/ktu/algorithm.hpp:24-27 | hashing a concatenation continues from the hash of the prefix |
| Fnv.PathsAgree | include/ktu/algorithm.hpp:32-39 | the constant-evaluated `char` path and the run-time `uint8_t` path give the same hash when every byte is below 0x80 |
| Fnv.HighByteUnitsDiffer | include/ktu/algorithm.hpp:23-25 | for a byte of 0x80 or more the two paths XOR in different units, since a signed `char` is sign-extended |
| Fnv.HashLiteralExcludesTerminator | include/ktu/algorithm.hpp:43-46 | `hash` of a string literal covers the N - 1 characters before the terminating NUL |
| Fnv.KnownVectors | include/ktu/algorithm.hpp:9-29 | the published FNV-1a 64 values for "" and "a" |
| Fnv.HashLoop | include/ktu/algorithm.hpp:22-28 | the loop computes the FNV-1a hash of the bytes |
| Fnv.HashCharsLoop | include/ktu/algorithm.hpp:22-28 | the loop over `char` units computes the FNV-1a hash with sign-extended units |
| IntMath.Pow | include/ktu/math.hpp:8-19 | for an exponent below 256, `pow` returns base^exponent modulo 2^width after at most 8 passes |
| IntMath.HalveStep | include/ktu/math.hpp:11-16 | one pass keeps result * base^exponent unchanged modulo 2^width |
| IntMath.PowerSquare | include/ktu/math.hpp:16 | squaring the base halves the exponent: b^(2k) == (b*b)^k |
| IntMath.PowMod | include/ktu/math.hpp:16 | reducing the base modulo m does not change the power modulo m, so the wrapping `base *= base` is harmless |
| IntMath.PowSmallExponents | include/ktu/math.hpp:8-19 | pow(b, 0) == 1 and pow(b, 1) == b |
| Iterator.PlusMinusInverse | include/ktu/iterator.hpp:71-84 | `(it + n) - n == it` and `(it - n) + n == it`, for forward and reverse iterators |
| Iterator.ReverseMovesOpposite | include/ktu/iterator.hpp:71-84 | a reverse iterator moves against the address order by the same amount a forward one moves along it; `-` on a reverse iterator is `+` on a forward one |
| Iterator.PlusCompose | include/ktu/iterator.hpp:71-77 | `(it + a) + b == it + (a + b)` |
| Iterator.DistanceOfPlus | include/ktu/iterator.hpp:63-65 | for forward iterators `(it + n) - it == n` and `it - (it + n) == -n` |
| Iterator.LessFollowsAddress | include/ktu/iterator.hpp:101 | the defaulted `<=>` compares addresses: one step on is greater for a forward iterator and smaller for a reverse one |
| Iterator.FrontPlusAsWrittenNotCommutative | include/ktu/iterator.hpp:102-108 | as written, for a reverse iterator `1 + it` moves the opposite way to `it + 1` |
| Iterator.FrontPlusCommutes | include/ktu/iterator.hpp:102-108 | corrected `n + it` equals `it + n` in both directions, agrees with the source for forward iterators, and `- n` undoes it |
| Iterator.ContiguousIterator.constructor | include/ktu/iterator.hpp:22 | the iterator holds the given pointer |
| Iterator.ContiguousIterator.Increment | include/ktu/iterator.hpp:33-40 | prefix `++` moves the pointer one element along the iterator's direction |
| Iterator.ContiguousIterator.Decrement | include/ktu/iterator.hpp:44-51 | prefix `--` moves the pointer one element against the iterator's direction |
| Iterator.ContiguousIterator.PostIncrement | include/ktu/iterator.hpp:41-43 | postfix `++` returns the old position and advances |
| Iterator.ContiguousIterator.PostDecrement | include/ktu/iterator.hpp:52-54 | postfix `--` returns the old position and steps back |
| Iterator.ContiguousIterator.AddAssign | include/ktu/iterator.hpp:85-92 | `+= diff` leaves the iterator at `it + diff` |
| Iterator.ContiguousIterator.SubAssign | include/ktu/iterator.hpp:93-100 | `-= diff` leaves the iterator at `it - diff` |
| Iterator.IncrementThenDecrement | include/ktu/iterator.hpp:33-51 | `--` undoes `++` on the same iterator object, in both directions |
| Iterator.RangeWalk | include/ktu/iterator.hpp:113-121 | `end() - begin()` steps from `begin()` reach `end()` |
| Ston.DigitValue | include/ktu/string.hpp:40-48 | a hex digit ('0'-'9', 'A'-'F', 'a'-'f') has a value below 16, and a decimal digit's value is its distance from '0' |
| Ston.DigitBelowBase | include/ktu/string.hpp:14-57 | a character each branch accepts as a digit has a value below that branch's base |
| Ston.RunEnd | include/ktu/string.hpp:14-18 | the digit run ends at the first character that is not a digit of the base, or at the end of the string |
| Ston.FormOf | include/ktu/string.hpp:9-58 | after an optional '-', the branches pick octal, binary, hex or decimal digits starting at a position inside the string |
| Ston.Negate | include/ktu/string.hpp:59 | the unsigned negation is below 2^width and adds to the value to a multiple of 2^width |
| Ston.StonSpec | include/ktu/string.hpp:6-60 | the value read is always below 2^width |
| Ston.ReadRun | include/ktu/string.hpp:14-18 | the digit loop stops at the end of the run, holding the run's value modulo 2^width |
| Ston.RunStep | include/ktu/string.hpp:16-17 | one more digit multiplies the running value by the base and adds the digit, modulo 2^width |
| Ston.StonW | include/ktu/string.hpp:6-60 | `ston32` (and `ston64`, the same text at lines 62-116 with 64 bits) returns exactly the value of the sign, prefix and digit run modulo 2^width |
| Ston.MagnitudeOfForm | include/ktu/string.hpp:12-58 | whichever branch is taken, the value it leaves is the magnitude the string denotes, modulo 2^width |
| Ston.Ston | include/ktu/string.hpp:118-125 | `ston<T>` reads with the 32-bit reader for types of at most 4 bytes and the 64-bit one otherwise, and returns that value converted to `T` |
| Ston.ToIntegral | include/ktu/string.hpp:118-125 | the conversion on return: `bool` is true exactly for a nonzero value; an unsigned `T` keeps the value modulo 2^(8 sizeof(T)); a signed `T` gets the representative in [-2^(8 sizeof(T) - 1), 2^(8 sizeof(T) - 1)) congruent to it |
| Ston.Wrap | include/ktu/string.hpp:118-125 | reducing modulo m = 2 half gives a value in [0, m) congruent to v, or in two's complement one in [-half, half) |
| Ston.TwosComplement | include/ktu/string.hpp:118-125 | v modulo m, less m when it is at least half, lies in [-half, half) and differs from v by a multiple of m |
| Ston.StonConversions | include/ktu/string.hpp:118-125 | `ston<uint8_t>("300")` is 44, `ston<int32_t>("-5")` is -5 and `ston<uint32_t>("-5")` is 2^32 - 5 |
| Ston.DigitChar | include/ktu/string.hpp:40-48 | the character written for a digit below 16 is read back as that digit, and is a digit of exactly the bases above it |
| Ston.NumeralDigits | include/ktu/string.hpp:53-57 | the numeral of n consists of digits of the base, with no leading zero |
| Ston.AccumulateNumeral | include/ktu/string.hpp:53-57 | the digit loop's arithmetic over the numeral of n gives back n |
| Ston.MagnitudeOfNumeral | include/ktu/string.hpp:12-58 | a string whose digit run is the numeral of n denotes n |
| Ston.DecimalRoundTrip | include/ktu/string.hpp:53-57 | reading the decimal numeral of n > 0 gives n modulo 2^width |
| Ston.NegativeDecimalRoundTrip | include/ktu/string.hpp:9-11 | a leading '-' gives the unsigned negation of the value read |
| Ston.HexRoundTrip | include/ktu/string.hpp:36-51 | "0x" followed by the hex numeral of n reads as n modulo 2^width |
| Ston.BinaryRoundTrip | include/ktu/string.hpp:19-35 | "0b" followed by the binary numeral of n reads as n modulo 2^width |
| Ston.OctalRoundTrip | include/ktu/string.hpp:12-18 | "0" followed by the octal numeral of n > 0 reads as n modulo 2^width |
| Ston.HexEitherCase | include/ktu/string.hpp:43-48 | an upper-case hex letter and its lower-case form both read as the letter's value, 10 to 15 |
| Ston.ZeroCases | include/ktu/string.hpp:12-59 | "0" and "-0" read as 0, and so does a string that starts with neither '-' nor a decimal digit |
| Ston.StopsAtNonDigit | include/ktu/string.hpp:53-57 | reading stops at the first non-digit: "12z9" reads as 12 |
| Unicode.ValidUnicodeScalars | include/ktu/unicode.hpp:11-13 | `validUnicode` holds exactly for the scalar values other than U+0000 and U+10FFFF, so it rejects the last scalar value and the reader's invalid marker |
| Unicode.Utf8Encode | include/ktu/unicode.hpp:70-77 | `u8::write` stores at most 4 bytes, stores something exactly for values up to U+10FFFF, and stores an ASCII value as its own byte |
| Unicode.Utf8Decode | include/ktu/unicode.hpp:45-49 | `u8::read` consumes 1 to 4 bytes of the input and yields a scalar value or the invalid marker; an ASCII byte reads as itself |
| Unicode.Utf8EncodeDecode | include/ktu/unicode.hpp:45-77 | reading back the UTF-8 form of a scalar value, whatever follows it, gives the value and the length written |
| Unicode.Utf8Canonical | include/ktu/unicode.hpp:45-49 | whatever the UTF-8 reader decodes to a code point is exactly that code point's UTF-8 form (no overlong forms) |
| Unicode.Utf8RoundTripAll | include/ktu/unicode.hpp:45-77 | decoding the UTF-8 form of a sequence of scalar values gives the sequence back |
| Unicode.Utf16Units | include/ktu/unicode.hpp:202-210 | `u16::write` produces at most two 16-bit units, and produces some exactly for values up to U+10FFFF |
| Unicode.Utf16DecodeUnits | include/ktu/unicode.hpp:153-157 | the UTF-16 reader consumes one or two units |
| Unicode.Utf16EncodeDecodeUnits | include/ktu/unicode.hpp:153-210 | reading back the UTF-16 units of a scalar value gives the value and the unit count |
| Unicode.Utf16CanonicalUnits | include/ktu/unicode.hpp:153-157 | a valid code point the UTF-16 reader decodes has exactly the units read as its UTF-16 form |
| Unicode.UnitValueOfBytes | include/ktu/unicode.hpp:305-309 | a unit stored little- or big-endian reads back as its value with the same byte order |
| Unicode.UnitBytesOfValue | include/ktu/unicode.hpp:305-309 | the bytes of a unit are restored by storing its value with the same byte order |
| Unicode.Utf32WriteIsBigEndian | include/ktu/unicode.hpp:340-344 | `u32::write<be>` stores `big_endian<be>` of the code point: its little-endian bytes, reversed when `be` is set |
| Unicode.Utf16Encode | include/ktu/unicode.hpp:202-215 | the UTF-16 form in memory takes two bytes per unit |
| Unicode.Utf16Decode | include/ktu/unicode.hpp:153-163 | `u16::read<be>` consumes between one byte and the whole input |
| Unicode.Utf32Decode | include/ktu/unicode.hpp:305-321 | `u32::read<be>` consumes one unit of the input, whatever its value |
| Unicode.Encode | src/memory/buffer.cpp:495-514 | the writer each UTF flag selects stores at most 4 bytes |
| Unicode.DecodeChunk | src/unicode.cpp:8-58 | the reader of each encoding consumes at least one byte and no more than the input |
| Unicode.WrittenBytes | src/memory/buffer.cpp:546 | the unit count a writer returns, shifted by `factor`, is the number of bytes it stored |
| Unicode.Utf16EncodeDecode | include/ktu/unicode.hpp:153-215 | reading back the UTF-16 form of a scalar value in either byte order gives the value and the length written |
| Unicode.Utf16Canonical | include/ktu/unicode.hpp:153-163 | a valid code point read as UTF-16 is written back as exactly the bytes read |
| Unicode.EncodeDecode | src/unicode.cpp:8-58 | for each encoding, writing a valid code point stores something, and reading it back gives the code point and the length written |
| Unicode.Canonical | src/unicode.cpp:8-58 | for each encoding, reading a valid code point and writing it back reproduces the bytes read |
| Unicode.Read32 | include/ktu/unicode.hpp:305-309 | `u32::read<be>(&ptr)` returns the endian-corrected unit at `ptr` and moves the pointer forward by one unit |
| Unicode.RRead32 | include/ktu/unicode.hpp:323-327 | `u32::rread<be>(&ptr)` returns the unit at `ptr` and moves the pointer back by one unit |
| Unicode.Write32 | include/ktu/unicode.hpp:350-354 | `u32::write<be>(codepoint, buf)` stores four bytes |
| Unicode.Read32OfWrite32 | include/ktu/unicode.hpp:305-354 | reading with the same byte order the unit `u32::write` stored gives the code point back |
| Unicode.Swap16If | include/ktu/unicode.hpp:202-210 | `big_endian<be>` of a 16-bit unit is a 16-bit unit |
| Unicode.Read16 | include/ktu/unicode.hpp:153-157 | `u16::read<be>` on a u16string consumes one or two of its units |
| Unicode.U16ToString | include/ktu/unicode.hpp:246-271 | `u16::to_string` and `u16::to_8` return the UTF-8 form of the code points the u16string holds, read one after the other |
| Unicode.U16Step | include/ktu/unicode.hpp:250-252 | each turn of the loop appends the UTF-8 form of the code point read and moves past its units |
| Unicode.U32ToString | include/ktu/unicode.hpp:395-420 | `u32::to_string` and `u32::to_8` return the UTF-8 form of the units the u32string holds |
| Unicode.U32ToStringRoundTrip | include/ktu/unicode.hpp:395-403 | converting little-endian u32 text of scalar values to UTF-8 loses nothing: decoding gives the text back |
| Unicode.To16GuardAsWrittenAtEnd | include/ktu/unicode.hpp:426 | the loop condition of `u32::to_16` is still true when the pointer has reached the end of the string, where the intended `ptr < end` is false |
| Unicode.StoredUnits16 | include/ktu/unicode.hpp:218-224 | `u16::insert<be>` stores the UTF-16 units of the code point, each passed through `big_endian<be>` |
| Unicode.U32ToU16 | include/ktu/unicode.hpp:422-430 | `u32::to_16`, with its loop stopping at the end of the source, returns the stored UTF-16 units of each unit read |
| Unicode.U32ToU16Step | include/ktu/unicode.hpp:426-428 | each turn of the loop appends the stored units of the code point read |
| BufIo.ModeName | src/ios.cpp:198-223 | the `fmtinfo` header names each encoding with 5 to 8 bytes |
| BufIo.BaseName | src/ios.cpp:225-238 | the `fmtinfo` header names each base with 3 bytes |
| BufIo.FieldsDisjoint | include/ktu/ios.hpp:37-67 | the six fields of the format word share no bit |
| BufIo.ValuesInsideFields | include/ktu/ios.hpp:37-67 | every value a manipulator ORs in lies inside the field it clears |
| BufIo.FieldOfIsField | src/ios.cpp:58-170 | every manipulator clears one of the six fields |
| BufIo.DefaultsAreZero | include/ktu/ios.hpp:38-66 | the documented defaults (hex, numeric, zfill, nofmtinfo, endl, nofmt) are the value 0 of their fields |
| BufIo.BaseOf | src/ios.cpp:249-267 | the base the formatter switches on is the one whose value the base field holds |
| BufIo.ModeOf | src/ios.cpp:271-369 | the encoding the formatter switches on is the one whose value the encoding field holds |
| BufIo.ValuesDistinct | include/ktu/ios.hpp:37-51 | the four bases and eight encodings have distinct values, each read back as itself |
| BufIo.ApplySetsOnlyItsField | src/ios.cpp:58-170 | a manipulator leaves its value in its field, every other field as it was and bits 32 to 63 clear; the clearing ones leave their field 0 |
| BufIo.ApplyBase | src/ios.cpp:58-80 | `bin`, `oct`, `dec` and `hex` select their base and keep the encoding |
| BufIo.ApplyMode | src/ios.cpp:82-121 | the encoding manipulators select their encoding and keep the base |
| BufIo.ApplySwitch | src/ios.cpp:123-170 | `nozfill`/`zfill`, `fmtinfo`/`nofmtinfo` and `fmt`/`nofmt` set or clear their bit |
| BufIo.StreamState.constructor | src/ios.cpp:55-56 | a stream's two words start at 0 |
| BufIo.StreamState.Manipulate | src/ios.cpp:58-170 | a manipulator rewrites the format word by clearing its field and ORing in its value, and keeps the grouping |
| BufIo.StreamState.SetGrouping | include/ktu/ios.hpp:198-206 | `setgrouping(n)` stores n in the grouping word and keeps the format word |
| Digits.HexTable | src/memory/buffer.cpp:196-208 | `Hextable` holds -1 or a digit value below 16 |
| Digits.DigitValue | src/memory/buffer.cpp:153-219 | what a reader adds for one digit is below the base; '0'-'9' add their distance from '0', 'A'-'F' add 10 to 15 |
| Digits.HexEitherCase | src/memory/buffer.cpp:199-201 | `Hextable` gives an upper-case hex letter and its lower-case form the same value |
| Digits.ReadEnd | src/memory/buffer.cpp:155-158 | a reader stops after `size` digits, or before the first byte that is not a digit of the base; a negative size never stops it early |
| Digits.TakeDigit | src/memory/buffer.cpp:159 | `(ret << k) \| digit` in an `unsigned long` is the value of the longer digit run modulo 2^64 |
| Digits.ReadNumeric | src/memory/buffer.cpp:153-219 | `readBin`, `readOct`, `readDec` and `readHex` move the pointer to where the digits end and return their value modulo 2^64 |
| Digits.ReadStep | src/memory/buffer.cpp:155-160 | each digit consumed keeps the reader on its way to where it stops |
| Digits.ReadUnbounded | src/memory/buffer.cpp:155 | with a negative size the reader takes the whole run of digits |
| Digits.VariableRun | src/memory/buffer.cpp:233-245 | the loop stops at the first byte that is not a letter, a digit or `_` |
| Digits.VariableEnd | src/memory/buffer.cpp:226-246 | `readVariable` moves only when a letter or `_` starts an identifier, and then past all of it |
| Digits.ReadVariable | src/memory/buffer.cpp:226-246 | `readVariable(ptr)` returns where the identifier starting at `ptr` ends, or `ptr` |
| Digits.DigitByteIsDigit | src/ios.cpp:42-52 | the digit the formatter writes for d below the base is a digit of the base with value d |
| Digits.Numeral | src/ios.cpp:42-52 | a positive number has digits, 0 has none of its own |
| Digits.AccumulateNumeral | src/ios.cpp:42-52 | the digits written for n are digits of the base and read back as n |
| Digits.ByteFits | include/ktu/ios.hpp:141-147 | a byte fits in the fill width of its base: 8, 3, 3 or 2 digits |
| Digits.Zeros | src/ios.cpp:275 | the fill `setw` pads with is as many '0's as asked |
| Digits.AccumulateLeadingZeros | src/ios.cpp:275 | zero fill does not change the value of the digits |
| Digits.Unpadded | src/ios.cpp:42-52 | a byte takes between 1 and its base's width of digits |
| Digits.NumeralFitsByte | include/ktu/ios.hpp:141-147 | a byte's numeral is never longer than the fill width |
| Digits.UnpaddedValue | src/ios.cpp:42-52 | the digits of a byte, "0" for 0, stand for the byte |
| Digits.ByteDigitsValue | src/ios.cpp:248-267 | a byte's digit text is 1 to width digits of the base, exactly width under zero fill, and stands for the byte |
| Digits.ReadByteDigits | src/memory/buffer.cpp:153-219 | a reader of width digits reads exactly a byte's digit text, provided a non-digit follows it when it is not zero-filled |
| Digits.ReadDigitsPrefix | src/memory/buffer.cpp:155-161 | a reader stops at the end of a digit run it has room for, or after `size` digits |
| Format.Sep | src/ios.cpp:277-283 | the separator after a byte is one byte at most, and a space exactly when the group counter reaches the grouping |
| Format.NextCount | src/ios.cpp:278-280 | the group counter is reset by a space and counts up otherwise |
| Format.ChunkAt | src/ios.cpp:352-372 | a character read at a position fits in the buffer, and is one byte in the ASCII and Latin-1 loops |
| Format.ContinuesIsUnprintable | src/ios.cpp:290-402 | a character that does not keep a bracket open is printable; only '[' in a Unicode mode is both |
| Format.Escape | src/ios.cpp:293 | a backslash is written before '\' and '[' and nothing before any other character |
| Format.Chars | src/ios.cpp:352-372 | the table holds the character the reader returns at every position |
| Format.BracketEnd | src/ios.cpp:298-313 | a bracket takes its first character and every following one that keeps it open, up to the end of the buffer |
| Format.NumRunAlphabet | src/ios.cpp:272-285 | a digit run holds only digits of the base, ' ' and ':' |
| Format.NumRunLength | src/ios.cpp:272-285 | under zero fill every byte takes its base's width, and without grouping nothing else is written |
| Format.OutputUnformatted | src/ios.cpp:188-195 | an empty buffer prints nothing and, with `fmt` off, a buffer prints verbatim |
| Format.RenderPlainAscii | src/ios.cpp:288-296 | printable ASCII without '\' and '[' is written as itself |
| Format.FormatNumeric | src/ios.cpp:272-287 | `numeric_format_loop` writes the digit run of the whole buffer |
| Format.CharDigits | src/ios.cpp:388-399 | `unicode_numeric_format_loop` writes the digits of the bytes of one character and the separators between them |
| Format.ReadChar | src/ios.cpp:372 | the reader's call returns the character the table holds at the position |
| Format.BracketNext | src/ios.cpp:402-409 | a bracket ends after the next character, unless the character after it keeps it open |
| Format.BracketChar | src/ios.cpp:386-410 | one turn of the bracket loop moves past a character and says whether the bracket goes on |
| Format.Bracket | src/ios.cpp:383-411 | `*_invalid_loop` writes '[', the digit run of the bytes up to the end of the bracket, and ']' |
| Format.FormatText | src/ios.cpp:288-416 | the ASCII, Latin-1 and Unicode loops write the rendering of the whole buffer |
| Format.Format | src/ios.cpp:187-420 | `operator<<(os, output)` writes the unformatted bytes, or the header and the body the format word selects |
| Format.Binary | src/ios.cpp:36-38 | a value has at least one binary digit |
| Format.BitsValue | src/ios.cpp:27-40 | what `io::bits` prints with fill '0' reads back in base 2 as the value |
| Format.BitsIsByteText | src/ios.cpp:249-253 | for a byte, `io::bits` at width 8 (0 under `nozfill`) prints what the other bases print: zero-filled digits |
| Format.Bits | src/ios.cpp:27-40 | `io::bits` finds the highest set bit, narrows the width by its index and prints one digit per bit down to bit 0 |
| Format.TopBit | src/ios.cpp:26-28 | the first loop stops with the mask on the highest set bit (bit 0 for 0), its index at most 63 |
| Format.PrintBits | src/ios.cpp:34-36 | the print loop writes one digit per bit from that index down, which is the binary numeral of the value |
| Format.PrintedStart | src/ios.cpp:28-30 | where the scan stops, every bit above it is clear |
| Format.PrintedStep | src/ios.cpp:36-38 | printing a bit's digit and shifting the mask keeps the digits printed equal to the bits above the mask |
| Format.PrintedAll | src/ios.cpp:36-38 | once the mask is 0 the digits printed are the binary numeral of the value |
| Parse.KeywordText | src/memory/buffer.cpp:294-339 | each directive is spelled with 3 to 8 bytes |
| Parse.Dispatch | src/memory/buffer.cpp:293-340 | the switch selects the directive whose label equals the hash, and none when no label does |
| Parse.LabelsDistinct | src/memory/buffer.cpp:294-336 | the twelve case labels are distinct |
| Parse.DispatchLabel | src/memory/buffer.cpp:293-340 | the switch selects each directive by its own label |
| Parse.LabelIsHash | src/memory/buffer.cpp:293-336 | the hash of each directive's name, computed at run time, is its case label |
| Parse.NameShape | src/memory/buffer.cpp:294-336 | every directive name is an ASCII identifier that starts with a letter |
| Parse.LiteralLabel | src/memory/buffer.cpp:294-336 | the labels hashed over the literals' `char`s agree with the hashes of the names' bytes |
| Parse.Number | src/memory/buffer.cpp:417-418 | a digit of the base starts a number, which consumes at least that digit |
| Parse.Written | src/memory/buffer.cpp:408-410 | the ASCII and Latin-1 loops store a character as its one byte |
| Parse.Escaped | src/memory/buffer.cpp:456-459 | a backslash and what follows it are consumed together |
| Parse.Character | src/memory/buffer.cpp:519-548 | a text character is consumed and never leaves the decoder inside a header |
| Parse.TopStep | src/memory/buffer.cpp:413-548 | each pass of an encoding's loop consumes input and never leaves it inside a header |
| Parse.SectionStep | src/memory/buffer.cpp:352-381 | each pass of `numericSection` makes progress toward the end |
| Parse.Apply | src/memory/buffer.cpp:294-339 | a directive changes the base or the encoding and nothing else |
| Parse.HeaderStep | src/memory/buffer.cpp:279-345 | each pass of `updateFormatting` makes progress toward the end |
| Parse.Step | src/memory/buffer.cpp:255-556 | every step of the decoder makes progress, so `input` terminates |
| Parse.AsciiPlain | src/memory/buffer.cpp:439-465 | the ASCII loop stores plain text as it is, with newlines turned into spaces |
| Parse.EscapeStores | src/memory/buffer.cpp:456-459 | a backslash before '[' or '\' stores that character and nothing else |
| Parse.NameEnd | src/memory/buffer.cpp:226-246 | a directive name followed by a byte that cannot continue an identifier is read whole |
| Parse.DispatchName | src/memory/buffer.cpp:293 | the switch on the hash of a directive's name selects that directive |
| Parse.HeaderIdentifier | src/memory/buffer.cpp:291-293 | a header step on an identifier reads it whole and dispatches on its hash |
| Parse.DirectiveSwitches | src/memory/buffer.cpp:291-339 | a directive name in a header switches to that base or encoding and moves past the name |
| Parse.ReadNumber | src/memory/buffer.cpp:418 | `push_back(readNumeric(ptr, size))` performs one number step |
| Parse.HeaderOnce | src/memory/buffer.cpp:280-344 | one pass of `updateFormatting`'s loop performs one header step |
| Parse.SectionOnce | src/memory/buffer.cpp:352-381 | one pass of `numericSection`'s loop performs one section step |
| Parse.TopOnce | src/memory/buffer.cpp:413-548 | one pass of an encoding's loop performs one step |
| Parse.StepOnce | src/memory/buffer.cpp:413-548 | the loops perform the step the decoder's state calls for |
| Parse.Input | src/memory/buffer.cpp:255-556 | `buffer::input(ptr, ssize, flags)` appends exactly the decoding of the text |
| RoundTrip.NotDigits | src/ios.cpp:239-411 | the bytes the formatter puts around digits (' ', ':', '[', ']', NUL) are digits of no base |
| RoundTrip.ReadDigits | src/memory/buffer.cpp:417-418 | a byte's digits followed by a non-digit, or filling the width, are read as one number cut to a byte |
| RoundTrip.StepByteText | src/memory/buffer.cpp:417-418 | the digits the formatter writes for a byte are read back as that byte |
| RoundTrip.ReadNumRun | src/memory/buffer.cpp:352-437 | a digit run written for some bytes is read back as those bytes |
| RoundTrip.RunLit | src/memory/buffer.cpp:439-548 | a printable character written with its escape is read back as what the decoder stores for it |
| RoundTrip.WrittenChunk | src/memory/buffer.cpp:546-547 | a printable character read from the buffer is stored as the bytes it was read from |
| RoundTrip.ReadBracket | src/memory/buffer.cpp:352-381 | a bracket in a text loop is read back as the bytes of its digit run |
| RoundTrip.ReadRender | src/memory/buffer.cpp:439-548 | the loop of a text mode reads the rendering of the buffer back as the buffer |
| RoundTrip.KeepDirective | src/memory/buffer.cpp:294-339 | a directive naming the base or encoding already in force changes nothing |
| RoundTrip.ReadHeader | src/memory/buffer.cpp:279-381 | the `[[<encoding> <base>]]` header, read in the encoding and base it names, stores nothing and changes nothing |
| RoundTrip.ReadBody | src/memory/buffer.cpp:413-548 | the body of the output is read back as the buffer |
| RoundTrip.DecodeOutput | src/memory/buffer.cpp:255-556 | with `fmt` on, `input` reads the formatted output of a buffer back as the buffer, whatever the encoding, base, fill, grouping and header |
| Buffers.Realloc | include/ktu/memory/buffer.hpp:275 | `realloc` to n bytes keeps the first min(old, n) bytes |
| Buffers.Copied | include/ktu/memory/buffer.hpp:305 | `memcpy` into the buffer changes exactly the bytes it copies to |
| Buffers.Grown | src/memory/buffer.cpp:88-95 | the capacity stays while the new size fits, else becomes the larger of twice the old size and the new size |
| Buffers.Empty | src/memory/buffer.cpp:5 | a new buffer is empty with no capacity |
| Buffers.Reserved | include/ktu/memory/buffer.hpp:264-291 | `reserve` changes nothing when the request fits, else sets the capacity to it; the size stays, and so do the contents with `copyContents` |
| Buffers.Resized | include/ktu/memory/buffer.hpp:490-497 | `resize<T>(n, c)` makes the size n * sizeof(T), sets every new byte to c cut to a byte, and keeps the old bytes with `copyContents` |
| Buffers.Shifted | src/memory/buffer.cpp:87-97 | `shift(pos, count)` opens a count-byte gap at pos and keeps the bytes on both sides |
| Buffers.Erased | src/memory/buffer.cpp:101-104 | `erase(pos, count)` removes exactly those bytes and keeps the capacity |
| Buffers.EraseUndoesShift | src/memory/buffer.cpp:87-104 | erasing the gap `shift` opened gives the old contents back |
| Buffers.PushedBack | src/memory/buffer.cpp:105-111 | `push_back(ptr, count)` appends the bytes, growing as `shift` does |
| Buffers.Inserted | include/ktu/memory/buffer.hpp:303-306 | `insert(pos, ptr, count)` puts the bytes at pos, before what was there |
| Buffers.FilledIn | include/ktu/memory/buffer.hpp:342-345 | `insert(pos, count, v)` for a one-byte `T` puts count copies of v at pos |
| Buffers.FilledInAsWritten | include/ktu/memory/buffer.hpp:346-349 | for a wider `T` the loop fills all count * sizeof(T) bytes with v cut to a byte |
| Buffers.FilledInValues | include/ktu/memory/buffer.hpp:341-350 | the intended fill puts count copies of v's representation at pos |
| Buffers.CopiesReadBack | include/ktu/memory/buffer.hpp:341-350 | every slot the intended fill writes reads back as v |
| Buffers.FillAsWrittenCounterexample | include/ktu/memory/buffer.hpp:347-349 | inserting one `uint16_t` 0x0102 writes 02 02 instead of 02 01 |
| Buffers.PoppedBack | include/ktu/memory/buffer.hpp:484-488 | `pop_back<T>` drops sizeof(T) bytes, or empties a buffer shorter than that |
| Buffers.Assigned | src/memory/buffer.cpp:26-29 | `assign(ptr, count)` makes the contents exactly the count bytes |
| Buffers.ShrunkToFit | src/memory/buffer.cpp:73-83 | `shrink_to_fit` lowers the capacity to the size and keeps the contents |
| Buffers.EndOfElements | include/ktu/memory/buffer.hpp:209-213 | `end<T>()` lies right after the last whole element, less than sizeof(T) bytes before the end |
| Buffers.AtGuardAcceptsEnd | include/ktu/memory/buffer.hpp:144 | the guard of `at<T>` lets through an index whose element lies past the end |
| Buffers.At | include/ktu/memory/buffer.hpp:142-151 | with the intended guard, `at<T>(index)` succeeds exactly when the element lies inside the contents, and returns its bytes |
| Buffers.AtGuardWeaker | include/ktu/memory/buffer.hpp:144 | wherever the intended guard accepts, the written one does too |
| Buffers.CompareEquivalent | src/memory/buffer.cpp:136-149 | `<=>` finds two buffers equivalent exactly when their contents are equal |
| Buffers.CompareFlip | src/memory/buffer.cpp:136-149 | swapping the operands of `<=>` flips the ordering |
| Buffers.CompareLess | src/memory/buffer.cpp:143-147 | between buffers of equal size, less means a common prefix followed by a smaller byte |
| Buffers.Buffer.constructor | src/memory/buffer.cpp:5 | `buffer()` is empty with no allocation |
| Buffers.Buffer.Reserve | include/ktu/memory/buffer.hpp:264-291 | `reserve` changes the buffer as `Reserved` says |
| Buffers.Buffer.Resize | include/ktu/memory/buffer.hpp:490-497 | `resize` changes the buffer as `Resized` says |
| Buffers.Buffer.Clear | include/ktu/memory/buffer.hpp:298-300 | `clear()` sets the size to 0 and keeps the allocation |
| Buffers.Buffer.Shift | src/memory/buffer.cpp:87-97 | `shift` changes the buffer as `Shifted` says |
| Buffers.Buffer.Erase | src/memory/buffer.cpp:101-104 | `erase` changes the buffer as `Erased` says |
| Buffers.Buffer.PushBack | src/memory/buffer.cpp:105-111 | `push_back` changes the buffer as `PushedBack` says |
| Buffers.Buffer.PushBackBigEndian | include/ktu/memory/buffer.hpp:469-472 | `push_back_big_endian(item, bigEndian)` appends `big_endian(item, bigEndian)` |
| Buffers.Buffer.PushBackLittleEndian | include/ktu/memory/buffer.hpp:457-460 | `push_back_little_endian(item, littleEndian)` appends `little_endian(item, littleEndian)` |
| Buffers.Buffer.Insert | include/ktu/memory/buffer.hpp:303-325 | `insert(pos, ptr, count)` and `insert(pos, value)` change the buffer as `Inserted` says |
| Buffers.Buffer.InsertFill | include/ktu/memory/buffer.hpp:341-345 | `insert(pos, count, v)` for a one-byte `T` changes the buffer as `FilledIn` says |
| Buffers.Buffer.PopBack | include/ktu/memory/buffer.hpp:484-488 | `pop_back<T>` changes the buffer as `PoppedBack` says |
| Buffers.Buffer.Assign | src/memory/buffer.cpp:26-29 | `assign` changes the buffer as `Assigned` says |
| Buffers.Buffer.ShrinkToFit | src/memory/buffer.cpp:73-83 | `shrink_to_fit` changes the buffer as `ShrunkToFit` says |
| Buffers.Buffer.Swap | src/memory/buffer.cpp:112-116 | `swap` exchanges the two buffers' states |
| Buffers.Buffer.Equals | src/memory/buffer.cpp:120-134 | `operator==`, comparing 8-byte words and then the remaining bytes, is true exactly when the contents are equal |
| Buffers.Buffer.CompareTo | src/memory/buffer.cpp:136-149 | `operator<=>` orders by size and then by the first differing byte |
| Buffers.Buffer.Input | src/memory/buffer.cpp:255-556 | `input` appends the decoding of the text and never lowers the capacity |
| Buffers.PushBigEndianAppendsBe | include/ktu/memory/buffer.hpp:461-472 | on either host, `push_back_big_endian` of an integer appends its big-endian bytes |
| Buffers.PushLittleEndianAppendsLe | include/ktu/memory/buffer.hpp:449-460 | on either host, `push_back_little_endian` of an integer appends its little-endian bytes |
| Buffers.InsertAtEndIsPushBack | include/ktu/memory/buffer.hpp:303-306 | inserting at the end has the same contents and capacity as `push_back` |
| Views.Default | include/ktu/memory/view.hpp:25 | `view()` ranges over no bytes |
| Views.Sized | include/ktu/memory/view.hpp:30 | `view(first, size)` for a `T` ends size elements of sizeof(T) bytes after `first` |
| Views.EndAfterElements | include/ktu/memory/view.hpp:76-95 | `end<T>()` closes exactly `size<T>()` whole elements, less than one element before `last`, and is `last` for one-byte `T` |
| Views.SizedSize | include/ktu/memory/view.hpp:30 | a view made of size elements has size elements and ends right after them |
| Views.SliceBytes | include/ktu/memory/view.hpp:97-102 | `slice(size)` and `slice(first, last)` read the same bytes as that part of the view |
| Views.Index | include/ktu/memory/view.hpp:72-84 | a pointer on the element grid is the pointer to its element index |
| Views.ElemFits | include/ktu/memory/view.hpp:76-95 | every element below `size<T>()` lies before `end<T>()` |
| Views.ElemAt | include/ktu/memory/view.hpp:37-38 | an element read through a `T*` is sizeof(T) bytes |
| Views.FindIf | include/ktu/memory/view.hpp:36-41 | `find<match, T>(ptr)` returns the first element from `ptr` on that satisfies `match`, or `end<T>()` when none does |
| Views.FindStep | include/ktu/memory/view.hpp:38-39 | passing an element that does not match moves the pointer one element on |
| Views.Find | include/ktu/memory/view.hpp:45-50 | `find(match, ptr)` returns the first element from `ptr` on equal to `match`, or `end<T>()` when none is |
| Views.Search | include/ktu/memory/view.hpp:59-64 | `find(searcher, ptr)` returns the first element index from `ptr` on where the pattern occurs, or the end when it occurs nowhere |
| Views.SearchEmpty | include/ktu/memory/view.hpp:59-64 | an empty pattern is found at the starting element |
| Readers.PeekAt | include/ktu/memory/reader.hpp:19-23 | `peek<T>(ptr)` reads sizeof(T) bytes |
| Readers.ReadAt | include/ktu/memory/reader.hpp:61-72 | `read<T>(ptr)` returns what `peek` sees and moves the pointer sizeof(T) bytes forward |
| Readers.RReadAt | include/ktu/memory/reader.hpp:109-112 | `rread<T>(ptr)` returns what `peek` sees and moves the pointer sizeof(T) bytes back |
| Readers.Endian | include/ktu/memory/reader.hpp:93-108 | with the condition false the value is read unchanged |
| Readers.ReadEndianAt | include/ktu/memory/reader.hpp:93-108 | `read_big_endian(ptr, condition)` and `read_little_endian(ptr, condition)` move like `read`; with the condition false they are `read`, and on a little-endian host big-endian reverses the bytes and little-endian keeps them |
| Readers.ReadThenRRead | include/ktu/memory/reader.hpp:81-112 | `read` then `rread` puts the pointer back where it was, and `rread` returns the next element |
| Readers.EndianRoundTrip | include/ktu/memory/reader.hpp:93-108 | what `push_back_big_endian` (or `_little_endian`) appends, read back at the same place with the same condition, is the value again |
| Readers.ValidAsWrittenOverreads | include/ktu/memory/reader.hpp:415-418 | the guard of `valid<T>()` accepts a 4-byte read at offset 3 of a 5-byte view |
| Readers.ValidOnGrid | include/ktu/memory/reader.hpp:415-418 | on the element grid the written guard and the intended one agree |
| Readers.SkipAfterSeek | include/ktu/memory/reader.hpp:381-393 | seeking to element pos and skipping n is seeking to element pos + n |
| Readers.Reader.constructor | include/ktu/memory/reader.hpp:198-199 | `reader(first, last)` views the range with its cursor at `first` |
| Readers.Reader.Peek | include/ktu/memory/reader.hpp:323-326 | `peek<T>()` returns the sizeof(T) bytes at the cursor |
| Readers.Reader.SPeek | include/ktu/memory/reader.hpp:327-330 | `speek<T>()` returns the bytes at the cursor when a whole `T` remains, else `T()` |
| Readers.Reader.Is | include/ktu/memory/reader.hpp:214-217 | `is(match)` holds exactly when the element at the cursor equals `match` |
| Readers.Reader.Read | include/ktu/memory/reader.hpp:206-209 | `read<T>()` returns the element at the cursor and moves past it |
| Readers.Reader.RRead | include/ktu/memory/reader.hpp:109-112 | `rread` returns the element at the cursor and moves back by one element |
| Readers.Reader.ReadEndian | include/ktu/memory/reader.hpp:269-292 | `read_big_endian(condition)` and `read_little_endian(condition)` read as `ReadEndianAt` says |
| Readers.Reader.SRead | include/ktu/memory/reader.hpp:294-297 | `sread<T>()` reads when a whole `T` remains, else returns `T()` and leaves the cursor |
| Readers.Reader.SReadEndian | include/ktu/memory/reader.hpp:298-321 | `sread_big_endian` and `sread_little_endian` read with the endian conversion when a whole `T` remains, else return `T()` and leave the cursor |
| Readers.Reader.Seek | include/ktu/memory/reader.hpp:381-384 | `seek<T>(pos)` moves the cursor to element pos of the view |
| Readers.Reader.Skip | include/ktu/memory/reader.hpp:390-393 | `skip<T>(count)` moves the cursor count elements on |
| Readers.Reader.Scan | include/ktu/memory/reader.hpp:235-248 | the cursor passes the longest run of whole elements whose match is as wanted, and the run is returned as a view |
| Readers.Reader.Get | include/ktu/memory/reader.hpp:235-241 | `get<match, T>()` passes the longest run of matching elements and returns it |
| Readers.Reader.NGet | include/ktu/memory/reader.hpp:242-248 | `nget<match, T>()` passes the longest run of elements that do not match and returns it |
| Readers.Reader.Find | include/ktu/memory/reader.hpp:257-261 | `find(match)` moves the cursor to the first element equal to `match`, or to the end, and says whether it found one |
| Readers.Reader.FindIf | include/ktu/memory/reader.hpp:252-256 | `find<match, T>()` moves the cursor to the first matching element, or to the end, and says whether it found one |
| Readers.Reader.FindSequence | include/ktu/memory/reader.hpp:262-267 | `find(searcher)` moves the cursor to the first occurrence of the pattern, or to the end, and says whether it found one |
| Vectors.Empty | include/ktu/vector.hpp:41 | a default-constructed vector has no elements and no capacity |
| Vectors.Blanks | include/ktu/vector.hpp:194 | `new value_type[n]` yields n default-constructed slots |
| Vectors.Reallocated | include/ktu/vector.hpp:192-202 | `reallocate(capacity)` keeps the size and the elements, sets the capacity, and leaves the new slots default-constructed |
| Vectors.IncreasedSpace | include/ktu/vector.hpp:203-209 | `increase_space(count)` adds count slots, keeps the old elements, and grows the capacity to the larger of twice the old size and the new size only when the new size exceeds it |
| Vectors.Reserved | include/ktu/vector.hpp:210-215 | `reserve(capacity)` keeps the elements, changes nothing when the capacity already suffices, and leaves the larger of the two capacities |
| Vectors.ShrunkToFit | include/ktu/vector.hpp:223-227 | `shrink_to_fit()` keeps the elements and leaves a capacity equal to the size |
| Vectors.Cleared | include/ktu/vector.hpp:230-232 | `clear()` leaves no elements and the same allocation |
| Vectors.PushedBack | include/ktu/vector.hpp:294-298 | `push_back(value)` appends value to the elements |
| Vectors.PoppedBack | include/ktu/vector.hpp:314-316 | `pop_back()` drops the last element and keeps the capacity |
| Vectors.Resized | include/ktu/vector.hpp:318-320 | `resize(n)` leaves n elements, the larger of the old capacity and n, and the old elements up to n |
| Vectors.ResizeCopiesAsWritten | include/ktu/vector.hpp:318-320 | as written, a growing `resize(n)` sets the size to n before `reserve`, so `reallocate` copies n slots: more than the old allocation holds and more than its elements |
| Vectors.ResizeCopies | include/ktu/vector.hpp:192-202 | copying only the old elements never reads past the old allocation |
| Vectors.ResizeOverreadsAsWritten | include/ktu/vector.hpp:318-320 | growing a 2-element, 2-slot vector to 5 copies 5 slots out of a 2-slot allocation as written, reading past it, where the intended copy takes the 2 elements |
| Vectors.At | include/ktu/vector.hpp:111-120 | `at(pos)` fails exactly when pos is not below the size, and otherwise returns element pos |
| Vectors.AtPushedBack | include/ktu/vector.hpp:111-120 | after `push_back(value)`, `at(old size)` is value and every other position reads as before |
| Vectors.PopUndoesPush | include/ktu/vector.hpp:294-316 | `pop_back` after `push_back` gives back the old elements |
| Vectors.PushBackDoubles | include/ktu/vector.hpp:203-209 | growth by `push_back` alone keeps the capacity zero or a power of two, and a full vector doubles its capacity |
| Vectors.Vector.constructor | include/ktu/vector.hpp:41 | `vector()` is the empty vector |
| Vectors.Vector.Moved | include/ktu/vector.hpp:57-62 | `vector(vector&&)` takes over the other's allocation and leaves it empty |
| Vectors.Vector.MoveAssign | include/ktu/vector.hpp:79-85 | move assignment takes over the other's allocation and leaves it empty; a self-move leaves the vector empty |
| Vectors.Vector.Reallocate | include/ktu/vector.hpp:192-202 | the copy loop leaves the state `Reallocated` describes |
| Vectors.Vector.IncreaseSpace | include/ktu/vector.hpp:203-209 | leaves the state `IncreasedSpace` describes |
| Vectors.Vector.Reserve | include/ktu/vector.hpp:210-215 | leaves the state `Reserved` describes |
| Vectors.Vector.ShrinkToFit | include/ktu/vector.hpp:223-227 | leaves the state `ShrunkToFit` describes |
| Vectors.Vector.Clear | include/ktu/vector.hpp:230-232 | leaves the state `Cleared` describes |
| Vectors.Vector.PushBack | include/ktu/vector.hpp:294-298 | leaves the state `PushedBack` describes |
| Vectors.Vector.PopBack | include/ktu/vector.hpp:314-316 | leaves the state `PoppedBack` describes |
| Vectors.Vector.Resize | include/ktu/vector.hpp:318-320 | leaves the state `Resized` describes |
| Vectors.Vector.Get | include/ktu/vector.hpp:111-120 | returns what `At` says for the current vector |
| Lists.Follow | include/ktu/list.hpp:68-80 | following `next` (or `prev`) from a slot visits at most the given number of slots |
| Lists.Traversal | include/ktu/list.hpp:68-80 | in a linked list, stepping `operator++` from `begin()` visits every slot exactly once, in list order, and the tail's `next` is the terminator |
| Lists.CheckBounds | include/ktu/list.hpp:48-51 | `check_bounds(size)` passes exactly when size is at most `max_size()`, the terminator |
| Lists.DefaultNodes | include/ktu/list.hpp:498-514 | `set_default_nodes(count)` writes count nodes |
| Lists.DefaultLinksAsWritten | include/ktu/list.hpp:498-500 | with count 0, `set_default_nodes` returns before touching `head` and `tail` |
| Lists.DefaultLinked | include/ktu/list.hpp:498-514 | the default links chain slots `0 .. count - 1` in index order |
| Lists.DefaultLinksAsWrittenStale | include/ktu/list.hpp:152-157 | assigning an empty vector to a two-element list leaves `head` and `tail` on removed slots, as written; the corrected links are an empty list |
| Lists.PushBackNode | include/ktu/list.hpp:648-657 | `push_back_node()` adds one node and makes it the tail |
| Lists.PushBackLinked | include/ktu/list.hpp:648-657 | `push_back_node()` keeps the list linked with the new slot last |
| Lists.PushFrontNode | include/ktu/list.hpp:637-646 | `push_front_node()` adds one node and makes it the head |
| Lists.PushFrontLinked | include/ktu/list.hpp:637-646 | `push_front_node()` keeps the list linked with the new slot first |
| Lists.InsertNode | include/ktu/list.hpp:569-591 | `insert_index_node(index)` adds one node |
| Lists.InsertLinked | include/ktu/list.hpp:569-591 | `insert_index_node(index)` keeps the list linked, the new slot last when index is the terminator and otherwise just before index |
| Lists.InsertAtEndIsPushBack | include/ktu/list.hpp:572-578 | inserting before the terminator is `push_back_node()` |
| Lists.Reversed | include/ktu/list.hpp:392-397 | `reverse()` exchanges `prev` and `next` in every node and `head` with `tail` |
| Lists.ReverseLinked | include/ktu/list.hpp:392-397 | after `reverse()` the list is linked in the opposite order |
| Lists.EraseNode | include/ktu/list.hpp:593-635 | `erase_index(index)` leaves one node fewer |
| Lists.Unlinked | include/ktu/list.hpp:595-608 | the first half of `erase_index(index)`: the neighbours of index (or `head`/`tail` for the terminator) pointed at each other, the node count kept |
| Lists.Relocated | include/ktu/list.hpp:610-631 | the second half: the last slot's node copied into slot index and its neighbours (or `head`/`tail`) pointed at index, the node count kept |
| Lists.MovedSteps | include/ktu/list.hpp:595-631 | `erase_index` is the unlinking of index followed, when index is not the last slot, by moving the last slot into it |
| Lists.EraseValue | include/ktu/list.hpp:617-632 | `erase_index` leaves one value fewer |
| Lists.EraseLinked | include/ktu/list.hpp:593-635 | `erase_index(index)` keeps the list linked: the erased position is gone and the last slot now lives in slot index |
| Lists.EraseNextFollows | include/ktu/list.hpp:593-635 | the corrected return of `erase_index` is the slot now at the erased position, or the terminator |
| Lists.EraseNextAsWritten | include/ktu/list.hpp:593-635 | the slot `erase_index` returns as written: the erased slot's old `next` |
| Lists.EraseNext | include/ktu/list.hpp:593-635 | the corrected return: the old `next`, except that it is index itself when that next was the last slot, now moved into index |
| Lists.EraseNextAsWrittenStale | include/ktu/list.hpp:634 | erasing the first of two elements returns slot 1, which the erase has just removed, as written; the corrected slot is 0 |
| Lists.InOrder | include/ktu/list.hpp:314 | iteration yields the value of each slot in list order |
| Lists.EraseValues | include/ktu/list.hpp:593-635 | erasing a slot removes exactly its value from the list order |
| Lists.ErasedList | include/ktu/list.hpp:593-635 | `erase_index` on a well-formed list keeps it well formed, removes the erased value from the list order, and the corrected return is the element that followed |
| Lists.SwapNodes | include/ktu/list.hpp:693-778 | `swap_nodes(left, right)` keeps the number of nodes |
| Lists.Exchanged | include/ktu/list.hpp:693-778 | exchanging two slots renames them in every node, in `head` and in `tail` |
| Lists.ExchangedLinked | include/ktu/list.hpp:693-778 | exchanging two slots keeps the list linked with the two slots at each other's positions |
| Lists.SwapIsExchange | include/ktu/list.hpp:693-778 | in every case (neighbours either way round, or apart) `swap_nodes(left, right)` of two distinct slots is the exchange of the two slots |
| Lists.InOrderIota | include/ktu/list.hpp:498-514 | after `set_default_nodes` the list order is the values in index order |
| Lists.InOrderInsert | include/ktu/list.hpp:214-217 | a value appended and linked at position k appears at position k of the list order |
| Lists.InOrderExchanged | include/ktu/list.hpp:693-778 | exchanging two slots exchanges their values in the list order |
| Lists.InOrderBackwards | include/ktu/list.hpp:392-397 | reading the order backwards reads the values backwards |
| Lists.List.constructor | include/ktu/list.hpp:136 | `list()` is empty, with `head` and `tail` the terminator |
| Lists.List.Empty | include/ktu/list.hpp:189 | `empty()` holds exactly when the list has no elements |
| Lists.List.Front | include/ktu/list.hpp:183 | `front()` is the first element in list order |
| Lists.List.Back | include/ktu/list.hpp:184 | `back()` is the last element in list order |
| Lists.List.SetDefaultNodes | include/ktu/list.hpp:498-514 | the loop leaves the default links for count slots and keeps the values |
| Lists.List.Assign | include/ktu/list.hpp:152-157 | `operator=(vector)` fails exactly when the size exceeds `max_size()`, changing nothing, and otherwise holds the vector's values in order |
| Lists.List.Clear | include/ktu/list.hpp:208-212 | `clear()` leaves an empty list with both ends the terminator |
| Lists.List.PushBack | include/ktu/list.hpp:247-254 | `push_back(value)` appends value to the list order |
| Lists.List.PushFront | include/ktu/list.hpp:238-245 | `push_front(value)` puts value first in the list order |
| Lists.List.Insert | include/ktu/list.hpp:214-217 | `insert(pos, value)` puts value just before pos's element (last for `end()`) and returns the new slot |
| Lists.List.EraseIndex | include/ktu/list.hpp:593-635 | leaves the links `EraseNode` describes and the values `EraseValue` describes, and returns the corrected next slot |
| Lists.List.Erase | include/ktu/list.hpp:229-231 | `erase(pos)` removes pos's element from the list order and returns the slot of the element after it |
| Lists.List.PopFront | include/ktu/list.hpp:276 | `pop_front()` drops the first element |
| Lists.List.PopBack | include/ktu/list.hpp:277 | `pop_back()` drops the last element |
| Lists.List.SwapNodesAt | include/ktu/list.hpp:693-778 | leaves the links `SwapNodes` describes and the values unchanged |
| Lists.List.SwapSlots | include/ktu/list.hpp:693-778 | swapping two distinct slots exchanges their elements' positions in the list order; equal slots or the terminator change nothing |
| Lists.List.Reverse | include/ktu/list.hpp:392-397 | `reverse()` reverses the list order |
| MultiStrings.Element | include/ktu/multi_string.hpp:24-27 | element i is as long as its node's size |
| MultiStrings.Strings | include/ktu/multi_string.hpp:418-426 | iteration yields each node's characters, in node order |
| MultiStrings.SuffixIsConcat | include/ktu/multi_string.hpp:131-134 | from the start of any element the text is that element and the later ones followed by the building substring |
| MultiStrings.TextIsConcat | include/ktu/multi_string.hpp:131-134 | the cumulative string is the elements in order followed by the building substring |
| MultiStrings.Splice | include/ktu/multi_string.hpp:1158-1164 | `replace(at, count, s)` on the string changes its length by `|s| - count` |
| MultiStrings.Moved | include/ktu/multi_string.hpp:610-613 | moving the nodes from one on keeps the number of nodes |
| MultiStrings.Shifted | include/ktu/multi_string.hpp:108-130 | `nodes_shift_change` keeps the number of nodes |
| MultiStrings.PushBuildingAppends | include/ktu/multi_string.hpp:793-798 | `push_building()` appends the building substring as a new element and leaves none behind |
| MultiStrings.Inserted | include/ktu/multi_string.hpp:605-620 | the corrected `insert(pos, value)`: value goes into the text where element k starts, a node for it goes in at k, and every later node and the building substring move along by its length |
| MultiStrings.InsertedAsWritten | include/ktu/multi_string.hpp:605-620 | `insert` as written: the same edit of the text and nodes, with `buildingIndex` left where it was |
| MultiStrings.InsertAsWrittenLeaksElement | include/ktu/multi_string.hpp:605-620 | as written, inserting "x" before the only element "ab" leaves `buildingIndex` at 2, so the building substring becomes "b" |
| MultiStrings.InsertedNode | include/ktu/multi_string.hpp:605-620 | after `insert` the nodes before position k are kept, node k is the new value's, and the later nodes move by its length |
| MultiStrings.InsertedWellformed | include/ktu/multi_string.hpp:605-620 | the corrected `insert` keeps the nodes tiling the string |
| MultiStrings.InsertedElements | include/ktu/multi_string.hpp:605-620 | the corrected `insert` puts the value at position k of the elements and keeps the rest and the building substring |
| MultiStrings.Erased | include/ktu/multi_string.hpp:762-772 | the corrected `erase(pos)`: element k's characters leave the text, its node goes, and every later node and the building substring move back by its size |
| MultiStrings.ErasedAsWritten | include/ktu/multi_string.hpp:762-772 | `erase` as written: the same edit, with `buildingIndex` left where it was |
| MultiStrings.EraseAsWrittenOverruns | include/ktu/multi_string.hpp:762-772 | as written, erasing the only element "ab" leaves `buildingIndex` at 2 past the end of the empty string |
| MultiStrings.ErasedNode | include/ktu/multi_string.hpp:762-772 | after `erase` the nodes before k are kept and the later ones move back by the erased size |
| MultiStrings.ErasedWellformed | include/ktu/multi_string.hpp:762-772 | the corrected `erase` keeps the nodes tiling the string |
| MultiStrings.ErasedElements | include/ktu/multi_string.hpp:762-772 | the corrected `erase` removes exactly element k and keeps the building substring |
| MultiStrings.Popped | include/ktu/multi_string.hpp:837-841 | `pop_back()`: the last node goes and the text is cut where its element started |
| MultiStrings.PoppedElements | include/ktu/multi_string.hpp:837-841 | `pop_back()` drops the last element and any building text |
| MultiStrings.PopUndoesPushBuilding | include/ktu/multi_string.hpp:793-841 | `pop_back()` after `push_building()` gives back the elements with no building text |
| MultiStrings.Truncated | include/ktu/multi_string.hpp:842-857 | `resize(sz)` with sz at most `size()`: the nodes from sz on go, the text is kept, and the building substring starts where element sz started |
| MultiStrings.TruncatedElements | include/ktu/multi_string.hpp:842-857 | shrinking to sz keeps the first sz elements; the others' text joins the front of the building substring |
| MultiStrings.Cleared | include/ktu/multi_string.hpp:590-593 | the corrected `clear()` leaves no elements and no building substring |
| MultiStrings.ClearedAsWritten | include/ktu/multi_string.hpp:590-593 | `clear()` as written: text and nodes emptied, `buildingIndex` kept |
| MultiStrings.ClearAsWrittenOverruns | include/ktu/multi_string.hpp:590-593 | as written, clearing a multi-string that held any text leaves `buildingIndex` past the end of the empty string |
| MultiStrings.Spliced | include/ktu/multi_string.hpp:1158-1164 | the corrected substring edit of element k: count characters at the offset become s, and node k's size, the later nodes and the building substring move by the change |
| MultiStrings.SplicedAsWritten | include/ktu/multi_string.hpp:1158-1164 | a substring edit as written: the same edit, with `buildingIndex` left where it was |
| MultiStrings.SpliceAsWrittenLeaksElement | include/ktu/multi_string.hpp:1063-1065 | as written, appending "c" to the only element "ab" leaves `buildingIndex` at 2, so "c" is also the building substring |
| MultiStrings.SplicedNode | include/ktu/multi_string.hpp:1158-1164 | after a substring edit node k changes size by `|s| - count` and the later nodes move by the same amount |
| MultiStrings.SplicedWellformed | include/ktu/multi_string.hpp:1158-1164 | the corrected substring edit keeps the nodes tiling the string |
| MultiStrings.SplicedBefore | include/ktu/multi_string.hpp:1158-1164 | a substring edit of element k leaves the elements before it alone |
| MultiStrings.SplicedAt | include/ktu/multi_string.hpp:1158-1164 | a substring edit of element k replaces count characters at the offset by s |
| MultiStrings.SplicedAfter | include/ktu/multi_string.hpp:1158-1164 | a substring edit of element k leaves the elements after it unchanged |
| MultiStrings.SplicedElements | include/ktu/multi_string.hpp:1158-1164 | a substring edit changes element k alone, by that splice, and keeps the building substring |
| MultiStrings.SubstringPushedBackAsWritten | include/ktu/multi_string.hpp:1047-1050 | `substring_push_back(pos, ch)` as written: ch pushed onto the end of the cumulative string and also inserted at the end of element k |
| MultiStrings.SubstringPushBackAsWrittenStrays | include/ktu/multi_string.hpp:1047-1050 | as written, `substring_push_back` appends ch to element k and also leaves a stray ch at the end of the building substring |
| MultiStrings.PendingSpliced | include/ktu/multi_string.hpp:1486-1489 | a building edit: count characters at an offset of the building substring become s, nodes unchanged |
| MultiStrings.PendingSplicedStrings | include/ktu/multi_string.hpp:1486-1489 | edits of the building substring leave every element as it was |
| MultiStrings.PendingSplicedElements | include/ktu/multi_string.hpp:1315-1489 | building edits splice the building substring alone |
| MultiStrings.Clamp | include/ktu/multi_string.hpp:1366-1369 | a `std::basic_string` erase or replace of count characters removes count, or everything left for `npos` or a count past the end |
| MultiStrings.BuildingEmptyAsWritten | include/ktu/multi_string.hpp:547-549 | `building_empty()` as written: true when the string runs past `buildingIndex` |
| MultiStrings.BuildingEmptyAsWrittenInverted | include/ktu/multi_string.hpp:547-549 | as written, `building_empty()` holds exactly when the building substring is not empty |
| MultiStrings.BuildingEmpty | include/ktu/multi_string.hpp:547-552 | the corrected `building_empty()` holds exactly when `building_size()` is 0 |
| MultiStrings.MultiString.constructor | include/ktu/multi_string.hpp:209 | `basic_multi_string()` has no elements and no building text |
| MultiStrings.MultiString.Get | include/ktu/multi_string.hpp:424-426 | `operator[](pos)` is element pos |
| MultiStrings.MultiString.At | include/ktu/multi_string.hpp:418-423 | `at(pos)` throws `out_of_range` exactly when pos is not below `size()`, and otherwise is element pos |
| MultiStrings.MultiString.Front | include/ktu/multi_string.hpp:427-429 | `front()` is the first element |
| MultiStrings.MultiString.Back | include/ktu/multi_string.hpp:430-432 | `back()` is the last element |
| MultiStrings.MultiString.BuildingSize | include/ktu/multi_string.hpp:550-552 | `building_size()` is the length of the building substring |
| MultiStrings.MultiString.BuildingAt | include/ktu/multi_string.hpp:387-392 | `building_at(pos)` throws exactly when pos is past the building substring, and otherwise is its character pos |
| MultiStrings.MultiString.BuildingString | include/ktu/multi_string.hpp:1545-1547 | the elements in order followed by `building_string()` make up the whole string |
| MultiStrings.MultiString.BuildingSubstr | include/ktu/multi_string.hpp:1551-1553 | `building_substr(pos, count)` throws exactly when pos is past the building substring, and otherwise returns up to count of its characters from pos |
| MultiStrings.MultiString.Substring | include/ktu/multi_string.hpp:1259-1267 | `substring(pos)` and `substring_view(pos)` are element pos |
| MultiStrings.MultiString.SubstringSubstr | include/ktu/multi_string.hpp:1271-1273 | `substring_substr(pos, s_pos, count)` is the rest of the element for `npos`, count characters of it when they fit, and otherwise the rest of the element followed by the text of the later elements and the building substring, count characters in all or up to the end |
| MultiStrings.MultiString.MoveFrom | include/ktu/multi_string.hpp:610-613 | the loop leaves the nodes `Moved` describes and the string unchanged |
| MultiStrings.MultiString.ShiftChange | include/ktu/multi_string.hpp:124-130 | `nodes_shift_change(pos, d)` leaves the nodes `Shifted` describes |
| MultiStrings.MultiString.ShiftAdd | include/ktu/multi_string.hpp:108-115 | `nodes_shift_add(pos, n)` is `nodes_shift_change` by +n |
| MultiStrings.MultiString.ShiftSubtract | include/ktu/multi_string.hpp:116-122 | `nodes_shift_subtract(pos, n)` is `nodes_shift_change` by -n |
| MultiStrings.MultiString.PushBuilding | include/ktu/multi_string.hpp:793-798 | `push_building()` appends the building substring as an element and leaves none behind |
| MultiStrings.MultiString.PushBack | include/ktu/multi_string.hpp:800-803 | `push_back(str)` appends the building substring followed by str as one element |
| MultiStrings.MultiString.Insert | include/ktu/multi_string.hpp:605-620 | `insert(pos, value)` puts value at position k of the elements, keeps the building substring, and returns k |
| MultiStrings.MultiString.Erase | include/ktu/multi_string.hpp:762-772 | `erase(pos)` removes element k, keeps the building substring, and returns k |
| MultiStrings.MultiString.PopBack | include/ktu/multi_string.hpp:837-841 | `pop_back()` drops the last element and any building text |
| MultiStrings.MultiString.Resize | include/ktu/multi_string.hpp:842-857 | a shrinking `resize(sz)` keeps the first sz elements, and the others' text joins the front of the building substring |
| MultiStrings.MultiString.Clear | include/ktu/multi_string.hpp:590-593 | `clear()` leaves no elements and no building substring |
| MultiStrings.MultiString.SubstringReplace | include/ktu/multi_string.hpp:1158-1164 | `substring_replace(pos, s_pos, count, str)` replaces count characters of element k at s_pos by str and nothing else |
| MultiStrings.MultiString.SubstringInsert | include/ktu/multi_string.hpp:960-964 | `substring_insert(pos, index, str)` inserts str into element k at index and nothing else |
| MultiStrings.MultiString.EraseChars | include/ktu/multi_string.hpp:931-935 | the string erase followed by `nodes_shift_subtract` removes those characters from element k and nothing else |
| MultiStrings.MultiString.RemoveChars | include/ktu/multi_string.hpp:1024-1025 | the string and node edits leave the state `Spliced` describes for an erase |
| MultiStrings.MultiString.SubstringErase | include/ktu/multi_string.hpp:1022-1027 | `substring_erase(pos, index, count)` removes count characters of element k at index, the rest of it for `npos` |
| MultiStrings.MultiString.SubstringClear | include/ktu/multi_string.hpp:931-935 | `substring_clear(pos)` empties element k and nothing else |
| MultiStrings.MultiString.SubstringAppend | include/ktu/multi_string.hpp:1063-1065 | `substring_append(pos, str)` appends str to element k and nothing else |
| MultiStrings.MultiString.SubstringPushBack | include/ktu/multi_string.hpp:1047-1050 | the corrected `substring_push_back(pos, ch)` appends ch to element k and nothing else |
| MultiStrings.MultiString.BuildingClear | include/ktu/multi_string.hpp:1315-1317 | `building_clear()` empties the building substring and keeps the elements |
| MultiStrings.MultiString.BuildingReplace | include/ktu/multi_string.hpp:1486-1489 | `building_replace(pos, count, str)` throws exactly when pos is past the building substring, and otherwise replaces up to count of its characters at pos by str |
| MultiStrings.MultiString.BuildingInsert | include/ktu/multi_string.hpp:1331-1334 | `building_insert(index, str)` throws exactly when index is past the building substring, and otherwise inserts str there |
| MultiStrings.MultiString.BuildingErase | include/ktu/multi_string.hpp:1366-1369 | `building_erase(index, count)` throws exactly when index is past the building substring, and otherwise removes up to count characters there |
| MultiStrings.MultiString.BuildingAppend | include/ktu/multi_string.hpp:1384-1387 | `building_append(str)` appends str to the building substring and keeps the elements |
| MultiStrings.MultiString.BuildingPushBack | include/ktu/multi_string.hpp:1376-1378 | `building_push_back(ch)` appends ch to the building substring and keeps the elements |
| MultiStrings.MultiString.BuildingResize | include/ktu/multi_string.hpp:1563-1565 | `building_resize(n, ch)` cuts the building substring to n characters or pads it with ch, and keeps the elements |

## Left out

- **I/O.** File and stream input/output is not modelled: `buffer::insertf` and `assign(path)`, `operator>>`, `writef` on buffers, views and readers, `buffer::write`, `multi_string::pushf` and `insertf`, and `operator<<` for views. The formatter's stream plumbing (`iword` slots, `pubsetbuf`, `copyfmt`, `setw`) is reduced to an explicit flag word and grouping count, and its output is a returned character sequence.
- **Allocation failure.** Every `malloc`, `realloc` and `new` is assumed to succeed, so the `bad_alloc` paths are absent.
- **UTF-8 and UTF-16 codec bodies.** `u8::impl` and `u16::impl` live in `unicode.tcc`, which is not part of this model. They are defined here after section 3 of RFC 3629 and section 2 of RFC 2781. The UTF-8 reader is strict (no overlong forms, surrogates or values past U+10FFFF). A malformed or truncated UTF-8 sequence yields the invalid marker and consumes one byte. A truncated UTF-16 or UTF-32 unit consumes the rest of the input instead of reading past it, since the source reads past the end there.
- **Function-pointer tables.** `src/unicode.cpp` is only such tables; they are an `Encoding` datatype and a `match`.
- **Reads past the end in `buffer::input`.** A trailing `\` and the ascii read of `*end` read past the end in the source; here an escape at the end of the input ends the parse.
- **`hextable` indexing.** The table is indexed by a signed `char` in the source; the model indexes it by the unsigned byte, as intended.
- **Overlapping `memcpy`.** `shift` and `erase` in `src/memory/buffer.cpp` use `memcpy` on overlapping ranges, which is undefined; they are modelled as `memmove`.
- **Host byte order.** The host is little-endian except where a parameter selects it (`numeric_literal`, `byte_mask`, the endian conversions).
- **Non-trivially-copyable element types and placement-new.** These are not modelled: `emplace`, `emplace_back`, and the float-reinterpreting `io::bits` overload. Typed access is modelled for fixed-width integers over bytes.
- **Buffer overloads.** The range, iterator and initializer-list overloads of `buffer::insert` and `push_back` are the byte-sequence forms here. `capacity<T>` ignores `T` in the source and is not modelled.
- **Container insertion of code points.** `u8::insert`, `u16::insert` and `u32::insert`/`push_back` into a container are modelled through the bytes or units they store (`Unicode.Encode`, `Unicode.StoredUnits16`, `Unicode.WrittenBytes`), not as container operations. `u16::insert`'s byte count for a `ktu::buffer` is covered the same way.
- **`rread` of UTF-8 and UTF-16.** These live in `unicode.tcc` and are not modelled.
- **Unchecked view search.** `view::find` reads `*ptr` before comparing `ptr` with the end; the model checks the bound first, as `Views.FindIf` says.
- **Reader accessors and overloads.** `reader::cur`, `begin`, `end`, `size` and `slice` are accessors of the underlying view, covered by `Views`. `is(first, last)` and `is(array)` are not modelled. `peek_*_endian` and `speek_*_endian` are `read_*_endian` and `sread_*_endian` without the cursor move. The free `write` and `rwrite` functions store through a raw pointer and are not modelled.
- **Iterator pointer arithmetic.** `iterator + iterator` for forward iterators and `iterator - iterator` for reverse ones are ill-formed pointer arithmetic and are not modelled.
- **Known vector defects.** `insert` indexes with an iterator, `erase` copies the wrong range, `resize(n, v)` fills up to the capacity, and `shift` forward-copies overlapping ranges. None of these is modelled, nor are `assign`, the copy constructor or `emplace_back`.
- **Known list defects.** `list::swap` passes the list itself to `vector::swap`, growing `resize` does not link the new nodes, `resize_nodes` returns early on the wrong condition, the single-element splice uses `this->left_size`, and `merge_sort` uses `this->first`. None of these is modelled, nor are `sort`, `merge`, `splice`, `remove`/`remove_if`, `erase(first, last)`, the `assign` overloads, `emplace_*`, `get_pos_index` or `advance_index`.
- **Multi-string operations not modelled.** These are:
  - the multi-count constructors and `assign`;
  - the range and iterator overloads;
  - `find`, `compare`, `starts_with`, `ends_with` and `contains`;
  - the iterator forms of the substring and building edits;
  - `building_front`, `building_back` and `building_data`;
  - iterators, and the capacity operations `reserve` and `shrink_to_fit`.
- **Multi-string defects not modelled.** Growing `resize` indexes `nodes[sz]` out of range. The `StringViewLike` `substring_insert` passes `npos` instead of its count. `substring_erase(pos, s_position)` computes the erased size from an index into the whole string and erases from the element's start. `substring_resize` erases from offset size - n when shrinking, which keeps size - n characters instead of n, and then overwrites the whole element with `ch` in every case.
- **Erased node's index.** `erase(pos)` in `multi_string` also lowers the erased node's own index before removing it; that node is gone right after, so the model does not keep it.
- MultiStrings.MultiString.Resize: only shrinking (`sz` at most `size()`) is modelled, because growing indexes `nodes[sz]` out of range.
- MultiStrings.MultiString.Insert: requires a position before `end()`; insertion at `end()` dereferences the end node in the source.
- MultiStrings.MultiString.SubstringInsert: requires the offset to lie inside the element; the source would write into a later element.
- MultiStrings.MultiString.SubstringErase: requires the erased characters to stay inside the element; the source would run into later elements.
- MultiStrings.MultiString.SubstringReplace: requires the replaced characters to stay inside the element, for the same reason.
- MultiStrings.MultiString.PopBack: requires at least one element; the source reads `nodes.back()` of an empty vector.
- Vectors.Vector.PopBack: requires at least one element; the source decrements the size past zero.
- Vectors.Vector.Resize: models the intended copy of the old elements only; the as-written over-read is `Vectors.ResizeCopiesAsWritten`.
- Lists.List.PushBack: requires room below `max_size()`, which the source does not check (the new slot would equal the terminator).
- Lists.List.PushFront: requires room below `max_size()`, as for `PushBack`.
- Lists.List.Insert: requires room below `max_size()`, as for `PushBack`.
- Lists.List.PopFront: requires at least one element; the source would erase the terminator slot.
- Lists.List.PopBack: requires at least one element, as for `PopFront`.
- Lists.List.Front: requires at least one element; the source reads `values[terminator]`.
- Lists.List.Back: requires at least one element, as for `Front`.
- Readers.Reader.Find: requires the cursor on the element grid of `T`. A cursor left off the grid by a narrower read is not modelled; from there the source's loop compares elements that straddle the grid, and since `*ptr` is read before `ptr < end<T>()` is tested, its last read can end up to 2 sizeof(T) - 1 - (size % sizeof(T)) bytes past the view (6 bytes for a 4-byte `T` from offset 3 of a 5-byte view).
- Readers.Reader.FindIf: requires the cursor on the element grid of `T`, as for `Find`.
- Readers.Reader.FindSequence: requires the cursor on the element grid of `T`; from an off-grid cursor the source's `std::search` runs over a range that is not a whole number of elements, which is not modelled.
- Readers.Reader.SPeek: tests that a whole `T` remains before the end, the corrected guard of the `valid<T>()` finding; as written `valid<T>()` also accepts an off-grid cursor less than sizeof(T) bytes from the end.
- Readers.Reader.SRead: uses the corrected guard, as for `SPeek`.
- Readers.Reader.SReadEndian: uses the corrected guard, as for `SPeek`.
- Readers.Reader.Scan: uses the corrected guard, as for `SPeek`.
- Readers.Reader.Get: uses the corrected guard, as for `SPeek`.
- Readers.Reader.NGet: uses the corrected guard, as for `SPeek`.
- Format.Format: takes the stream's standard formatting state at its defaults (the `std::ios_base` flags such as `showbase`, `showpos` or `left`, and the locale); settings other than those change what the source's `operator<<` calls print, and are not modelled.
- Readers.Reader.Seek: takes the position explicitly; the default argument `pos = 1` is the call with 1.
- Bit.Field: requires `bit + count < 32`, since the source shifts a 32-bit `int` and larger shifts are undefined or wrap.
- Bit.HighestBit: takes non-negative values; for a negative signed value the source counts the zeros of its two's-complement bits, giving 8 sizeof(T) - 1.

## Findings

| source | as written | input that shows it | evidently intended | confidence | as-written member | corrected member |
|---|---|---|---|---|---|---|
| include/ktu/multi_string.hpp:605-620 | `insert` moves the later nodes but not `buildingIndex` | inserting "x" before the only element "ab": the building substring becomes "b" | `buildingIndex` moves by the inserted length, so the building substring is unchanged | high (not executed) | MultiStrings.InsertAsWrittenLeaksElement | MultiStrings.InsertedElements |
| include/ktu/multi_string.hpp:762-772 | `erase` moves the later nodes but not `buildingIndex` | erasing the only element "ab": `buildingIndex` stays 2 on an empty string | `buildingIndex` moves back by the erased length | high (not executed) | MultiStrings.EraseAsWrittenOverruns | MultiStrings.ErasedElements |
| include/ktu/multi_string.hpp:1158-1164 | the substring edits shift the later nodes but not `buildingIndex` | appending "c" to the only element "ab": "c" also becomes the building substring | `buildingIndex` moves with the edit | high (not executed) | MultiStrings.SpliceAsWrittenLeaksElement | MultiStrings.SplicedElements |
| include/ktu/multi_string.hpp:590-593 | `clear` does not reset `buildingIndex` | clearing a multi-string holding "ab": `buildingIndex` is past the end of the empty string | `buildingIndex` becomes 0 | high (not executed) | MultiStrings.ClearAsWrittenOverruns | MultiStrings.Cleared |
| include/ktu/multi_string.hpp:547-549 | `building_empty` returns `size() > buildingIndex` | any multi-string with building text answers true | `building_size() == 0` | high (not executed) | MultiStrings.BuildingEmptyAsWrittenInverted | MultiStrings.BuildingEmpty |
| include/ktu/multi_string.hpp:1047-1050 | `substring_push_back` first pushes `ch` onto the whole string, then inserts it into the element | any element: a stray `ch` is left at the end of the building substring | `ch` appended to the element only | high (not executed) | MultiStrings.SubstringPushBackAsWrittenStrays | MultiStrings.MultiString.SubstringPushBack |
| include/ktu/iterator.hpp:102-108 | `value + it` moves a reverse iterator backwards in memory while `it + value` moves it forwards | `1 + it` and `it + 1` for a reverse iterator at 10 | `value + it == it + value` | high (not executed) | Iterator.FrontPlusAsWrittenNotCommutative | Iterator.FrontPlusCommutes |
| include/ktu/bit.hpp:178-184 | the big-endian loop also reads the terminator, and the wrap-around drops the first character | "ab" in a 2-byte word gives bytes 'b', 0 | bytes 'a', 'b' | medium (not executed) | Bit.NumericLiteralBigEndianDropsFirst | Bit.NumericLiteralBigEndian |
| include/ktu/unicode.hpp:426 | the loop condition of `u32::to_16` is a non-null pointer, always true | any string: the loop runs past its end | loop while `ptr` is before the end | high (not executed) | Unicode.To16GuardAsWrittenAtEnd | Unicode.U32ToU16 |
| include/ktu/memory/buffer.hpp:144 | `at<T>` throws only when `index * sizeof(T) > size` | a 4-byte buffer and `at<uint32_t>(1)` reads past the end | throw unless the whole element fits | high (not executed) | Buffers.AtGuardAcceptsEnd | Buffers.At |
| include/ktu/memory/buffer.hpp:347-349 | `insert(pos, count, v)` for a multi-byte `T` fills every byte with `v` cut to a byte | inserting one `uint16_t` 0x0102 writes 02 02 | count copies of `v`'s representation, 02 01 | high (not executed) | Buffers.FillAsWrittenCounterexample | Buffers.CopiesReadBack |
| include/ktu/memory/reader.hpp:415-418 | `valid<T>` checks only that the cursor is before `end<T>()` | a 5-byte view with the cursor at offset 3 accepts a 4-byte read | a whole `T` lies between the cursor and the end; the guard `HasWhole` with that meaning is what Readers.Reader.SPeek, SRead, SReadEndian, Scan, Get and NGet test | high (not executed) | Readers.ValidAsWrittenOverreads | Readers.Reader.SRead |
| include/ktu/vector.hpp:318-320 | `resize` sets the size before `reserve`, so `reallocate` copies n slots from the old allocation | growing a 2-element, 2-slot vector to 5 copies 5 slots | copy only the old elements | high (not executed) | Vectors.ResizeOverreadsAsWritten | Vectors.ResizeCopies |
| include/ktu/list.hpp:498-500 | `set_default_nodes(0)` returns before resetting `head` and `tail` | assigning an empty vector to a two-element list leaves `head` 0 and `tail` 1 | both ends become the terminator | high (not executed) | Lists.DefaultLinksAsWrittenStale | Lists.DefaultLinked |
| include/ktu/list.hpp:634 | `erase_index` returns the old `next` slot, which may have just been moved into `index` | erasing the first of two elements returns slot 1, which no longer exists | the slot now holding the following element | high (not executed) | Lists.EraseNextAsWrittenStale | Lists.EraseNextFollows |
