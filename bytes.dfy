/**
 * Raw memory as the library sees it: bytes, fixed-width unsigned
 * integers stored in them (least significant byte first on the
 * little-endian host the library targets), and an optional value.
 */
module Bytes {

  /** An octet, `uint8_t` / `unsigned char`. */
  type byte = b: int | 0 <= b < 256

  datatype Option<T> = None | Some(value: T)

  /** 256^n, the number of values an n-byte integer can hold. */
  function Pow256(n: nat): (r: nat)
    ensures r >= 1
  {
    if n == 0 then 1 else 256 * Pow256(n - 1)
  }

  /** 2^n. */
  function Pow2(n: nat): (r: nat)
    ensures r >= 1
  {
    if n == 0 then 1 else 2 * Pow2(n - 1)
  }

  lemma {:induction false} Pow2Bytes(n: nat)
    ensures Pow2(8 * n) == Pow256(n)
  {
    if n > 0 {
      Pow2Bytes(n - 1);
      assert Pow2(8 * n) == 256 * Pow2(8 * (n - 1)) by {
        var m := 8 * (n - 1);
        assert Pow2(m + 8) == 2 * Pow2(m + 7) == 4 * Pow2(m + 6) == 8 * Pow2(m + 5)
          == 16 * Pow2(m + 4) == 32 * Pow2(m + 3) == 64 * Pow2(m + 2) == 128 * Pow2(m + 1) == 256 * Pow2(m);
      }
    }
  }

  /** The unsigned value of `s` read least significant byte first. */
  function LeValue(s: seq<byte>): (r: nat)
    ensures r < Pow256(|s|)
  {
    if |s| == 0 then 0 else s[0] + 256 * LeValue(s[1..])
  }

  /** The `n` low-order bytes of `v`, least significant first. */
  function LeBytes(v: nat, n: nat): (r: seq<byte>)
    ensures |r| == n
  {
    if n == 0 then [] else [v % 256] + LeBytes(v / 256, n - 1)
  }

  /** The unsigned value of `s` read most significant byte first. */
  function BeValue(s: seq<byte>): (r: nat)
    ensures r < Pow256(|s|)
  {
    if |s| == 0 then 0 else BeValue(s[..|s| - 1]) * 256 + s[|s| - 1]
  }

  /** The `n` low-order bytes of `v`, most significant first. */
  function BeBytes(v: nat, n: nat): seq<byte>
  {
    Reverse(LeBytes(v, n))
  }

  function Reverse<T>(s: seq<T>): (r: seq<T>)
    ensures |r| == |s|
    ensures forall i :: 0 <= i < |s| ==> r[i] == s[|s| - 1 - i]
  {
    if |s| == 0 then [] else Reverse(s[1..]) + [s[0]]
  }

  lemma ReverseReverse<T>(s: seq<T>)
    ensures Reverse(Reverse(s)) == s
  {
  }

  /** Writing then reading an n-byte integer keeps exactly its value modulo 256^n. */
  lemma {:induction false} LeValueOfBytes(v: nat, n: nat)
    ensures LeValue(LeBytes(v, n)) == v % Pow256(n)
  {
    if n > 0 {
      LeValueOfBytes(v / 256, n - 1);
      var r := LeBytes(v, n);
      assert r[1..] == LeBytes(v / 256, n - 1);
      DivModStep(v, Pow256(n - 1));
    }
  }

  lemma DivModStep(v: nat, p: nat)
    requires p >= 1
    ensures v % (256 * p) == v % 256 + 256 * ((v / 256) % p)
  {
    var q := v / 256;
    var r := v % 256;
    assert v == 256 * q + r;
    var q2 := q / p;
    var r2 := q % p;
    assert q == p * q2 + r2;
    assert v == (256 * p) * q2 + (256 * r2 + r);
    assert 0 <= 256 * r2 + r < 256 * p;
    ModUnique(v, 256 * p, q2, 256 * r2 + r);
  }

  lemma ModUnique(v: int, d: int, q: int, r: int)
    requires d > 0 && 0 <= r < d && v == d * q + r
    ensures v % d == r && v / d == q
  {
    var q0, r0 := v / d, v % d;
    assert d * (q0 - q) == r - r0;
    if q0 > q {
      MulAtLeast(d, q0 - q);
    } else if q0 < q {
      MulAtLeast(d, q - q0);
    }
  }

  lemma MulAtLeast(d: int, k: int)
    requires d > 0 && k >= 1
    ensures d * k >= d
  {
  }

  /** Reading then writing back an n-byte integer gives the same bytes. */
  lemma {:induction false} BytesOfLeValue(s: seq<byte>)
    ensures LeBytes(LeValue(s), |s|) == s
  {
    if |s| > 0 {
      var v := LeValue(s);
      assert v % 256 == s[0] && v / 256 == LeValue(s[1..]) by {
        ModUnique(v, 256, LeValue(s[1..]), s[0]);
      }
      BytesOfLeValue(s[1..]);
    }
  }

  lemma LeValueInjective(s: seq<byte>, t: seq<byte>)
    requires |s| == |t| && LeValue(s) == LeValue(t)
    ensures s == t
  {
    BytesOfLeValue(s);
    BytesOfLeValue(t);
  }

  /** Reading most significant byte first is reading the reversed bytes least significant first. */
  lemma {:induction false} BeValueIsReversedLe(s: seq<byte>)
    ensures BeValue(s) == LeValue(Reverse(s))
  {
    if |s| > 0 {
      var init := s[..|s| - 1];
      BeValueIsReversedLe(init);
      assert Reverse(s)[1..] == Reverse(init);
    }
  }

  lemma BeValueOfBytes(v: nat, n: nat)
    ensures BeValue(BeBytes(v, n)) == v % Pow256(n)
  {
    BeValueIsReversedLe(BeBytes(v, n));
    ReverseReverse(LeBytes(v, n));
    LeValueOfBytes(v, n);
  }

  lemma BytesOfBeValue(s: seq<byte>)
    ensures BeBytes(BeValue(s), |s|) == s
  {
    BeValueIsReversedLe(s);
    BytesOfLeValue(Reverse(s));
    ReverseReverse(s);
  }

  /** Accumulating one more byte below a value reduced modulo `m` is the same as reducing afterwards. */
  lemma ShiftInMod(a: nat, b: nat, m: nat)
    requires m >= 1
    ensures ((a % m) * 256 + b) % m == (a * 256 + b) % m
  {
    var q, r := a / m, a % m;
    assert a == m * q + r;
    Distribute256(m, q, r);
    ModAddMultiple(r * 256 + b, q * 256, m);
  }

  lemma Distribute256(m: nat, q: nat, r: nat)
    ensures (m * q + r) * 256 == r * 256 + m * (q * 256)
  {
  }

  lemma ModAddMultiple(x: nat, k: nat, m: nat)
    requires m >= 1
    ensures (x + m * k) % m == x % m
  {
    var q, r := x / m, x % m;
    assert x + m * k == m * (q + k) + r;
    ModUnique(x + m * k, m, q + k, r);
  }
}
