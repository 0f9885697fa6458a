/**
 * Integer power of `ktu/math.hpp`: `pow(base, exponent)` by repeated
 * squaring, for an integral `T` of `width` bits and a `uint8_t` exponent.
 * Values of `T` are their unsigned representations modulo 2^width, so the
 * multiplications wrap.
 */
module IntMath {
  import opened Bytes

  /** b^e over the naturals. */
  function Power(b: nat, e: nat): nat
  {
    if e == 0 then 1 else b * Power(b, e - 1)
  }

  lemma {:induction false} PowerAdd(b: nat, x: nat, y: nat)
    ensures Power(b, x + y) == Power(b, x) * Power(b, y)
  {
    if x > 0 {
      PowerAdd(b, x - 1, y);
      assert b * (Power(b, x - 1) * Power(b, y)) == (b * Power(b, x - 1)) * Power(b, y);
    }
  }

  /** Squaring the base halves the exponent: b^(2k) == (b*b)^k. */
  lemma {:induction false} PowerSquare(b: nat, k: nat)
    ensures Power(b, 2 * k) == Power(b * b, k)
  {
    if k > 0 {
      PowerSquare(b, k - 1);
      var p := Power(b, 2 * k - 2);
      assert Power(b, 2 * k) == b * Power(b, 2 * k - 1);
      assert Power(b, 2 * k - 1) == b * p;
      MulAssoc(b, b, p);
    }
  }

  lemma MulAssoc(a: nat, b: nat, c: nat)
    ensures a * (b * c) == (a * b) * c
  {
  }

  lemma MulDistR(a: nat, b: nat, c: nat)
    ensures (a + b) * c == a * c + b * c
  {
  }

  lemma MulComm(a: nat, b: nat)
    ensures a * b == b * a
  {
  }

  /** Reducing the right factor modulo m keeps the product modulo m. */
  lemma MulModRight(x: nat, y: nat, m: nat)
    requires m >= 1
    ensures (x * (y % m)) % m == (x * y) % m
  {
    var qy, ry := y / m, y % m;
    assert y == m * qy + ry;
    assert x * y == x * (m * qy) + x * ry by {
      MulDistL(x, m * qy, ry);
    }
    assert x * (m * qy) == m * (x * qy) by {
      MulAssoc(x, m, qy);
      MulComm(x, m);
      MulAssoc(m, x, qy);
    }
    ModAddMultiple(x * ry, x * qy, m);
  }

  lemma MulDistL(a: nat, b: nat, c: nat)
    ensures a * (b + c) == a * b + a * c
  {
  }

  lemma MulMod(x: nat, y: nat, m: nat)
    requires m >= 1
    ensures ((x % m) * (y % m)) % m == (x * y) % m
  {
    MulModRight(x % m, y, m);
    MulModRight(y, x, m);
    MulComm(x % m, y);
    MulComm(x, y);
  }

  lemma ModMod(x: nat, m: nat)
    requires m >= 1
    ensures (x % m) % m == x % m
  {
  }

  /**
   * `pow`: result starts at 1; each pass multiplies it by `base` when the
   * low exponent bit is set, shifts the exponent right, stops when it is
   * zero and otherwise squares `base`. Returns the value and the number of
   * passes the loop made.
   */
  method Pow(base0: nat, exponent0: nat, width: nat) returns (result: nat, passes: nat)
    requires width >= 1 && base0 < Pow2(width) && exponent0 < 256
    ensures result == Power(base0, exponent0) % Pow2(width)
    ensures 1 <= passes <= 8
  {
    var m := Pow2(width);
    var base: nat := base0;
    var exponent: nat := exponent0;
    result := 1;
    passes := 0;
    assert m >= 2 by {
      assert Pow2(width) == 2 * Pow2(width - 1);
    }
    assert Pow2(8) == 256 by {
      Pow2Bytes(1);
    }
    assert result * Power(base, exponent) == Power(base0, exponent0);
    while true
      invariant result < m && base < m && passes <= 8
      invariant (result * Power(base, exponent)) % m == Power(base0, exponent0) % m
      invariant exponent < Pow2(8 - passes)
      invariant passes > 0 ==> exponent > 0
      decreases exponent
    {
      if passes == 8 {
        assert false;
      }
      var before := result;
      if exponent % 2 == 1 {
        result := (result * base) % m;
      }
      HalveStep(before, base, exponent, m, result);
      exponent := exponent / 2;
      passes := passes + 1;
      assert exponent < Pow2(8 - passes) by {
        assert Pow2(8 - passes + 1) == 2 * Pow2(8 - passes);
      }
      if exponent == 0 {
        FinalStep(result, base, m);
        break;
      }
      SquareReduce(result, base * base, exponent, m);
      base := (base * base) % m;
    }
  }

  /**
   * One pass: after taking the low exponent bit into the result, the
   * remaining product is the result times the squared base to the halved
   * exponent.
   */
  lemma HalveStep(result: nat, base: nat, e: nat, m: nat, result2: nat)
    requires m >= 1 && result < m
    requires result2 == if e % 2 == 1 then (result * base) % m else result
    ensures (result2 * Power(base * base, e / 2)) % m == (result * Power(base, e)) % m
  {
    var k := e / 2;
    PowerSquare(base, k);
    if e % 2 == 1 {
      OddStep(result, base, k, m);
      assert e == 2 * k + 1;
    } else {
      assert e == 2 * k;
    }
  }

  lemma OddStep(result: nat, base: nat, k: nat, m: nat)
    requires m >= 1
    ensures ((result * base) % m * Power(base, 2 * k)) % m == (result * Power(base, 2 * k + 1)) % m
  {
    var p := Power(base, 2 * k);
    assert Power(base, 2 * k + 1) == base * p;
    MulComm(result * base, p);
    MulModRight(p, result * base, m);
    MulComm((result * base) % m, p);
    MulAssoc(result, base, p);
  }

  /** With the exponent exhausted the product is the result itself. */
  lemma FinalStep(result: nat, base: nat, m: nat)
    requires m >= 1 && result < m
    ensures (result * Power(base * base, 0)) % m == result
  {
  }

  /** Reducing the squared base modulo m keeps the product modulo m. */
  lemma SquareReduce(result: nat, bb: nat, e: nat, m: nat)
    requires m >= 1 && result < m
    ensures (result * Power(bb % m, e)) % m == (result * Power(bb, e)) % m
  {
    PowMod(bb, e, m);
    MulMod(result, Power(bb % m, e), m);
    MulMod(result, Power(bb, e), m);
  }

  /** Reducing the base modulo m does not change the power modulo m. */
  lemma {:induction false} PowMod(b: nat, e: nat, m: nat)
    requires m >= 1
    ensures Power(b % m, e) % m == Power(b, e) % m
  {
    if e > 0 {
      PowMod(b, e - 1, m);
      ModMod(b, m);
      MulMod(b % m, Power(b % m, e - 1), m);
      MulMod(b, Power(b, e - 1), m);
    }
  }

  /** pow(b, 0) == 1 and pow(b, 1) == b. */
  lemma PowSmallExponents(b: nat, width: nat)
    requires width >= 1 && b < Pow2(width)
    ensures Power(b, 0) % Pow2(width) == 1
    ensures Power(b, 1) % Pow2(width) == b
  {
    var m := Pow2(width);
    assert m == 2 * Pow2(width - 1);
    assert Power(b, 1) == b * Power(b, 0) == b;
    ModUnique(b, m, 0, b);
    ModUnique(1, m, 0, 1);
  }
}
