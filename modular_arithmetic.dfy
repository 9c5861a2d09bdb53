/** Arithmetic in Z_n on `uint64_t`, after "Matters Computational", section 39.1: every
    operand is already reduced (an element of [0, n)), so the plain remainder is the Euclidean
    one, and additions are arranged so that no intermediate value leaves [0, 2^64).
 */
module ModularArithmetic {
  import opened NumberTheory
  import opened CppInt
  import opened Fermat

  /** mod, corrected: the Euclidean residue of any `int64_t` a modulo n > 0. This is what the
      source intends; see ModAsWritten for the expression it evaluates. */
  function Mod(a: int64, n: int64): (r: uint64)
    requires n > 0
    ensures r < n
    ensures (a - r) % n == 0
    ensures r == a % n
  {
    var m := TruncRem(a, n);
    TruncRemCongruent(a, n);
    var e := if m < 0 then m + n else m;
    ShiftByDivisor(a, m, n, e);
    DafnyModUnique(a, n, e);
    e
  }

  /** mod as written: `((a % n) + n) % n` in `int64_t`, converted to `uint64_t`. The inner sum
      exceeds INT64_MAX for some a once n > 2^62, which C++ leaves undefined; this models the
      two's-complement wrap-around of common hardware. Whenever the sum does not overflow the
      result is the Euclidean residue. */
  function ModAsWritten(a: int64, n: int64): (r: uint64)
    requires n > 0
    ensures TruncRem(a, n) + n <= INT64_MAX ==> r == Mod(a, n)
  {
    ShiftedRemainder(a, n);
    ToUint64(TruncRem(Wrap64(TruncRem(a, n) + n), n))
  }

  /** Up to n == 2^62 the inner sum stays in range and the expression as written is the
      Euclidean residue. */
  lemma ModAsWrittenAgrees(a: int64, n: int64)
    requires 0 < n <= 0x4000_0000_0000_0000
    ensures ModAsWritten(a, n) == Mod(a, n)
  {
    assert TruncRem(a, n) + n < 2 * n;
  }

  /** For a = 2^62 and n = 2^62 + 1 the inner sum is 2^63 + 1, beyond INT64_MAX; after
      wrap-around the result is 2^64 - 2^62 + 2, not even below n, although the residue of a
      is a itself. */
  lemma ModAsWrittenOverflows()
    ensures TruncRem(0x4000_0000_0000_0000, 0x4000_0000_0000_0001) + 0x4000_0000_0000_0001 > INT64_MAX
    ensures ModAsWritten(0x4000_0000_0000_0000, 0x4000_0000_0000_0001) == 0xc000_0000_0000_0002
    ensures Mod(0x4000_0000_0000_0000, 0x4000_0000_0000_0001) == 0x4000_0000_0000_0000
  {
    var a, n := 0x4000_0000_0000_0000, 0x4000_0000_0000_0001;
    assert TruncRem(a, n) == a;
    var w := Wrap64(a + n);
    assert w == a + n - TWO_TO_THE_64;
    assert Abs(w) == 1 * n + 0x3fff_ffff_ffff_fffe;
    assert Abs(w) % n == 0x3fff_ffff_ffff_fffe;
    assert TruncRem(w, n) == -0x3fff_ffff_ffff_fffe;
  }

  /** mod_pos: the remainder of a non-negative a, C++'s `%` on `uint64_t`. */
  function ModPos(a: uint64, n: uint64): (r: uint64)
    requires n > 0
    ensures r < n
    ensures r == a % n
  {
    TruncRem(a, n)
  }

  /** mod_add: (a + b) % n, without forming a + b, which may not fit in 64 bits. c and each
      result are typed `uint64`; `n - c` is b itself, so nothing wraps. */
  function ModAdd(a: uint64, b: uint64, n: uint64): (r: uint64)
    requires a < n && b < n
    ensures r == (a + b) % n
  {
    ModNear(a + b, n);
    if b == 0 then a
    else
      var c: uint64 := n - b;
      if a >= c then a - c else n - c + a
  }

  /** mod_subtract: the Euclidean residue of a - b. */
  function ModSubtract(a: uint64, b: uint64, n: uint64): (r: uint64)
    requires a < n && b < n
    ensures r == (a - b) % n
  {
    ModNear(a - b, n);
    if a >= b then a - b else n - b + a
  }

  /** mod_increment: (a + 1) % n. */
  function ModIncrement(a: uint64, n: uint64): (r: uint64)
    requires a < n
    ensures r == (a + 1) % n
  {
    ModNear(a + 1, n);
    var s: uint64 := a + 1;
    if s == n then 0 else s
  }

  /** mod_decrement: the Euclidean residue of a - 1; 0 wraps around to n - 1. */
  function ModDecrement(a: uint64, n: uint64): (r: uint64)
    requires a < n
    ensures r == (a - 1) % n
    ensures a == 0 ==> r == n - 1
  {
    ModNear(a - 1, n);
    if a == 0 then n - 1 else a - 1
  }

  /** mod_additive_inverse: the r in Z_n with a + r == 0 in Z_n. */
  function ModAdditiveInverse(a: uint64, n: uint64): (r: uint64)
    requires a < n
    ensures r < n
    ensures (a + r) % n == 0
  {
    if a == 0 then 0
    else
      assert a + (n - a) == n * 1;
      MultipleMod(1, n);
      n - a
  }

  /** The promise of the source's comment: `mod_add(a, mod_additive_inverse(a, n), n) == 0`. */
  lemma AddInverseIsZero(a: uint64, n: uint64)
    requires a < n
    ensures ModAdd(a, ModAdditiveInverse(a, n), n) == 0
  {
  }

  /** Subtracting b is adding the additive inverse of b. */
  lemma SubtractIsAddInverse(a: uint64, b: uint64, n: uint64)
    requires a < n && b < n
    ensures ModSubtract(a, b, n) == ModAdd(a, ModAdditiveInverse(b, n), n)
  {
    var c := ModAdditiveInverse(b, n);
    var k := (b + c) / n;
    assert b + c == n * k;
    assert (a - b) == (a + c) + n * -k;
    ModPlusMultiple(a + c, -k, n);
  }

  /** Subtraction undoes addition, and decrement undoes increment. */
  lemma AddSubtractRoundTrip(a: uint64, b: uint64, n: uint64)
    requires a < n && b < n
    ensures ModSubtract(ModAdd(a, b, n), b, n) == a
    ensures ModDecrement(ModIncrement(a, n), n) == a
    ensures ModIncrement(ModDecrement(a, n), n) == a
  {
    var s := ModAdd(a, b, n);
    ModNear(a + b, n);
    ModNear(s - b, n);
    ModNear(a, n);
  }

  /** Reducing p and d before forming p + d * h does not change the result modulo n. */
  lemma ModLinear(p: int, d: int, h: int, n: int)
    requires n > 0
    ensures (p % n + (d % n) * h) % n == (p + d * h) % n
  {
    var x, y, qp, qd := p % n, d % n, p / n, d / n;
    assert p == x + n * qp;
    assert d == y + n * qd;
    assert d * h == y * h + n * (qd * h) by {
      assert d * h == (y + n * qd) * h;
    }
    assert p + d * h == (x + y * h) + n * (qp + qd * h);
    ModPlusMultiple(x + y * h, qp + qd * h, n);
  }

  /** One round of double-and-add keeps product + a * b fixed modulo n: the product gains a
      when the low bit of b is set, a doubles and b halves. */
  lemma MultiplyStep(product: int, a: int, b: nat, product': int, a': int, b': nat, n: int)
    requires n > 0
    requires product' == (product + a * (b % 2)) % n
    requires a' == (a + a) % n && b' == b / 2
    ensures (product' + a' * b') % n == (product + a * b) % n
  {
    var bit, h := b % 2, b / 2;
    ModLinear(product + a * bit, a + a, h, n);
    assert (a + a) * h + a * bit == a * b by {
      assert b == 2 * h + bit;
      assert a * b == a * (2 * h) + a * bit;
    }
  }

  /** mod_multiply: (a * b) % n by double-and-add, O(log b) calls of ModAdd, never forming
      the 128-bit product. `b & 0x1` and `b >>= 1` are written `b % 2` and `b / 2`. */
  method ModMultiply(a: uint64, b: uint64, n: uint64) returns (product: uint64)
    requires a < n && b < n
    ensures product == (a * b) % n
  {
    product := 0;
    var x: uint64, y: uint64 := a, b;
    if y > x {
      x, y := y, x;
    }
    assert x * y == a * b;
    while y != 0
      invariant x < n && y < n && product < n
      invariant (product + x * y) % n == (a * b) % n
      decreases y
    {
      ghost var product0, x0, y0 := product, x, y;
      if y % 2 == 1 {
        product := ModAdd(product, x, n);
      } else {
        ModNear(product, n);
      }
      x := ModAdd(x, x, n);
      y := y / 2;
      MultiplyStep(product0, x0, y0, product, x, y, n);
    }
    ModNear(product, n);
  }

  /** mod_sqr: (a * a) % n. */
  method ModSqr(a: uint64, n: uint64) returns (r: uint64)
    requires a < n
    ensures r == (a * a) % n
  {
    r := ModMultiply(a, a, n);
  }

  /** Splitting off the lowest bit of the exponent: z^e == z^(e % 2) * (z*z)^(e / 2). */
  lemma PowHalve(z: int, e: nat)
    ensures Pow(z, e) == (if e % 2 == 1 then z else 1) * Pow(z * z, e / 2)
  {
    PowSquare(z, e / 2);
    if e % 2 == 1 {
      PowAdd(z, 1, 2 * (e / 2));
      assert 1 + 2 * (e / 2) == e;
    } else {
      assert 2 * (e / 2) == e;
    }
  }

  /** One round of square-and-multiply keeps y * z^e fixed modulo n. */
  lemma PowerStep(y: int, z: int, e: nat, n: int)
    requires n > 0
    ensures ((if e % 2 == 1 then (y * z) % n else y) * Pow(z * z, e / 2)) % n
            == (y * Pow(z, e)) % n
  {
    var zz := Pow(z * z, e / 2);
    PowHalve(z, e);
    if e % 2 == 1 {
      ModProduct((y * z) % n, zz, n);
      ModProduct(y * z, zz, n);
      assert ((y * z) % n) % n == (y * z) % n by { ModNear((y * z) % n, n); }
      assert (y * z) * zz == y * (z * zz);
    }
  }

  /** mod_power: a^e % n by right-to-left square-and-multiply. For e == 0 it answers 1
      literally, even for n == 1. For e > 0 the first multiplication is ModMultiply(1, z, n),
      whose precondition 1 < n the source asserts, so e > 0 demands n > 1. */
  method ModPower(a: uint64, e: uint64, n: uint64) returns (y: uint64)
    requires a < n
    requires e > 0 ==> n > 1
    ensures e == 0 ==> y == 1
    ensures e > 0 ==> y == Pow(a, e) % n
  {
    if e == 0 {
      return 1;
    }
    var z: uint64 := a;
    var k: uint64 := e;
    y := 1;
    while true
      invariant 0 < k && y < n && z < n
      invariant (y * Pow(z, k)) % n == Pow(a, e) % n
      decreases k
    {
      PowerStep(y, z, k, n);
      if k % 2 == 1 {
        y := ModMultiply(y, z, n);
      }
      k := k / 2;
      if k == 0 {
        ModNear(y, n);
        break;
      }
      PowModBase(z * z, k, n);
      ModProduct(y, Pow((z * z) % n, k), n);
      ModProduct(y, Pow(z * z, k), n);
      z := ModSqr(z, n);
    }
  }

  /** mod_multiplicative_inverse: a^(n-2) % n. When n is prime and a != 0 this is the inverse
      of a, so that ModMultiply(a, r, n) == 1 (Fermat's little theorem). `n - 2` is
      `uint64_t` arithmetic: for n == 1 it wraps to 2^64 - 1, and mod_power's first call
      ModMultiply(1, 0, 1) fails its assertion 1 < n, so the source needs n > 1. */
  method ModMultiplicativeInverse(a: uint64, n: uint64) returns (r: uint64)
    requires a < n && n > 1
    ensures r == Pow(a, n - 2) % n
    ensures Prime(n) && 0 < a ==> (a * r) % n == 1
  {
    var e: uint64 := ToUint64(n - 2);
    r := ModPower(a, e, n);
    if e == 0 {
      assert Pow(a, n - 2) == 1;
      ModNear(1, n);
    }
    if Prime(n) && 0 < a {
      FermatInverse(n, a);
    }
  }

  /** One round of the extended Euclidean algorithm: the new remainder u3 - v3 * q is the C++
      remainder of u3 by v3, it has the same coefficients relation as the two it came from,
      and the gcd of the pair is unchanged. */
  lemma EuclidStep(a: int, n: int, u1: int, u2: int, u3: int, v1: int, v2: int, v3: int)
    requires v3 != 0
    requires u1 * a + u2 * n == u3 && v1 * a + v2 * n == v3
    ensures var q := TruncDiv(u3, v3);
            && u3 - v3 * q == TruncRem(u3, v3)
            && (u1 - v1 * q) * a + (u2 - v2 * q) * n == u3 - v3 * q
            && Gcd(Abs(v3), Abs(u3 - v3 * q)) == Gcd(Abs(u3), Abs(v3))
            && Abs(u3 - v3 * q) < Abs(v3)
            && (u3 >= 0 && v3 > 0 ==> u3 - v3 * q >= 0)
  {
    var q := TruncDiv(u3, v3);
    TruncDivision(u3, v3);
    assert (u1 - v1 * q) * a == u1 * a - (v1 * a) * q;
    assert (u2 - v2 * q) * n == u2 * n - (v2 * n) * q;
    assert (v1 * a + v2 * n) * q == v3 * q;
  }

  /** extended_greatest_common_divisor: Euclid's algorithm on `int64_t` with C++'s truncating
      `/`, carrying the coefficients that express each remainder in terms of a and n. The
      result u3 is returned as `uint64_t`; tu1 and tu2 are the source's reference parameters.
      For any inputs a * tu1 + n * tu2 is u3, whose magnitude is the greatest common divisor of
      |a| and |n|; for non-negative inputs it is the gcd itself. When it is 1, tu1 is an inverse
      of a modulo n. */
  method ExtendedGreatestCommonDivisor(a: int64, n: int64) returns (g: uint64, tu1: int, tu2: int)
    ensures Abs(a * tu1 + n * tu2) == Gcd(Abs(a), Abs(n))
    ensures g == ToUint64(a * tu1 + n * tu2)
    ensures a >= 0 && n >= 0 ==> a * tu1 + n * tu2 == g == Gcd(a, n)
    ensures g == 1 && Abs(n) > 1 ==> (a * tu1) % n == 1
  {
    var u1: int, u2: int, u3: int := 1, 0, a;
    var v1: int, v2: int, v3: int := 0, 1, n;
    while v3 != 0
      invariant u1 * a + u2 * n == u3
      invariant v1 * a + v2 * n == v3
      invariant Gcd(Abs(u3), Abs(v3)) == Gcd(Abs(a), Abs(n))
      invariant a >= 0 && n >= 0 ==> u3 >= 0 && v3 >= 0
      decreases Abs(v3)
    {
      EuclidStep(a, n, u1, u2, u3, v1, v2, v3);
      var q := TruncDiv(u3, v3);
      var t1 := u1 - v1 * q;
      u1 := v1;
      v1 := t1;
      var t3 := u3 - v3 * q;
      u3 := v3;
      v3 := t3;
      var t2 := u2 - v2 * q;
      u2 := v2;
      v2 := t2;
    }
    tu1 := u1;
    tu2 := u2;
    g := ToUint64(u3);
    GcdAtMostLarger(Abs(a), Abs(n));
    if g == 1 && Abs(n) > 1 {
      assert u3 == 1;
      var x := a * tu1;
      assert x + n * tu2 == 1;
      ModPlusMultiple(x, tu2, n);
      MultipleMod(0, n);
      DafnyModUnique(1, n, 1);
    }
  }
}
