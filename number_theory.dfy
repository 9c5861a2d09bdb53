/** Integer facts the models rely on: divisibility and remainders in terms of Dafny's
    Euclidean `%`, powers, and the greatest common divisor with its two defining properties. */
module NumberTheory {

  function Abs(x: int): nat
  {
    if x < 0 then -x else x
  }

  /** A multiple of b leaves no remainder. */
  lemma MultipleMod(q: int, b: int)
    requires b != 0
    ensures (b * q) % b == 0
  {
    var r := (b * q) % b;
    var d := (b * q) / b;
    assert b * q == b * d + r;
    assert b * (q - d) == r;
    if q - d > 0 {
      assert Abs(b * (q - d)) >= Abs(b) by { MulAtLeast(b, q - d); }
    } else if q - d < 0 {
      assert Abs(b * (q - d)) >= Abs(b) by { MulAtLeast(b, q - d); }
    }
  }

  /** A non-zero multiple of b is at least |b| in magnitude. */
  lemma MulAtLeast(b: int, k: int)
    requires k != 0
    ensures Abs(b * k) >= Abs(b)
  {
    AbsMul(b, k);
    NatMulAtLeast(Abs(b), Abs(k));
  }

  lemma AbsMul(b: int, k: int)
    ensures Abs(b * k) == Abs(b) * Abs(k)
  {
    if b < 0 && k < 0 {
      assert b * k == (-b) * (-k);
    } else if b < 0 {
      assert b * k == -((-b) * k);
    } else if k < 0 {
      assert b * k == -(b * (-k));
    }
  }

  lemma {:induction false} NatMulAtLeast(b: nat, k: nat)
    requires k >= 1
    ensures b * k >= b
  {
    if k > 1 {
      NatMulAtLeast(b, k - 1);
      assert b * k == b * (k - 1) + b;
    }
  }

  /** Dividing a natural by a positive number gives a natural. */
  lemma DivNonNegative(x: int, y: int)
    requires x >= 0 && y > 0
    ensures x / y >= 0
  {
  }

  /** Two values closer than |b| that differ by a multiple of b are equal; this is what makes
      each remainder convention below determine its result uniquely. */
  lemma CongruentWithinBound(x: int, y: int, b: int)
    requires b != 0
    requires (x - y) % b == 0
    requires Abs(x - y) < Abs(b)
    ensures x == y
  {
    var d := (x - y) / b;
    assert x - y == b * d;
    if d != 0 {
      MulAtLeast(b, d);
    }
  }

  /** Adding or subtracting the divisor keeps a value congruent to a. */
  lemma ShiftByDivisor(a: int, m: int, b: int, e: int)
    requires b != 0
    requires (a - m) % b == 0
    requires e == m || e == m + b || e == m - b
    ensures (a - e) % b == 0
  {
    var k := (a - m) / b;
    assert a - m == b * k;
    if e == m + b {
      assert a - e == b * (k - 1);
      MultipleMod(k - 1, b);
    } else if e == m - b {
      assert a - e == b * (k + 1);
      MultipleMod(k + 1, b);
    }
  }

  /** Dafny's own `%` is the one value in [0, |b|) congruent to a. */
  lemma DafnyModUnique(a: int, b: int, m: int)
    requires b != 0
    requires 0 <= m < Abs(b)
    requires (a - m) % b == 0
    ensures m == a % b
  {
    var r := a % b;
    assert a == b * (a / b) + r;
    var k := (a - m) / b;
    assert a - m == b * k;
    assert m - r == b * (a / b - k);
    MultipleMod(a / b - k, b);
    CongruentWithinBound(m, r, b);
  }

  /** Adding a multiple of n does not change the remainder. */
  lemma ModPlusMultiple(x: int, k: int, n: int)
    requires n != 0
    ensures (x + n * k) % n == x % n
  {
    var q, r := x / n, x % n;
    assert x + n * k - r == n * (q + k);
    MultipleMod(q + k, n);
    DafnyModUnique(x + n * k, n, r);
  }

  /** The remainder of a product depends only on the remainders of its factors. */
  lemma ModProduct(u: int, v: int, n: int)
    requires n != 0
    ensures (u * v) % n == ((u % n) * (v % n)) % n
  {
    var qu, ru, qv, rv := u / n, u % n, v / n, v % n;
    calc {
      u * v;
      (n * qu + ru) * (n * qv + rv);
      ru * rv + n * (qu * (n * qv + rv) + ru * qv);
    }
    ModPlusMultiple(ru * rv, qu * (n * qv + rv) + ru * qv, n);
  }

  /** Multiples of n are closed under addition ... */
  lemma ModSumZero(u: int, v: int, n: int)
    requires n != 0
    requires u % n == 0 && v % n == 0
    ensures (u + v) % n == 0
  {
    var qu, qv := u / n, v / n;
    assert u == n * qu && v == n * qv;
    assert u + v == n * (qu + qv);
    MultipleMod(qu + qv, n);
  }

  /** ... and under multiplication by any integer. */
  lemma ModScaleZero(u: int, k: int, n: int)
    requires n != 0
    requires u % n == 0
    ensures (u * k) % n == 0
  {
    var q := u / n;
    assert u == n * q;
    assert u * k == n * (q * k);
    MultipleMod(q * k, n);
  }

  /** Two values congruent to a modulo b and closer than |b| to each other are equal. */
  lemma SameResidue(a: int, x: int, y: int, b: int)
    requires b != 0
    requires (a - x) % b == 0 && (a - y) % b == 0
    requires Abs(x - y) < Abs(b)
    ensures x == y
  {
    ModScaleZero(a - x, -1, b);
    ModSumZero(a - y, (a - x) * -1, b);
    assert (a - y) + (a - x) * -1 == x - y;
    CongruentWithinBound(x, y, b);
  }

  /** A value in [-n, 2n) is at most one step of n away from its remainder. */
  lemma ModNear(x: int, n: int)
    requires n > 0
    requires -n <= x < 2 * n
    ensures x % n == if x < 0 then x + n else if x < n then x else x - n
  {
    var e := if x < 0 then x + n else if x < n then x else x - n;
    assert x - e == n * (if x < 0 then -1 else if x < n then 0 else 1);
    MultipleMod(if x < 0 then -1 else if x < n then 0 else 1, n);
    DafnyModUnique(x, n, e);
  }

  function Pow(b: int, e: nat): int
  {
    if e == 0 then 1 else b * Pow(b, e - 1)
  }

  lemma {:induction false} PowAdd(b: int, i: nat, j: nat)
    ensures Pow(b, i + j) == Pow(b, i) * Pow(b, j)
  {
    if i > 0 {
      PowAdd(b, i - 1, j);
      assert Pow(b, i + j) == b * Pow(b, i - 1 + j);
    }
  }

  /** Squaring the base halves the exponent: b^(2k) == (b*b)^k. */
  lemma {:induction false} PowSquare(b: int, k: nat)
    ensures Pow(b * b, k) == Pow(b, 2 * k)
  {
    if k > 0 {
      PowSquare(b, k - 1);
      calc {
        Pow(b, 2 * k);
        b * Pow(b, 2 * k - 1);
        b * (b * Pow(b, 2 * (k - 1)));
        (b * b) * Pow(b * b, k - 1);
      }
    }
  }

  /** The remainder of a power depends only on the remainder of its base. */
  lemma {:induction false} PowModBase(b: int, e: nat, n: int)
    requires n != 0
    ensures Pow(b % n, e) % n == Pow(b, e) % n
  {
    if e > 0 {
      var r := b % n;
      var p, q := Pow(r, e - 1), Pow(b, e - 1);
      PowModBase(b, e - 1, n);
      assert p % n == q % n;
      assert r % n == r by { MultipleMod(0, n); DafnyModUnique(r, n, r); }
      var left := ((r % n) * (p % n)) % n;
      var right := ((b % n) * (q % n)) % n;
      assert left == right;
      ModProduct(r, p, n);
      ModProduct(b, q, n);
      assert Pow(r, e) == r * p;
      assert Pow(b, e) == b * q;
    }
  }

  /** d divides x. Zero divides only zero. */
  predicate Divides(d: int, x: int)
  {
    if d == 0 then x == 0 else x % d == 0
  }

  /** A common divisor of x and y divides x * k + y. */
  lemma DividesCombination(d: int, x: int, y: int, k: int)
    requires Divides(d, x) && Divides(d, y)
    ensures Divides(d, x * k + y)
  {
    if d != 0 {
      var qx, qy := x / d, y / d;
      assert x == d * qx && y == d * qy;
      assert x * k + y == d * (qx * k + qy);
      MultipleMod(qx * k + qy, d);
    }
  }

  /** The greatest common divisor, by Euclid's recurrence. */
  function Gcd(a: nat, b: nat): nat
    decreases b
  {
    if b == 0 then a else Gcd(b, a % b)
  }

  /** Gcd(a, b) is a common divisor of a and b ... */
  lemma {:induction false} GcdDivides(a: nat, b: nat)
    ensures Divides(Gcd(a, b), a) && Divides(Gcd(a, b), b)
    decreases b
  {
    if b == 0 {
      if a != 0 { MultipleMod(1, a); }
    } else {
      var g := Gcd(b, a % b);
      GcdDivides(b, a % b);
      assert a == b * (a / b) + a % b;
      DividesCombination(g, b, a % b, a / b);
    }
  }

  /** ... and every common divisor of a and b divides it. */
  lemma {:induction false} GcdGreatest(a: nat, b: nat, d: int)
    requires Divides(d, a) && Divides(d, b)
    ensures Divides(d, Gcd(a, b))
    decreases b
  {
    if b > 0 {
      assert a % b == a + b * -(a / b);
      DividesCombination(d, b, a, -(a / b));
      GcdGreatest(b, a % b, d);
    }
  }

  /** The gcd of two naturals is at most the larger of them. */
  lemma {:induction false} GcdAtMostLarger(a: nat, b: nat)
    ensures Gcd(a, b) <= if a < b then b else a
    decreases b
  {
    if b > 0 {
      GcdAtMostLarger(b, a % b);
    }
  }
}
