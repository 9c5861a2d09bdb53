/** Fermat's little theorem, the fact behind mod_multiplicative_inverse: for a prime p and
    0 < a < p, a^(p-1) leaves remainder 1, so a^(p-2) is the inverse of a modulo p.

    The proof goes through Euclid's lemma (a prime dividing a product divides a factor), the
    binomial theorem, the divisibility of the inner binomial coefficients C(p, k) by p, and
    then `(x + 1)^p == x^p + 1 (mod p)` by induction on x.
 */
module Fermat {
  import opened NumberTheory

  /** p is a prime: greater than 1, and no d strictly between 1 and p divides it. */
  ghost predicate Prime(p: int)
  {
    p > 1 && forall d :: 1 < d < p ==> !Divides(d, p)
  }

  /** Euclid's lemma, by descent on the factor a: a prime that divides a * b, with 0 < a < p,
      divides b. For a > 1 the remainder r of p by a lies strictly between 0 and a, and p
      divides r * b, since r * b == p * b - (p / a) * (a * b). */
  lemma {:induction false} EuclidLemma(p: int, a: int, b: int)
    requires Prime(p)
    requires 0 < a < p
    requires (a * b) % p == 0
    ensures b % p == 0
    decreases a
  {
    if a > 1 {
      var q, r := p / a, p % a;
      assert !Divides(a, p);
      assert 0 < r < a;
      var m := (a * b) / p;
      assert a * b == p * m;
      assert p == a * q + r;
      assert r * b == p * b - q * (a * b);
      assert r * b == p * (b - q * m);
      MultipleMod(b - q * m, p);
      EuclidLemma(p, r, b);
    }
  }

  /** The binomial coefficient C(n, k), by Pascal's rule. */
  function Binomial(n: nat, k: nat): nat
  {
    if k == 0 then 1
    else if n == 0 then 0
    else Binomial(n - 1, k - 1) + Binomial(n - 1, k)
  }

  /** C(n, k) == 0 for k > n. */
  lemma {:induction false} BinomialBeyond(n: nat, k: nat)
    requires k > n
    ensures Binomial(n, k) == 0
  {
    if n > 0 {
      BinomialBeyond(n - 1, k - 1);
      BinomialBeyond(n - 1, k);
    }
  }

  /** The absorption identity k * C(n, k) == n * C(n - 1, k - 1). */
  lemma {:induction false} Absorption(n: nat, k: nat)
    requires 0 < k && 0 < n
    ensures k * Binomial(n, k) == n * Binomial(n - 1, k - 1)
  {
    var b1, b2 := Binomial(n - 1, k - 1), Binomial(n - 1, k);
    assert Binomial(n, k) == b1 + b2;
    if n == 1 {
      if k > 1 {
        BinomialBeyond(0, k - 1);
        BinomialBeyond(0, k);
      }
    } else {
      var c2 := Binomial(n - 2, k - 1);
      Absorption(n - 1, k);
      var c1 := if k == 1 then 0 else Binomial(n - 2, k - 2);
      if k > 1 {
        Absorption(n - 1, k - 1);
      }
      AbsorptionAlgebra(n, k, b1, b2, c1, c2);
    }
  }

  /** The arithmetic of one step of Absorption. */
  lemma AbsorptionAlgebra(n: int, k: int, b1: int, b2: int, c1: int, c2: int)
    requires k * b2 == (n - 1) * c2
    requires (k - 1) * b1 == (n - 1) * c1
    requires b1 == c1 + c2
    ensures k * (b1 + b2) == n * b1
  {
    calc {
      k * (b1 + b2);
      (k - 1) * b1 + b1 + k * b2;
      (n - 1) * c1 + b1 + (n - 1) * c2;
      (n - 1) * (c1 + c2) + b1;
      n * b1;
    }
  }

  /** p divides C(p, k) for 0 < k < p. */
  lemma PrimeDividesBinomial(p: int, k: nat)
    requires Prime(p)
    requires 0 < k < p
    ensures Binomial(p, k) % p == 0
  {
    Absorption(p, k);
    MultipleMod(Binomial(p - 1, k - 1), p);
    EuclidLemma(p, k, Binomial(p, k));
  }

  /** The first k terms of the binomial expansion of (x + 1)^n: the sum of C(n, j) * x^j
      over j < k. */
  function BinomialSum(n: nat, x: int, k: nat): int
  {
    if k == 0 then 0 else BinomialSum(n, x, k - 1) + Binomial(n, k - 1) * Pow(x, k - 1)
  }

  /** Pascal's rule, summed: the partial sums for n + 1 come from those for n. */
  lemma {:induction false} BinomialSumStep(n: nat, x: int, k: nat)
    ensures BinomialSum(n + 1, x, k + 1) == x * BinomialSum(n, x, k) + BinomialSum(n, x, k + 1)
  {
    if k > 0 {
      BinomialSumStep(n, x, k - 1);
      var s, t := BinomialSum(n, x, k - 1), BinomialSum(n, x, k);
      var bl, bk := Binomial(n, k - 1), Binomial(n, k);
      var xl, xk := Pow(x, k - 1), Pow(x, k);
      assert BinomialSum(n + 1, x, k + 1) == x * s + t + (bl + bk) * xk;
      assert BinomialSum(n, x, k + 1) == t + bk * xk;
      SumStepAlgebra(x, s, t, bl, bk, xl, xk);
    }
  }

  /** The arithmetic of one step of BinomialSumStep. */
  lemma SumStepAlgebra(x: int, s: int, t: int, bl: int, bk: int, xl: int, xk: int)
    requires xk == x * xl
    requires t == s + bl * xl
    ensures x * s + (bl + bk) * xk == x * t + bk * xk
  {
    calc {
      x * t;
      x * s + x * (bl * xl);
      x * s + bl * xk;
    }
  }

  /** The binomial theorem for (x + 1)^n. */
  lemma {:induction false} BinomialTheorem(n: nat, x: int)
    ensures Pow(x + 1, n) == BinomialSum(n, x, n + 1)
  {
    if n > 0 {
      BinomialTheorem(n - 1, x);
      var s := BinomialSum(n - 1, x, n);
      BinomialSumStep(n - 1, x, n);
      BinomialBeyond(n - 1, n);
      assert BinomialSum(n - 1, x, n + 1) == s;
      assert Pow(x + 1, n) == (x + 1) * s == x * s + s;
    }
  }

  /** Modulo a prime p, the first k terms of the expansion of (x + 1)^p sum to 1, for
      1 <= k <= p: every inner term has the factor C(p, j) that p divides. */
  lemma {:induction false} InnerTermsVanish(p: int, x: int, k: nat)
    requires Prime(p)
    requires 1 <= k <= p
    ensures (BinomialSum(p, x, k) - 1) % p == 0
  {
    if k == 1 {
      MultipleMod(0, p);
    } else {
      InnerTermsVanish(p, x, k - 1);
      var s := BinomialSum(p, x, k - 1);
      var c := Binomial(p, k - 1);
      PrimeDividesBinomial(p, k - 1);
      ModScaleZero(c, Pow(x, k - 1), p);
      assert BinomialSum(p, x, k) - 1 == (s - 1) + c * Pow(x, k - 1);
      ModSumZero(s - 1, c * Pow(x, k - 1), p);
    }
  }

  /** The "freshman's dream" modulo a prime: (x + 1)^p == x^p + 1. */
  lemma FreshmansDream(p: int, x: int)
    requires Prime(p)
    ensures (Pow(x + 1, p) - Pow(x, p) - 1) % p == 0
  {
    BinomialTheorem(p, x);
    InnerTermsVanish(p, x, p);
    assert Binomial(p, p) == 1 by {
      Absorption(p, p);
      BinomialOne(p - 1);
    }
    assert BinomialSum(p, x, p + 1) == BinomialSum(p, x, p) + Pow(x, p);
  }

  /** C(n, n) == 1. */
  lemma {:induction false} BinomialOne(n: nat)
    ensures Binomial(n, n) == 1
  {
    if n > 0 {
      BinomialOne(n - 1);
      BinomialBeyond(n - 1, n);
    }
  }

  /** p divides x^p - x for every natural x. */
  lemma {:induction false} PowerMinusBase(p: int, x: nat)
    requires Prime(p)
    ensures (Pow(x, p) - x) % p == 0
  {
    if x == 0 {
      PowZero(p);
      assert Pow(x, p) - x == p * 0;
      MultipleMod(0, p);
    } else {
      var y: nat := x - 1;
      PowerMinusBase(p, y);
      var a, b := Pow(y, p), Pow(y + 1, p);
      assert (a - y) % p == 0;
      FreshmansDream(p, y);
      assert (b - a - 1) % p == 0;
      CongruenceStep(a, b, x, p);
    }
  }

  /** From p | y - (x - 1) and p | z - y - 1 follows p | z - x. */
  lemma CongruenceStep(y: int, z: int, x: int, p: int)
    requires p != 0
    requires (y - (x - 1)) % p == 0 && (z - y - 1) % p == 0
    ensures (z - x) % p == 0
  {
    ModSumZero(y - (x - 1), z - y - 1, p);
  }

  lemma {:induction false} PowZero(e: nat)
    requires e > 0
    ensures Pow(0, e) == 0
  {
  }

  /** Fermat's little theorem: a^(p-1) leaves remainder 1 modulo a prime p, for 0 < a < p. */
  lemma FermatLittle(p: int, a: int)
    requires Prime(p)
    requires 0 < a < p
    ensures Pow(a, p - 1) % p == 1
  {
    PowerMinusBase(p, a);
    var f := Pow(a, p - 1);
    assert Pow(a, p) == a * f;
    assert a * (f - 1) == Pow(a, p) - a;
    EuclidLemma(p, a, f - 1);
    var q := (f - 1) / p;
    assert f - 1 == p * q;
    assert f == 1 + p * q;
    ModPlusMultiple(1, q, p);
    MultipleMod(0, p);
    DafnyModUnique(1, p, 1);
  }

  /** The inverse modulo a prime: a times a^(p-2) leaves remainder 1, for 0 < a < p, however
      the power is reduced first. */
  lemma FermatInverse(p: int, a: int)
    requires Prime(p)
    requires 0 < a < p
    ensures (a * (Pow(a, p - 2) % p)) % p == 1
  {
    FermatLittle(p, a);
    var r := Pow(a, p - 2);
    assert Pow(a, p - 1) == a * r;
    ModProduct(a, r, p);
    ModProduct(a, r % p, p);
    MultipleMod(0, p);
    DafnyModUnique(a, p, a);
    DafnyModUnique(r % p, p, r % p);
  }
}
