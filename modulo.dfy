/** The three remainder conventions on `int64_t`: truncated (C++'s own `%`, the remainder
    follows the dividend), floored (the remainder follows the divisor) and Euclidean (the
    remainder is never negative). Each one is pinned down by `a == b * q + r`, `|r| < |b|`
    and its sign rule; the divisor -1 is answered with 0 without dividing, which avoids the
    overflow of `INT64_MIN % -1`.
 */
module Modulo {
  import opened NumberTheory
  import opened CppInt

  /** The test `(a ^ b) < 0` on `int64_t`: the sign bit of `a ^ b` is the exclusive or of the
      sign bits of a and b, and the sign bit of x is bit 63 of its two's-complement pattern
      ToUint64(x). It holds exactly when the signs of a and b differ. */
  predicate SignsDiffer(a: int64, b: int64): (d: bool)
    ensures d <==> (a < 0) != (b < 0)
  {
    (SignBit(a) + SignBit(b)) % 2 == 1
  }

  /** Bit 63 of the two's-complement pattern of x. */
  function SignBit(x: int64): (bit: int)
    ensures bit == if x < 0 then 1 else 0
  {
    ToUint64(x) / 0x8000_0000_0000_0000
  }

  /** modulo_truncated: the remainder of truncated division. */
  function ModuloTruncated(a: int64, b: int64): (r: int64)
    requires b != 0
    ensures a == b * TruncDiv(a, b) + r
    ensures Abs(r) < Abs(b)
    ensures r == 0 || (r < 0) == (a < 0)
  {
    TruncDivision(a, b);
    if b == -1 then 0 else TruncRem(a, b)
  }

  /** modulo_floored: the remainder of floored division, computed from the truncated
      quotient, lowered by one when the remainder is non-zero and the signs differ. */
  function ModuloFloored(a: int64, b: int64): (r: int64)
    requires b != 0
    ensures Abs(r) < Abs(b)
    ensures (a - r) % b == 0
    ensures r == 0 || (r < 0) == (b < 0)
  {
    if b == -1 then 0
    else
      var adjust := if TruncRem(a, b) != 0 && SignsDiffer(a, b) then 1 else 0;
      FlooredStep(a, b, adjust);
      a - b * (TruncDiv(a, b) - adjust)
  }

  /** Lowering the truncated quotient by adjust raises the remainder by b * adjust, and the
      result stays congruent to a. */
  lemma FlooredStep(a: int, b: int, adjust: int)
    requires b != 0
    ensures a - b * (TruncDiv(a, b) - adjust) == TruncRem(a, b) + b * adjust
    ensures (a - (TruncRem(a, b) + b * adjust)) % b == 0
  {
    var q := TruncDiv(a, b);
    TruncDivision(a, b);
    assert b * (q - adjust) == b * q - b * adjust;
    MultipleMod(q - adjust, b);
  }

  /** euclidean_modulo: the truncated remainder, moved up by |b| when it is negative. */
  function EuclideanModulo(a: int64, b: int64): (m: int64)
    requires b != 0
    ensures 0 <= m < Abs(b)
    ensures (a - m) % b == 0
    ensures m == a % b
  {
    if b == -1 then
      var q: int := -(a as int);
      MultipleMod(q, b);
      0
    else
      var m := TruncRem(a, b);
      TruncRemCongruent(a, b);
      var e := if m < 0 then (if b < 0 then m - b else m + b) else m;
      ShiftByDivisor(a, m, b, e);
      DafnyModUnique(a, b, e);
      e
  }

  /** euclidean_modulo_natural, corrected: for b > 0 the truncated remainder, moved up by b
      when it is negative. This is the residue the source intends; see
      EuclideanModuloNaturalAsWritten for the expression it actually evaluates. */
  function EuclideanModuloNatural(a: int64, b: int64): (r: int64)
    requires b > 0
    ensures 0 <= r < b
    ensures r == a % b
    ensures r == EuclideanModulo(a, b)
  {
    var m := TruncRem(a, b);
    TruncRemCongruent(a, b);
    var e := if m < 0 then m + b else m;
    ShiftByDivisor(a, m, b, e);
    DafnyModUnique(a, b, e);
    e
  }

  /** euclidean_modulo_natural as written: `((a % b) + b) % b` in `int64_t`. The inner sum can
      exceed INT64_MAX when b > 2^62, which C++ leaves undefined; this models the
      two's-complement wrap-around of common hardware. Whenever the sum does not overflow the
      result is the Euclidean residue. */
  function EuclideanModuloNaturalAsWritten(a: int64, b: int64): (r: int64)
    requires b > 0
    ensures TruncRem(a, b) + b <= INT64_MAX ==> r == EuclideanModuloNatural(a, b)
  {
    ShiftedRemainder(a, b);
    TruncRem(Wrap64(TruncRem(a, b) + b), b)
  }

  /** When the divisor is at most 2^62 the inner sum cannot overflow and the expression as
      written gives the Euclidean residue. */
  lemma EuclideanModuloNaturalAsWrittenAgrees(a: int64, b: int64)
    requires 0 < b <= 0x4000_0000_0000_0000
    ensures EuclideanModuloNaturalAsWritten(a, b) == EuclideanModuloNatural(a, b)
  {
    assert TruncRem(a, b) + b < 2 * b;
  }

  /** For a = 2^62 and b = 2^62 + 1 the sum `(a % b) + b` is 2^63 + 1, beyond INT64_MAX; after
      wrap-around the expression returns -(2^62 - 2), a negative value, although the
      residue of a is a itself. */
  lemma EuclideanModuloNaturalAsWrittenOverflows()
    ensures TruncRem(0x4000_0000_0000_0000, 0x4000_0000_0000_0001) + 0x4000_0000_0000_0001 > INT64_MAX
    ensures EuclideanModuloNaturalAsWritten(0x4000_0000_0000_0000, 0x4000_0000_0000_0001)
            == -0x3fff_ffff_ffff_fffe
    ensures EuclideanModuloNatural(0x4000_0000_0000_0000, 0x4000_0000_0000_0001)
            == 0x4000_0000_0000_0000
  {
    var a, b := 0x4000_0000_0000_0000, 0x4000_0000_0000_0001;
    assert TruncRem(a, b) == a;
    var w := Wrap64(a + b);
    assert w == a + b - TWO_TO_THE_64;
    assert Abs(w) == 1 * b + 0x3fff_ffff_ffff_fffe;
    assert Abs(w) % b == 0x3fff_ffff_ffff_fffe;
  }

  /** euclidean_modulo_all_natural: C++'s `%` on `uint64_t`. */
  function EuclideanModuloAllNatural(a: uint64, b: uint64): (r: uint64)
    requires b > 0
    ensures r < b
    ensures r == a % b
  {
    TruncRem(a, b)
  }

  /** A remainder r of a by b with |r| < |b| whose sign follows s is fixed by Dafny's `%`:
      it is a % b when s >= 0 or b divides a, and |b| lower otherwise. */
  lemma RemainderBySign(a: int, b: int, r: int, s: int)
    requires b != 0
    requires Abs(r) < Abs(b) && (a - r) % b == 0
    requires r == 0 || (r < 0) == (s < 0)
    ensures r == if s >= 0 || a % b == 0 then a % b else a % b - Abs(b)
  {
    var m := a % b;
    var e := if s >= 0 || m == 0 then m else m - Abs(b);
    MultipleMod(a / b, b);
    assert a - m == b * (a / b);
    ShiftByDivisor(a, m, b, e);
    SameResidue(a, r, e, b);
  }

  /** The truncated remainder against Dafny's Euclidean `%`: equal for a >= 0 or when b
      divides a, and |b| lower otherwise. */
  lemma TruncatedReference(a: int64, b: int64)
    requires b != 0
    ensures ModuloTruncated(a, b) == if a >= 0 || a % b == 0 then a % b else a % b - Abs(b)
  {
    var r := ModuloTruncated(a, b);
    MultipleMod(TruncDiv(a, b), b);
    assert a - r == b * TruncDiv(a, b);
    RemainderBySign(a, b, r, a);
  }

  /** The floored remainder against Dafny's Euclidean `%`: equal for b > 0 or when b divides
      a, and |b| lower otherwise. */
  lemma FlooredReference(a: int64, b: int64)
    requires b != 0
    ensures ModuloFloored(a, b) == if b > 0 || a % b == 0 then a % b else a % b + b
  {
    RemainderBySign(a, b, ModuloFloored(a, b), b);
  }

  /** The floored remainder is the truncated one, moved by b exactly when it is non-zero and
      the signs of a and b differ. */
  lemma FlooredFromTruncated(a: int64, b: int64)
    requires b != 0
    ensures ModuloFloored(a, b)
            == if ModuloTruncated(a, b) != 0 && SignsDiffer(a, b)
               then ModuloTruncated(a, b) + b
               else ModuloTruncated(a, b)
  {
  }

  /** For a positive divisor the floored and the Euclidean remainder coincide. */
  lemma FlooredIsEuclideanForPositiveDivisor(a: int64, b: int64)
    requires b > 0
    ensures ModuloFloored(a, b) == EuclideanModulo(a, b)
  {
    var r, m := ModuloFloored(a, b), EuclideanModulo(a, b);
    DafnyModUnique(a, b, r);
  }

  /** For b > 0 all conventions agree whenever a >= 0. */
  lemma ConventionsAgreeOnNaturals(a: int64, b: int64)
    requires a >= 0 && b > 0
    ensures ModuloTruncated(a, b) == ModuloFloored(a, b) == EuclideanModulo(a, b)
    ensures EuclideanModulo(a, b) == EuclideanModuloNatural(a, b) == EuclideanModuloAllNatural(a, b)
  {
    FlooredIsEuclideanForPositiveDivisor(a, b);
    DafnyModUnique(a, b, ModuloTruncated(a, b));
  }

  /** The divisor -1 divides every integer, so each convention answers 0. */
  lemma DivisorMinusOne(a: int64)
    ensures ModuloTruncated(a, -1) == ModuloFloored(a, -1) == EuclideanModulo(a, -1) == 0
  {
  }

  /** The worked examples of the source's comments. */
  lemma Examples()
    ensures ModuloTruncated(21, 4) == 1 && ModuloTruncated(-21, 4) == -1
    ensures EuclideanModulo(21, 4) == 1 && EuclideanModulo(-21, 4) == 3
    ensures ModuloFloored(21, -4) == -3 && ModuloFloored(-21, 4) == 3
  {
  }
}
