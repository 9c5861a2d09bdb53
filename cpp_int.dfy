/** The fixed-width integers of C++ and its integer division, over Dafny's unbounded `int`.

    Dafny's `/` and `%` are Euclidean (the remainder is never negative); C++ truncates the
    quotient toward zero, so its remainder takes the sign of the dividend. Both are written
    out here once and used by every other module.
 */
module CppInt {
  import opened NumberTheory

  const INT64_MIN: int := -0x8000_0000_0000_0000
  const INT64_MAX: int := 0x7fff_ffff_ffff_ffff
  const TWO_TO_THE_64: int := 0x1_0000_0000_0000_0000

  /** `int64_t` */
  type int64 = x: int | -0x8000_0000_0000_0000 <= x < 0x8000_0000_0000_0000

  /** `uint64_t` */
  type uint64 = x: int | 0 <= x < 0x1_0000_0000_0000_0000

  /** C++ `a / b` on integers: the exact quotient rounded toward zero. */
  function TruncDiv(a: int, b: int): int
    requires b != 0
  {
    if (a < 0) == (b < 0) then Abs(a) / Abs(b) else -(Abs(a) / Abs(b))
  }

  /** The C++ quotient rounds toward zero: its magnitude is |a| / |b| rounded down, it is never
      negative when a and b have the same sign and never positive otherwise, and for a >= 0,
      b > 0 it is Dafny's own `/`. */
  lemma TruncDivRoundsTowardZero(a: int, b: int)
    requires b != 0
    ensures Abs(TruncDiv(a, b)) == Abs(a) / Abs(b)
    ensures (a < 0) == (b < 0) ==> TruncDiv(a, b) >= 0
    ensures (a < 0) != (b < 0) ==> TruncDiv(a, b) <= 0
    ensures a >= 0 && b > 0 ==> TruncDiv(a, b) == a / b
  {
    var m := Abs(a) / Abs(b);
    DivNonNegative(Abs(a), Abs(b));
    if (a < 0) == (b < 0) {
      assert TruncDiv(a, b) == m;
      if a >= 0 && b > 0 {
        assert Abs(a) == a && Abs(b) == b;
      }
    } else {
      assert TruncDiv(a, b) == -m;
    }
  }

  /** C++ `a % b` on integers: the remainder has the sign of the dividend. */
  function TruncRem(a: int, b: int): (r: int)
    requires b != 0
    ensures Abs(r) < Abs(b)
    ensures r == 0 || (r < 0) == (a < 0)
  {
    if a < 0 then -(Abs(a) % Abs(b)) else Abs(a) % Abs(b)
  }

  /** The two C++ operators are tied by `(a / b) * b + a % b == a`. */
  lemma TruncDivision(a: int, b: int)
    requires b != 0
    ensures b * TruncDiv(a, b) + TruncRem(a, b) == a
  {
    var q, r := Abs(a) / Abs(b), Abs(a) % Abs(b);
    assert Abs(a) == Abs(b) * q + r;
    if a < 0 && b < 0 {
      assert b * q == -(Abs(b) * q);
    } else if a < 0 {
      assert b * -q == -(Abs(b) * q);
    } else if b < 0 {
      assert b * -q == Abs(b) * q;
    }
  }

  /** The C++ remainder differs from a by a multiple of b (in Dafny's terms, `(a - r) % b == 0`). */
  lemma TruncRemCongruent(a: int, b: int)
    requires b != 0
    ensures (a - TruncRem(a, b)) % b == 0
  {
    TruncDivision(a, b);
    MultipleMod(TruncDiv(a, b), b);
  }

  /** Adding b to the C++ remainder and taking the remainder again, without overflow, gives
      the Euclidean residue: the sum lies in (0, 2b). */
  lemma ShiftedRemainder(a: int, b: int)
    requires b > 0
    ensures TruncRem(TruncRem(a, b) + b, b) == a % b
  {
    var m := TruncRem(a, b);
    var s := m + b;
    assert 0 < s < 2 * b;
    ModNear(s, b);
    var t := TruncRem(s, b);
    assert t == s % b by {
      assert Abs(s) == s && Abs(b) == b;
    }
    TruncRemCongruent(a, b);
    ShiftByDivisor(a, m, b, s);
    ShiftByDivisor(a, s, b, t);
    DafnyModUnique(a, b, t);
  }

  /** Two's-complement wrap-around of an integer into `int64` (what common hardware does on a
      signed overflow, which C++ leaves undefined). */
  function Wrap64(x: int): (w: int64)
    ensures (x - w) % TWO_TO_THE_64 == 0
    ensures INT64_MIN <= x <= INT64_MAX ==> w == x
  {
    var m := x % TWO_TO_THE_64;
    if m <= INT64_MAX then m else m - TWO_TO_THE_64
  }

  /** Conversion of a signed value to `uint64_t`: reduction modulo 2^64. */
  function ToUint64(x: int): (u: uint64)
    ensures (x - u) % TWO_TO_THE_64 == 0
    ensures 0 <= x < TWO_TO_THE_64 ==> u == x
    ensures -TWO_TO_THE_64 <= x < 0 ==> u == x + TWO_TO_THE_64
  {
    x % TWO_TO_THE_64
  }
}
