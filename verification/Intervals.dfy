/**
 * Interval arithmetic over the values a price rule can produce, and the signed width that
 * holds an interval.
 */
module Intervals {
  import opened BitWidth
  import Limbs
  import P = Polynomials

  function Min(a: int, b: int): int { if a <= b then a else b }
  function Max(a: int, b: int): int { if a >= b then a else b }
  function Abs(a: int): nat { if a < 0 then -a else a }

  datatype Interval = Interval(lo: int, hi: int) {
    predicate Contains(v: int) { lo <= v <= hi }
    predicate Within(other: Interval) { other.lo <= lo && hi <= other.hi }
    predicate IsCondition() { lo == 0 && hi == 1 }

    function Plus(other: Interval): Interval { Interval(lo + other.lo, hi + other.hi) }
    function Minus(other: Interval): Interval { Interval(lo - other.hi, hi - other.lo) }
    function Negated(): Interval { Interval(-hi, -lo) }
    function Union(other: Interval): Interval { Interval(Min(lo, other.lo), Max(hi, other.hi)) }

    /** The least and greatest of the four corner products. */
    function Times(other: Interval): Interval {
      var a, b, c, d := lo * other.lo, lo * other.hi, hi * other.lo, hi * other.hi;
      Interval(Min(Min(a, b), Min(c, d)), Max(Max(a, b), Max(c, d)))
    }

    /** Signed bit width that holds every value in the interval. */
    function WidthBits(): nat { Max(2, BitLength(Max(Abs(lo), Abs(hi))) + 1) }
  }

  function Point(v: int): Interval { Interval(v, v) }

  /** A two's-complement word of this many bits holds the value. */
  ghost predicate FitsSigned(v: int, bits: nat) {
    bits >= 1 && -P.Power(2, bits - 1) <= v < P.Power(2, bits - 1)
  }

  lemma Between(x: int, lo: int, hi: int, w: int)
    requires lo <= x <= hi
    ensures Min(lo * w, hi * w) <= x * w <= Max(lo * w, hi * w)
  {
    if w >= 0 {
      assert (x - lo) * w >= 0 && (hi - x) * w >= 0;
    } else {
      assert (x - lo) * w <= 0 && (hi - x) * w <= 0;
    }
  }

  /** A product of two members lies between the extreme corners, and both extremes are products of members. */
  lemma TimesIsExact(a: Interval, b: Interval)
    requires a.lo <= a.hi && b.lo <= b.hi
    ensures forall x, y :: a.Contains(x) && b.Contains(y) ==> a.Times(b).Contains(x * y)
    ensures exists x, y :: a.Contains(x) && b.Contains(y) && x * y == a.Times(b).lo
    ensures exists x, y :: a.Contains(x) && b.Contains(y) && x * y == a.Times(b).hi
  {
    forall x, y | a.Contains(x) && b.Contains(y) ensures a.Times(b).Contains(x * y) {
      Between(x, a.lo, a.hi, y);
      Between(y, b.lo, b.hi, a.lo);
      Between(y, b.lo, b.hi, a.hi);
    }
    assert a.Contains(a.lo) && a.Contains(a.hi) && b.Contains(b.lo) && b.Contains(b.hi);
  }

  /** Every member of an interval fits a signed word of the interval's width. */
  lemma WidthHolds(i: Interval, v: int)
    requires i.Contains(v)
    ensures FitsSigned(v, i.WidthBits())
  {
    var m := Max(Abs(i.lo), Abs(i.hi));
    BitLengthBound(m);
    Limbs.PowerMonotone(2, BitLength(m), i.WidthBits() - 1);
  }

  /**
   The width is the least that holds the interval, except that a magnitude reached only at
   lo = -2^k costs one bit more than two's complement needs.
   */
  lemma WidthIsTight(i: Interval)
    requires i.lo <= i.hi && i.WidthBits() > 2
    ensures var narrow := i.WidthBits() - 1;
            (forall v :: i.Contains(v) ==> FitsSigned(v, narrow))
            <==> i.lo == -P.Power(2, narrow - 1) && i.hi < P.Power(2, narrow - 1)
  {
    var m, narrow := Max(Abs(i.lo), Abs(i.hi)), i.WidthBits() - 1;
    BitLengthBound(m);
    assert m >= P.Power(2, narrow - 1);
    assert i.Contains(i.lo) && i.Contains(i.hi);
  }

  /** Swapping the sign of a magnitude stays within [-hi, hi] exactly when lo is not below -hi. */
  lemma SignedCoverIff(magnitude: Interval)
    requires magnitude.lo <= magnitude.hi && -magnitude.hi <= magnitude.hi
    ensures var cover := Interval(-magnitude.hi, magnitude.hi);
            (forall v :: magnitude.Contains(v) ==> cover.Contains(v) && cover.Contains(-v))
                <==> magnitude.lo >= -magnitude.hi
  {
    assert magnitude.Contains(magnitude.lo);
  }
}
