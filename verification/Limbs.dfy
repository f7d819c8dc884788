/**
 Naturals as little-endian limbs in a fixed base: ordering, normalisation, subtraction
 and addition with a borrow or a carry.  The base is a parameter because the persistence
 reader works in base 2^64 and the input dealer in base 2^32.
 */
module Limbs {
  import opened Polynomials

  datatype Ordering = Less | Equal | Greater

  ghost predicate IsLimbs(b: int, s: seq<int>) {
    b >= 2 && forall i :: 0 <= i < |s| ==> 0 <= s[i] < b
  }

  /** No most-significant zero limb, so a value has one representation. */
  predicate Normalised(s: seq<int>) {
    s != [] ==> s[|s| - 1] != 0
  }

  ghost function Val(b: int, s: seq<int>): int { Eval(s, b) }

  // ----- values -----

  lemma {:induction false} PowerPositive(b: int, k: nat)
    requires b >= 1
    ensures Power(b, k) >= 1
  {
    if k > 0 { PowerPositive(b, k - 1); PowerGrows(b, Power(b, k - 1)); }
  }

  lemma PowerGrows(b: int, w: int)
    requires b >= 1 && w >= 1
    ensures b * w >= w >= 1
  {}

  lemma {:induction false} PowerMonotone(b: int, j: nat, k: nat)
    requires b >= 1 && j <= k
    ensures Power(b, j) <= Power(b, k)
    decreases k
  {
    if j < k {
      PowerMonotone(b, j, k - 1);
      PowerPositive(b, k - 1);
      PowerGrows(b, Power(b, k - 1));
    }
  }

  lemma {:induction false} ValBound(b: int, s: seq<int>)
    requires IsLimbs(b, s)
    ensures 0 <= Val(b, s) < Power(b, |s|)
  {
    if s != [] {
      ValBound(b, s[1..]);
      BoundStep(b, s[0], Val(b, s[1..]), Power(b, |s| - 1));
    }
  }

  lemma BoundStep(b: int, x: int, v: int, w: int)
    requires 0 <= x < b && 0 <= v < w
    ensures 0 <= x + b * v < b * w
  {
    assert b * v <= b * (w - 1);
    assert b * (w - 1) == b * w - b;
    assert b * v >= 0;
  }

  lemma {:induction false} ValConcat(b: int, s: seq<int>, t: seq<int>)
    ensures Val(b, s + t) == Val(b, s) + Power(b, |s|) * Val(b, t)
  {
    if s == [] {
      assert s + t == t;
    } else {
      assert (s + t)[1..] == s[1..] + t;
      ValConcat(b, s[1..], t);
      ConcatRing(b, Val(b, s[1..]), Power(b, |s| - 1), Val(b, t));
    }
  }

  lemma ConcatRing(b: int, v: int, w: int, t: int)
    ensures b * (v + w * t) == b * v + (b * w) * t
  {}

  lemma ValSplit(b: int, s: seq<int>, k: nat)
    requires k <= |s|
    ensures Val(b, s) == Val(b, s[..k]) + Power(b, k) * Val(b, s[k..])
  {
    assert s == s[..k] + s[k..];
    ValConcat(b, s[..k], s[k..]);
  }

  lemma ValPrefixStep(b: int, s: seq<int>, k: nat)
    requires k < |s|
    ensures Val(b, s[..k + 1]) == Val(b, s[..k]) + s[k] * Power(b, k)
  {
    assert s[..k + 1] == s[..k] + [s[k]];
    EvalSnoc(s[..k], s[k], b);
  }

  lemma {:induction false} ValZeros(b: int, s: seq<int>)
    requires forall i :: 0 <= i < |s| ==> s[i] == 0
    ensures Val(b, s) == 0
  {
    if s != [] { ValZeros(b, s[1..]); }
  }

  /** A normalised number with k limbs is at least b^(k-1). */
  lemma NormalisedBound(b: int, s: seq<int>)
    requires IsLimbs(b, s) && Normalised(s) && s != []
    ensures Val(b, s) >= Power(b, |s| - 1)
  {
    var k := |s| - 1;
    ValPrefixStep(b, s, k);
    assert s[..k + 1] == s;
    ValBound(b, s[..k]);
    PowerPositive(b, k);
    TopLimb(s[k], Power(b, k));
  }

  lemma TopLimb(x: int, w: int)
    requires x >= 1 && w >= 0
    ensures x * w >= w
  {}

  // ----- normalisation -----

  method Normalize(b: int, limbs: seq<int>) returns (out: seq<int>)
    requires IsLimbs(b, limbs)
    ensures IsLimbs(b, out) && Normalised(out) && Val(b, out) == Val(b, limbs) && out <= limbs
  {
    out := limbs;
    while out != [] && out[|out| - 1] == 0
      invariant IsLimbs(b, out) && Val(b, out) == Val(b, limbs) && out <= limbs
      decreases |out|
    {
      ValPrefixStep(b, out, |out| - 1);
      assert out[..|out| - 1 + 1] == out;
      out := out[..|out| - 1];
    }
  }

  // ----- ordering -----

  /** Length first, then limbs from the most significant down. */
  method Compare(b: int, x: seq<int>, y: seq<int>) returns (o: Ordering)
    requires IsLimbs(b, x) && IsLimbs(b, y) && Normalised(x) && Normalised(y)
    ensures o == if Val(b, x) < Val(b, y) then Less else if Val(b, x) == Val(b, y) then Equal else Greater
  {
    if |x| != |y| {
      LengthDecides(b, x, y);
      LengthDecides(b, y, x);
      return if |x| < |y| then Less else Greater;
    }
    var k := |x|;
    while k > 0
      invariant 0 <= k <= |x| && x[k..] == y[k..]
    {
      k := k - 1;
      if x[k] != y[k] {
        TopDifferenceDecides(b, x, y, k);
        TopDifferenceDecides(b, y, x, k);
        return if x[k] < y[k] then Less else Greater;
      }
    }
    assert x == x[0..] == y[0..] == y;
    return Equal;
  }

  lemma LengthDecides(b: int, x: seq<int>, y: seq<int>)
    requires IsLimbs(b, x) && IsLimbs(b, y) && Normalised(y)
    ensures |x| < |y| ==> Val(b, x) < Val(b, y)
  {
    if |x| < |y| {
      ValBound(b, x);
      NormalisedBound(b, y);
      PowerMonotone(b, |x|, |y| - 1);
    }
  }

  lemma TopDifferenceDecides(b: int, x: seq<int>, y: seq<int>, k: nat)
    requires IsLimbs(b, x) && IsLimbs(b, y) && k < |x| == |y| && x[k + 1..] == y[k + 1..]
    ensures x[k] < y[k] ==> Val(b, x) < Val(b, y)
  {
    ValSplit(b, x, k + 1);
    ValSplit(b, y, k + 1);
    ValPrefixStep(b, x, k);
    ValPrefixStep(b, y, k);
    ValBound(b, x[..k]);
    ValBound(b, y[..k]);
    PowerPositive(b, k);
    if x[k] < y[k] { HigherLimb(x[k], y[k], Power(b, k), Val(b, x[..k]), Val(b, y[..k])); }
  }

  lemma HigherLimb(x: int, y: int, w: int, u: int, v: int)
    requires x < y && 0 <= u < w && 0 <= v
    ensures u + x * w < v + y * w
  {
    assert y * w == x * w + (y - x) * w;
    TopLimb(y - x, w);
  }

  // ----- subtraction -----

  function LimbAt(s: seq<int>, i: nat): int { if i < |s| then s[i] else 0 }

  /** Truncate or zero-extend to a fixed number of limbs. */
  function Resize(s: seq<int>, n: nat): (r: seq<int>)
    ensures |r| == n && forall i :: 0 <= i < n ==> r[i] == LimbAt(s, i)
  {
    seq(n, i requires 0 <= i => LimbAt(s, i))
  }

  lemma ResizeExtends(b: int, s: seq<int>, n: nat)
    requires |s| <= n
    ensures Val(b, Resize(s, n)) == Val(b, s)
  {
    var r := Resize(s, n);
    assert r[..|s|] == s;
    ValSplit(b, r, |s|);
    ValZeros(b, r[|s|..]);
  }

  /** Limb-wise subtraction with a borrow; the larger operand is on the left. */
  method Subtract(b: int, left: seq<int>, right: seq<int>) returns (out: seq<int>)
    requires IsLimbs(b, left) && IsLimbs(b, right) && Val(b, left) >= Val(b, right)
    ensures IsLimbs(b, out) && Normalised(out) && Val(b, out) == Val(b, left) - Val(b, right)
  {
    var cells := left;
    var borrow := 0;
    ghost var taken: seq<int> := [];
    for i := 0 to |left|
      invariant |cells| == |left| && IsLimbs(b, cells) && 0 <= borrow <= 1
      invariant cells[i..] == left[i..]
      invariant |taken| == i && forall k :: 0 <= k < i ==> taken[k] == LimbAt(right, k)
      invariant Val(b, cells[..i]) - borrow * Power(b, i) == Val(b, left[..i]) - Val(b, taken)
    {
      var rhs := LimbAt(right, i) + borrow;
      ghost var before, borrowed := cells, borrow;
      assert cells[i] == left[i] by { assert cells[i..][0] == left[i..][0]; }
      if cells[i] >= rhs {
        cells, borrow := cells[i := cells[i] - rhs], 0;
      } else {
        cells, borrow := cells[i := b + cells[i] - rhs], 1;
      }
      assert cells[..i] == before[..i];
      taken := taken + [LimbAt(right, i)];
      ValPrefixStep(b, cells, i);
      ValPrefixStep(b, left, i);
      EvalSnoc(taken[..i], LimbAt(right, i), b);
      assert taken == taken[..i] + [LimbAt(right, i)];
      BorrowStep(b, Power(b, i), cells[i], left[i], LimbAt(right, i), borrowed, borrow);
    }
    assert cells[..|left|] == cells && left[..|left|] == left;
    TakenIsRight(b, left, right, taken);
    ValBound(b, cells);
    NoBorrowLeft(Val(b, cells), Power(b, |left|), borrow, Val(b, left) - Val(b, right));
    out := Normalize(b, cells);
  }

  lemma BorrowStep(b: int, w: int, c: int, l: int, r: int, borrowed: int, borrow: int)
    requires c == l - r - borrowed + borrow * b
    ensures c * w - borrow * (b * w) == l * w - r * w - borrowed * w
  {
    assert (l - r - borrowed + borrow * b) * w == l * w - r * w - borrowed * w + borrow * (b * w);
  }

  lemma NoBorrowLeft(v: int, w: int, borrow: int, difference: int)
    requires 0 <= v < w && 0 <= borrow <= 1 && v - borrow * w == difference >= 0
    ensures borrow == 0
  {}

  /** Whatever the right operand has beyond the left one's limbs is zero. */
  lemma TakenIsRight(b: int, left: seq<int>, right: seq<int>, taken: seq<int>)
    requires IsLimbs(b, left) && IsLimbs(b, right) && Val(b, left) >= Val(b, right)
    requires |taken| == |left| && forall k :: 0 <= k < |left| ==> taken[k] == LimbAt(right, k)
    ensures Val(b, taken) == Val(b, right)
  {
    var n := |left|;
    if |right| <= n {
      assert taken[..|right|] == right;
      ValSplit(b, taken, |right|);
      ValZeros(b, taken[|right|..]);
    } else {
      assert taken == right[..n];
      ValSplit(b, right, n);
      ValBound(b, left);
      ValBound(b, right[..n]);
      ValBound(b, right[n..]);
      PowerPositive(b, n);
      NoHighPart(Val(b, right[..n]), Power(b, n), Val(b, right[n..]), Val(b, left));
    }
  }

  lemma NoHighPart(low: int, w: int, high: int, left: int)
    requires 0 <= low && 0 <= high && low + w * high <= left < w && w >= 1
    ensures high == 0
  {}
}
