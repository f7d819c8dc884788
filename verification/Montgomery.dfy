/**
 Reading a field element out of Montgomery form with 64-bit limbs: the Newton inverse
 modulo 2^64, one reduction round per limb over a fixed work array, and at most one
 final subtraction.
 */
module Montgomery {
  import opened Basics
  import opened Modular
  import opened Polynomials
  import opened Limbs

  const LIMB_BYTES: int := 8

  /** `CarryLeavesArray` is the source's out-of-bounds panic. */
  datatype Error = InvalidWidth | EvenModulus | CarryLeavesArray
  datatype Result = Ok(limbs: seq<int>) | Err(error: Error)

  // ----- Newton's inverse modulo 2^64 -----

  /** 2^(2^i): what the i-th Newton step is right modulo. */
  ghost function Tower(i: nat): int {
    if i == 0 then 2 else Tower(i - 1) * Tower(i - 1)
  }

  /** U64 / Tower(i). */
  ghost function Cofactor(i: nat): int
    requires i <= 6
    decreases 6 - i
  {
    if i == 6 then 1 else Tower(i) * Cofactor(i + 1)
  }

  lemma TowerDividesWord(i: nat)
    requires i <= 6
    ensures Tower(i) * Cofactor(i) == U64 && Tower(i) > 0
    decreases 6 - i
  {
    if i == 6 {
      assert Tower(0) == 2 && Tower(1) == 4 && Tower(2) == 16 && Tower(3) == 256;
      assert Tower(4) == 65536 && Tower(5) == 0x1_0000_0000 && Tower(6) == U64;
    } else {
      TowerDividesWord(i + 1);
      TowerStep(Tower(i), Cofactor(i + 1));
      TowerPositive(i);
    }
  }

  lemma TowerStep(t: int, c: int)
    ensures t * (t * c) == (t * t) * c
  {}

  lemma {:induction false} TowerPositive(i: nat)
    ensures Tower(i) > 0
  {
    if i > 0 { TowerPositive(i - 1); SquarePositive(Tower(i - 1)); }
  }

  lemma SquarePositive(t: int)
    requires t > 0
    ensures t * t > 0
  {}

  /** One Newton step squares the modulus the inverse is right for. */
  lemma NewtonStep(d: int, c: int, m: int, x: int, y: int)
    requires d > 0 && c > 0 && Cong(d, m * x, 1)
    requires Cong((d * d) * c, y, x * (2 - m * x))
    ensures Cong(d * d, m * y, 1)
  {
    SquarePositive(d);
    var k := CongWitness(d, m * x, 1);
    var l := CongWitness((d * d) * c, y, x * (2 - m * x));
    var e := d * k;
    calc {
      m * y;
      m * (x * (2 - m * x) + (d * d) * c * l);
      { NewtonRing(m, x, (d * d) * c * l); }
      (m * x) * (2 - m * x) + m * ((d * d) * c * l);
      (1 + e) * (1 - e) + m * ((d * d) * c * l);
      1 - e * e + m * ((d * d) * c * l);
      { NewtonFactor(d, c, m, k, l); }
      1 + (d * d) * (m * (c * l) - k * k);
    }
    CongOf(d * d, m * y, 1, m * (c * l) - k * k);
  }

  lemma NewtonRing(m: int, x: int, r: int)
    ensures m * (x * (2 - m * x) + r) == (m * x) * (2 - m * x) + m * r
  {}

  lemma NewtonFactor(d: int, c: int, m: int, k: int, l: int)
    ensures 1 - (d * k) * (d * k) + m * ((d * d) * c * l) == 1 + (d * d) * (m * (c * l) - k * k)
  {
    assert (d * k) * (d * k) == (d * d) * (k * k);
    assert m * ((d * d) * c * l) == (d * d) * (m * (c * l));
  }

  /** Six wrapping Newton steps from one. */
  method InverseModWord(m: int) returns (inverse: int)
    requires 0 <= m < U64 && m % 2 == 1
    ensures 0 <= inverse < U64 && Cong(U64, m * inverse, 1)
  {
    inverse := 1;
    assert Cong(2, m * 1, 1);
    for i := 0 to 6
      invariant 0 <= inverse < U64
      invariant Cong(Tower(i), m * inverse, 1)
    {
      var next := (inverse * ((2 - (m * inverse) % U64) % U64)) % U64;
      WrappedNewton(m, inverse);
      TowerDividesWord(i);
      TowerDividesWord(i + 1);
      NewtonStep(Tower(i), Cofactor(i + 1), m, inverse, next);
      inverse := next;
    }
    TowerDividesWord(6);
  }

  lemma WrappedNewton(m: int, x: int)
    ensures var next := (x * ((2 - (m * x) % U64) % U64)) % U64;
            Cong(U64, next, x * (2 - m * x)) && 0 <= next < U64
  {
    var a := (m * x) % U64;
    var b := (2 - a) % U64;
    CongMod(U64, m * x);
    CongMod(U64, 2 - a);
    CongMod(U64, x * b);
    hide Cong;
    CongRefl(U64, 2);
    CongSub(U64, 2, 2, a, m * x);
    CongTrans(U64, b, 2 - a, 2 - m * x);
    CongScale(U64, x, b, 2 - m * x);
    CongTrans(U64, (x * b) % U64, x * b, x * (2 - m * x));
  }

  // ----- one reduction round -----

  /** What a round adds to the work array's value. */
  ghost function Addend(multiplier: int, modulus: seq<int>, offset: nat): int {
    multiplier * Val(U64, modulus) * Power(U64, offset)
  }

  /** One cell: the sum's low word stays, its high word carries. */
  lemma CellStep(work: seq<int>, position: nat, add: int, carry: int)
    requires position < |work| && IsLimbs(U64, work) && 0 <= add <= (U64 - 1) * (U64 - 1) && 0 <= carry < U64
    ensures var sum := work[position] + add + carry;
            var work' := work[position := sum % U64];
            && IsLimbs(U64, work') && 0 <= sum / U64 < U64
            && Val(U64, work') + sum / U64 * Power(U64, position + 1)
               == Val(U64, work) + (add + carry) * Power(U64, position)
  {
    var sum := work[position] + add + carry;
    var low, high, w := sum % U64, sum / U64, Power(U64, position);
    EvalUpdate(work, position, low, U64);
    CarryRing(work[position], add, carry, low, high, w);
  }

  lemma CarryRing(x: int, add: int, carry: int, low: int, high: int, w: int)
    requires x + add + carry == low + U64 * high
    ensures (low - x) * w + high * (U64 * w) == (add + carry) * w
  {
    assert high * (U64 * w) == (U64 * high) * w;
  }

  lemma WordProduct(a: int, b: int)
    requires 0 <= a < U64 && 0 <= b < U64
    ensures 0 <= a * b <= (U64 - 1) * (U64 - 1)
  {
    MulMonotone(a, 0, b);
    MulMonotone(a, b, U64 - 1);
    MulMonotone(U64 - 1, a, U64 - 1);
  }

  lemma MulMonotone(a: int, x: int, y: int)
    requires a >= 0 && x <= y
    ensures a * x <= a * y
  {}

  /** Add multiplier * modulus at the offset, leaving the last carry for the caller. */
  method AddLimbs(work: array<int>, modulus: seq<int>, multiplier: int, offset: nat) returns (carry: int)
    requires IsLimbs(U64, work[..]) && IsLimbs(U64, modulus) && 0 <= multiplier < U64
    requires offset + |modulus| <= work.Length && modulus != []
    modifies work
    ensures IsLimbs(U64, work[..]) && 0 <= carry < U64
    ensures forall k :: 0 <= k < offset ==> work[k] == old(work[k])
    ensures work[offset] == (old(work[offset]) + multiplier * modulus[0]) % U64
    ensures Val(U64, work[..]) + carry * Power(U64, offset + |modulus|)
            == old(Val(U64, work[..])) + Addend(multiplier, modulus, offset)
  {
    hide Val, Power, Addend;
    ghost var v0 := Val(U64, work[..]);
    carry := 0;
    AddendEmpty(multiplier, modulus, offset);
    assert modulus[..0] == [] && Val(U64, modulus[..0]) == 0 by { ValZeros(U64, modulus[..0]); }
    for index := 0 to |modulus|
      invariant IsLimbs(U64, work[..]) && 0 <= carry < U64
      invariant forall k :: 0 <= k < offset || offset + index <= k < work.Length ==> work[k] == old(work[k])
      invariant index == 0 ==> carry == 0
      invariant index > 0 ==> work[offset] == (old(work[offset]) + multiplier * modulus[0]) % U64
      invariant Val(U64, work[..]) + carry * Power(U64, offset + index)
                == v0 + Addend(multiplier, modulus[..index], offset)
    {
      var position := offset + index;
      ghost var before := work[..];
      WordProduct(multiplier, modulus[index]);
      CellStep(before, position, multiplier * modulus[index], carry);
      var sum := work[position] + multiplier * modulus[index] + carry;
      AddendStep(multiplier, modulus, offset, index, carry);
      work[position], carry := sum % U64, sum / U64;
      assert work[..] == before[position := sum % U64];
    }
    assert modulus[..|modulus|] == modulus;
  }

  lemma AddendEmpty(multiplier: int, modulus: seq<int>, offset: nat)
    ensures Addend(multiplier, modulus[..0], offset) == 0
  {
    ValZeros(U64, modulus[..0]);
  }

  lemma AddendStep(multiplier: int, modulus: seq<int>, offset: nat, index: nat, carry: int)
    requires index < |modulus|
    ensures Addend(multiplier, modulus[..index + 1], offset) + carry * Power(U64, offset + index)
            == Addend(multiplier, modulus[..index], offset)
               + (multiplier * modulus[index] + carry) * Power(U64, offset + index)
  {
    ValPrefixStep(U64, modulus, index);
    PowerAdd(U64, offset, index);
    AddendRing(multiplier, Val(U64, modulus[..index]), modulus[index], Power(U64, offset), Power(U64, index), carry);
  }

  lemma AddendRing(m: int, v: int, x: int, u: int, w: int, c: int)
    ensures m * (v + x * w) * u + c * (u * w) == m * v * u + (m * x + c) * (u * w)
  {
    assert m * (v + x * w) * u == m * v * u + (m * x) * (u * w);
  }

  /** Ripple the carry upwards; it dies inside the array exactly when the total fits. */
  method Ripple(work: array<int>, start: nat, first: int, ghost total: int) returns (inside: bool)
    requires IsLimbs(U64, work[..]) && 0 <= first < U64 && start <= work.Length
    requires Val(U64, work[..]) + first * Power(U64, start) == total
    modifies work
    ensures inside <==> total < Power(U64, work.Length)
    ensures IsLimbs(U64, work[..]) && (inside ==> Val(U64, work[..]) == total)
    ensures forall k :: 0 <= k < start ==> work[k] == old(work[k])
  {
    var carry, position := first, start;
    hide Eval, Power;
    while carry != 0
      invariant start <= position <= work.Length && IsLimbs(U64, work[..]) && 0 <= carry < U64
      invariant forall k :: 0 <= k < start ==> work[k] == old(work[k])
      invariant Val(U64, work[..]) + carry * Power(U64, position) == total
      decreases work.Length - position
    {
      ghost var before := work[..];
      if position == work.Length {
        CarryEscapes(before, carry, total);
        return false;
      }
      CellStep(before, position, 0, carry);
      var sum := work[position] + carry;
      work[position], carry := sum % U64, sum / U64;
      assert work[..] == before[position := sum % U64];
      position := position + 1;
    }
    ValBound(U64, work[..]);
    inside := true;
  }

  lemma CarryEscapes(work: seq<int>, carry: int, total: int)
    requires IsLimbs(U64, work) && carry >= 1 && Val(U64, work) + carry * Power(U64, |work|) == total
    ensures total >= Power(U64, |work|)
  {
    ValBound(U64, work);
    PowerPositive(U64, |work|);
    TopLimb(carry, Power(U64, |work|));
  }

  /** One round: the limb at the offset becomes zero, by adding a multiple of the modulus. */
  method Round(work: array<int>, modulus: seq<int>, n0: int, offset: nat) returns (inside: bool, ghost multiplier: int)
    requires IsLimbs(U64, work[..]) && IsLimbs(U64, modulus) && modulus != [] && offset + |modulus| <= work.Length
    requires Cong(U64, n0 * modulus[0], -1)
    modifies work
    ensures 0 <= multiplier < U64 && IsLimbs(U64, work[..])
    ensures (old(work[offset]) + multiplier * modulus[0]) % U64 == 0
    ensures inside <==> old(Val(U64, work[..])) + Addend(multiplier, modulus, offset) < Power(U64, work.Length)
    ensures inside ==> Val(U64, work[..]) == old(Val(U64, work[..])) + Addend(multiplier, modulus, offset)
    ensures work[offset] == 0 && forall k :: 0 <= k < offset ==> work[k] == old(work[k])
  {
    ghost var v0 := Val(U64, work[..]);
    var m := (work[offset] * n0) % U64;
    multiplier := m;
    MultiplierClears(work[offset], n0, modulus[0]);
    var carry := AddLimbs(work, modulus, m, offset);
    inside := Ripple(work, offset + |modulus|, carry, v0 + Addend(m, modulus, offset));
  }

  lemma MultiplierClears(x: int, n0: int, m0: int)
    requires Cong(U64, n0 * m0, -1)
    ensures (x + ((x * n0) % U64) * m0) % U64 == 0
  {
    var m := (x * n0) % U64;
    CongMod(U64, x * n0);
    hide Cong;
    CongScale(U64, m0, m, x * n0);
    CongScale(U64, x, n0 * m0, -1);
    assert m0 * (x * n0) == x * (n0 * m0) && m0 * m == m * m0 && x * -1 == -x;
    CongTrans(U64, m * m0, x * (n0 * m0), -x);
    CongRefl(U64, x);
    CongAdd(U64, x, x, m * m0, -x);
    ZeroResidue(x + m * m0);
  }

  lemma ZeroResidue(x: int)
    requires Cong(U64, x, 0)
    ensures x % U64 == 0
  {}

  lemma AddendBound(m: int, modulus: seq<int>, offset: nat)
    requires 0 <= m < U64 && IsLimbs(U64, modulus)
    ensures Addend(m, modulus, offset) <= Addend(U64 - 1, modulus, offset)
  {
    ValBound(U64, modulus);
    PowerPositive(U64, offset);
    AddendMonotone(m, U64 - 1, Val(U64, modulus), Power(U64, offset));
  }

  lemma AddendMonotone(m: int, n: int, v: int, w: int)
    requires m <= n && 0 <= v && 0 <= w
    ensures m * v * w <= n * v * w
  {
    assert m * v <= n * v;
  }

  // ----- the whole conversion -----

  lemma ResizeKeepsValue(b: int, s: seq<int>, n: nat)
    requires IsLimbs(b, s)
    ensures IsLimbs(b, Resize(s, n))
    ensures |s| <= n ==> Val(b, Resize(s, n)) == Val(b, s)
    ensures Val(b, Resize(s, n)) <= Val(b, s)
  {
    if |s| <= n {
      ResizeExtends(b, s, n);
    } else {
      assert Resize(s, n) == s[..n];
      ValSplit(b, s, n);
      ValBound(b, s[n..]);
      PowerPositive(b, n);
      HighPartAdds(Val(b, s[..n]), Power(b, n), Val(b, s[n..]));
    }
  }

  lemma HighPartAdds(low: int, w: int, high: int)
    requires w >= 1 && high >= 0
    ensures low <= low + w * high
  {}

  /** The work array has room for the value and every multiple a round can add. */
  lemma RoundFits(t: int, m: int, n: int, width: nat, offset: nat)
    requires 0 <= m < Power(U64, offset) && 0 <= n < Power(U64, width) && offset < width
    requires 0 <= t < Power(U64, 2 * width + 1)
    ensures t + m * n + (U64 - 1) * n * Power(U64, offset) < Power(U64, 2 * width + 2)
  {
    var u, r := Power(U64, offset), Power(U64, width);
    PowerMonotone(U64, offset + 1, width);
    PowerPositive(U64, offset);
    PowerPositive(U64, width);
    PowerAdd(U64, width, width);
    PowerMonotone(U64, 2 * width, 2 * width + 1);
    assert Power(U64, offset + 1) == U64 * u;
    FitsRing(m, n, u, r);
    var big := Power(U64, 2 * width + 1);
    assert Power(U64, 2 * width + 2) == U64 * big;
  }

  lemma FitsRing(m: int, n: int, u: int, r: int)
    requires 0 <= m < u && 0 <= n < r && U64 * u <= r
    ensures m * n + (U64 - 1) * n * u <= r * r
  {
    MulMonotone(n, m, u);
    assert m * n == n * m;
    assert n * u + (U64 - 1) * n * u == n * (U64 * u);
    MulMonotone(n, U64 * u, r);
    MulMonotone(r, n, r);
    assert n * r == r * n;
  }

  /** Every round's multiplier is one more digit of a number below U64^width. */
  lemma MultiplierDigit(m: int, d: int, u: int, n: int)
    requires 0 <= m < u && 0 <= d < U64
    ensures 0 <= m + d * u < U64 * u && (m + d * u) * n == m * n + d * n * u
  {
    MulMonotone(u, d, U64 - 1);
    assert u * d == d * u && u * (U64 - 1) == U64 * u - u;
    MulMonotone(u, 0, d);
    DigitRing(m, d, u, n);
  }

  lemma DigitRing(m: int, d: int, u: int, n: int)
    ensures (m + d * u) * n == m * n + d * n * u
  {}

  /** After k rounds the multiples added so far make the value divisible by U64^k. */
  ghost predicate Cleared(t: int, m: int, n: int, k: nat) {
    0 <= m < Power(U64, k) && (t + m * n) % Power(U64, k) == 0
  }

  /** The next digit clears one more limb. */
  lemma ClearsNext(work: seq<int>, t: int, m: int, modulus: seq<int>, offset: nat, digit: int)
    requires IsLimbs(U64, work) && IsLimbs(U64, modulus) && modulus != [] && offset < |work| && 0 <= digit < U64
    requires Val(U64, work) == t + m * Val(U64, modulus) && Cleared(t, m, Val(U64, modulus), offset)
    requires (forall k :: 0 <= k < offset ==> work[k] == 0) && (work[offset] + digit * modulus[0]) % U64 == 0
    ensures Cleared(t, m + digit * Power(U64, offset), Val(U64, modulus), offset + 1)
    ensures t + (m + digit * Power(U64, offset)) * Val(U64, modulus)
            == Val(U64, work) + Addend(digit, modulus, offset)
  {
    hide Val, Power, IsLimbs, Addend;
    var u, n, high := Power(U64, offset), Val(U64, modulus), work[offset..];
    PowerPositive(U64, offset);
    DropZeroLimbs(work, offset);
    LowestLimb(high);
    LowestLimb(modulus);
    NextPower(offset);
    ClearsNextDigit(t, m, n, u, digit, high[0], Val(U64, high[1..]), modulus[0], Val(U64, modulus[1..]));
    AddendIs(digit, modulus, offset);
  }

  lemma LowestLimb(s: seq<int>)
    requires s != []
    ensures Val(U64, s) == s[0] + U64 * Val(U64, s[1..])
  {}

  lemma NextPower(k: nat)
    ensures Power(U64, k + 1) == U64 * Power(U64, k)
  {}

  lemma ClearsNextDigit(t: int, m: int, n: int, u: int, digit: int, x: int, high: int, m0: int, rest: int)
    requires u > 0 && 0 <= m < u && 0 <= digit < U64 && (x + digit * m0) % U64 == 0
    requires t + m * n == (x + U64 * high) * u && n == m0 + U64 * rest
    ensures 0 <= m + digit * u < U64 * u && (t + (m + digit * u) * n) % (U64 * u) == 0
    ensures t + (m + digit * u) * n == t + m * n + digit * n * u
  {
    MultiplierDigit(m, digit, u, n);
    var q := (x + digit * m0) / U64;
    NextMultiple(x, m0, digit, high, rest, u, q);
    MultipleModIsZero(U64 * u, q + high + digit * rest);
  }

  lemma NextMultiple(x: int, m0: int, digit: int, high: int, rest: int, u: int, q: int)
    requires x + digit * m0 == U64 * q
    ensures (x + U64 * high) * u + digit * (m0 + U64 * rest) * u == U64 * u * (q + high + digit * rest)
  {
    assert digit * (m0 + U64 * rest) == digit * m0 + U64 * (digit * rest);
    assert (x + U64 * high) + (digit * m0 + U64 * (digit * rest)) == U64 * (q + high + digit * rest);
    Factored(x + U64 * high, digit * (m0 + U64 * rest), U64, q + high + digit * rest, u);
  }

  lemma Factored(a: int, b: int, w: int, s: int, u: int)
    requires a + b == w * s
    ensures a * u + b * u == w * u * s
  {
    assert a * u + b * u == (a + b) * u;
    assert w * s * u == w * u * s;
  }

  /**
   One round per limb.  The carry leaves the array exactly when the value and the multiple that
   clears the limbs so far no longer fit it.
   */
  method ReduceRounds(work: array<int>, modulus: seq<int>, n0: int, ghost t: int)
    returns (inside: bool, ghost m: int, ghost rounds: nat)
    requires IsLimbs(U64, work[..]) && IsLimbs(U64, modulus) && modulus != [] && work.Length == 2 * |modulus| + 2
    requires Cong(U64, n0 * modulus[0], -1) && Val(U64, work[..]) == t
    modifies work
    ensures rounds <= |modulus| && Cleared(t, m, Val(U64, modulus), rounds)
    ensures inside <==> t + m * Val(U64, modulus) < Power(U64, work.Length)
    ensures t < Power(U64, 2 * |modulus| + 1) ==> inside
    ensures IsLimbs(U64, work[..])
    ensures inside ==> rounds == |modulus| && forall k :: 0 <= k < |modulus| ==> work[k] == 0
    ensures inside ==> Val(U64, work[..]) == t + m * Val(U64, modulus)
  {
    var width := |modulus|;
    ghost var n := Val(U64, modulus);
    m, rounds := 0, 0;
    ValBound(U64, work[..]);
    ValBound(U64, modulus);
    hide Val, Power, Cong, Addend;
    NothingCleared(t, n);
    for offset := 0 to width
      invariant IsLimbs(U64, work[..]) && forall k :: 0 <= k < offset ==> work[k] == 0
      invariant rounds == offset && Cleared(t, m, n, offset)
      invariant Val(U64, work[..]) == t + m * n < Power(U64, work.Length)
    {
      ghost var before := work[..];
      if t < Power(U64, 2 * width + 1) { RoundFits(t, m, n, width, offset); }
      ghost var digit;
      inside, digit := Round(work, modulus, n0, offset);
      ClearsNext(before, t, m, modulus, offset, digit);
      if t < Power(U64, 2 * width + 1) { AddendBound(digit, modulus, offset); AddendIs(U64 - 1, modulus, offset); }
      m, rounds := m + digit * Power(U64, offset), offset + 1;
      if !inside { return; }
    }
    inside := true;
  }

  lemma NothingCleared(t: int, n: int)
    ensures Cleared(t, 0, n, 0)
  {}

  lemma AddendIs(m: int, modulus: seq<int>, offset: nat)
    ensures Addend(m, modulus, offset) == m * Val(U64, modulus) * Power(U64, offset)
  {}

  /** Dropping limbs that are zero divides the value by U64^width. */
  lemma DropZeroLimbs(work: seq<int>, width: nat)
    requires width <= |work| && forall k :: 0 <= k < width ==> work[k] == 0
    ensures Val(U64, work) == Val(U64, work[width..]) * Power(U64, width)
  {
    ValSplit(U64, work, width);
    ValZeros(U64, work[..width]);
    hide Val, Power;
    Commutes(Power(U64, width), Val(U64, work[width..]));
  }

  lemma Commutes(a: int, b: int)
    ensures a * b == b * a
  {}

  /** The reduced value is below twice the modulus, and stands for t / R. */
  lemma ReducedOnce(t: int, m: int, n: int, r: int, v: int)
    requires v * r == t + m * n && 0 <= m < r && n > 0
    ensures Cong(n, v * r, t) && Cong(n, (v - n) * r, t)
    ensures t < n * r ==> v < 2 * n
  {
    assert m * n == n * m;
    CongOf(n, v * r, t, m);
    assert (v - n) * r == t + n * (m - r);
    CongOf(n, (v - n) * r, t, m - r);
    if t < n * r && v >= 2 * n {
      MulMonotone(r, 2 * n, v);
      MulMonotone(n, m, r);
    }
  }

  lemma NegatedInverse(m0: int, inverse: int)
    requires Cong(U64, m0 * inverse, 1)
    ensures Cong(U64, ((-inverse) % U64) * m0, -1)
  {
    CongMod(U64, -inverse);
    hide Cong;
    CongScale(U64, m0, (-inverse) % U64, -inverse);
    CongScale(U64, -1, m0 * inverse, 1);
    assert m0 * -inverse == -1 * (m0 * inverse) && m0 * ((-inverse) % U64) == ((-inverse) % U64) * m0;
    CongTrans(U64, ((-inverse) % U64) * m0, m0 * -inverse, -1 * 1);
  }

  predicate BadWidth(elementBytes: nat) {
    elementBytes == 0 || elementBytes % LIMB_BYTES != 0
  }

  /** The final conditional subtraction. */
  method SubtractOnce(high: seq<int>, prime: seq<int>, modulus: seq<int>, ghost t: int, ghost m: int, ghost width: nat)
    returns (result: seq<int>)
    requires IsLimbs(U64, high) && IsLimbs(U64, prime) && Normalised(prime) && IsLimbs(U64, modulus)
    requires modulus != [] && modulus[0] % 2 == 1 && Val(U64, modulus) <= Val(U64, prime)
    requires Val(U64, high) * Power(U64, width) == t + m * Val(U64, modulus) && 0 <= m < Power(U64, width)
    ensures IsLimbs(U64, result) && Normalised(result)
    ensures Val(U64, modulus) == Val(U64, prime) ==>
              && Cong(Val(U64, prime), Val(U64, result) * Power(U64, width), t)
              && (t < Val(U64, prime) * Power(U64, width) ==> Val(U64, result) < Val(U64, prime))
  {
    PositiveModulus(modulus);
    hide Cong, Val, Power;
    ReducedOnce(t, m, Val(U64, modulus), Power(U64, width), Val(U64, high));
    result := Normalize(U64, high);
    var order := Compare(U64, result, prime);
    if order != Less {
      result := Subtract(U64, result, modulus);
    }
  }

  /** What the conversion promises of t, the value cut to the work array. */
  ghost predicate Converted(t: int, p: int, width: nat, limbs: seq<int>) {
    && Cong(p, Val(U64, limbs) * Power(U64, width), t)
    && (t < p * Power(U64, width) ==> Val(U64, limbs) < p)
  }

  /** The conversion modulo an odd modulus of the given width. */
  method Convert(value: seq<int>, prime: seq<int>, modulus: seq<int>, width: nat)
    returns (r: Option<seq<int>>, ghost m: int, ghost rounds: nat)
    requires IsLimbs(U64, value) && IsLimbs(U64, prime) && Normalised(prime) && width >= 1
    requires modulus == Resize(prime, width) && modulus[0] % 2 == 1
    ensures var t, n := Val(U64, Resize(value, 2 * width + 2)), Val(U64, modulus);
            && rounds <= width && Cleared(t, m, n, rounds)
            && (r.None? <==> t + m * n >= Power(U64, 2 * width + 2)) && (r.None? ==> |value| > 2 * width + 1)
            && (r.Some? ==> rounds == width && IsLimbs(U64, r.value) && Normalised(r.value))
            && (r.Some? && |prime| <= width ==> Converted(t, Val(U64, prime), width, r.value))
  {
    hide Cong, Val, Power, Cleared;
    ResizeKeepsValue(U64, prime, width);
    var inverse := InverseModWord(modulus[0]);
    var n0 := (-inverse) % U64;
    NegatedInverse(modulus[0], inverse);

    var start := Resize(value, 2 * width + 2);
    ResizeKeepsValue(U64, value, 2 * width + 2);
    ShortValueFits(value, width);
    hide Resize;
    var work := new int[2 * width + 2](i requires 0 <= i < |start| => start[i]);
    assert work[..] == start;
    ghost var t := Val(U64, start);
    var inside;
    inside, m, rounds := ReduceRounds(work, modulus, n0, t);
    if !inside { return None, m, rounds; }

    var high := work[width..];
    ClearedBound(t, m, Val(U64, modulus), width);
    DropZeroLimbs(work[..], width);
    assert work[..][width..] == high;
    var result := SubtractOnce(high, prime, modulus, t, m, width);
    r := Some(result);
  }

  lemma ClearedBound(t: int, m: int, n: int, k: nat)
    requires Cleared(t, m, n, k)
    ensures 0 <= m < Power(U64, k)
  {}

  /**
   Convert out of Montgomery form: the result r satisfies r * 2^(64*width) = t modulo the prime,
   where t is the value cut to the work array, and is reduced whenever t < prime * 2^(64*width).
   The conversion panics exactly when t and the multiple m of the modulus that clears the low
   limbs do not fit the work array together, which takes a value of more than 2w + 1 limbs.
   */
  method FromMontgomery(value: seq<int>, prime: seq<int>, elementBytes: nat)
    returns (r: Result, ghost m: int, ghost rounds: nat)
    requires IsLimbs(U64, value) && IsLimbs(U64, prime) && Normalised(prime)
    ensures r == Err(InvalidWidth) <==> elementBytes == 0 || elementBytes % 8 != 0
    ensures r == Err(EvenModulus) <==> elementBytes > 0 && elementBytes % 8 == 0 && LimbAt(prime, 0) % 2 == 0
    ensures r.Ok? || r == Err(CarryLeavesArray) ==>
              var width := elementBytes / 8;
              var t, n := Val(U64, Resize(value, 2 * width + 2)), Val(U64, Resize(prime, width));
              && rounds <= width && Cleared(t, m, n, rounds)
              && (r.Err? <==> t + m * n >= Power(U64, 2 * width + 2)) && (r.Err? ==> |value| > 2 * width + 1)
              && (r.Ok? ==> rounds == width && IsLimbs(U64, r.limbs) && Normalised(r.limbs))
              && (r.Ok? && |prime| <= width ==> Converted(t, Val(U64, prime), width, r.limbs))
  {
    hide Converted, Val, Power, Cleared;
    m, rounds := 0, 0;
    if BadWidth(elementBytes) { return Err(InvalidWidth), m, rounds; }
    var width := elementBytes / LIMB_BYTES;
    var modulus := Resize(prime, width);
    if modulus[0] % 2 == 0 { return Err(EvenModulus), m, rounds; }
    var limbs;
    limbs, m, rounds := Convert(value, prime, modulus, width);
    r := if limbs.None? then Err(CarryLeavesArray) else Ok(limbs.value);
  }

  lemma ShortValueFits(value: seq<int>, width: nat)
    requires IsLimbs(U64, value)
    ensures |value| <= 2 * width + 1 ==>
              && Val(U64, Resize(value, 2 * width + 2)) == Val(U64, value)
              && Val(U64, value) < Power(U64, 2 * width + 1)
  {
    if |value| <= 2 * width + 1 {
      ResizeKeepsValue(U64, value, 2 * width + 2);
      ValBound(U64, value);
      PowerMonotone(U64, |value|, 2 * width + 1);
    }
  }

  lemma PositiveModulus(modulus: seq<int>)
    requires IsLimbs(U64, modulus) && modulus != [] && modulus[0] % 2 == 1
    ensures Val(U64, modulus) > 0
  {
    ValBound(U64, modulus[1..]);
  }

  /** Four full limbs over a one-limb modulus of one: clearing the lowest limb carries out of the array. */
  method FullArrayPanics() returns (r: Result)
    ensures r == Err(CarryLeavesArray)
  {
    var full := U64 - 1;
    ghost var m, rounds;
    r, m, rounds := FromMontgomery([full, full, full, full], [1], 8);
    FullArray(full);
    assert 8 / LIMB_BYTES == 1 && !BadWidth(8) && LimbAt([1], 0) % 2 == 1;
    if r.Err? {
      assert !r.error.InvalidWidth? && !r.error.EvenModulus?;
    } else {
      NextMultipleIsFull(Power(U64, 4), m);
    }
  }

  lemma FullArray(full: int)
    requires full == U64 - 1
    ensures Resize([full, full, full, full], 4) == [full, full, full, full]
    ensures Val(U64, [full, full, full, full]) == Power(U64, 4) - 1
    ensures Resize([1], 1) == [1] && Val(U64, [1]) == 1
    ensures Power(U64, 1) == U64 && Power(U64, 4) == U64 * (U64 * (U64 * U64))
  {
    hide Val;
    assert [full][1..] == [] && [full, full][1..] == [full] && [full, full, full][1..] == [full, full];
    assert [full, full, full, full][1..] == [full, full, full] && [1][1..] == [];
    ValZeros(U64, []);
    LowestLimb([1]);
    LowestLimb([full]);
    LowestLimb([full, full]);
    LowestLimb([full, full, full]);
    LowestLimb([full, full, full, full]);
    assert Power(U64, 1) == U64 && Power(U64, 2) == U64 * U64 && Power(U64, 3) == U64 * (U64 * U64);
  }

  lemma NextMultipleIsFull(w: int, m: int)
    requires w == U64 * (U64 * (U64 * U64)) && Power(U64, 1) == U64 && Cleared(w - 1, m, 1, 1)
    ensures w - 1 + m * 1 >= w
  {
    assert (w - 1 + m) % U64 == 0;
  }
}
