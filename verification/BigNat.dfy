/**
 The dealer's hand-written naturals in base 2^32: addition and small multiplication with
 carries, and reduction by repeated subtraction.  Values stay normalised, which is what the
 length-first comparison relies on.
 */
module BigNat {
  import opened Polynomials
  import opened Limbs

  const BASE: int := 0x1_0000_0000

  ghost predicate Valid(x: seq<int>) {
    IsLimbs(BASE, x) && Normalised(x)
  }

  /** A sign and a magnitude; zero is not negative. */
  datatype BigInt = BigInt(negative: bool, magnitude: seq<int>)

  ghost function IntVal(x: BigInt): int {
    if x.negative then -Val(BASE, x.magnitude) else Val(BASE, x.magnitude)
  }

  // ----- addition -----

  /** One limb of an addition: the low word stays and the rest carries. */
  lemma CarryStep(w: int, c: int, x: int, y: int, carried: int, carry: int)
    requires c + BASE * carry == x + y + carried
    ensures c * w + carry * (BASE * w) == x * w + y * w + carried * w
  {
    assert carry * (BASE * w) == (BASE * carry) * w;
    assert (x + y + carried) * w == x * w + y * w + carried * w;
    assert (c + BASE * carry) * w == c * w + (BASE * carry) * w;
  }

  method AddAssign(x: seq<int>, y: seq<int>) returns (out: seq<int>)
    requires Valid(x) && Valid(y)
    ensures Valid(out) && Val(BASE, out) == Val(BASE, x) + Val(BASE, y)
  {
    hide Val;
    var len := if |x| >= |y| then |x| else |y|;
    ghost var a, b := Resize(x, len), Resize(y, len);
    ResizeExtends(BASE, x, len);
    ResizeExtends(BASE, y, len);
    out := Resize(x, len);
    var carry := 0;
    ValZeros(BASE, []);
    assert out[..0] == [] && a[..0] == [] && b[..0] == [];
    for i := 0 to len
      invariant |out| == len && IsLimbs(BASE, out) && 0 <= carry <= 1 && out[i..] == a[i..]
      invariant Val(BASE, out[..i]) + carry * Power(BASE, i) == Val(BASE, a[..i]) + Val(BASE, b[..i])
      invariant i == len > 0 && out[len - 1] == 0 ==> carry == 1
    {
      ghost var before, carried := out, carry;
      assert out[i] == a[i] by { assert out[i..][0] == a[i..][0]; }
      var sum := out[i] + LimbAt(y, i) + carry;
      out, carry := out[i := sum % BASE], sum / BASE;
      assert out[..i] == before[..i];
      ValPrefixStep(BASE, out, i);
      ValPrefixStep(BASE, a, i);
      ValPrefixStep(BASE, b, i);
      CarryStep(Power(BASE, i), out[i], a[i], b[i], carried, carry);
    }
    assert out[..len] == out && a[..len] == a && b[..len] == b;
    if carry != 0 {
      ValPrefixStep(BASE, out + [carry], len);
      assert (out + [carry])[..len] == out && (out + [carry])[..len + 1] == out + [carry];
      out := out + [carry];
    }
  }

  // ----- multiplication by a machine word -----

  method MulSmallAssign(x: seq<int>, rhs: nat) returns (out: seq<int>)
    requires Valid(x)
    ensures Valid(out) && Val(BASE, out) == Val(BASE, x) * rhs
  {
    if rhs == 0 || x == [] {
      ValZeros(BASE, []);
      assert rhs == 0 || Val(BASE, x) == 0;
      return [];
    }
    out := x;
    var carry := 0;
    ValZeros(BASE, x[..0]);
    hide Val;
    for i := 0 to |x|
      invariant |out| == |x| && IsLimbs(BASE, out) && 0 <= carry && out[i..] == x[i..]
      invariant Val(BASE, out[..i]) + carry * Power(BASE, i) == Val(BASE, x[..i]) * rhs
      invariant i == |x| && out[i - 1] == 0 ==> carry > 0
    {
      ghost var before, carried := out, carry;
      assert out[i] == x[i] by { assert out[i..][0] == x[i..][0]; }
      var product := out[i] * rhs + carry;
      ProductNonnegative(out[i], rhs, carry);
      out, carry := out[i := product % BASE], product / BASE;
      assert out[..i] == before[..i];
      ValPrefixStep(BASE, out, i);
      ValPrefixStep(BASE, x, i);
      CarryStep(Power(BASE, i), out[i], x[i] * rhs, 0, carried, carry);
      ScaledLimb(Val(BASE, x[..i]), x[i], rhs, Power(BASE, i));
    }
    assert out[..|x|] == out && x[..|x|] == x;
    out := PushCarry(out, carry);
  }

  lemma ProductNonnegative(x: int, rhs: int, carry: int)
    requires x >= 0 && rhs > 0 && carry >= 0
    ensures x * rhs + carry >= 0 && (x > 0 ==> x * rhs + carry > 0)
  {}

  lemma ScaledLimb(v: int, x: int, rhs: int, w: int)
    ensures (v + x * w) * rhs == v * rhs + (x * rhs) * w
  {}

  /** Append what is left of the carry, one limb at a time. */
  method PushCarry(x: seq<int>, rest: nat) returns (out: seq<int>)
    requires IsLimbs(BASE, x) && x != [] && (x[|x| - 1] == 0 ==> rest > 0)
    ensures Valid(out) && Val(BASE, out) == Val(BASE, x) + rest * Power(BASE, |x|)
  {
    out := x;
    var carry := rest;
    hide Val;
    while carry != 0
      invariant IsLimbs(BASE, out) && out != [] && carry >= 0
      invariant out[|out| - 1] == 0 ==> carry > 0
      invariant Val(BASE, out) + carry * Power(BASE, |out|) == Val(BASE, x) + rest * Power(BASE, |x|)
      decreases carry
    {
      var k, low, high := |out|, carry % BASE, carry / BASE;
      ValPrefixStep(BASE, out + [low], k);
      assert (out + [low])[..k] == out && (out + [low])[..k + 1] == out + [low];
      CarryStep(Power(BASE, k), low, carry, 0, 0, high);
      out, carry := out + [low], high;
    }
  }

  // ----- modular steps -----

  /** self * rhs + addend, brought below the modulus by subtracting it. */
  method MulSmallAddMod(x: seq<int>, rhs: nat, addend: seq<int>, modulus: seq<int>) returns (out: seq<int>)
    requires Valid(x) && Valid(addend) && Valid(modulus) && modulus != []
    ensures Valid(out) && Val(BASE, modulus) > 0
    ensures Val(BASE, out) == (Val(BASE, x) * rhs + Val(BASE, addend)) % Val(BASE, modulus)
  {
    var scaled := MulSmallAssign(x, rhs);
    out := AddAssign(scaled, addend);
    ghost var total, m := Val(BASE, out), Val(BASE, modulus);
    NormalisedBound(BASE, modulus);
    PowerPositive(BASE, |modulus| - 1);
    ghost var times := 0;
    var order := Compare(BASE, out, modulus);
    hide Val;
    while order != Less
      invariant Valid(out) && Val(BASE, out) == total - m * times
      invariant order == Less <==> Val(BASE, out) < m
      decreases Val(BASE, out)
    {
      out := Subtract(BASE, out, modulus);
      times := times + 1;
      assert m * times == m * (times - 1) + m;
      order := Compare(BASE, out, modulus);
    }
    ValBound(BASE, out);
    SubtractedIsMod(total, m, times, Val(BASE, out));
  }

  lemma SubtractedIsMod(total: int, m: int, times: int, r: int)
    requires m > 0 && r == total - m * times && 0 <= r < m
    ensures r == total % m
  {
    var q, s := total / m, total % m;
    assert total == m * q + s;
    assert m * (times - q) == s - r;
    MultipleWithin(m, times - q);
  }

  lemma MultipleWithin(m: int, k: int)
    requires m > 0
    ensures -m < m * k < m ==> k == 0
  {}

  /** The residue of a signed value whose magnitude is below the modulus. */
  method Modulo(x: BigInt, modulus: seq<int>) returns (out: seq<int>)
    requires Valid(x.magnitude) && Valid(modulus) && Val(BASE, x.magnitude) < Val(BASE, modulus)
    ensures Valid(out) && Val(BASE, modulus) > 0 && Val(BASE, out) == IntVal(x) % Val(BASE, modulus)
  {
    ghost var v, m := Val(BASE, x.magnitude), Val(BASE, modulus);
    ValBound(BASE, x.magnitude);
    if x.negative && x.magnitude != [] {
      NormalisedBound(BASE, x.magnitude);
      PowerPositive(BASE, |x.magnitude| - 1);
      out := Subtract(BASE, modulus, x.magnitude);
      SubtractedIsMod(-v, m, -1, m - v);
    } else {
      if x.magnitude == [] { ValZeros(BASE, x.magnitude); }
      out := x.magnitude;
      SubtractedIsMod(v, m, 0, v);
    }
  }
}
