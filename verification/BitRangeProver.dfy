/**
 The provers of the bit-decomposition range proof and of the interval proof, for every
 draw of their random scalars: what they emit is always accepted, and they refuse exactly
 the values outside the range.
 */
module BitRangeProver {
  import opened Basics
  import opened Modular
  import opened Polynomials
  import opened Limbs
  import opened LinearSystem
  import opened Group
  import opened Sigma
  import opened BitRange

  /** The scalars drawn for one bit: its blinding and its proof's randomness. */
  datatype BitDraw = BitDraw(blinding: int, k: int, cFake: int, zFake: int)
  datatype LinkDraw = LinkDraw(kValue: int, kBlinding: int)

  ghost predicate AreDraws(p: int, draws: seq<BitDraw>) {
    forall i :: 0 <= i < |draws| ==> Canonical(p, draws[i].cFake)
  }

  // ----- binary digits -----

  /** The low bit after shifting right by i. */
  function BitAt(v: nat, i: nat): nat { if i == 0 then v % 2 else BitAt(v / 2, i - 1) }

  ghost function Binary(v: nat, n: nat): (r: seq<int>)
    ensures |r| == n
  {
    seq(n, i requires 0 <= i => BitAt(v, i))
  }

  lemma {:induction false} BinaryValue(v: nat, n: nat)
    requires v < Power(2, n)
    ensures Eval(Binary(v, n), 2) == v
  {
    if n > 0 {
      assert Binary(v, n)[1..] == Binary(v / 2, n - 1);
      BinaryValue(v / 2, n - 1);
    }
  }

  lemma {:induction false} NoHighBits(v: nat, i: nat)
    requires v < Power(2, i)
    ensures BitAt(v, i) == 0
  {
    if i > 0 { NoHighBits(v / 2, i - 1); }
  }

  predicate ValueFits(value: nat, bits: nat) { bits >= 64 || value < Power(2, bits) }

  function BitOf(value: nat, index: nat): bool { index < 64 && BitAt(value, index) == 1 }

  lemma {:induction false} BitAtIsBit(v: nat, i: nat)
    ensures BitAt(v, i) == 0 || BitAt(v, i) == 1
  {
    if i > 0 { BitAtIsBit(v / 2, i - 1); }
  }

  lemma BitOfValue(value: nat, index: nat)
    requires value < U64
    ensures BitValue(BitOf(value, index)) == BitAt(value, index)
  {
    BitAtIsBit(value, index);
    if index >= 64 {
      TwoToTheWord();
      PowerMonotone(2, 64, index);
      NoHighBits(value, index);
    }
  }

  // ----- one range -----

  ghost function Blindings(draws: seq<BitDraw>): (r: seq<int>)
    ensures |r| == |draws| && forall i :: 0 <= i < |draws| ==> r[i] == draws[i].blinding
  {
    seq(|draws|, i requires 0 <= i < |draws| => draws[i].blinding)
  }

  /** The blinding of the weighted sum. */
  method CombineBlindings(p: int, draws: seq<BitDraw>) returns (combined: int)
    requires p > 0
    ensures Cong(p, combined, Eval(Blindings(draws), 2))
  {
    combined := 0;
    var weight := 1 % p;
    ghost var rs := Blindings(draws);
    CongMod(p, 1);
    CongRefl(p, 0);
    hide Cong;
    for j := 0 to |draws|
      invariant Cong(p, weight, Power(2, j)) && Cong(p, combined, Eval(rs[..j], 2))
    {
      EvalPrefixStep(rs, j, 2);
      CombineStep(p, combined, Eval(rs[..j], 2), draws[j].blinding, weight, Power(2, j));
      combined := Add(p, combined, Mul(p, draws[j].blinding, weight));
      weight := Add(p, weight, weight);
    }
    assert rs[..|draws|] == rs;
  }

  lemma CombineStep(p: int, combined: int, e: int, r: int, weight: int, w: int)
    requires p > 0 && Cong(p, combined, e) && Cong(p, weight, w)
    ensures Cong(p, Add(p, combined, Mul(p, r, weight)), e + r * w)
    ensures Cong(p, Add(p, weight, weight), 2 * w)
  {
    var m := Mul(p, r, weight);
    Ops(p, r, weight);
    Ops(p, combined, m);
    Ops(p, weight, weight);
    hide Cong, Add, Mul;
    CongScale(p, r, weight, w);
    CongTrans(p, m, r * weight, r * w);
    CongAdd(p, combined, e, m, r * w);
    CongTrans(p, Add(p, combined, m), combined + m, e + r * w);
    CongAdd(p, weight, w, weight, w);
    CongTrans(p, Add(p, weight, weight), weight + weight, 2 * w);
  }

  /** The bit commitments, one per little-endian bit. */
  method CommitBits(p: int, key: Key, value: nat, draws: seq<BitDraw>) returns (cs: seq<Point>)
    requires p > 0
    ensures |cs| == |draws|
    ensures forall i :: 0 <= i < |cs| ==> cs[i] == Commit(p, key, BitValue(BitOf(value, i)), draws[i].blinding)
  {
    cs := [];
    for i := 0 to |draws|
      invariant |cs| == i
      invariant forall k :: 0 <= k < i ==> cs[k] == Commit(p, key, BitValue(BitOf(value, k)), draws[k].blinding)
    {
      cs := cs + [Commit(p, key, BitValue(BitOf(value, i)), draws[i].blinding)];
    }
  }

  method ProveBits(p: int, key: Key, oracle: Oracle, value: nat, cs: seq<Point>, draws: seq<BitDraw>, context: string)
    returns (proofs: seq<BitProof>)
    requires p > 0 && |cs| == |draws| <= 65536 && AreDraws(p, draws)
    requires forall i :: 0 <= i < |cs| ==> cs[i] == Commit(p, key, BitValue(BitOf(value, i)), draws[i].blinding)
    ensures |proofs| == |draws|
    ensures forall i :: 0 <= i < |proofs| ==> VerifyBit(p, key, oracle, BitTranscript(context, i), cs[i], proofs[i])
  {
    proofs := [];
    hide VerifyBit, ProveBit, Commit;
    for i := 0 to |draws|
      invariant |proofs| == i
      invariant forall k :: 0 <= k < i ==> VerifyBit(p, key, oracle, BitTranscript(context, k), cs[k], proofs[k])
    {
      var d, bit := draws[i], BitOf(value, i);
      BitComplete(p, key, oracle, BitTranscript(context, i), cs[i], bit, d.blinding, d.k, d.cFake, d.zFake);
      proofs := proofs + [ProveBit(p, key, oracle, BitTranscript(context, i), cs[i], bit, d.blinding, d.k, d.cFake,
                                   d.zFake)];
    }
  }

  /** What is left after the weighted bits is a multiple of h, with the left-over blinding. */
  lemma ResidualIsBlinding(p: int, key: Key, commitment: Point, value: nat, blinding: int, bits: nat, cs: seq<Point>,
                           draws: seq<BitDraw>, combined: int)
    requires p > 0 && value < U64 && value < Power(2, bits) && |cs| == |draws| == bits
    requires commitment == Commit(p, key, value, blinding)
    requires forall i :: 0 <= i < bits ==> cs[i] == Commit(p, key, BitValue(BitOf(value, i)), draws[i].blinding)
    requires Cong(p, combined, Eval(Blindings(draws), 2))
    ensures PSub(p, commitment, Weighted(p, cs)) == PScale(p, key.h, Sub(p, blinding, combined))
  {
    var w, rb := Weighted(p, cs), Sub(p, blinding, combined);
    var residual := PSub(p, commitment, w);
    forall first ensures Cong(p, At(residual, first), At(PScale(p, key.h, rb), first)) {
      ResidualCoordinate(p, key, commitment, value, blinding, bits, cs, draws, combined, first);
      PointOps(p, key.h, key.h, rb, first);
      CongSym(p, At(PScale(p, key.h, rb), first), rb * At(key.h, first));
    }
    PointOps(p, commitment, w, 0, true);
    PointOps(p, key.h, key.h, rb, true);
    SamePoint(p, residual, PScale(p, key.h, rb));
  }

  lemma ResidualCoordinate(p: int, key: Key, commitment: Point, value: nat, blinding: int, bits: nat, cs: seq<Point>,
                           draws: seq<BitDraw>, combined: int, first: bool)
    requires p > 0 && value < U64 && value < Power(2, bits) && |cs| == |draws| == bits
    requires commitment == Commit(p, key, value, blinding)
    requires forall i :: 0 <= i < bits ==> cs[i] == Commit(p, key, BitValue(BitOf(value, i)), draws[i].blinding)
    requires Cong(p, combined, Eval(Blindings(draws), 2))
    ensures Cong(p, At(PSub(p, commitment, Weighted(p, cs)), first), Sub(p, blinding, combined) * At(key.h, first))
  {
    var g, h := At(key.g, first), At(key.h, first);
    var column, bs, rs := Column(cs, first), Binary(value, bits), Blindings(draws);
    assert OpensTo(p, column, bs, rs, g, h) by {
      forall i | 0 <= i < bits ensures Cong(p, column[i], bs[i] * g + rs[i] * h) {
        BitOfValue(value, i);
        CommitAt(p, key, BitValue(BitOf(value, i)), draws[i].blinding, first);
      }
    }
    WeightedOpens(p, column, bs, rs, g, h);
    BinaryValue(value, bits);
    WeightedAt(p, cs, first);
    CommitAt(p, key, value, blinding, first);
    PointOps(p, commitment, Weighted(p, cs), 0, first);
    Ops(p, blinding, combined);
    hide Cong, OpensTo, Sub, PSub, Commit, Weighted, Eval, At;
    Residual(p, At(commitment, first), At(Weighted(p, cs), first), Eval(column, 2),
             At(PSub(p, commitment, Weighted(p, cs)), first),
             value, blinding, Eval(rs, 2), combined, Sub(p, blinding, combined), g, h);
  }

  lemma Residual(p: int, c: int, w: int, e: int, residual: int, v: int, r: int, s: int, combined: int, rb: int, g: int,
                 h: int)
    requires p > 0 && Cong(p, c, v * g + r * h) && Cong(p, w, e) && Cong(p, e, v * g + s * h)
    requires Cong(p, residual, c - w) && Cong(p, combined, s) && Cong(p, rb, r - combined)
    ensures Cong(p, residual, rb * h)
  {
    hide Cong;
    CongTrans(p, w, e, v * g + s * h);
    CongSub(p, c, v * g + r * h, w, v * g + s * h);
    CongTrans(p, residual, c - w, v * g + r * h - (v * g + s * h));
    CongRefl(p, r);
    CongSub(p, r, r, combined, s);
    CongTrans(p, rb, r - combined, r - s);
    CongScale(p, h, rb, r - s);
    assert h * rb == rb * h && h * (r - s) == v * g + r * h - (v * g + s * h);
    CongSym(p, rb * h, v * g + r * h - (v * g + s * h));
    CongTrans(p, residual, v * g + r * h - (v * g + s * h), rb * h);
  }

  /** Prove that the commitment opens to `value` in [0, 2^bits). */
  method ProveRange(p: int, key: Key, oracle: Oracle, commitment: Point, value: nat, blinding: int, bits: nat,
                    context: string,
                    draws: seq<BitDraw>, link: LinkDraw) returns (r: Result<RangeProof>)
    requires p > 0 && value < U64 && |draws| == bits && AreDraws(p, draws)
    ensures r == Err(OutsideRange) <==> !ValueFits(value, bits)
    ensures r == Err(WidthExceedsIndex) <==> ValueFits(value, bits) && bits > 65536
    ensures r.Ok? <==> ValueFits(value, bits) && bits <= 65536
    ensures r.Ok? ==> r.value.bits == bits
    ensures r.Ok? && commitment == Commit(p, key, value, blinding) ==>
              RangeAccepts(p, key, oracle, commitment, r.value, context)
  {
    if !ValueFits(value, bits) { return Err(OutsideRange); }
    if bits > 65536 { return Err(WidthExceedsIndex); }
    var cs := CommitBits(p, key, value, draws);
    var proofs := ProveBits(p, key, oracle, value, cs, draws, context);
    var aggregate := Aggregate(p, cs);
    var combined := CombineBlindings(p, draws);
    var residual, residualBlinding := PSub(p, commitment, aggregate), Sub(p, blinding, combined);
    var tr := LinkTranscript(context);
    var linkage := ProveZeroOpening(p, key, oracle, tr, residual, residualBlinding, link.kValue, link.kBlinding);
    if commitment == Commit(p, key, value, blinding) {
      FitsWidth(value, bits);
      ResidualIsBlinding(p, key, commitment, value, blinding, bits, cs, draws, combined);
      ZeroOpeningComplete(p, key, oracle, tr, residual, residualBlinding, link.kValue, link.kBlinding);
    }
    r := Ok(RangeProof(cs, proofs, linkage, bits));
  }

  lemma FitsWidth(value: nat, bits: nat)
    requires value < U64 && ValueFits(value, bits)
    ensures value < Power(2, bits)
  {
    if bits >= 64 {
      TwoToTheWord();
      PowerMonotone(2, 64, bits);
    }
  }

  // ----- the interval -----

  /** Prove both value - low >= 0 and high - value >= 0, each at the interval's own width. */
  method ProveBounded(p: int, key: Key, oracle: Oracle, value: int, blinding: int, low: int, high: int, context: string,
                      above: seq<BitDraw>, aboveLink: LinkDraw, below: seq<BitDraw>, belowLink: LinkDraw)
    returns (r: Result<(Point, BoundedProof)>)
    requires p > 0 && IsI64(value) && IsI64(low) && IsI64(high) && AreDraws(p, above) && AreDraws(p, below)
    requires low <= high ==> |above| == |below| == IntervalBits(high - low)
    ensures r == Err(EmptyInterval) <==> high < low
    ensures r == Err(OutsideInterval) <==> low <= high && !(low <= value <= high)
    ensures r.Ok? <==> low <= value <= high
    ensures r.Ok? ==> r.value.0 == Commit(p, key, value % p, blinding)
    ensures r.Ok? ==> BoundedAccepts(p, key, oracle, r.value.0, r.value.1, low, high, context)
    ensures r.Ok? ==> LeastWidth(high - low, r.value.1.bits) && r.value.1.bits <= 64
  {
    hide Commit, ShiftCommitment, BelowCommitment, RangeAccepts, Power, IntervalBits, SideContext, AreDraws, Neg;
    var span := high - low;
    if span < 0 { return Err(EmptyInterval); }
    if value < low || value > high { return Err(OutsideInterval); }
    var bits, aboveValue := IntervalBits(span), value - low;
    IntervalBitsBound(span);
    var commitment := Commit(p, key, value % p, blinding);
    ShiftedCommitments(p, key, value, blinding, low, high);
    var a := ProveRange(p, key, oracle, ShiftCommitment(p, key, commitment, low), aboveValue, blinding, bits,
                        SideContext(context, true), above, aboveLink);
    var b := ProveRange(p, key, oracle, BelowCommitment(p, key, commitment, high), span - aboveValue, Neg(p, blinding),
                        bits, SideContext(context, false), below, belowLink);
    r := Ok((commitment, BoundedProof(a.value, b.value, bits)));
  }

  lemma ShiftedCommitments(p: int, key: Key, value: int, blinding: int, low: int, high: int)
    requires p > 0
    ensures var c := Commit(p, key, value % p, blinding);
            && ShiftCommitment(p, key, c, low) == Commit(p, key, value - low, blinding)
            && BelowCommitment(p, key, c, high) == Commit(p, key, high - value, Neg(p, blinding))
  {
    var c := Commit(p, key, value % p, blinding);
    var up, down := ShiftCommitment(p, key, c, low), BelowCommitment(p, key, c, high);
    forall first
      ensures Cong(p, At(up, first), (value - low) * At(key.g, first) + blinding * At(key.h, first))
      ensures Cong(p, At(down, first), (high - value) * At(key.g, first) + Neg(p, blinding) * At(key.h, first))
      ensures IsPoint(p, up) && IsPoint(p, down)
    {
      ShiftedAt(p, key, c, low, high, first);
      CommitAt(p, key, value % p, blinding, first);
      CongMod(p, value);
      Ops(p, blinding, 0);
      hide Commit, ShiftCommitment, BelowCommitment, Cong, Neg, At;
      ShiftedCoordinate(p, At(c, first), At(up, first), At(down, first), value % p, value, blinding, Neg(p, blinding),
                        low, high,
                        At(key.g, first), At(key.h, first));
    }
    assert IsPoint(p, up) && IsPoint(p, down) by { ShiftedAt(p, key, c, low, high, true); }
    OpenedBy(p, key, up, value - low, blinding);
    OpenedBy(p, key, down, high - value, Neg(p, blinding));
  }

  lemma ShiftedCoordinate(p: int, c: int, up: int, down: int, vm: int, v: int, r: int, nr: int, low: int, high: int,
                          g: int, h: int)
    requires p > 0 && Cong(p, c, vm * g + r * h) && Cong(p, vm, v) && Cong(p, nr, -r)
    requires Cong(p, up, c - low * g) && Cong(p, down, high * g - c)
    ensures Cong(p, up, (v - low) * g + r * h) && Cong(p, down, (high - v) * g + nr * h)
  {
    hide Cong;
    CongRefl(p, g);
    CongRefl(p, h);
    CongRefl(p, r * h);
    CongRefl(p, low * g);
    CongRefl(p, high * g);
    CongMul(p, vm, v, g, g);
    CongAdd(p, vm * g, v * g, r * h, r * h);
    CongTrans(p, c, vm * g + r * h, v * g + r * h);
    CongSub(p, c, v * g + r * h, low * g, low * g);
    CongTrans(p, up, c - low * g, v * g + r * h - low * g);
    CongSub(p, high * g, high * g, c, v * g + r * h);
    CongTrans(p, down, high * g - c, high * g - (v * g + r * h));
    CongMul(p, nr, -r, h, h);
    CongSym(p, nr * h, -r * h);
    CongRefl(p, (high - v) * g);
    CongAdd(p, (high - v) * g, (high - v) * g, -r * h, nr * h);
    assert v * g + r * h - low * g == (v - low) * g + r * h;
    assert high * g - (v * g + r * h) == (high - v) * g + -r * h;
    CongTrans(p, down, (high - v) * g + -r * h, (high - v) * g + nr * h);
  }
}
