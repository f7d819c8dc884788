/**
 * The packing sentinel, and the width of the differences the minimality proof persists.
 */
module Packing {
  import opened Polynomials
  import opened QuoteScan
  import opened Tournament
  import Limbs

  datatype Error = CannotPack | TooNarrow | SpanTooWide
  datatype Result = Ok(sentinel: int) | Err(error: Error)

  datatype Config = Config(bitLength: nat, makers: nat, refTable: seq<int>, refMid: int, persistQuoteProof: bool,
                           spanBits: nat)

  /** The largest cost that leaves room for the packed index and a sign. */
  function SentinelFor(bitLength: nat, makers: nat, maxCost: int): (r: Result)
    ensures r.Ok? ==>
              && 2 <= bitLength <= 127 && makers >= 1 && r.sentinel >= 0 && r.sentinel > maxCost
              && r.sentinel * makers <= Power(2, bitLength - 2) < (r.sentinel + 1) * makers
  {
    if !(2 <= bitLength <= 127) || makers == 0 then Err(CannotPack) else
    var headroom := Power(2, bitLength - 2);
    Limbs.PowerPositive(2, bitLength - 2);
    var sentinel := headroom / makers;
    Floor(headroom, makers);
    if sentinel <= maxCost then Err(TooNarrow) else Ok(sentinel)
  }

  lemma Floor(h: int, m: nat)
    requires h >= 0 && m >= 1
    ensures h / m >= 0 && h / m * m <= h < (h / m + 1) * m
  {
    assert h == m * (h / m) + h % m;
    assert (h / m + 1) * m == h / m * m + m;
  }

  function Largest(s: seq<int>): (r: int)
    requires s != []
    ensures r in s && forall i :: 0 <= i < |s| ==> s[i] <= r
  {
    if |s| == 1 then s[0] else
    var rest := Largest(s[..|s| - 1]);
    assert s == s[..|s| - 1] + [s[|s| - 1]];
    if rest <= s[|s| - 1] then s[|s| - 1] else rest
  }

  /** The width keys may use: the circuit's, and no more than the declared difference range. */
  function PackingBits(c: Config): nat {
    if c.persistQuoteProof && c.spanBits < c.bitLength then c.spanBits else c.bitLength
  }

  function PackingSentinel(c: Config): Result {
    if c.persistQuoteProof && c.spanBits >= 0x1_0000_0000 then Err(SpanTooWide)
    else SentinelFor(PackingBits(c), c.makers, 8 * if c.refTable == [] then c.refMid else Largest(c.refTable))
  }

  ghost function References(c: Config): seq<int> { if c.refTable == [] then [c.refMid] else c.refTable }

  /** The refusals of the bare sentinel, without the division. */
  lemma SentinelAcceptedIff(bitLength: nat, makers: nat, maxCost: int)
    ensures SentinelFor(bitLength, makers, maxCost).Ok?
            <==> 2 <= bitLength <= 127 && makers >= 1 && (maxCost + 1) * makers <= Power(2, bitLength - 2)
  {
    if 2 <= bitLength <= 127 && makers >= 1 {
      var h := Power(2, bitLength - 2);
      Limbs.PowerPositive(2, bitLength - 2);
      Floor(h, makers);
      var q := h / makers;
      hide Power;
      if q > maxCost {
        MulOrdered(maxCost + 1, q, makers);
      } else {
        MulOrdered(q + 1, maxCost + 1, makers);
      }
    }
  }

  lemma MulOrdered(a: int, b: int, m: nat)
    requires a <= b
    ensures a * m <= b * m
  {}

  /** A configuration is accepted exactly when eight times every reference leaves room in the narrower width. */
  lemma PackingAcceptedIff(c: Config)
    ensures var bits := if c.persistQuoteProof && c.spanBits < c.bitLength then c.spanBits else c.bitLength;
            PackingSentinel(c).Ok?
            <==> && (c.persistQuoteProof ==> c.spanBits < 0x1_0000_0000)
                 && 2 <= bits <= 127 && c.makers >= 1
                 && forall r :: r in References(c) ==> (8 * r + 1) * c.makers <= Power(2, bits - 2)
  {
    hide Power, SentinelFor;
    var top := if c.refTable == [] then c.refMid else Largest(c.refTable);
    assert top in References(c);
    SentinelAcceptedIff(PackingBits(c), c.makers, 8 * top);
    forall r | r in References(c) ensures (8 * r + 1) * c.makers <= (8 * top + 1) * c.makers {
      MulOrdered(8 * r + 1, 8 * top + 1, c.makers);
    }
  }

  // ----- the persisted differences -----

  /** Costs the gates can leave: an eligible maker's own, or the sentinel. */
  ghost predicate WithinSentinel(costs: seq<int>, sentinel: int) {
    forall i :: 0 <= i < |costs| ==> -sentinel <= costs[i] <= sentinel
  }

  /** Every difference from the best key decomposes into the declared number of bits. */
  ghost predicate DifferencesFit(keys: seq<int>, span: nat) {
    forall i, j :: 0 <= i < |keys| && 0 <= j < |keys| && IsLeast(keys[j], keys) ==>
      0 <= keys[i] - keys[j] < Power(2, span)
  }

  ghost predicate BiasedNonNegative(keys: seq<int>, sentinel: int) {
    forall i :: 0 <= i < |keys| ==> keys[i] + sentinel * |keys| >= 0
  }

  lemma KeyRange(cost: int, sentinel: int, makers: nat, i: nat)
    requires -sentinel <= cost <= sentinel && i < makers
    ensures -(sentinel * makers) <= PackKey(cost, makers, i) <= sentinel * makers + makers - 1
  {
    assert (cost + sentinel) * makers >= 0 && (sentinel - cost) * makers >= 0;
  }

  lemma {:induction false} Doubles(k: nat)
    ensures Power(2, k + 1) == 2 * Power(2, k)
  {}

  /** Once a cost fits at all, so does every difference. */
  lemma RoomForDifferences(bits: nat, makers: nat, sentinel: int)
    requires bits >= 2 && sentinel >= 1 && makers >= 1 && sentinel * makers <= Power(2, bits - 2)
    ensures 2 * (sentinel * makers) + makers - 1 < Power(2, bits)
  {
    Doubles(bits - 2);
    Doubles(bits - 1);
    assert makers <= sentinel * makers by { Gap(makers, 0, sentinel); assert makers * sentinel == sentinel * makers; }
  }

  /**
   * For every accepted configuration that persists quote proofs: the differences of all gated
   * costs fit the declared span exactly when the makers' indices do.
   */
  lemma SpanHoldsIff(c: Config)
    requires PackingSentinel(c).Ok? && c.persistQuoteProof
    ensures (forall costs: seq<int> :: |costs| == c.makers && WithinSentinel(costs, PackingSentinel(c).sentinel) ==>
               DifferencesFit(Packed(costs), c.spanBits))
            <==> c.makers <= Power(2, c.spanBits)
  {
    var s, m := PackingSentinel(c).sentinel, c.makers;
    if m <= Power(2, c.spanBits) {
      forall costs: seq<int> | |costs| == m && WithinSentinel(costs, s)
        ensures DifferencesFit(Packed(costs), c.spanBits)
      {
        SpanHolds(c, costs);
      }
    } else {
      var costs := seq(m, _ => 0);
      AllZeroCosts(m, c.spanBits);
    }
  }

  lemma SpanHolds(c: Config, costs: seq<int>)
    requires PackingSentinel(c).Ok? && c.persistQuoteProof && |costs| == c.makers
    requires WithinSentinel(costs, PackingSentinel(c).sentinel)
    requires c.makers <= Power(2, c.spanBits)
    ensures DifferencesFit(Packed(costs), c.spanBits)
  {
    hide PackKey;
    var s, m, keys := PackingSentinel(c).sentinel, c.makers, Packed(costs);
    Limbs.PowerMonotone(2, PackingBits(c), c.spanBits);
    if s >= 1 { RoomForDifferences(PackingBits(c), m, s); }
    hide PackingSentinel;
    forall i, j | 0 <= i < m && 0 <= j < m && IsLeast(keys[j], keys)
      ensures 0 <= keys[i] - keys[j] < Power(2, c.spanBits)
    {
      KeyRange(costs[i], s, m, i);
      KeyRange(costs[j], s, m, j);
    }
  }

  /** A positive sentinel leaves room for every index. */
  lemma PositiveSentinelHoldsIndices(c: Config)
    requires PackingSentinel(c).Ok? && PackingSentinel(c).sentinel >= 1 && c.persistQuoteProof
    ensures c.makers <= Power(2, c.spanBits)
  {
    var s, m := PackingSentinel(c).sentinel, c.makers;
    Limbs.PowerMonotone(2, PackingBits(c), c.spanBits);
    RoomForDifferences(PackingBits(c), m, s);
  }

  lemma AllZeroCosts(makers: nat, span: nat)
    requires makers >= 1 && makers > Power(2, span)
    ensures !DifferencesFit(Packed(seq(makers, _ => 0)), span)
  {
    var keys := Packed(seq(makers, _ => 0));
    assert forall i :: 0 <= i < makers ==> keys[i] == i;
    assert IsLeast(keys[0], keys);
    assert keys[makers - 1] - keys[0] == makers - 1;
  }

  /** Non-negative references make the sentinel positive, so the differences fit and the biased keys are naturals. */
  lemma NonNegativeReferencesFit(c: Config, costs: seq<int>)
    requires PackingSentinel(c).Ok? && c.persistQuoteProof && |costs| == c.makers
    requires c.refTable == [] ==> c.refMid >= 0
    requires forall i :: 0 <= i < |c.refTable| ==> c.refTable[i] >= 0
    requires WithinSentinel(costs, PackingSentinel(c).sentinel)
    ensures DifferencesFit(Packed(costs), c.spanBits)
    ensures BiasedNonNegative(Packed(costs), PackingSentinel(c).sentinel)
  {
    PositiveSentinelHoldsIndices(c);
    SpanHolds(c, costs);
    forall i | 0 <= i < |costs| ensures Packed(costs)[i] + PackingSentinel(c).sentinel * |costs| >= 0 {
      KeyRange(costs[i], PackingSentinel(c).sentinel, |costs|, i);
    }
  }

  /** A negative reference lets the sentinel reach zero: 1024 makers in two bits are accepted. */
  lemma NegativeReferenceOverflows()
    ensures var c := Config(2, 1024, [-1], 0, true, 2);
            PackingSentinel(c) == Ok(0) && !DifferencesFit(Packed(seq(1024, _ => 0)), c.spanBits)
  {
    var c := Config(2, 1024, [-1], 0, true, 2);
    assert Largest(c.refTable) == -1;
    assert Power(2, 0) == 1 && Power(2, 2) == 4;
    AllZeroCosts(1024, 2);
  }

  /** The circuit's own keys are the packed gated costs, so the bound is about what it persists. */
  lemma AuctionKeysArePacked(v: Venue, policies: seq<Policy>, req: Request, large: int)
    requires Serves(v, req)
    ensures Keys(v, policies, req, large)
            == Packed(seq(|policies|, i requires 0 <= i < |policies| => GatedCost(v, policies[i], req, large)))
  {
    hide GatedCost, PackKey;
  }

  /** Every wire `key_m - best_key` of a real request's auction is a natural of the declared width. */
  lemma PersistedDifferencesFit(c: Config, v: Venue, policies: seq<Policy>, req: Request, arity: nat, i: nat)
    requires PackingSentinel(c).Ok? && c.persistQuoteProof && |policies| == c.makers && i < c.makers
    requires c.refTable == [] ==> c.refMid >= 0
    requires forall k :: 0 <= k < |c.refTable| ==> c.refTable[k] >= 0
    requires Serves(v, req) && arity >= 2 && SplitsEvenly(c.makers, arity)
    requires var large := PackingSentinel(c).sentinel;
             forall k :: 0 <= k < |policies| ==> -large <= GatedCost(v, policies[k], req, large) <= large
    ensures var keys := Keys(v, policies, req, PackingSentinel(c).sentinel);
            && 0 <= keys[i] - Winner(keys, arity) < Power(2, c.spanBits)
            && keys[i] + PackingSentinel(c).sentinel * c.makers >= 0
  {
    hide GatedCost, PackKey, Power;
    var large := PackingSentinel(c).sentinel;
    var costs := seq(|policies|, i requires 0 <= i < |policies| => GatedCost(v, policies[i], req, large));
    var keys := Keys(v, policies, req, large);
    AuctionKeysArePacked(v, policies, req, large);
    NonNegativeReferencesFit(c, costs);
    WinnerIsLeast(keys, arity);
    var j :| 0 <= j < |keys| && keys[j] == Winner(keys, arity);
  }
}
