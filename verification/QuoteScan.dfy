/**
 * The quote auction twice over: the clear reference that scans the makers one by one, and the
 * circuit that gates, packs and runs the oblivious tournament; and exactly when the two agree.
 */
module QuoteScan {
  import opened Basics
  import opened Circuit
  import opened Counting
  import opened Tournament

  datatype Policy = Policy(asset: int, askLevel: int, spread: int, slope: int, invcoef: int, inv: int,
                           maxqty: int, expiry: int, active: int, useRef: int)

  /** `dir` is one for a sale; `isReal` is zero on a cover lane. */
  datatype Request = Request(asset: nat, qty: int, dir: int, limit: int, isReal: int, now: int)

  datatype Venue = Venue(anchored: bool, refTable: seq<int>, auditGates: bool)

  predicate Serves(v: Venue, req: Request) {
    (v.anchored ==> req.asset < |v.refTable|) && (req.dir == 0 || req.dir == 1) && (req.isReal == 0 || req.isReal == 1)
  }

  function Anchor(v: Venue, policy: Policy, req: Request): int
    requires Serves(v, req)
  {
    if v.anchored then policy.useRef * v.refTable[req.asset] + policy.askLevel else policy.askLevel
  }

  function Ask(v: Venue, policy: Policy, req: Request): int
    requires Serves(v, req)
  {
    Anchor(v, policy, req) + policy.slope * req.qty + policy.invcoef * policy.inv
  }

  function Bid(v: Venue, policy: Policy, req: Request): int
    requires Serves(v, req)
  {
    Anchor(v, policy, req) - policy.spread - policy.slope * req.qty + policy.invcoef * policy.inv
  }

  /** With audited gates the expiry has been proved at registration and is not asked again. */
  predicate Eligible(v: Venue, policy: Policy, req: Request) {
    policy.asset == req.asset && req.qty <= policy.maxqty && policy.active == 1
        && (v.auditGates || policy.expiry > req.now)
  }

  /** What the requester pays; a sale is paid for with the negated bid. */
  function Cost(v: Venue, policy: Policy, req: Request): int
    requires Serves(v, req)
  {
    if req.dir == 1 then -Bid(v, policy, req) else Ask(v, policy, req)
  }

  // ----- the clear scan -----

  datatype Quote = Quote(mm: nat, ask: int, bid: int, eligible: bool)
  datatype Best = Best(value: int, mm: nat)
  datatype ClearReference = ClearReference(quotes: seq<Quote>, bestCost: Option<Best>, bestAsk: Option<Best>,
                                           bestBid: Option<Best>)

  /** The least value among the eligible, ties to the lowest index. */
  ghost predicate IsBest(values: seq<int>, eligible: seq<bool>, best: Option<Best>)
    requires |values| == |eligible|
  {
    match best
    case None => forall i :: 0 <= i < |eligible| ==> !eligible[i]
    case Some(b) =>
      && b.mm < |values| && eligible[b.mm] && values[b.mm] == b.value
      && (forall i :: 0 <= i < |values| && eligible[i] ==> b.value <= values[i])
      && (forall i :: 0 <= i < b.mm && eligible[i] ==> b.value < values[i])
  }

  ghost function Costs(v: Venue, policies: seq<Policy>, req: Request): (r: seq<int>)
    requires Serves(v, req)
    ensures |r| == |policies| && forall i :: 0 <= i < |r| ==> r[i] == Cost(v, policies[i], req)
  {
    seq(|policies|, i requires 0 <= i < |policies| => Cost(v, policies[i], req))
  }

  ghost function Asks(v: Venue, policies: seq<Policy>, req: Request): (r: seq<int>)
    requires Serves(v, req)
    ensures |r| == |policies| && forall i :: 0 <= i < |r| ==> r[i] == Ask(v, policies[i], req)
  {
    seq(|policies|, i requires 0 <= i < |policies| => Ask(v, policies[i], req))
  }

  ghost function NegatedBids(v: Venue, policies: seq<Policy>, req: Request): (r: seq<int>)
    requires Serves(v, req)
    ensures |r| == |policies| && forall i :: 0 <= i < |r| ==> r[i] == -Bid(v, policies[i], req)
  {
    seq(|policies|, i requires 0 <= i < |policies| => -Bid(v, policies[i], req))
  }

  ghost function Gates(v: Venue, policies: seq<Policy>, req: Request): (r: seq<bool>)
    ensures |r| == |policies| && forall i :: 0 <= i < |r| ==> r[i] == Eligible(v, policies[i], req)
  {
    seq(|policies|, i requires 0 <= i < |policies| => Eligible(v, policies[i], req))
  }

  function Improves(current: Option<Best>, value: int): bool { current.None? || value < current.value.value }

  function Negated(best: Option<Best>): Option<Best> {
    if best.None? then None else Some(best.value.(value := -best.value.value))
  }

  lemma BestStep(values: seq<int>, eligible: seq<bool>, k: nat, best: Option<Best>)
    requires |values| == |eligible| && k < |values| && IsBest(values[..k], eligible[..k], best)
    ensures IsBest(values[..k + 1], eligible[..k + 1],
                   if eligible[k] && Improves(best, values[k]) then Some(Best(values[k], k)) else best)
  {}

  // The source works in 128-bit integers with checked operations.
  const I128: int := 0x8000_0000_0000_0000_0000_0000_0000_0000

  predicate Fits(x: int) { -I128 <= x < I128 }

  function Checked(x: int): Option<int> { if Fits(x) then Some(x) else None }

  datatype Overflow = SkewOverflow | DepthOverflow | AnchorOverflow | AskOverflow | BidOverflow | CostOverflow

  /** The first step of a maker's prices that leaves the machine integer, if any does. */
  function Fault(v: Venue, policy: Policy, req: Request): Option<Overflow>
    requires Serves(v, req)
  {
    var anchor, depth := Anchor(v, policy, req), policy.slope * req.qty;
    if !Fits(policy.invcoef * policy.inv) then Some(SkewOverflow)
    else if !Fits(depth) then Some(DepthOverflow)
    else if v.anchored && !(Fits(policy.useRef * v.refTable[req.asset]) && Fits(anchor)) then Some(AnchorOverflow)
    else if !(Fits(anchor + depth) && Fits(Ask(v, policy, req))) then Some(AskOverflow)
    else if !(Fits(anchor - policy.spread) && Fits(anchor - policy.spread - depth) && Fits(Bid(v, policy, req))) then
      Some(BidOverflow)
    else if Eligible(v, policy, req) && req.dir == 1 && !Fits(-Bid(v, policy, req)) then Some(CostOverflow)
    else None
  }

  datatype Scan = Scanned(reference: ClearReference) | Overflowed(error: Overflow)

  /** No maker before k faults. */
  ghost predicate Sound(v: Venue, policies: seq<Policy>, req: Request, k: nat)
    requires Serves(v, req) && k <= |policies|
  {
    forall i :: 0 <= i < k ==> Fault(v, policies[i], req).None?
  }

  /** One maker's prices, each step checked; the negation of the bid is the source's only unchecked one. */
  method PriceMaker(v: Venue, policy: Policy, req: Request) returns (fault: Option<Overflow>, ask: int, bid: int)
    requires Serves(v, req)
    ensures fault == Fault(v, policy, req)
    ensures fault.None? ==> ask == Ask(v, policy, req) && bid == Bid(v, policy, req)
  {
    ask, bid := 0, 0;
    var skew := Checked(policy.invcoef * policy.inv);
    if skew.None? { return Some(SkewOverflow), 0, 0; }
    var depth := Checked(policy.slope * req.qty);
    if depth.None? { return Some(DepthOverflow), 0, 0; }
    var anchor := Some(policy.askLevel);
    if v.anchored {
      anchor := Checked(policy.useRef * v.refTable[req.asset]);
      if anchor.Some? { anchor := Checked(anchor.value + policy.askLevel); }
    }
    if anchor.None? { return Some(AnchorOverflow), 0, 0; }
    var buy := Checked(anchor.value + depth.value);
    if buy.Some? { buy := Checked(buy.value + skew.value); }
    if buy.None? { return Some(AskOverflow), 0, 0; }
    var sell := Checked(anchor.value - policy.spread);
    if sell.Some? { sell := Checked(sell.value - depth.value); }
    if sell.Some? { sell := Checked(sell.value + skew.value); }
    if sell.None? { return Some(BidOverflow), 0, 0; }
    if Eligible(v, policy, req) && req.dir == 1 && !Fits(-sell.value) { return Some(CostOverflow), 0, 0; }
    return None, buy.value, sell.value;
  }

  /**
   Scan the makers in order, keeping the best of each side and of the requester's own.  The scan
   ends in an error exactly when some maker's prices overflow, and then in the first one's.
   */
  method CleartextReference(v: Venue, policies: seq<Policy>, req: Request) returns (scan: Scan)
    requires Serves(v, req)
    ensures scan.Scanned? <==> Sound(v, policies, req, |policies|)
    ensures scan.Overflowed? ==>
              exists k :: 0 <= k < |policies| && Sound(v, policies, req, k)
                  && Fault(v, policies[k], req) == Some(scan.error)
    ensures scan.Scanned? ==>
              var r := scan.reference;
              && |r.quotes| == |policies|
              && (forall i :: 0 <= i < |policies| ==> r.quotes[i] == QuoteOf(v, policies, req, i))
              && IsBest(Costs(v, policies, req), Gates(v, policies, req), r.bestCost)
              && IsBest(Asks(v, policies, req), Gates(v, policies, req), r.bestAsk)
              && IsBest(NegatedBids(v, policies, req), Gates(v, policies, req), Negated(r.bestBid))
  {
    hide Ask, Bid, Eligible, IsBest, Fault;
    ghost var costs, asks := Costs(v, policies, req), Asks(v, policies, req);
    ghost var bids, gates := NegatedBids(v, policies, req), Gates(v, policies, req);
    var bestCost, bestAsk, bestBid := None, None, None;
    var quotes := [];
    NothingYet(costs, gates);
    NothingYet(asks, gates);
    NothingYet(bids, gates);
    for k := 0 to |policies|
      invariant |quotes| == k && Sound(v, policies, req, k)
      invariant forall i :: 0 <= i < k ==> quotes[i] == QuoteOf(v, policies, req, i)
      invariant IsBest(costs[..k], gates[..k], bestCost)
      invariant IsBest(asks[..k], gates[..k], bestAsk)
      invariant IsBest(bids[..k], gates[..k], Negated(bestBid))
    {
      var fault, ask, bid := PriceMaker(v, policies[k], req);
      if fault.Some? { return Overflowed(fault.value); }
      var eligible := Eligible(v, policies[k], req);
      quotes := quotes + [Quote(k, ask, bid, eligible)];
      BestStep(costs, gates, k, bestCost);
      BestStep(asks, gates, k, bestAsk);
      BestStep(bids, gates, k, Negated(bestBid));
      if eligible {
        if bestAsk.None? || ask < bestAsk.value.value { bestAsk := Some(Best(ask, k)); }
        if bestBid.None? || bid > bestBid.value.value { bestBid := Some(Best(bid, k)); }
        var cost := if req.dir == 1 then -bid else ask;
        if bestCost.None? || cost < bestCost.value.value { bestCost := Some(Best(cost, k)); }
      }
    }
    assert costs[..|policies|] == costs && asks[..|policies|] == asks;
    assert bids[..|policies|] == bids && gates[..|policies|] == gates;
    scan := Scanned(ClearReference(quotes, bestCost, bestAsk, bestBid));
  }

  ghost function QuoteOf(v: Venue, policies: seq<Policy>, req: Request, i: nat): Quote
    requires Serves(v, req) && i < |policies|
  {
    Quote(i, Ask(v, policies[i], req), Bid(v, policies[i], req), Eligible(v, policies[i], req))
  }

  lemma NothingYet(values: seq<int>, eligible: seq<bool>)
    requires |values| == |eligible|
    ensures IsBest(values[..0], eligible[..0], None)
  {}

  /** The packed key of the reference, or the sentinel's when nobody is eligible. */
  function FinishedKey(best: Option<Best>, makers: nat, sentinel: int): int {
    match best
    case None => sentinel * makers
    case Some(b) => b.value * makers + b.mm
  }

  function FinishedCost(best: Option<Best>, sentinel: int): int {
    if best.None? then sentinel else best.value.value
  }

  // ----- the circuit -----

  /** The eligibility bit is a product of bits. */
  function OkBit(v: Venue, policy: Policy, req: Request): int {
    var gate := policy.active * Truth(policy.asset == req.asset) * Truth(req.qty <= policy.maxqty);
    if v.auditGates then gate else gate * Truth(policy.expiry > req.now)
  }

  /** An excluded maker costs the sentinel. */
  function GatedCost(v: Venue, policy: Policy, req: Request, large: int): int
    requires Serves(v, req)
  {
    Mux(OkBit(v, policy, req), Mux(req.dir, -Bid(v, policy, req), Ask(v, policy, req)), large)
  }

  ghost predicate ActiveIsABit(policies: seq<Policy>) {
    forall i :: 0 <= i < |policies| ==> policies[i].active == 0 || policies[i].active == 1
  }

  lemma GateIsCost(v: Venue, policy: Policy, req: Request, large: int)
    requires Serves(v, req) && (policy.active == 0 || policy.active == 1)
    ensures GatedCost(v, policy, req, large) == if Eligible(v, policy, req) then Cost(v, policy, req) else large
  {
    hide Ask, Bid, Mux;
    assert OkBit(v, policy, req) == Truth(Eligible(v, policy, req));
    MuxSelects(-Bid(v, policy, req), Ask(v, policy, req));
    MuxSelects(Cost(v, policy, req), large);
  }

  ghost function Keys(v: Venue, policies: seq<Policy>, req: Request, large: int): (r: seq<int>)
    requires Serves(v, req)
    ensures |r| == |policies|
    ensures forall i :: 0 <= i < |r| ==> r[i] == PackKey(GatedCost(v, policies[i], req, large), |policies|, i)
  {
    seq(|policies|, i requires 0 <= i < |policies| => PackKey(GatedCost(v, policies[i], req, large), |policies|, i))
  }

  lemma KeysAreDistinct(v: Venue, policies: seq<Policy>, req: Request, large: int)
    requires Serves(v, req)
    ensures Distinct(Keys(v, policies, req, large))
  {
    hide PackKey, GatedCost;
    var keys, m := Keys(v, policies, req, large), |policies|;
    forall i, j | 0 <= i < j < m ensures keys[i] != keys[j] {
      PackOrders(m, GatedCost(v, policies[i], req, large), i, GatedCost(v, policies[j], req, large), j);
    }
  }

  /** Up to two, the generator emits the binary forms. */
  function EffectiveArity(arity: nat): nat { if arity <= 2 then 2 else arity }

  /** Gate and pack every maker, then search; a cover lane's answers are multiplied away. */
  method Auction(v: Venue, policies: seq<Policy>, req: Request, large: int, arity: nat)
    returns (bestKey: int, fill: int)
    requires Serves(v, req) && |policies| >= 1
    ensures var winner := Winner(Keys(v, policies, req, large), EffectiveArity(arity));
            && bestKey == winner * req.isReal
            && fill == Truth(winner <= PackKey(CostLimit(req), |policies|, |policies| - 1)) * req.isReal
  {
    hide GatedCost, PackKey;
    var m := |policies|;
    var keys := [];
    for i := 0 to m
      invariant |keys| == i
      invariant forall k :: 0 <= k < i ==> keys[k] == PackKey(GatedCost(v, policies[k], req, large), m, k)
    {
      keys := keys + [PackKey(GatedCost(v, policies[i], req, large), m, i)];
    }
    assert keys == Keys(v, policies, req, large);
    KeysAreDistinct(v, policies, req, large);
    var limitKey := PackKey(CostLimit(req), m, m - 1);
    var rawKey, rawFill;
    if arity <= 2 {
      rawKey, rawFill := ArgminFillBinary(keys, limitKey);
    } else {
      rawKey, rawFill := ArgminFillKary(keys, arity, limitKey);
    }
    bestKey, fill := rawKey * req.isReal, rawFill * req.isReal;
  }

  /** Buy at no more than the limit, sell at no less: in signed costs, one comparison. */
  function CostLimit(req: Request): int { Mux(req.dir, -req.limit, req.limit) }

  // ----- the refinement -----

  /** Maker i is eligible and its key lies below the sentinel key of every excluded maker. */
  ghost predicate BeatsSentinels(v: Venue, policies: seq<Policy>, req: Request, large: int, i: nat)
    requires Serves(v, req) && i < |policies|
  {
    && Eligible(v, policies[i], req)
    && forall j :: 0 <= j < |policies| && !Eligible(v, policies[j], req) ==>
         PackKey(Cost(v, policies[i], req), |policies|, i) < PackKey(large, |policies|, j)
  }

  /** If anyone is eligible, some eligible maker's key lies below every sentinel key. */
  ghost predicate SentinelIsClear(v: Venue, policies: seq<Policy>, req: Request, large: int)
    requires Serves(v, req)
  {
    (exists i :: 0 <= i < |policies| && Eligible(v, policies[i], req)) ==>
      exists i :: 0 <= i < |policies| && BeatsSentinels(v, policies, req, large, i)
  }

  /** A maker that beats the sentinels lends that to the best one. */
  lemma BestBeatsSentinels(v: Venue, policies: seq<Policy>, req: Request, large: int, best: Option<Best>, i: nat)
    requires Serves(v, req) && IsBest(Costs(v, policies, req), Gates(v, policies, req), best)
    requires i < |policies| && BeatsSentinels(v, policies, req, large, i)
    ensures best.Some? && BeatsSentinels(v, policies, req, large, best.value.mm)
  {
    hide Eligible, Cost, PackKey;
    var m := |policies|;
    assert Gates(v, policies, req)[i] && Costs(v, policies, req)[i] == Cost(v, policies[i], req);
    PackOrders(m, best.value.value, best.value.mm, Cost(v, policies[i], req), i);
    if best.value.value == Cost(v, policies[i], req) { PackTies(m, best.value.value, best.value.mm, i); }
  }

  lemma ScanKeyIsLeast(v: Venue, policies: seq<Policy>, req: Request, large: int, best: Option<Best>)
    requires Serves(v, req) && |policies| >= 1 && ActiveIsABit(policies)
    requires IsBest(Costs(v, policies, req), Gates(v, policies, req), best)
    requires best.Some? ==> BeatsSentinels(v, policies, req, large, best.value.mm)
    ensures IsLeast(FinishedKey(best, |policies|, large), Keys(v, policies, req, large))
  {
    hide GatedCost, Ask, Bid, Eligible, Cost;
    var keys, m := Keys(v, policies, req, large), |policies|;
    var at, cost := if best.None? then 0 else best.value.mm, FinishedCost(best, large);
    GateIsCost(v, policies[at], req, large);
    assert keys[at] == PackKey(cost, m, at) == FinishedKey(best, m, large);
    forall i | 0 <= i < m ensures keys[at] <= keys[i] {
      GateIsCost(v, policies[i], req, large);
      PackOrders(m, cost, at, GatedCost(v, policies[i], req, large), i);
    }
  }

  lemma LeastIsUnique(r: int, s: int, keys: seq<int>)
    requires IsLeast(r, keys) && IsLeast(s, keys)
    ensures r == s
  {}

  /**
   * The tournament over the gated, packed costs returns the clear scan's key exactly when nobody
   * is eligible or some eligible maker's key lies below every excluded maker's sentinel key.
   */
  lemma TournamentIsScanIff(v: Venue, policies: seq<Policy>, req: Request, large: int, arity: nat, best: Option<Best>)
    requires Serves(v, req) && |policies| >= 1 && ActiveIsABit(policies) && arity >= 2
             && SplitsEvenly(|policies|, arity)
    requires IsBest(Costs(v, policies, req), Gates(v, policies, req), best)
    ensures Winner(Keys(v, policies, req, large), arity) == FinishedKey(best, |policies|, large)
            <==> SentinelIsClear(v, policies, req, large)
  {
    hide GatedCost, PackKey, Eligible, Winner, BeatsSentinels, Cost;
    var keys, m := Keys(v, policies, req, large), |policies|;
    WinnerIsLeast(keys, arity);
    if best.None? || BeatsSentinels(v, policies, req, large, best.value.mm) {
      ScanKeyIsLeast(v, policies, req, large, best);
      LeastIsUnique(Winner(keys, arity), FinishedKey(best, m, large), keys);
      NobodyEligible(v, policies, req, best);
    } else {
      UndercutLoses(v, policies, req, large, best);
      if i :| 0 <= i < m && BeatsSentinels(v, policies, req, large, i) {
        BestBeatsSentinels(v, policies, req, large, best, i);
      }
    }
  }

  lemma NobodyEligible(v: Venue, policies: seq<Policy>, req: Request, best: Option<Best>)
    requires Serves(v, req) && IsBest(Costs(v, policies, req), Gates(v, policies, req), best)
    ensures best.None? <==> forall i :: 0 <= i < |policies| ==> !Eligible(v, policies[i], req)
  {
    hide Eligible, Cost;
    if best.None? {
      forall i | 0 <= i < |policies| ensures !Eligible(v, policies[i], req) { assert !Gates(v, policies, req)[i]; }
    }
  }

  lemma UndercutLoses(v: Venue, policies: seq<Policy>, req: Request, large: int, best: Option<Best>)
    requires Serves(v, req) && |policies| >= 1 && ActiveIsABit(policies)
    requires IsBest(Costs(v, policies, req), Gates(v, policies, req), best)
    requires best.Some? && !BeatsSentinels(v, policies, req, large, best.value.mm)
    ensures !IsLeast(FinishedKey(best, |policies|, large), Keys(v, policies, req, large))
  {
    hide GatedCost, Ask, Bid, Eligible, Cost;
    var keys, m := Keys(v, policies, req, large), |policies|;
    var j :| 0 <= j < m && !Eligible(v, policies[j], req)
             && PackKey(best.value.value, m, best.value.mm) >= PackKey(large, m, j);
    GateIsCost(v, policies[j], req, large);
    GateIsCost(v, policies[best.value.mm], req, large);
    PackOrders(m, best.value.value, best.value.mm, large, j);
    assert keys[j] == PackKey(large, m, j);
  }

  /** A sentinel above every eligible cost is clear. */
  lemma SentinelAboveCosts(v: Venue, policies: seq<Policy>, req: Request, large: int)
    requires Serves(v, req)
    requires forall i :: 0 <= i < |policies| && Eligible(v, policies[i], req) ==> Cost(v, policies[i], req) < large
    ensures SentinelIsClear(v, policies, req, large)
  {
    hide PackKey, Eligible, Cost;
    if i :| 0 <= i < |policies| && Eligible(v, policies[i], req) {
      forall j | 0 <= j < |policies| && !Eligible(v, policies[j], req)
        ensures PackKey(Cost(v, policies[i], req), |policies|, i) < PackKey(large, |policies|, j)
      {
        PackOrders(|policies|, Cost(v, policies[i], req), i, large, j);
      }
      assert BeatsSentinels(v, policies, req, large, i);
    }
  }

  /** The limit comparison on keys is the limit comparison on costs. */
  lemma AuctionIsScan(v: Venue, policies: seq<Policy>, req: Request, large: int, arity: nat, best: Option<Best>)
    requires Serves(v, req) && |policies| >= 1 && ActiveIsABit(policies) && arity >= 2
             && SplitsEvenly(|policies|, arity)
    requires IsBest(Costs(v, policies, req), Gates(v, policies, req), best)
    requires SentinelIsClear(v, policies, req, large)
    ensures Winner(Keys(v, policies, req, large), arity) == FinishedKey(best, |policies|, large)
    ensures Winner(Keys(v, policies, req, large), arity) <= PackKey(CostLimit(req), |policies|, |policies| - 1)
            <==> FinishedCost(best, large) <= if req.dir == 1 then -req.limit else req.limit
  {
    hide GatedCost, PackKey, Eligible, Winner, Cost, SentinelIsClear;
    var m := |policies|;
    TournamentIsScanIff(v, policies, req, large, arity, best);
    FinishedIsPacked(best, m, large);
    PackOrders(m, FinishedCost(best, large), if best.None? then 0 else best.value.mm, CostLimit(req), m - 1);
    MuxSelects(-req.limit, req.limit);
  }

  lemma FinishedIsPacked(best: Option<Best>, makers: nat, large: int)
    ensures FinishedKey(best, makers, large)
            == PackKey(FinishedCost(best, large), makers, if best.None? then 0 else best.value.mm)
  {}

  /**
   Both sides run together.  With a clear sentinel the auction opens the clear scan's key and
   fills exactly when the scan's best cost is within the limit; on a cover lane it opens zero twice.
   */
  method AuctionWithReference(v: Venue, policies: seq<Policy>, req: Request, large: int, arity: nat)
    returns (scan: Scan, bestKey: int, fill: int)
    requires Serves(v, req) && |policies| >= 1 && ActiveIsABit(policies)
    requires SplitsEvenly(|policies|, EffectiveArity(arity)) && SentinelIsClear(v, policies, req, large)
    ensures scan.Scanned? <==> Sound(v, policies, req, |policies|)
    ensures scan.Scanned? && req.isReal == 1 ==>
              && bestKey == FinishedKey(scan.reference.bestCost, |policies|, large)
              && fill == Truth(FinishedCost(scan.reference.bestCost, large) <= if req.dir == 1 then -req.limit
                               else req.limit)
    ensures req.isReal == 0 ==> bestKey == 0 && fill == 0
  {
    hide SentinelIsClear, ActiveIsABit, SplitsEvenly, Winner, FinishedKey, FinishedCost, PackKey, IsBest, Sound;
    scan := CleartextReference(v, policies, req);
    bestKey, fill := Auction(v, policies, req, large, arity);
    if scan.Scanned? { AuctionIsScan(v, policies, req, large, EffectiveArity(arity), scan.reference.bestCost); }
  }

  // ----- an uneven tournament costs a real auction its best maker -----

  /** Makers that ask the given costs, all eligible for `ONE`. */
  ghost function Asking(costs: seq<int>): (r: seq<Policy>)
    ensures |r| == |costs| && forall i :: 0 <= i < |r| ==> r[i] == Policy(0, costs[i], 0, 0, 0, 0, 1, 1, 1, 0)
  {
    seq(|costs|, i requires 0 <= i < |costs| => Policy(0, costs[i], 0, 0, 0, 0, 1, 1, 1, 0))
  }

  const PLAIN: Venue := Venue(false, [], false)
  const ONE: Request := Request(0, 1, 0, 0, 1, 0)

  lemma AskingKeys(costs: seq<int>, large: int)
    ensures ActiveIsABit(Asking(costs)) && Serves(PLAIN, ONE) && SentinelIsClear(PLAIN, Asking(costs), ONE, large)
    ensures Keys(PLAIN, Asking(costs), ONE, large) == Packed(costs)
    ensures Costs(PLAIN, Asking(costs), ONE) == costs
    ensures forall i :: 0 <= i < |costs| ==> Gates(PLAIN, Asking(costs), ONE)[i]
  {
    hide GatedCost, PackKey;
    forall i | 0 <= i < |costs|
      ensures Cost(PLAIN, Asking(costs)[i], ONE) == costs[i] && Eligible(PLAIN, Asking(costs)[i], ONE)
      ensures Keys(PLAIN, Asking(costs), ONE, large)[i] == Packed(costs)[i]
    {
      GateIsCost(PLAIN, Asking(costs)[i], ONE, large);
    }
    if costs != [] { assert BeatsSentinels(PLAIN, Asking(costs), ONE, large, 0); }
  }

  /**
   For every uneven size there are n eligible makers whose auction, whatever the sentinel, does not
   return the clear scan's key.
   */
  lemma UnevenAuctionLoses(n: nat, arity: nat) returns (policies: seq<Policy>)
    requires n >= 1 && arity >= 2 && !SplitsEvenly(n, arity)
    ensures |policies| == n && ActiveIsABit(policies)
    ensures forall large: int, best: Option<Best> ::
              IsBest(Costs(PLAIN, policies, ONE), Gates(PLAIN, policies, ONE), best) ==>
              Winner(Keys(PLAIN, policies, ONE, large), arity) != FinishedKey(best, n, large)
  {
    hide Winner, PackKey, Cost, GatedCost, Eligible;
    var costs := UnevenPackedLoses(n, arity);
    policies := Asking(costs);
    forall large: int, best: Option<Best> | IsBest(Costs(PLAIN, policies, ONE), Gates(PLAIN, policies, ONE), best)
      ensures Winner(Keys(PLAIN, policies, ONE, large), arity) != FinishedKey(best, n, large)
    {
      AskingKeys(costs, large);
      if best.Some? { assert BeatsSentinels(PLAIN, policies, ONE, large, best.value.mm); }
      ScanKeyIsLeast(PLAIN, policies, ONE, large, best);
    }
  }
}
