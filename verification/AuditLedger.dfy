/**
 * The audit ledger as an object: opening, recording and settling rewrite its fields, and each is
 * proved to be the corresponding step.
 */
module AuditLedger {
  import opened Basics
  import opened Receipts

  predicate Has(tally: map<Digest, seq<nat>>, d: Digest, n: nat) { d in tally && n in tally[d] }

  predicate NoneEmpty(tally: map<Digest, seq<nat>>) { forall d: Digest :: d in tally ==> tally[d] != [] }

  predicate Backs(s: State, spec: SlotSpec, inbox: Inbox, n: nat, d: Digest) {
    n in inbox && Supports(s, spec, inbox, n, d)
  }

  /** The tally lists, per supported state, exactly its supporters. */
  ghost predicate TallyOf(s: State, spec: SlotSpec, inbox: Inbox, tally: map<Digest, seq<nat>>) {
    && (forall d: Digest :: d in tally <==> Supporters(s, spec, inbox, d) != {})
    && (forall d: Digest, n: nat :: d in tally ==> (n in tally[d] <==> n in Supporters(s, spec, inbox, d)))
  }

  /** Collect, per new state, the nodes with a counting receipt. */
  method Tally(s: State, spec: SlotSpec, inbox: Inbox) returns (tally: map<Digest, seq<nat>>)
    ensures TallyOf(s, spec, inbox, tally)
  {
    hide Backs;
    tally := map[];
    var rest := inbox.Keys;
    while rest != {}
      invariant rest <= inbox.Keys && NoneEmpty(tally)
      invariant forall d: Digest, n: nat :: Has(tally, d, n) <==> n in inbox.Keys - rest && Backs(s, spec, inbox, n, d)
      decreases |rest|
    {
      var node :| node in rest;
      ghost var before := tally;
      tally := TallyNode(s, spec, inbox, node, tally);
      rest := rest - {node};
      forall d: Digest, n: nat ensures Has(tally, d, n) <==> n in inbox.Keys - rest && Backs(s, spec, inbox, n, d) {
        assert Has(tally, d, n) <==> Has(before, d, n) || (n == node && Backs(s, spec, inbox, n, d));
      }
    }
    TallyIsSupport(s, spec, inbox, tally);
  }

  lemma TallyIsSupport(s: State, spec: SlotSpec, inbox: Inbox, tally: map<Digest, seq<nat>>)
    requires NoneEmpty(tally)
    requires forall d: Digest, n: nat :: Has(tally, d, n) <==> n in inbox.Keys && Backs(s, spec, inbox, n, d)
    ensures TallyOf(s, spec, inbox, tally)
  {
    hide Supports;
    forall d: Digest, n: nat ensures Has(tally, d, n) <==> n in Supporters(s, spec, inbox, d) {
      assert Backs(s, spec, inbox, n, d) <==> n in Supporters(s, spec, inbox, d);
    }
    forall d: Digest ensures d in tally <==> Supporters(s, spec, inbox, d) != {} {
      if d in tally { assert Has(tally, d, tally[d][0]); }
      if n: nat :| n in Supporters(s, spec, inbox, d) { assert Has(tally, d, n); }
    }
    forall d: Digest, n: nat | d in tally ensures n in tally[d] <==> n in Supporters(s, spec, inbox, d) {
      assert Has(tally, d, n) <==> n in Supporters(s, spec, inbox, d);
    }
  }

  method TallyNode(s: State, spec: SlotSpec, inbox: Inbox, node: nat, before: map<Digest, seq<nat>>)
    returns (tally: map<Digest, seq<nat>>)
    requires node in inbox && NoneEmpty(before)
    ensures NoneEmpty(tally)
    ensures forall d: Digest, n: nat ::
              Has(tally, d, n) <==> Has(before, d, n) || (n == node && Backs(s, spec, inbox, n, d))
  {
    hide Counts;
    tally := before;
    var items := inbox[node];
    for k := 0 to |items|
      invariant NoneEmpty(tally)
      invariant forall d: Digest, n: nat ::
                  Has(tally, d, n) <==> Has(before, d, n) || (n == node && Voted(s, spec, inbox, node, d, k))
    {
      var d := items[k].newState;
      ghost var earlier := tally;
      if Counts(s, spec, node, items[k]) {
        tally := tally[d := (if d in tally then tally[d] else []) + [node]];
      }
      forall e: Digest, n: nat
        ensures Has(tally, e, n) <==> Has(before, e, n) || (n == node && Voted(s, spec, inbox, node, e, k + 1))
      {
        OneMoreVote(s, spec, inbox, node, e, k);
        assert Has(earlier, e, n) <==> Has(before, e, n) || (n == node && Voted(s, spec, inbox, node, e, k));
      }
    }
  }

  lemma OneMoreVote(s: State, spec: SlotSpec, inbox: Inbox, node: nat, d: Digest, k: nat)
    requires node in inbox && k < |inbox[node]|
    ensures Voted(s, spec, inbox, node, d, k + 1)
            <==> Voted(s, spec, inbox, node, d, k)
                 || (inbox[node][k].newState == d && Counts(s, spec, node, inbox[node][k]))
  {
    hide Counts;
  }

  function Nodes(votes: seq<nat>): set<nat> { set n | n in votes }

  /** The state with the most distinct nodes; of several, the last in order. */
  method MostVoted(s: State, spec: SlotSpec, inbox: Inbox, tally: map<Digest, seq<nat>>) returns (best: Digest)
    requires tally != map[]
    requires TallyOf(s, spec, inbox, tally)
    ensures best in tally && IsPlurality(s, spec, inbox, best)
  {
    hide Supporters;
    var rest := tally.Keys;
    best :| best in rest;
    rest := rest - {best};
    while rest != {}
      invariant rest <= tally.Keys && best in tally && best !in rest
      invariant forall d: Digest :: d in tally && d !in rest ==>
                  |Nodes(tally[d])| < |Nodes(tally[best])| || (|Nodes(tally[d])| == |Nodes(tally[best])| && d <= best)
      decreases |rest|
    {
      var d :| d in rest;
      rest := rest - {d};
      if |Nodes(tally[d])| > |Nodes(tally[best])| || (|Nodes(tally[d])| == |Nodes(tally[best])| && d > best) {
        best := d;
      }
    }
    forall d: Digest | d in tally ensures Nodes(tally[d]) == Supporters(s, spec, inbox, d) {
      assert forall n: nat :: n in Nodes(tally[d]) <==> n in Supporters(s, spec, inbox, d);
    }
  }

  /** The listing order of the source's ordered maps. */
  method Listed(s: set<nat>) returns (r: seq<nat>)
    ensures r == Ascending(s)
  {
    hide Inserted;
    r := [];
    var rest := s;
    while rest != {}
      invariant rest <= s && Ascends(r, s - rest)
      decreases |rest|
    {
      var n :| n in rest;
      InsertedAscends(r, s - rest, n);
      r := Inserted(r, n);
      assert s - rest + {n} == s - (rest - {n});
      rest := rest - {n};
    }
    assert s - rest == s;
    AscendingIs(r, Ascending(s), s);
  }

  method Lates(s: State, spec: SlotSpec, inbox: Inbox) returns (found: seq<Evidence>)
    ensures found == Late(s, spec, inbox, Ascending(s.nodeKeys.Keys))
  {
    hide Fresh, Ascending;
    var nodes := Listed(s.nodeKeys.Keys);
    found := [];
    for k := 0 to |nodes|
      invariant found == Late(s, spec, inbox, nodes[..k])
    {
      assert nodes[..k + 1][..k] == nodes[..k];
      if !Fresh(s, spec, inbox, nodes[k]) {
        found := found + [Evidence(MissingReceipt, nodes[k], spec.slot, NotByDeadline, [])];
      }
    }
    assert nodes[..|nodes|] == nodes;
  }

  method MinorityOf(slot: nat, nodes: seq<nat>) returns (found: seq<Evidence>)
    ensures found == Minorities(slot, nodes)
  {
    found := [];
    for k := 0 to |nodes|
      invariant found == Minorities(slot, nodes[..k])
    {
      assert nodes[..k + 1][..k] == nodes[..k];
      found := found + [Evidence(ForkedState, nodes[k], slot, Minority, [])];
    }
    assert nodes[..|nodes|] == nodes;
  }

  method Forks(s: State, spec: SlotSpec, inbox: Inbox, tally: map<Digest, seq<nat>>, plurality: Digest)
    returns (found: seq<Evidence>)
    requires TallyOf(s, spec, inbox, tally)
    ensures found == Forked(s, spec, inbox, plurality, Ascending(Supported(s, spec, inbox)))
  {
    hide Supporters, Supported, Ascending, TallyOf;
    var states := Listed(tally.Keys);
    TalliedAreSupported(s, spec, inbox, tally);
    found := [];
    for k := 0 to |states|
      invariant found == Forked(s, spec, inbox, plurality, states[..k])
    {
      var d := states[k];
      assert states[..k + 1][..k] == states[..k];
      if d != plurality {
        assert d in states && d in tally;
        CountAgrees(s, spec, inbox, tally, d);
        var nodes := Listed(Nodes(tally[d]));
        var minority := MinorityOf(spec.slot, nodes);
        found := found + minority;
      }
    }
    assert states[..|states|] == states;
  }

  lemma TalliedAreSupported(s: State, spec: SlotSpec, inbox: Inbox, tally: map<Digest, seq<nat>>)
    requires TallyOf(s, spec, inbox, tally)
    ensures tally.Keys == Supported(s, spec, inbox)
  {
    hide Supporters, Supported;
    forall d: Digest ensures d in tally.Keys <==> d in Supported(s, spec, inbox) { SupportedAre(s, spec, inbox, d); }
  }

  class Ledger {
    const verify: Verifier
    const nodeKeys: map<nat, Key>
    var bySlot: map<nat, Inbox>
    var specs: map<nat, SlotSpec>
    var arrived: map<(nat, nat), nat>
    var settledState: map<nat, Digest>
    var evidence: seq<Evidence>

    function Contents(): State
      reads this
    {
      State(nodeKeys, bySlot, specs, arrived, settledState, AsSet(evidence))
    }

    constructor (verify: Verifier, nodeKeys: map<nat, Key>)
      ensures this.verify == verify && Contents() == Opened(nodeKeys)
    {
      this.verify, this.nodeKeys := verify, nodeKeys;
      bySlot, specs, arrived, settledState, evidence := map[], map[], map[], map[], [];
    }

    method OpenSlot(spec: SlotSpec)
      modifies this
      ensures Contents() == Step(verify, old(Contents()), Open(spec)) && evidence == old(evidence)
    {
      bySlot := bySlot[spec.slot := if spec.slot in bySlot then bySlot[spec.slot] else map[]];
      specs := specs[spec.slot := spec];
    }

    /** File a receipt and whatever it proves; unopened slots and unknown nodes are reported, not recorded. */
    method RecordReceipt(receipt: Receipt, arrivedAt: Option<nat>) returns (found: seq<Evidence>)
      modifies this
      ensures Contents() == Step(verify, old(Contents()), Record(receipt, arrivedAt))
      ensures found == AfterRecord(verify, old(Contents()), receipt, arrivedAt).1
      ensures evidence == old(evidence) + if receipt.slot in specs && receipt.node in nodeKeys then found else []
    {
      hide Found, Filed, EarliestArrival, AsSet;
      var slot, node := receipt.slot, receipt.node;
      if slot !in specs { return [Evidence(MissingReceipt, node, slot, NeverOpened, [])]; }
      if node !in nodeKeys { return [Evidence(BadSignature, node, slot, UnknownNode, [])]; }
      if !verify(nodeKeys[node], receipt) {
        found := [Evidence(BadSignature, node, slot, DoesNotVerify, [])];
        SetOfConcat(evidence, found);
        evidence := evidence + found;
        return;
      }
      var s := Contents();
      found := FaultsOf(s, specs[slot], receipt);
      arrived, bySlot := EarliestArrival(s, receipt, arrivedAt), Filed(s, receipt);
      SetOfConcat(evidence, found);
      evidence := evidence + found;
    }

    /** Judge a slot; it advances only to a plurality that reaches the required count. */
    method SettleSlot(slot: nat) returns (r: Verdict)
      modifies this
      ensures r == Settling(old(Contents()), slot) && Contents() == Step(verify, old(Contents()), Settle(slot))
      ensures evidence == old(evidence) + if r.Verdict? then r.found else []
    {
      hide Late, Forked, IsPlurality, Ascending, TallyOf, Plurality;
      if slot !in specs { return NotOpened; }
      var s, spec := Contents(), specs[slot];
      var inbox := InboxOf(s, slot);
      var found := Lates(s, spec, inbox);
      var tally := Tally(s, spec, inbox);
      var settled := None;
      if tally != map[] {
        var best := MostVoted(s, spec, inbox, tally);
        PluralityIs(s, spec, inbox, best);
        var forks := Forks(s, spec, inbox, tally, best);
        found := found + forks;
        var agreeing := |Nodes(tally[best])|;
        CountAgrees(s, spec, inbox, tally, best);
        if agreeing < spec.required {
          found := found + [Evidence(MissingReceipt, -1, spec.slot, Unresolved, [])];
        } else {
          settled := Some(best);
          settledState := settledState[slot := best];
        }
      } else {
        NoPlurality(s, spec, inbox, tally);
      }
      SetOfConcat(evidence, found);
      evidence := evidence + found;
      r := Verdict(settled, found);
    }
  }

  lemma CountAgrees(s: State, spec: SlotSpec, inbox: Inbox, tally: map<Digest, seq<nat>>, d: Digest)
    requires TallyOf(s, spec, inbox, tally) && d in tally
    ensures Nodes(tally[d]) == Supporters(s, spec, inbox, d)
  {
    hide Supporters;
    assert forall n: nat :: n in Nodes(tally[d]) <==> n in Supporters(s, spec, inbox, d);
  }

  lemma NoPlurality(s: State, spec: SlotSpec, inbox: Inbox, tally: map<Digest, seq<nat>>)
    requires TallyOf(s, spec, inbox, tally) && tally == map[]
    ensures Plurality(s, spec, inbox) == None
  {
    hide Supporters;
  }

  /** The checks of one verified receipt, in the order they are made. */
  method FaultsOf(s: State, spec: SlotSpec, receipt: Receipt) returns (found: seq<Evidence>)
    ensures found == Found(s, spec, receipt)
  {
    hide Equivocations, From, InboxOf;
    var slot, node := receipt.slot, receipt.node;
    found := [];
    if receipt.market != spec.market { found := found + [Evidence(StaleState, node, slot, OtherMarket, [receipt])]; }
    if receipt.deadline != spec.deadline {
      found := found + [Evidence(StaleState, node, slot, OtherDeadline, [receipt])];
    }
    found := ScanEarlier(From(InboxOf(s, slot), node), receipt, found);
    if receipt.makers != spec.makers { found := found + [Evidence(OmittedMakers, node, slot, OtherMakers, [receipt])]; }
    if slot > 0 && slot - 1 in s.settled && receipt.prevState != s.settled[slot - 1] {
      found := found + [Evidence(StaleState, node, slot, OtherPredecessor, [receipt])];
    }
  }

  /** The loop over the receipts already filed, pushing one exhibit pair per contradiction. */
  method ScanEarlier(existing: seq<Receipt>, receipt: Receipt, before: seq<Evidence>) returns (found: seq<Evidence>)
    ensures found == before + Equivocations(existing, receipt)
  {
    found := before;
    for i := 0 to |existing|
      invariant found == before + Equivocations(existing[..i], receipt)
    {
      assert existing[..i + 1][..i] == existing[..i];
      if ContentOf(existing[i]) != ContentOf(receipt) {
        found := found + [Evidence(Equivocation, receipt.node, receipt.slot, TwoResults, [existing[i], receipt])];
      }
    }
    assert existing[..|existing|] == existing;
  }

  lemma SetOfConcat(a: seq<Evidence>, b: seq<Evidence>)
    ensures AsSet(a + b) == AsSet(a) + AsSet(b)
  {}
}
