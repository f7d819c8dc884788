/**
 * The receipt audit ledger: signed per-slot receipts, the evidence recorded against their signers,
 * and accountable safety: a slot that settles two ways convicts a quorum's overlap.
 *
 * A digest is a natural, compared as the byte strings are.  The content digest is modelled by the
 * fields it is taken of, and the signature check by a predicate on a key and a receipt.
 */
module Receipts {
  import opened Basics
  import opened Counting

  type Key = nat
  type Digest = nat

  datatype SlotSpec = SlotSpec(slot: nat, makers: Digest, market: Digest, deadline: nat, required: nat)
  datatype Receipt = Receipt(node: nat, slot: nat, makers: Digest, market: Digest, deadline: nat,
                             prevState: Digest, newState: Digest, outcome: Digest, emittedAt: nat, signature: seq<int>)
  datatype Content = Content(makers: Digest, prevState: Digest, newState: Digest, outcome: Digest)

  function ContentOf(r: Receipt): Content { Content(r.makers, r.prevState, r.newState, r.outcome) }

  datatype Fault = Equivocation | OmittedMakers | StaleState | MissingReceipt | BadSignature | ForkedState
  datatype Detail =
    | NeverOpened | UnknownNode | DoesNotVerify
    | OtherMarket | OtherDeadline | TwoResults | OtherMakers | OtherPredecessor
    | NotByDeadline | Minority | Unresolved

  /** `node` is -1 when the fault is nobody's. */
  datatype Evidence = Evidence(fault: Fault, node: int, slot: nat, detail: Detail, exhibits: seq<Receipt>)

  type Verifier = (Key, Receipt) -> bool
  type Inbox = map<nat, seq<Receipt>>

  /** The ledger; evidence as the set of what has been recorded. */
  datatype State = State(nodeKeys: map<nat, Key>, bySlot: map<nat, Inbox>, specs: map<nat, SlotSpec>,
                         arrived: map<(nat, nat), nat>, settled: map<nat, Digest>, evidence: set<Evidence>)

  function InboxOf(s: State, slot: nat): Inbox { if slot in s.bySlot then s.bySlot[slot] else map[] }
  function From(inbox: Inbox, node: nat): seq<Receipt> { if node in inbox then inbox[node] else [] }

  function AsSet(found: seq<Evidence>): (r: set<Evidence>)
    ensures forall e :: e in r <==> e in found
  {
    set e | e in found
  }

  // ----- recording -----

  function When(c: bool, e: Evidence): seq<Evidence> { if c then [e] else [] }

  /** One exhibit pair for every earlier receipt whose content differs. */
  function Equivocations(earlier: seq<Receipt>, r: Receipt): seq<Evidence> {
    if earlier == [] then [] else
    var last := earlier[|earlier| - 1];
    Equivocations(earlier[..|earlier| - 1], r)
    + When(ContentOf(last) != ContentOf(r), Evidence(Equivocation, r.node, r.slot, TwoResults, [last, r]))
  }

  /** What a verified receipt proves against its signer. */
  function Found(s: State, spec: SlotSpec, r: Receipt): seq<Evidence> {
    When(r.market != spec.market, Evidence(StaleState, r.node, r.slot, OtherMarket, [r]))
    + When(r.deadline != spec.deadline, Evidence(StaleState, r.node, r.slot, OtherDeadline, [r]))
    + Equivocations(From(InboxOf(s, r.slot), r.node), r)
    + When(r.makers != spec.makers, Evidence(OmittedMakers, r.node, r.slot, OtherMakers, [r]))
    + When(r.slot > 0 && r.slot - 1 in s.settled && r.prevState != s.settled[r.slot - 1],
           Evidence(StaleState, r.node, r.slot, OtherPredecessor, [r]))
  }

  function EarliestArrival(s: State, r: Receipt, arrivedAt: Option<nat>): map<(nat, nat), nat> {
    if arrivedAt.None? then s.arrived else
    var at := (r.slot, r.node);
    s.arrived[at := if at in s.arrived && s.arrived[at] < arrivedAt.value then s.arrived[at] else arrivedAt.value]
  }

  function Filed(s: State, r: Receipt): map<nat, Inbox> {
    var inbox := InboxOf(s, r.slot);
    s.bySlot[r.slot := inbox[r.node := From(inbox, r.node) + [r]]]
  }

  /** The ledger after a receipt, and the evidence reported to the caller. */
  function AfterRecord(verify: Verifier, s: State, r: Receipt, arrivedAt: Option<nat>): (State, seq<Evidence>) {
    if r.slot !in s.specs then (s, [Evidence(MissingReceipt, r.node, r.slot, NeverOpened, [])])
    else if r.node !in s.nodeKeys then (s, [Evidence(BadSignature, r.node, r.slot, UnknownNode, [])])
    else if !verify(s.nodeKeys[r.node], r) then
      var found := [Evidence(BadSignature, r.node, r.slot, DoesNotVerify, [])];
      (s.(evidence := s.evidence + AsSet(found)), found)
    else
      var found := Found(s, s.specs[r.slot], r);
      (s.(arrived := EarliestArrival(s, r, arrivedAt), bySlot := Filed(s, r), evidence := s.evidence + AsSet(found)),
       found)
  }

  function AfterOpen(s: State, spec: SlotSpec): State {
    s.(bySlot := s.bySlot[spec.slot := InboxOf(s, spec.slot)], specs := s.specs[spec.slot := spec])
  }

  // ----- settling -----

  function SeenAt(s: State, slot: nat, r: Receipt, node: nat): nat {
    if (slot, node) in s.arrived then s.arrived[(slot, node)] else r.emittedAt
  }

  predicate Counts(s: State, spec: SlotSpec, node: nat, r: Receipt) {
    && SeenAt(s, spec.slot, r, node) <= spec.deadline
    && r.makers == spec.makers && r.market == spec.market && r.deadline == spec.deadline
  }

  /** One of the node's first k receipts counts towards this new state. */
  predicate Voted(s: State, spec: SlotSpec, inbox: Inbox, node: nat, state: Digest, k: nat)
    requires node in inbox && k <= |inbox[node]|
  {
    exists i :: 0 <= i < k && inbox[node][i].newState == state && Counts(s, spec, node, inbox[node][i])
  }

  predicate Supports(s: State, spec: SlotSpec, inbox: Inbox, node: nat, state: Digest)
    requires node in inbox
  {
    Voted(s, spec, inbox, node, state, |inbox[node]|)
  }

  function Supporters(s: State, spec: SlotSpec, inbox: Inbox, state: Digest): set<nat> {
    set node | node in inbox && Supports(s, spec, inbox, node, state)
  }

  ghost predicate IsPlurality(s: State, spec: SlotSpec, inbox: Inbox, state: Digest) {
    && Supporters(s, spec, inbox, state) != {}
    && forall other: Digest :: Supporters(s, spec, inbox, other) != {} ==>
         var (a, b) := (|Supporters(s, spec, inbox, state)|, |Supporters(s, spec, inbox, other)|);
         b < a || (b == a && other <= state)
  }

  predicate Fresh(s: State, spec: SlotSpec, inbox: Inbox, node: nat) {
    node in inbox && exists i :: 0 <= i < |inbox[node]| && SeenAt(s, spec.slot, inbox[node][i], node) <= spec.deadline
  }

  // The source keeps its nodes and tallies in ordered maps and lists them in ascending order.

  ghost predicate Ascends(r: seq<nat>, s: set<nat>) {
    (forall i, j :: 0 <= i < j < |r| ==> r[i] < r[j]) && forall n :: n in r <==> n in s
  }

  function Inserted(r: seq<nat>, n: nat): seq<nat> {
    if r == [] || r[|r| - 1] < n then r + [n] else Inserted(r[..|r| - 1], n) + [r[|r| - 1]]
  }

  lemma {:induction false} InsertedAscends(r: seq<nat>, s: set<nat>, n: nat)
    requires Ascends(r, s) && n !in s
    ensures Ascends(Inserted(r, n), s + {n})
  {
    if r == [] || r[|r| - 1] < n {
      assert r + [n] == Inserted(r, n);
    } else {
      var rest, last := r[..|r| - 1], r[|r| - 1];
      assert r == rest + [last];
      assert last in s && n < last;
      InsertedAscends(rest, s - {last}, n);
      var inner := Inserted(rest, n);
      forall i | 0 <= i < |inner| ensures inner[i] < last {
        assert inner[i] in inner;
        if inner[i] in rest { var k :| 0 <= k < |rest| && rest[k] == inner[i]; assert r[k] < last; }
      }
    }
  }

  lemma {:induction false} AscendingExists(s: set<nat>) returns (r: seq<nat>)
    ensures Ascends(r, s)
    decreases |s|
  {
    r := [];
    if s != {} {
      var n :| n in s;
      var rest := AscendingExists(s - {n});
      r := Inserted(rest, n);
      InsertedAscends(rest, s - {n}, n);
      assert s - {n} + {n} == s;
    }
  }

  ghost function Ascending(s: set<nat>): (r: seq<nat>)
    ensures Ascends(r, s)
  {
    assert exists r :: Ascends(r, s) by { var r := AscendingExists(s); }
    var r :| Ascends(r, s);
    r
  }

  /** A set has one ascending listing. */
  lemma {:induction false} AscendingIs(a: seq<nat>, b: seq<nat>, s: set<nat>)
    requires Ascends(a, s) && Ascends(b, s)
    ensures a == b
    decreases |a|
  {
    if a == [] {
      if b != [] { LastIsLargest(a, s, b[0]); }
    } else {
      assert a[|a| - 1] in b;
      assert b[|b| - 1] in a;
      LastIsLargest(a, s, b[|b| - 1]);
      LastIsLargest(b, s, a[|a| - 1]);
      DropLast(a, s);
      DropLast(b, s);
      AscendingIs(a[..|a| - 1], b[..|b| - 1], s - {a[|a| - 1]});
      assert a == a[..|a| - 1] + [a[|a| - 1]] && b == b[..|b| - 1] + [b[|b| - 1]];
    }
  }

  lemma LastIsLargest(r: seq<nat>, s: set<nat>, n: nat)
    requires Ascends(r, s) && n in s
    ensures r != [] && n <= r[|r| - 1]
  {
    var k :| 0 <= k < |r| && r[k] == n;
  }

  lemma DropLast(r: seq<nat>, s: set<nat>)
    requires Ascends(r, s) && r != []
    ensures Ascends(r[..|r| - 1], s - {r[|r| - 1]})
  {
    var rest, last := r[..|r| - 1], r[|r| - 1];
    assert r == rest + [last];
    assert forall k :: 0 <= k < |rest| ==> rest[k] == r[k] < last;
  }

  datatype Verdict = NotOpened | Verdict(settled: Option<Digest>, found: seq<Evidence>)

  /** One entry for every listed node without a timely receipt. */
  function Late(s: State, spec: SlotSpec, inbox: Inbox, nodes: seq<nat>): (found: seq<Evidence>)
    ensures forall e :: e in found ==> e.fault == MissingReceipt && e.exhibits == []
  {
    if nodes == [] then [] else
    var node := nodes[|nodes| - 1];
    Late(s, spec, inbox, nodes[..|nodes| - 1])
    + When(!Fresh(s, spec, inbox, node), Evidence(MissingReceipt, node, spec.slot, NotByDeadline, []))
  }

  function Minorities(slot: nat, nodes: seq<nat>): (found: seq<Evidence>)
    ensures forall e :: e in found ==> e.fault == ForkedState && e.exhibits == []
  {
    if nodes == [] then [] else
    Minorities(slot, nodes[..|nodes| - 1]) + [Evidence(ForkedState, nodes[|nodes| - 1], slot, Minority, [])]
  }

  /** One entry for every supporter of every listed state other than the plurality's. */
  ghost function Forked(s: State, spec: SlotSpec, inbox: Inbox, plurality: Digest,
                        states: seq<Digest>): (found: seq<Evidence>)
    ensures forall e :: e in found ==> e.fault == ForkedState && e.exhibits == []
  {
    if states == [] then [] else
    var d := states[|states| - 1];
    Forked(s, spec, inbox, plurality, states[..|states| - 1])
    + if d == plurality then [] else Minorities(spec.slot, Ascending(Supporters(s, spec, inbox, d)))
  }

  /** The new states some counting receipt supports. */
  ghost function Supported(s: State, spec: SlotSpec, inbox: Inbox): set<Digest> {
    set node, i | node in inbox && 0 <= i < |inbox[node]| && Counts(s, spec, node, inbox[node][i]) ::
      inbox[node][i].newState
  }

  lemma SupportedAre(s: State, spec: SlotSpec, inbox: Inbox, d: Digest)
    ensures d in Supported(s, spec, inbox) <==> Supporters(s, spec, inbox, d) != {}
  {
    hide Counts;
    if d in Supported(s, spec, inbox) {
      var node, i :| node in inbox && 0 <= i < |inbox[node]| && Counts(s, spec, node, inbox[node][i])
          && inbox[node][i].newState == d;
      assert node in Supporters(s, spec, inbox, d);
    }
    if node :| node in Supporters(s, spec, inbox, d) {
      var i :| 0 <= i < |inbox[node]| && inbox[node][i].newState == d && Counts(s, spec, node, inbox[node][i]);
    }
  }

  /**
   The verdict on a slot whose counting receipts have this plurality, if they have any: who was
   late, then state by state who forked, then whether the plurality fell short.
   */
  ghost function Judged(s: State, spec: SlotSpec, inbox: Inbox, plurality: Option<Digest>): Verdict {
    var late := Late(s, spec, inbox, Ascending(s.nodeKeys.Keys));
    if plurality.None? then Verdict(None, late) else
    var found := late + Forked(s, spec, inbox, plurality.value, Ascending(Supported(s, spec, inbox)));
    if |Supporters(s, spec, inbox, plurality.value)| < spec.required then
      Verdict(None, found + [Evidence(MissingReceipt, -1, spec.slot, Unresolved, [])])
    else Verdict(plurality, found)
  }

  ghost function Plurality(s: State, spec: SlotSpec, inbox: Inbox): Option<Digest> {
    if d :| IsPlurality(s, spec, inbox, d) then Some(d) else None
  }

  lemma PluralityIs(s: State, spec: SlotSpec, inbox: Inbox, d: Digest)
    requires IsPlurality(s, spec, inbox, d)
    ensures Plurality(s, spec, inbox) == Some(d)
  {
    hide Supporters;
    var e := Plurality(s, spec, inbox).value;
    assert IsPlurality(s, spec, inbox, e);
  }

  ghost function Settling(s: State, slot: nat): Verdict {
    if slot !in s.specs then NotOpened
    else Judged(s, s.specs[slot], InboxOf(s, slot), Plurality(s, s.specs[slot], InboxOf(s, slot)))
  }

  ghost function AfterSettle(s: State, slot: nat): State {
    var v := Settling(s, slot);
    if v.NotOpened? then s
    else s.(settled := if v.settled.Some? then s.settled[slot := v.settled.value] else s.settled,
            evidence := s.evidence + AsSet(v.found))
  }

  // ----- runs -----

  datatype Event = Open(spec: SlotSpec) | Record(receipt: Receipt, arrivedAt: Option<nat>) | Settle(slot: nat)

  ghost function Step(verify: Verifier, s: State, e: Event): State {
    match e
    case Open(spec) => AfterOpen(s, spec)
    case Record(receipt, arrivedAt) => AfterRecord(verify, s, receipt, arrivedAt).0
    case Settle(slot) => AfterSettle(s, slot)
  }

  ghost function Run(verify: Verifier, s: State, events: seq<Event>): State {
    if events == [] then s else Step(verify, Run(verify, s, events[..|events| - 1]), events[|events| - 1])
  }

  function Opened(nodeKeys: map<nat, Key>): State { State(nodeKeys, map[], map[], map[], map[], {}) }

  // ----- what every run keeps -----

  /** Two receipts of this node for this slot, both verified, whose contents differ. */
  ghost predicate Convicts(verify: Verifier, s: State, e: Evidence, node: nat, slot: nat) {
    && node in s.nodeKeys && e.fault == Equivocation && e.node == node && e.slot == slot && |e.exhibits| == 2
    && (forall i :: 0 <= i < 2 ==>
        e.exhibits[i].node == node && e.exhibits[i].slot == slot && verify(s.nodeKeys[node], e.exhibits[i]))
    && ContentOf(e.exhibits[0]) != ContentOf(e.exhibits[1])
  }

  ghost predicate Filing(verify: Verifier, s: State, slot: nat, node: nat) {
    var rs := From(InboxOf(s, slot), node);
    && (node in InboxOf(s, slot) ==> node in s.nodeKeys)
    && (forall i :: 0 <= i < |rs| ==>
        rs[i].node == node && rs[i].slot == slot && node in s.nodeKeys && verify(s.nodeKeys[node], rs[i]))
    && (forall i, j :: 0 <= i < j < |rs| && ContentOf(rs[i]) != ContentOf(rs[j]) ==>
          Evidence(Equivocation, node, slot, TwoResults, [rs[i], rs[j]]) in s.evidence)
  }

  /** Only registered nodes' verified receipts are filed, and every contradiction among them is on record. */
  ghost predicate Inv(verify: Verifier, s: State) {
    && (forall slot, node :: Filing(verify, s, slot, node))
    && (forall slot :: slot in s.specs ==> s.specs[slot].slot == slot)
    && (forall e :: e in s.evidence && e.fault == Equivocation ==>
        e.node >= 0 && Convicts(verify, s, e, e.node, e.slot))
  }

  /** Receipts are only ever appended, evidence only ever added. */
  ghost predicate Extends(a: State, b: State) {
    && b.nodeKeys == a.nodeKeys && a.evidence <= b.evidence
    && forall slot, node :: From(InboxOf(a, slot), node) <= From(InboxOf(b, slot), node)
  }

  lemma {:induction false} EquivocationsCover(earlier: seq<Receipt>, r: Receipt, i: nat)
    requires i < |earlier| && ContentOf(earlier[i]) != ContentOf(r)
    ensures Evidence(Equivocation, r.node, r.slot, TwoResults, [earlier[i], r]) in Equivocations(earlier, r)
  {
    if i < |earlier| - 1 { EquivocationsCover(earlier[..|earlier| - 1], r, i); }
  }

  lemma {:induction false} EquivocationsAre(earlier: seq<Receipt>, r: Receipt, e: Evidence)
    requires e in Equivocations(earlier, r)
    ensures exists i :: 0 <= i < |earlier| && ContentOf(earlier[i]) != ContentOf(r)
                     && e == Evidence(Equivocation, r.node, r.slot, TwoResults, [earlier[i], r])
  {
    var n := |earlier| - 1;
    if e in Equivocations(earlier[..n], r) {
      EquivocationsAre(earlier[..n], r, e);
      var i :| 0 <= i < n && ContentOf(earlier[..n][i]) != ContentOf(r)
               && e == Evidence(Equivocation, r.node, r.slot, TwoResults, [earlier[..n][i], r]);
      assert earlier[..n][i] == earlier[i];
    }
  }

  lemma FoundEquivocations(s: State, spec: SlotSpec, r: Receipt, e: Evidence)
    ensures e in Equivocations(From(InboxOf(s, r.slot), r.node), r) ==> e in Found(s, spec, r)
    ensures e in Found(s, spec, r) && e.fault == Equivocation ==>
              e in Equivocations(From(InboxOf(s, r.slot), r.node), r)
  {
    hide Equivocations, From, InboxOf;
  }

  /** Filing one more verified receipt puts its contradictions on record. */
  lemma RecordFiles(verify: Verifier, s: State, r: Receipt, after: State, slot: nat, node: nat)
    requires Filing(verify, s, slot, node) && r.slot in s.specs && r.node in s.nodeKeys && verify(s.nodeKeys[r.node], r)
    requires after.nodeKeys == s.nodeKeys && after.bySlot == Filed(s, r)
    requires after.evidence == s.evidence + AsSet(Found(s, s.specs[r.slot], r))
    ensures Filing(verify, after, slot, node)
  {
    hide Found;
    var before, rs := From(InboxOf(s, slot), node), From(InboxOf(after, slot), node);
    if (slot, node) == (r.slot, r.node) {
      assert rs == before + [r];
      forall i | 0 <= i < |before| && ContentOf(before[i]) != ContentOf(r)
        ensures Evidence(Equivocation, node, slot, TwoResults, [before[i], r]) in after.evidence
      {
        EquivocationsCover(before, r, i);
        FoundEquivocations(s, s.specs[r.slot], r, Evidence(Equivocation, node, slot, TwoResults, [before[i], r]));
      }
    } else {
      assert rs == before;
    }
  }

  lemma RecordConvicts(verify: Verifier, s: State, r: Receipt, e: Evidence)
    requires Filing(verify, s, r.slot, r.node) && r.slot in s.specs && r.node in s.nodeKeys
             && verify(s.nodeKeys[r.node], r)
    requires e in Found(s, s.specs[r.slot], r) && e.fault == Equivocation
    ensures e.node == r.node && e.slot == r.slot && Convicts(verify, s, e, r.node, r.slot)
  {
    hide Found;
    FoundEquivocations(s, s.specs[r.slot], r, e);
    EquivocationsAre(From(InboxOf(s, r.slot), r.node), r, e);
  }

  lemma RecordKeepsInv(verify: Verifier, s: State, r: Receipt, arrivedAt: Option<nat>)
    requires Inv(verify, s)
    ensures Inv(verify, AfterRecord(verify, s, r, arrivedAt).0) && Extends(s, AfterRecord(verify, s, r, arrivedAt).0)
  {
    hide Found, Filed, EarliestArrival, Filing, Convicts;
    var after := AfterRecord(verify, s, r, arrivedAt).0;
    if r.slot in s.specs && r.node in s.nodeKeys && verify(s.nodeKeys[r.node], r) {
      assert Filing(verify, s, r.slot, r.node);
      forall slot: nat, node: nat ensures Filing(verify, after, slot, node) {
        assert Filing(verify, s, slot, node);
        RecordFiles(verify, s, r, after, slot, node);
      }
      forall e | e in after.evidence && e.fault == Equivocation
        ensures e.node >= 0 && Convicts(verify, after, e, e.node, e.slot)
      {
        if e !in s.evidence { RecordConvicts(verify, s, r, e); }
        SameKeysConvict(verify, s, after, e);
      }
      FilingExtends(s, r, after);
    } else {
      UnfiledKeepsInv(verify, s, after);
    }
  }

  lemma SameKeysConvict(verify: Verifier, s: State, after: State, e: Evidence)
    requires after.nodeKeys == s.nodeKeys && e.node >= 0
    ensures Convicts(verify, s, e, e.node, e.slot) ==> Convicts(verify, after, e, e.node, e.slot)
  {}

  lemma FilingExtends(s: State, r: Receipt, after: State)
    requires after.nodeKeys == s.nodeKeys && s.evidence <= after.evidence && after.bySlot == Filed(s, r)
    ensures Extends(s, after)
  {}

  /** Changes that file nothing and add no equivocation. */
  lemma UnfiledKeepsInv(verify: Verifier, s: State, after: State)
    requires Inv(verify, s) && after.nodeKeys == s.nodeKeys && s.evidence <= after.evidence
    requires forall slot: nat :: InboxOf(after, slot) == InboxOf(s, slot)
    requires forall slot :: slot in after.specs ==> after.specs[slot].slot == slot
    requires forall e :: e in after.evidence && e !in s.evidence ==> e.fault != Equivocation
    ensures Inv(verify, after) && Extends(s, after)
  {
    forall slot: nat, node: nat ensures Filing(verify, after, slot, node) { assert Filing(verify, s, slot, node); }
    forall e | e in after.evidence && e.fault == Equivocation
      ensures e.node >= 0 && Convicts(verify, after, e, e.node, e.slot)
    {
      SameKeysConvict(verify, s, after, e);
    }
  }

  lemma StepKeepsInv(verify: Verifier, s: State, e: Event)
    requires Inv(verify, s)
    ensures Inv(verify, Step(verify, s, e)) && Extends(s, Step(verify, s, e))
  {
    hide Inv, Extends, AfterRecord;
    match e
    case Open(spec) =>
      OpenedInboxes(s, spec);
      SpecsAreKeyed(verify, s);
      UnfiledKeepsInv(verify, s, AfterOpen(s, spec));
    case Record(receipt, arrivedAt) => RecordKeepsInv(verify, s, receipt, arrivedAt);
    case Settle(slot) =>
      SettlingFinds(s, slot);
      SpecsAreKeyed(verify, s);
      UnfiledKeepsInv(verify, s, AfterSettle(s, slot));
  }

  lemma OpenedInboxes(s: State, spec: SlotSpec)
    ensures forall slot: nat :: InboxOf(AfterOpen(s, spec), slot) == InboxOf(s, slot)
  {}

  lemma SpecsAreKeyed(verify: Verifier, s: State)
    requires Inv(verify, s)
    ensures forall slot :: slot in s.specs ==> s.specs[slot].slot == slot
  {}

  lemma SettlingFinds(s: State, slot: nat)
    ensures var v := Settling(s, slot);
            v.Verdict? ==> forall e :: e in v.found ==> e.fault != Equivocation && e.exhibits == []
    ensures forall k: nat :: InboxOf(AfterSettle(s, slot), k) == InboxOf(s, k)
  {
    hide Plurality, Supporters, Late, Forked, Ascending;
  }

  lemma {:induction false} RunKeepsInv(verify: Verifier, nodeKeys: map<nat, Key>, events: seq<Event>)
    ensures Inv(verify, Run(verify, Opened(nodeKeys), events))
            && Run(verify, Opened(nodeKeys), events).nodeKeys == nodeKeys
  {
    hide Inv, Step;
    if events == [] {
      NothingFiled(verify, nodeKeys);
    } else {
      RunKeepsInv(verify, nodeKeys, events[..|events| - 1]);
      StepKeepsInv(verify, Run(verify, Opened(nodeKeys), events[..|events| - 1]), events[|events| - 1]);
    }
  }

  lemma NothingFiled(verify: Verifier, nodeKeys: map<nat, Key>)
    ensures Inv(verify, Opened(nodeKeys))
  {}

  lemma {:induction false} RunExtends(verify: Verifier, nodeKeys: map<nat, Key>, events: seq<Event>, i: nat, j: nat)
    requires i <= j <= |events|
    ensures Extends(Run(verify, Opened(nodeKeys), events[..i]), Run(verify, Opened(nodeKeys), events[..j]))
  {
    hide Step, Inv;
    if i < j {
      RunExtends(verify, nodeKeys, events, i, j - 1);
      RunKeepsInv(verify, nodeKeys, events[..j - 1]);
      StepKeepsInv(verify, Run(verify, Opened(nodeKeys), events[..j - 1]), events[j - 1]);
      assert events[..j][..j - 1] == events[..j - 1];
    }
  }

  // ----- accountable safety -----

  /** Settling to a state takes at least the required number of its supporters. */
  lemma SettledBySupporters(s: State, slot: nat)
    requires Settling(s, slot).Verdict? && Settling(s, slot).settled.Some?
    ensures slot in s.specs && |Supporters(s, s.specs[slot], InboxOf(s, slot),
                                           Settling(s, slot).settled.value)| >= s.specs[slot].required
  {
    hide Supporters, Late, Forked, Plurality;
  }

  /** A supporter has filed a receipt with that new state, and keeps it filed. */
  lemma SupporterFiled(verify: Verifier, s: State, later: State, slot: nat, state: Digest, node: nat) returns (i: nat)
    requires slot in s.specs && Extends(s, later) && node in Supporters(s, s.specs[slot], InboxOf(s, slot), state)
    ensures i < |From(InboxOf(later, slot), node)| && From(InboxOf(later, slot), node)[i].newState == state
  {
    var inbox: Inbox := InboxOf(s, slot);
    i :| 0 <= i < |inbox[node]| && inbox[node][i].newState == state && Counts(s, s.specs[slot], node, inbox[node][i]);
    assert From(inbox, node) <= From(InboxOf(later, slot), node);
  }

  /** The nodes the ledger's evidence convicts of equivocating on this slot. */
  ghost function Convicted(verify: Verifier, s: State, slot: nat): (r: set<nat>)
    ensures forall node :: node in r <==> node in s.nodeKeys && exists e ::
              e in s.evidence && Convicts(verify, s, e, node, slot)
  {
    set node | node in s.nodeKeys.Keys && exists e :: e in s.evidence && Convicts(verify, s, e, node, slot)
  }

  lemma BothSidesConvict(verify: Verifier, a: State, s: State, slot: nat, stateA: Digest, stateB: Digest, node: nat)
    requires slot in a.specs && slot in s.specs && stateA != stateB && Extends(a, s) && Inv(verify, s)
    requires node in Supporters(a, a.specs[slot], InboxOf(a, slot), stateA)
    requires node in Supporters(s, s.specs[slot], InboxOf(s, slot), stateB)
    ensures node in Convicted(verify, s, slot)
  {
    hide Supporters, Extends, Convicts;
    StateExtendsItself(s);
    var i := SupporterFiled(verify, a, s, slot, stateA, node);
    var j := SupporterFiled(verify, s, s, slot, stateB, node);
    assert Filing(verify, s, slot, node);
    var rs := From(InboxOf(s, slot), node);
    var e := Evidence(Equivocation, node, slot, TwoResults, if i < j then [rs[i], rs[j]] else [rs[j], rs[i]]);
    assert e in s.evidence;
    assert Convicts(verify, s, e, node, slot);
  }

  lemma StateExtendsItself(s: State)
    ensures Extends(s, s)
  {}

  lemma SupportersAreRegistered(verify: Verifier, s: State, slot: nat, state: Digest)
    requires Inv(verify, s) && slot in s.specs
    ensures Supporters(s, s.specs[slot], InboxOf(s, slot), state) <= s.nodeKeys.Keys
  {
    forall node | node in Supporters(s, s.specs[slot], InboxOf(s, slot), state) ensures node in s.nodeKeys {
      assert Filing(verify, s, slot, node);
    }
  }

  /**
   * Accountable safety.  If, in any run, one slot settles to A and later to B, then of the n
   * registered nodes at least q1 + q2 - n stand convicted: the ledger holds, for each, two
   * verified receipts of that node for that slot whose contents differ.
   */
  lemma AccountableSafety(verify: Verifier, nodeKeys: map<nat, Key>, events: seq<Event>, i: nat, j: nat, slot: nat)
    requires i < j < |events| && events[i] == Settle(slot) && events[j] == Settle(slot)
    requires var (a, b) := (Run(verify, Opened(nodeKeys), events[..i]), Run(verify, Opened(nodeKeys), events[..j]));
             && Settling(a, slot).Verdict? && Settling(b, slot).Verdict?
             && Settling(a, slot).settled.Some? && Settling(b, slot).settled.Some?
             && Settling(a, slot).settled != Settling(b, slot).settled
    ensures var (a, b) := (Run(verify, Opened(nodeKeys), events[..i]), Run(verify, Opened(nodeKeys), events[..j]));
            && slot in a.specs && slot in b.specs
            && |Convicted(verify, b, slot)| >= a.specs[slot].required + b.specs[slot].required - |nodeKeys|
  {
    hide Run, Settling, Inv, Extends, Supporters, Convicted;
    var a, b := Run(verify, Opened(nodeKeys), events[..i]), Run(verify, Opened(nodeKeys), events[..j]);
    RunKeepsInv(verify, nodeKeys, events[..i]);
    RunKeepsInv(verify, nodeKeys, events[..j]);
    RunExtends(verify, nodeKeys, events, i, j);
    SettledBySupporters(a, slot);
    SettledBySupporters(b, slot);
    var stateA, stateB := Settling(a, slot).settled.value, Settling(b, slot).settled.value;
    var forA, forB := Supporters(a, a.specs[slot], InboxOf(a, slot), stateA),
        Supporters(b, b.specs[slot], InboxOf(b, slot), stateB);
    SupportersAreRegistered(verify, a, slot, stateA);
    SupportersAreRegistered(verify, b, slot, stateB);
    Overlap(forA, forB, nodeKeys.Keys);
    forall node | node in forA * forB ensures node in Convicted(verify, b, slot) {
      BothSidesConvict(verify, a, b, slot, stateA, stateB, node);
    }
    SubsetCard(forA * forB, Convicted(verify, b, slot));
  }

  /** Every conviction a run records stands on two verified, contradicting receipts. */
  lemma ConvictionsStand(verify: Verifier, nodeKeys: map<nat, Key>, events: seq<Event>, e: Evidence)
    requires e in Run(verify, Opened(nodeKeys), events).evidence && e.fault == Equivocation
    ensures e.node >= 0 && Convicts(verify, Run(verify, Opened(nodeKeys), events), e, e.node, e.slot)
  {
    hide Run;
    RunKeepsInv(verify, nodeKeys, events);
  }

  // ----- convictions come from what was recorded, and only from that -----

  /** The receipt is filed: its slot is open, its node registered, its signature good. */
  predicate Files(verify: Verifier, s: State, r: Receipt) {
    r.slot in s.specs && r.node in s.nodeKeys && verify(s.nodeKeys[r.node], r)
  }

  /** The receipts a run filed. */
  ghost function Accepted(verify: Verifier, s: State, events: seq<Event>): set<Receipt> {
    if events == [] then {} else
    var rest, last := events[..|events| - 1], events[|events| - 1];
    Accepted(verify, s, rest)
    + if last.Record? && Files(verify, Run(verify, s, rest), last.receipt) then {last.receipt} else {}
  }

  /** The inboxes hold exactly these receipts, and all evidence exhibits only them. */
  ghost predicate Traced(s: State, seen: set<Receipt>) {
    && (forall slot, node, r :: r in From(InboxOf(s, slot), node) ==> r in seen && r.slot == slot && r.node == node)
    && (forall r :: r in seen ==> r in From(InboxOf(s, r.slot), r.node))
    && (forall e, r :: e in s.evidence && r in e.exhibits ==> r in seen)
  }

  lemma {:induction false} EquivocationExhibits(earlier: seq<Receipt>, r: Receipt, e: Evidence, x: Receipt)
    requires e in Equivocations(earlier, r) && x in e.exhibits
    ensures x in earlier || x == r
  {
    EquivocationsAre(earlier, r, e);
  }

  lemma FoundExhibits(s: State, spec: SlotSpec, r: Receipt, e: Evidence, x: Receipt)
    requires e in Found(s, spec, r) && x in e.exhibits
    ensures x in From(InboxOf(s, r.slot), r.node) || x == r
  {
    hide Equivocations, From, InboxOf;
    if e in Equivocations(From(InboxOf(s, r.slot), r.node), r) {
      EquivocationExhibits(From(InboxOf(s, r.slot), r.node), r, e, x);
    }
  }

  lemma FiledFrom(s: State, r: Receipt, after: State, slot: nat, node: nat)
    requires after.bySlot == Filed(s, r)
    ensures From(InboxOf(after, slot), node)
            == From(InboxOf(s, slot), node) + if (slot, node) == (r.slot, r.node) then [r] else []
  {}

  lemma FiledTraced(s: State, r: Receipt, after: State, seen: set<Receipt>)
    requires Traced(s, seen) && r.slot in s.specs && after.bySlot == Filed(s, r)
    requires after.evidence == s.evidence + AsSet(Found(s, s.specs[r.slot], r))
    ensures Traced(after, seen + {r})
  {
    hide Found, From, InboxOf, Filed;
    forall slot: nat, node: nat, x | x in From(InboxOf(after, slot), node)
      ensures x in seen + {r} && x.slot == slot && x.node == node
    {
      FiledFrom(s, r, after, slot, node);
    }
    forall x | x in seen + {r} ensures x in From(InboxOf(after, x.slot), x.node) {
      FiledFrom(s, r, after, x.slot, x.node);
    }
    forall e, x | e in after.evidence && x in e.exhibits ensures x in seen + {r} {
      if e !in s.evidence { FoundExhibits(s, s.specs[r.slot], r, e, x); }
    }
  }

  /** Changes that file nothing and exhibit nothing. */
  lemma UnfiledTraced(s: State, after: State, seen: set<Receipt>)
    requires Traced(s, seen) && s.evidence <= after.evidence
    requires forall slot: nat :: InboxOf(after, slot) == InboxOf(s, slot)
    requires forall e :: e in after.evidence && e !in s.evidence ==> e.exhibits == []
    ensures Traced(after, seen)
  {}

  lemma StepTraced(verify: Verifier, s: State, e: Event, seen: set<Receipt>)
    requires Traced(s, seen)
    ensures Traced(Step(verify, s, e), seen + if e.Record? && Files(verify, s, e.receipt) then {e.receipt} else {})
  {
    hide Traced, Filed, Found, EarliestArrival, Settling;
    assert seen + {} == seen;
    match e
    case Open(spec) =>
      OpenedInboxes(s, spec);
      UnfiledTraced(s, AfterOpen(s, spec), seen);
    case Record(receipt, arrivedAt) =>
      var after := AfterRecord(verify, s, receipt, arrivedAt).0;
      if Files(verify, s, receipt) { FiledTraced(s, receipt, after, seen); } else { UnfiledTraced(s, after, seen); }
    case Settle(slot) =>
      SettlingFinds(s, slot);
      UnfiledTraced(s, AfterSettle(s, slot), seen);
  }

  lemma {:induction false} RunTraced(verify: Verifier, nodeKeys: map<nat, Key>, events: seq<Event>)
    ensures Traced(Run(verify, Opened(nodeKeys), events), Accepted(verify, Opened(nodeKeys), events))
    ensures forall r :: r in Accepted(verify, Opened(nodeKeys), events) ==>
              r.node in nodeKeys && verify(nodeKeys[r.node], r) && exists e ::
                e in events && e.Record? && e.receipt == r
  {
    hide Step, Traced;
    if events == [] {
      NothingTraced(nodeKeys);
    } else {
      var rest, last := events[..|events| - 1], events[|events| - 1];
      RunTraced(verify, nodeKeys, rest);
      RunKeepsInv(verify, nodeKeys, rest);
      var s := Run(verify, Opened(nodeKeys), rest);
      StepTraced(verify, s, last, Accepted(verify, Opened(nodeKeys), rest));
    }
  }

  lemma NothingTraced(nodeKeys: map<nat, Key>)
    ensures Traced(Opened(nodeKeys), {})
  {}

  ghost predicate Contradict(a: Receipt, b: Receipt, node: nat, slot: nat) {
    && a.node == b.node == node && a.slot == b.slot == slot
    && (a.makers != b.makers || a.prevState != b.prevState || a.newState != b.newState || a.outcome != b.outcome)
  }

  /** A run convicts a node exactly when it filed two of the node's receipts that contradict each other. */
  lemma ConvictedIffContradicting(verify: Verifier, nodeKeys: map<nat, Key>, events: seq<Event>, node: nat, slot: nat)
    ensures node in Convicted(verify, Run(verify, Opened(nodeKeys), events), slot) <==>
            exists a, b :: && a in Accepted(verify, Opened(nodeKeys), events)
                && b in Accepted(verify, Opened(nodeKeys), events)
                           && Contradict(a, b, node, slot)
  {
    hide Run, Accepted, Inv, Traced;
    var s, seen := Run(verify, Opened(nodeKeys), events), Accepted(verify, Opened(nodeKeys), events);
    RunKeepsInv(verify, nodeKeys, events);
    RunTraced(verify, nodeKeys, events);
    if node in Convicted(verify, s, slot) {
      var e :| e in s.evidence && Convicts(verify, s, e, node, slot);
      ExhibitsSeen(s, seen, e);
      assert Contradict(e.exhibits[0], e.exhibits[1], node, slot);
    }
    if a, b :| a in seen && b in seen && Contradict(a, b, node, slot) {
      ContradictionConvicts(verify, s, seen, a, b, node, slot);
    }
  }

  lemma ExhibitsSeen(s: State, seen: set<Receipt>, e: Evidence)
    requires Traced(s, seen) && e in s.evidence
    ensures forall i :: 0 <= i < |e.exhibits| ==> e.exhibits[i] in seen
  {
    forall i | 0 <= i < |e.exhibits| ensures e.exhibits[i] in seen { assert e.exhibits[i] in e.exhibits; }
  }

  lemma ContradictionConvicts(verify: Verifier, s: State, seen: set<Receipt>, a: Receipt, b: Receipt, node: nat,
                              slot: nat)
    requires Inv(verify, s) && Traced(s, seen) && a in seen && b in seen && Contradict(a, b, node, slot)
    ensures node in Convicted(verify, s, slot)
  {
    hide Convicts;
    assert Filing(verify, s, slot, node);
    var rs := From(InboxOf(s, slot), node);
    var i :| 0 <= i < |rs| && rs[i] == a;
    var j :| 0 <= j < |rs| && rs[j] == b;
    var e := Evidence(Equivocation, node, slot, TwoResults, if i < j then [rs[i], rs[j]] else [rs[j], rs[i]]);
    assert e in s.evidence;
    assert Convicts(verify, s, e, node, slot);
  }

  /** A node none of whose recorded receipts contradict each other is never convicted. */
  lemma HonestAreNeverConvicted(verify: Verifier, nodeKeys: map<nat, Key>, events: seq<Event>, node: nat, slot: nat)
    requires node in nodeKeys
    requires forall i, j :: 0 <= i < |events| && 0 <= j < |events| && events[i].Record? && events[j].Record?
                            && verify(nodeKeys[node], events[i].receipt) && verify(nodeKeys[node], events[j].receipt)
                            ==> !Contradict(events[i].receipt, events[j].receipt, node, slot)
    ensures node !in Convicted(verify, Run(verify, Opened(nodeKeys), events), slot)
  {
    hide Run, Accepted, Convicted;
    RunTraced(verify, nodeKeys, events);
    ConvictedIffContradicting(verify, nodeKeys, events, node, slot);
  }
}
