/**
 * When a slot settles, said of the events alone: which receipts were recorded, when they first
 * arrived, and how the slot was last opened.
 */
module Settlement {
  import opened Basics
  import opened Receipts

  /** The arrival times stamped on this node's filed receipts for this slot. */
  ghost function Arrivals(verify: Verifier, s: State, events: seq<Event>, slot: nat, node: nat): set<nat> {
    if events == [] then {} else
    var rest, last := events[..|events| - 1], events[|events| - 1];
    Arrivals(verify, s, rest, slot, node)
    + if last.Record? && last.arrivedAt.Some? && last.receipt.slot == slot && last.receipt.node == node
         && Files(verify, Run(verify, s, rest), last.receipt) then {last.arrivedAt.value} else {}
  }

  ghost predicate IsEarliest(s: State, slot: nat, node: nat, times: set<nat>) {
    if times == {} then (slot, node) !in s.arrived
    else (slot, node) in s.arrived && s.arrived[(slot, node)] in times
         && forall t :: t in times ==> s.arrived[(slot, node)] <= t
  }

  lemma StepKeepsEarliest(verify: Verifier, s: State, e: Event, slot: nat, node: nat, times: set<nat>)
    requires IsEarliest(s, slot, node, times)
    ensures IsEarliest(Step(verify, s, e), slot, node,
                       times + if e.Record? && e.arrivedAt.Some? && e.receipt.slot == slot && e.receipt.node == node
                                  && Files(verify, s, e.receipt) then {e.arrivedAt.value} else {})
  {
    hide Found, Filed, Settling;
  }

  /** The arrival a run holds for a node and slot is the earliest one recorded, and there is none without a record. */
  lemma {:induction false} EarliestIsKept(verify: Verifier, nodeKeys: map<nat, Key>, events: seq<Event>, slot: nat,
                                          node: nat)
    ensures IsEarliest(Run(verify, Opened(nodeKeys), events), slot, node,
                       Arrivals(verify, Opened(nodeKeys), events, slot, node))
  {
    hide Step, IsEarliest;
    if events == [] {
      NoneYet(nodeKeys, slot, node);
    } else {
      var rest, last := events[..|events| - 1], events[|events| - 1];
      EarliestIsKept(verify, nodeKeys, rest, slot, node);
      StepKeepsEarliest(verify, Run(verify, Opened(nodeKeys), rest), last, slot, node,
                        Arrivals(verify, Opened(nodeKeys), rest, slot, node));
    }
  }

  lemma NoneYet(nodeKeys: map<nat, Key>, slot: nat, node: nat)
    ensures IsEarliest(Opened(nodeKeys), slot, node, {})
  {}

  /** How the slot was last opened. */
  ghost function LastOpened(events: seq<Event>, slot: nat): Option<SlotSpec> {
    if events == [] then None else
    var last := events[|events| - 1];
    if last.Open? && last.spec.slot == slot then Some(last.spec) else LastOpened(events[..|events| - 1], slot)
  }

  lemma StepKeepsSpec(verify: Verifier, s: State, e: Event, slot: nat)
    ensures var after := Step(verify, s, e);
            if e.Open? && e.spec.slot == slot then slot in after.specs && after.specs[slot] == e.spec
            else (slot in after.specs <==> slot in s.specs)
                 && (slot in s.specs ==> after.specs[slot] == s.specs[slot])
  {
    hide Found, Filed, Settling, EarliestArrival;
  }

  lemma {:induction false} SpecIsLastOpened(verify: Verifier, nodeKeys: map<nat, Key>, events: seq<Event>, slot: nat)
    ensures var s := Run(verify, Opened(nodeKeys), events);
            LastOpened(events, slot) == if slot in s.specs then Some(s.specs[slot]) else None
  {
    hide Step;
    if events != [] {
      var rest := events[..|events| - 1];
      SpecIsLastOpened(verify, nodeKeys, rest, slot);
      StepKeepsSpec(verify, Run(verify, Opened(nodeKeys), rest), events[|events| - 1], slot);
    }
  }

  // ----- votes -----

  /** First seen by the deadline; a receipt never stamped on arrival goes by its own time. */
  ghost predicate InTime(arrivals: set<nat>, r: Receipt, deadline: nat) {
    if arrivals == {} then r.emittedAt <= deadline else exists t :: t in arrivals && t <= deadline
  }

  /** The receipt signs the slot as it was opened. */
  ghost predicate Matching(r: Receipt, spec: SlotSpec) {
    r.slot == spec.slot && r.makers == spec.makers && r.market == spec.market && r.deadline == spec.deadline
  }

  ghost predicate Votes(verify: Verifier, nodeKeys: map<nat, Key>, events: seq<Event>, spec: SlotSpec, node: nat,
                        d: Digest) {
    exists r :: r in Accepted(verify, Opened(nodeKeys), events) && r.node == node && r.newState == d
                && Matching(r, spec)
                && InTime(Arrivals(verify, Opened(nodeKeys), events, spec.slot, node), r, spec.deadline)
  }

  /** The registered nodes with a matching receipt in time for this new state. */
  ghost function Voters(verify: Verifier, nodeKeys: map<nat, Key>, events: seq<Event>, spec: SlotSpec,
                        d: Digest): set<nat> {
    set node | node in nodeKeys && Votes(verify, nodeKeys, events, spec, node, d)
  }

  lemma SeenInTime(s: State, slot: nat, node: nat, r: Receipt, times: set<nat>, deadline: nat)
    requires IsEarliest(s, slot, node, times)
    ensures SeenAt(s, slot, r, node) <= deadline <==> InTime(times, r, deadline)
  {}

  /** The receipts filed under a node and slot are the accepted ones of that node and slot. */
  lemma FiledAre(verify: Verifier, nodeKeys: map<nat, Key>, events: seq<Event>, slot: nat, node: nat, r: Receipt)
    ensures r in From(InboxOf(Run(verify, Opened(nodeKeys), events), slot), node)
            <==> r in Accepted(verify, Opened(nodeKeys), events) && r.slot == slot && r.node == node
    ensures r in Accepted(verify, Opened(nodeKeys), events) ==> r.node in nodeKeys
  {
    hide Run, Accepted, From, InboxOf;
    RunTraced(verify, nodeKeys, events);
  }

  lemma VotesAreSupport(verify: Verifier, nodeKeys: map<nat, Key>, events: seq<Event>, slot: nat, node: nat, d: Digest)
    requires slot in Run(verify, Opened(nodeKeys), events).specs
    ensures var s := Run(verify, Opened(nodeKeys), events);
            var (spec, inbox) := (s.specs[slot], InboxOf(s, slot));
            node in Supporters(s, spec, inbox, d) <==> node in Voters(verify, nodeKeys, events, spec, d)
  {
    hide Run, Accepted, Arrivals, InTime, SeenAt, IsEarliest;
    var s := Run(verify, Opened(nodeKeys), events);
    var spec, inbox := s.specs[slot], InboxOf(s, slot);
    RunKeepsInv(verify, nodeKeys, events);
    SpecsAreKeyed(verify, s);
    hide Inv;
    var times := Arrivals(verify, Opened(nodeKeys), events, slot, node);
    EarliestIsKept(verify, nodeKeys, events, slot, node);
    if node in Supporters(s, spec, inbox, d) {
      var i :| 0 <= i < |inbox[node]| && inbox[node][i].newState == d && Counts(s, spec, node, inbox[node][i]);
      var r := inbox[node][i];
      FiledAre(verify, nodeKeys, events, slot, node, r);
      SeenInTime(s, slot, node, r, times, spec.deadline);
      assert Votes(verify, nodeKeys, events, spec, node, d);
    }
    if node in Voters(verify, nodeKeys, events, spec, d) {
      var r :| r in Accepted(verify, Opened(nodeKeys), events) && r.node == node && r.newState == d
               && Matching(r, spec) && InTime(times, r, spec.deadline);
      FiledAre(verify, nodeKeys, events, slot, node, r);
      SeenInTime(s, slot, node, r, times, spec.deadline);
      var i :| 0 <= i < |inbox[node]| && inbox[node][i] == r;
      assert Counts(s, spec, node, inbox[node][i]);
    }
  }

  // ----- the plurality -----

  /** More voters than any other state, or as many and the greater digest. */
  ghost predicate Wins(verify: Verifier, nodeKeys: map<nat, Key>, events: seq<Event>, spec: SlotSpec, d: Digest) {
    && Voters(verify, nodeKeys, events, spec, d) != {}
    && forall other: Digest :: other != d && Voters(verify, nodeKeys, events, spec, other) != {} ==>
         var (a, b) := (|Voters(verify, nodeKeys, events, spec, d)|, |Voters(verify, nodeKeys, events, spec, other)|);
         b < a || (b == a && other < d)
  }

  /** Of the given states, the one that beats the rest. */
  lemma {:induction false} BestOf(s: State, spec: SlotSpec, inbox: Inbox, states: set<Digest>) returns (best: Digest)
    requires states != {}
    ensures best in states
    ensures forall d :: d in states ==>
              var (a, b) := (|Supporters(s, spec, inbox, best)|, |Supporters(s, spec, inbox, d)|);
              b < a || (b == a && d <= best)
    decreases |states|
  {
    hide Supporters;
    best :| best in states;
    var rest := states - {best};
    if rest != {} {
      var other := BestOf(s, spec, inbox, rest);
      var a, b := |Supporters(s, spec, inbox, best)|, |Supporters(s, spec, inbox, other)|;
      if a < b || (a == b && best < other) { best := other; }
    }
  }

  lemma PluralityExists(s: State, spec: SlotSpec, inbox: Inbox, d: Digest)
    requires Supporters(s, spec, inbox, d) != {}
    ensures Plurality(s, spec, inbox).Some?
  {
    hide Supporters, Supported;
    SupportedAre(s, spec, inbox, d);
    var best := BestOf(s, spec, inbox, Supported(s, spec, inbox));
    forall other: Digest ensures other in Supported(s, spec, inbox) <==> Supporters(s, spec, inbox, other) != {} {
      SupportedAre(s, spec, inbox, other);
    }
    assert IsPlurality(s, spec, inbox, best);
  }

  lemma VotersAre(verify: Verifier, nodeKeys: map<nat, Key>, events: seq<Event>, slot: nat, d: Digest)
    requires slot in Run(verify, Opened(nodeKeys), events).specs
    ensures var s := Run(verify, Opened(nodeKeys), events);
            Supporters(s, s.specs[slot], InboxOf(s, slot), d) == Voters(verify, nodeKeys, events, s.specs[slot], d)
  {
    hide Run, Supporters, Voters;
    forall node: nat
      ensures var s := Run(verify, Opened(nodeKeys), events);
              node in Supporters(s, s.specs[slot], InboxOf(s, slot), d)
              <==> node in Voters(verify, nodeKeys, events, s.specs[slot], d)
    {
      VotesAreSupport(verify, nodeKeys, events, slot, node, d);
    }
  }

  lemma WinnerIsPlurality(verify: Verifier, nodeKeys: map<nat, Key>, events: seq<Event>, slot: nat, d: Digest)
    requires slot in Run(verify, Opened(nodeKeys), events).specs
    ensures var s := Run(verify, Opened(nodeKeys), events);
            Plurality(s, s.specs[slot], InboxOf(s, slot)) == Some(d)
            <==> Wins(verify, nodeKeys, events, s.specs[slot], d)
  {
    hide Run, Supporters, Voters;
    var s := Run(verify, Opened(nodeKeys), events);
    var spec, inbox := s.specs[slot], InboxOf(s, slot);
    forall e: Digest ensures Supporters(s, spec, inbox, e) == Voters(verify, nodeKeys, events, spec, e) {
      VotersAre(verify, nodeKeys, events, slot, e);
    }
    if Wins(verify, nodeKeys, events, spec, d) {
      assert IsPlurality(s, spec, inbox, d);
      PluralityIs(s, spec, inbox, d);
    }
  }

  /**
   * Every run: a slot settles to d exactly when it was opened, the nodes with a receipt matching
   * the slot as last opened, in time, and for d are more than those of any other state (as many
   * and the greater digest will do), and they are at least as many as the opening required.
   */
  lemma SettlesExactlyWhen(verify: Verifier, nodeKeys: map<nat, Key>, events: seq<Event>, slot: nat, d: Digest)
    ensures var v := Settling(Run(verify, Opened(nodeKeys), events), slot);
            var spec := LastOpened(events, slot);
            && (v.NotOpened? <==> spec.None?)
            && (v.Verdict? && v.settled == Some(d)
                <==> && spec.Some? && Wins(verify, nodeKeys, events, spec.value, d)
                     && |Voters(verify, nodeKeys, events, spec.value, d)| >= spec.value.required)
  {
    hide Run, Supporters, Voters, Plurality, Wins, Late, Forked, LastOpened;
    SpecIsLastOpened(verify, nodeKeys, events, slot);
    var s := Run(verify, Opened(nodeKeys), events);
    if slot in s.specs {
      WinnerIsPlurality(verify, nodeKeys, events, slot, d);
      VotersAre(verify, nodeKeys, events, slot, d);
    }
  }

  /** Enough matching receipts in time for any one state, and the slot settles. */
  lemma EnoughVotesSettle(verify: Verifier, nodeKeys: map<nat, Key>, events: seq<Event>, slot: nat, d: Digest)
    requires LastOpened(events, slot).Some?
    requires var spec := LastOpened(events, slot).value;
             |Voters(verify, nodeKeys, events, spec, d)| >= spec.required >= 1
    ensures var v := Settling(Run(verify, Opened(nodeKeys), events), slot);
            v.Verdict? && v.settled.Some?
  {
    hide Run, Supporters, Voters, Late, Forked, LastOpened;
    SpecIsLastOpened(verify, nodeKeys, events, slot);
    VotersAre(verify, nodeKeys, events, slot, d);
    var s := Run(verify, Opened(nodeKeys), events);
    PluralityExists(s, s.specs[slot], InboxOf(s, slot), d);
  }

  // ----- who is named -----

  /** What a filed receipt is reported for: each way it can differ from the slot, and each earlier contradiction. */
  lemma RecordNames(verify: Verifier, s: State, r: Receipt, arrivedAt: Option<nat>, e: Evidence)
    requires Files(verify, s, r)
    ensures var (spec, earlier) := (s.specs[r.slot], From(InboxOf(s, r.slot), r.node));
            e in AfterRecord(verify, s, r, arrivedAt).1
            <==> || (e == Evidence(StaleState, r.node, r.slot, OtherMarket, [r]) && r.market != spec.market)
                 || (e == Evidence(StaleState, r.node, r.slot, OtherDeadline, [r]) && r.deadline != spec.deadline)
                 || (e == Evidence(OmittedMakers, r.node, r.slot, OtherMakers, [r]) && r.makers != spec.makers)
                 || (e == Evidence(StaleState, r.node, r.slot, OtherPredecessor, [r]) && r.slot >= 1
                     && r.slot - 1 in s.settled && s.settled[r.slot - 1] != r.prevState)
                 || exists i :: 0 <= i < |earlier| && ContentOf(earlier[i]) != ContentOf(r)
                                && e == Evidence(Equivocation, r.node, r.slot, TwoResults, [earlier[i], r])
  {
    hide Equivocations, EarliestArrival, Filed;
    var earlier := From(InboxOf(s, r.slot), r.node);
    if e in Equivocations(earlier, r) { EquivocationsAre(earlier, r, e); }
    forall i | 0 <= i < |earlier| && ContentOf(earlier[i]) != ContentOf(r)
      ensures Evidence(Equivocation, r.node, r.slot, TwoResults, [earlier[i], r]) in Equivocations(earlier, r)
    {
      EquivocationsCover(earlier, r, i);
    }
  }

  /** Some receipt of the node for the slot was seen in time, whatever it says. */
  ghost predicate Punctual(verify: Verifier, nodeKeys: map<nat, Key>, events: seq<Event>, spec: SlotSpec, node: nat) {
    exists r :: r in Accepted(verify, Opened(nodeKeys), events) && r.node == node && r.slot == spec.slot
                && InTime(Arrivals(verify, Opened(nodeKeys), events, spec.slot, node), r, spec.deadline)
  }

  lemma {:induction false} LateNames(s: State, spec: SlotSpec, inbox: Inbox, nodes: seq<nat>, e: Evidence)
    ensures e in Late(s, spec, inbox, nodes)
            <==> exists n :: n in nodes && !Fresh(s, spec, inbox, n)
                             && e == Evidence(MissingReceipt, n, spec.slot, NotByDeadline, [])
  {
    hide Fresh;
    if nodes != [] {
      var rest, last := nodes[..|nodes| - 1], nodes[|nodes| - 1];
      LateNames(s, spec, inbox, rest, e);
      assert nodes == rest + [last];
    }
  }

  lemma {:induction false} MinoritiesName(slot: nat, nodes: seq<nat>, e: Evidence)
    ensures e in Minorities(slot, nodes)
            <==> exists n :: n in nodes && e == Evidence(ForkedState, n, slot, Minority, [])
  {
    if nodes != [] {
      var rest, last := nodes[..|nodes| - 1], nodes[|nodes| - 1];
      MinoritiesName(slot, rest, e);
      assert nodes == rest + [last];
    }
  }

  lemma {:induction false} ForkedNames(s: State, spec: SlotSpec, inbox: Inbox, plurality: Digest, states: seq<Digest>,
                                       e: Evidence)
    ensures e in Forked(s, spec, inbox, plurality, states)
            <==> exists d, n :: d in states && d != plurality && n in Supporters(s, spec, inbox, d)
                                && e == Evidence(ForkedState, n, spec.slot, Minority, [])
  {
    hide Supporters, Minorities;
    if states != [] {
      var rest, last := states[..|states| - 1], states[|states| - 1];
      ForkedNames(s, spec, inbox, plurality, rest, e);
      MinoritiesName(spec.slot, Ascending(Supporters(s, spec, inbox, last)), e);
      assert states == rest + [last];
    }
  }

  lemma PunctualIsFresh(verify: Verifier, nodeKeys: map<nat, Key>, events: seq<Event>, slot: nat, node: nat)
    requires slot in Run(verify, Opened(nodeKeys), events).specs
    ensures var s := Run(verify, Opened(nodeKeys), events);
            Fresh(s, s.specs[slot], InboxOf(s, slot), node)
            <==> Punctual(verify, nodeKeys, events, s.specs[slot], node)
  {
    hide Run, Accepted, Arrivals, InTime, SeenAt, IsEarliest;
    var s := Run(verify, Opened(nodeKeys), events);
    var spec, inbox := s.specs[slot], InboxOf(s, slot);
    RunKeepsInv(verify, nodeKeys, events);
    SpecsAreKeyed(verify, s);
    hide Inv;
    var times := Arrivals(verify, Opened(nodeKeys), events, slot, node);
    EarliestIsKept(verify, nodeKeys, events, slot, node);
    if Fresh(s, spec, inbox, node) {
      var i :| 0 <= i < |inbox[node]| && SeenAt(s, spec.slot, inbox[node][i], node) <= spec.deadline;
      FiledAre(verify, nodeKeys, events, slot, node, inbox[node][i]);
      SeenInTime(s, slot, node, inbox[node][i], times, spec.deadline);
    }
    if Punctual(verify, nodeKeys, events, spec, node) {
      var r :| r in Accepted(verify, Opened(nodeKeys), events) && r.node == node && r.slot == spec.slot
               && InTime(times, r, spec.deadline);
      FiledAre(verify, nodeKeys, events, slot, node, r);
      SeenInTime(s, slot, node, r, times, spec.deadline);
      var i :| 0 <= i < |inbox[node]| && inbox[node][i] == r;
    }
  }

  /**
   * What settling reports: a registered node is late exactly when no receipt of its was in time, a
   * node forked exactly when it voted for a state that did not win, and the slot is unresolved
   * exactly when the winner has too few voters.
   */
  lemma SettlingNames(verify: Verifier, nodeKeys: map<nat, Key>, events: seq<Event>, slot: nat, node: nat)
    requires slot in Run(verify, Opened(nodeKeys), events).specs
    ensures var s := Run(verify, Opened(nodeKeys), events);
            var (v, spec) := (Settling(s, slot), s.specs[slot]);
            && v.Verdict?
            && (Evidence(MissingReceipt, node, slot, NotByDeadline, []) in v.found
                <==> node in nodeKeys && !Punctual(verify, nodeKeys, events, spec, node))
            && (Evidence(ForkedState, node, slot, Minority, []) in v.found
                <==> exists w, d: Digest :: Wins(verify, nodeKeys, events, spec, w) && d != w
                                            && node in Voters(verify, nodeKeys, events, spec, d))
            && (Evidence(MissingReceipt, -1, slot, Unresolved, []) in v.found
                <==> exists w :: Wins(verify, nodeKeys, events, spec, w)
                                 && |Voters(verify, nodeKeys, events, spec, w)| < spec.required)
  {
    hide Run, Supporters, Supported, Voters, Wins, Punctual, Fresh, Late, Forked, Plurality, Ascending;
    var s := Run(verify, Opened(nodeKeys), events);
    var spec, inbox := s.specs[slot], InboxOf(s, slot);
    RunKeepsInv(verify, nodeKeys, events);
    SpecsAreKeyed(verify, s);
    hide Inv;
    PunctualIsFresh(verify, nodeKeys, events, slot, node);
    forall d: Digest
      ensures Supporters(s, spec, inbox, d) == Voters(verify, nodeKeys, events, spec, d)
      ensures Plurality(s, spec, inbox) == Some(d) <==> Wins(verify, nodeKeys, events, spec, d)
      ensures d in Supported(s, spec, inbox) <==> Supporters(s, spec, inbox, d) != {}
    {
      VotersAre(verify, nodeKeys, events, slot, d);
      WinnerIsPlurality(verify, nodeKeys, events, slot, d);
      SupportedAre(s, spec, inbox, d);
    }
    var late := Evidence(MissingReceipt, node, slot, NotByDeadline, []);
    var fork := Evidence(ForkedState, node, slot, Minority, []);
    LateNames(s, spec, inbox, Ascending(s.nodeKeys.Keys), late);
    LateNames(s, spec, inbox, Ascending(s.nodeKeys.Keys), fork);
    LateNames(s, spec, inbox, Ascending(s.nodeKeys.Keys), Evidence(MissingReceipt, -1, slot, Unresolved, []));
    if Plurality(s, spec, inbox).Some? {
      var w := Plurality(s, spec, inbox).value;
      ForkedNames(s, spec, inbox, w, Ascending(Supported(s, spec, inbox)), late);
      ForkedNames(s, spec, inbox, w, Ascending(Supported(s, spec, inbox)), fork);
      ForkedNames(s, spec, inbox, w, Ascending(Supported(s, spec, inbox)),
                  Evidence(MissingReceipt, -1, slot, Unresolved, []));
    }
  }

  // ----- what is kept -----

  /** What the last settling of a slot that came to a result came to. */
  ghost function LastSettled(verify: Verifier, s: State, events: seq<Event>, slot: nat): Option<Digest> {
    if events == [] then None else
    var rest, last := events[..|events| - 1], events[|events| - 1];
    var v := Settling(Run(verify, s, rest), slot);
    if last == Settle(slot) && v.Verdict? && v.settled.Some? then v.settled else LastSettled(verify, s, rest, slot)
  }

  /** The evidence a call leaves on record: all it reports, but not against a slot or node it does not know. */
  ghost function LeftBy(verify: Verifier, s: State, e: Event): set<Evidence> {
    match e
    case Open(_) => {}
    case Record(r, at) =>
      if r.slot in s.specs && r.node in s.nodeKeys then AsSet(AfterRecord(verify, s, r, at).1) else {}
    case Settle(slot) => if Settling(s, slot).Verdict? then AsSet(Settling(s, slot).found) else {}
  }

  ghost function Left(verify: Verifier, s: State, events: seq<Event>): set<Evidence> {
    if events == [] then {} else
    var rest := events[..|events| - 1];
    Left(verify, s, rest) + LeftBy(verify, Run(verify, s, rest), events[|events| - 1])
  }

  lemma StepKeeps(verify: Verifier, s: State, e: Event, slot: nat)
    ensures var (after, v) := (Step(verify, s, e), Settling(s, slot));
            && after.evidence == s.evidence + LeftBy(verify, s, e)
            && if e == Settle(slot) && v.Verdict? && v.settled.Some?
               then slot in after.settled && Some(after.settled[slot]) == v.settled
               else (slot in after.settled <==> slot in s.settled)
                    && (slot in s.settled ==> after.settled[slot] == s.settled[slot])
  {
    hide Found, Filed, Settling, EarliestArrival;
  }

  /** A run keeps, per slot, the result of its last settling, and exactly the evidence its calls left. */
  lemma {:induction false} RunKeeps(verify: Verifier, nodeKeys: map<nat, Key>, events: seq<Event>, slot: nat)
    ensures var (s, settled) := (Run(verify, Opened(nodeKeys), events),
                                 LastSettled(verify, Opened(nodeKeys), events, slot));
            && s.evidence == Left(verify, Opened(nodeKeys), events)
            && settled == if slot in s.settled then Some(s.settled[slot]) else None
  {
    hide Step, LeftBy, Settling;
    if events != [] {
      var rest := events[..|events| - 1];
      RunKeeps(verify, nodeKeys, rest, slot);
      StepKeeps(verify, Run(verify, Opened(nodeKeys), rest), events[|events| - 1], slot);
    }
  }
}
