/**
 * What an outbox entry owes to the calls of its run: the request it carries was asked for, what is
 * dispatched is what was asked for, and every final state was reported for a request of these bytes.
 */
module OutboxHistory {
  import opened Basics
  import opened OutboxSpec
  import opened OutboxRuns
  import opened OutboxClaims

  // ----- accepting -----

  /** The call that asked for exactly this request. */
  ghost predicate AskedBy(call: Call, core: Core) {
    && core.digest == Digest(core.bytes)
    && (call == Enqueue(core.requestId, core.bytes, core.acceptedAt, core.expiresAt)
        || call == EnqueueFirstSeen(core.requestId, core.bytes, core.acceptedAt, core.expiresAt))
  }

  /** A new request is stored as asked; the same one again changes nothing, and a conflicting one is refused. */
  lemma EnqueueStores(limits: Limits, data: Data, call: Call)
    requires (call.Enqueue? || call.EnqueueFirstSeen?) && data.generation + 1 < U64
    ensures var o := Step(limits, data, call);
            match o.response
            case Enqueued(sequence) =>
              && call.id !in data.entries && call.id in o.data.entries && sequence == data.nextSequence
              && o.data.nextSequence == sequence + 1 && o.data.entries[call.id].core.sequence == sequence
              && AskedBy(call, o.data.entries[call.id].core) && o.data.entries[call.id].state == Queued
              && o.data.entries - {call.id} == data.entries
            case AlreadyPresent(sequence) =>
              && o.data.entries == data.entries && call.id in data.entries
              && var core := data.entries[call.id].core;
                 && core.sequence == sequence && core.bytes == call.bytes && core.expiresAt == call.expiresAt
                 && (call.Enqueue? ==> core.acceptedAt == call.acceptedAt)
            case _ => o.data == data && o.response == Refused
    ensures var stamped := if call.Enqueue? then call.acceptedAt else call.firstSeenAt;
            Step(limits, data, call).response.Enqueued?
            <==> && ValidIdentifier(call.id, 128) && 1 <= |call.bytes| <= limits.maxRequestBytes
                 && stamped < call.expiresAt && call.id !in data.entries && |data.entries| < limits.maxEntries
                 && data.nextSequence + 1 < U64
    ensures var stamped := if call.Enqueue? then call.acceptedAt else call.firstSeenAt;
            Step(limits, data, call).response.AlreadyPresent?
            <==> && ValidIdentifier(call.id, 128) && 1 <= |call.bytes| <= limits.maxRequestBytes
                 && stamped < call.expiresAt && call.id in data.entries
                 && var core := data.entries[call.id].core;
                    && core.bytes == call.bytes && core.digest == Digest(call.bytes) && core.expiresAt == call.expiresAt
                    && (call.Enqueue? ==> core.acceptedAt == call.acceptedAt)
  {
    hide ValidIdentifier;
  }

  // ----- finalizing -----

  ghost predicate GoodReceipt(receipt: CanonicalReceipt, digest: Digest) {
    ValidIdentifier(receipt.network, 256) && ValidIdentifier(receipt.transaction, 256) && receipt.digest == digest
  }

  /** The reported request is there, its bytes are the ones reported on, and what is reported is well formed. */
  ghost predicate Addressed(data: Data, call: Call) {
    && data.generation + 1 < U64 && Addresses(call)
    && call.id in data.entries && data.entries[call.id].core.digest == call.digest
    && match call
       case RecordMpcAdmission(_, digest, _, mpc) =>
         ValidIdentifier(mpc.committee, 256) && ValidIdentifier(mpc.job, 256) && mpc.digest == digest
       case RecordSettlement(_, digest, receipt) => GoodReceipt(receipt, digest)
       case RecordRelease(_, digest, receipt) => GoodReceipt(receipt, digest)
       case MarkManualReview(_, _, _, reason) => 1 <= |reason| <= 512
       case _ => true
  }

  /** A report that is not is refused, whatever the request's state. */
  lemma UnaddressedRefused(limits: Limits, data: Data, call: Call)
    requires Addresses(call) && !Addressed(data, call)
    ensures Step(limits, data, call) == Outcome(data, Refused)
  {
    hide ValidIdentifier, Target;
  }

  /** The step stores this state for the reported request and changes no other. */
  ghost predicate Stores(data: Data, call: Call, o: Outcome, state: State)
    requires Addressed(data, call)
  {
    o.response == Done && o.data.entries == data.entries[call.id := data.entries[call.id].(state := state)]
  }

  /** An admission is taken from a request in flight; its repeat, and one after the settlement, are no news. */
  lemma AdmissionTaken(limits: Limits, data: Data, call: Call)
    requires call.RecordMpcAdmission? && Addressed(data, call)
    ensures var (o, s) := (Step(limits, data, call), data.entries[call.id].state);
            if s.Dispatching? then Stores(data, call, o, MpcAdmitted(s.attempt, call.admittedAt, call.mpc))
            else if s.Settled? || (s.MpcAdmitted? && s.mpc == call.mpc) then Stores(data, call, o, s)
            else o == Outcome(data, Refused)
  {
    hide ValidIdentifier;
  }

  /** A release is asked for once the request is late or under review. */
  lemma ReleaseRequestTaken(limits: Limits, data: Data, call: Call)
    requires call.MarkReleasePending? && Addressed(data, call)
    ensures var (o, s) := (Step(limits, data, call), data.entries[call.id].state);
            if s.Expired? || s.ManualReview? then Stores(data, call, o, ReleasePending(call.requestedAt))
            else if s.ReleasePending? || s.Released? then Stores(data, call, o, s)
            else o == Outcome(data, Refused)
  {}

  /** Anything not final can be set aside for review. */
  lemma ReviewTaken(limits: Limits, data: Data, call: Call)
    requires call.MarkManualReview? && Addressed(data, call)
    ensures var (o, s) := (Step(limits, data, call), data.entries[call.id].state);
            if s.Settled? || s.Released? || s.AbortedBeforeReserve? then o == Outcome(data, Refused)
            else Stores(data, call, o, ManualReview(call.markedAt, call.reason))
  {}

  /** A settlement is taken from a request in flight or admitted, and again for the same transition. */
  lemma SettlementTaken(limits: Limits, data: Data, call: Call)
    requires call.RecordSettlement? && Addressed(data, call)
    ensures var (o, s) := (Step(limits, data, call), data.entries[call.id].state);
            && (o.response == Done <==>
                  || s.Dispatching? || s.MpcAdmitted?
                  || (s.Settled? && s.receipt.(finalizedAt := 0) == call.receipt.(finalizedAt := 0)))
            && (o.response == Done ==> Stores(data, call, o, if s.Settled? then s else Settled(call.receipt)))
            && (o.response != Done ==> o == Outcome(data, Refused))
  {
    hide ValidIdentifier;
  }

  /** A release is taken from anything that is not final, and again for the same transition. */
  lemma ReleaseTaken(limits: Limits, data: Data, call: Call)
    requires call.RecordRelease? && Addressed(data, call)
    ensures var (o, s) := (Step(limits, data, call), data.entries[call.id].state);
            && (o.response == Done <==>
                  || s.Queued? || s.Dispatching? || s.MpcAdmitted? || s.Expired? || s.ReleasePending? || s.ManualReview?
                  || (s.Released? && s.receipt.(finalizedAt := 0) == call.receipt.(finalizedAt := 0)))
            && (o.response == Done ==> Stores(data, call, o, if s.Released? then s else Released(call.receipt)))
            && (o.response != Done ==> o == Outcome(data, Refused))
  {
    hide ValidIdentifier;
  }

  /** An abort is taken from anything the committee has not admitted, and repeats are no news. */
  lemma AbortTaken(limits: Limits, data: Data, call: Call)
    requires call.RecordPreReserveAbort? && Addressed(data, call)
    ensures var (o, s) := (Step(limits, data, call), data.entries[call.id].state);
            if s.MpcAdmitted? || s.Settled? || s.Released? then o == Outcome(data, Refused)
            else Stores(data, call, o, if s.AbortedBeforeReserve? then s else AbortedBeforeReserve(call.finalizedAt))
  {}

  /** Final since before the given time. */
  ghost predicate Outdated(s: State, before: nat) {
    match s
    case Settled(receipt) => receipt.finalizedAt < before
    case Released(receipt) => receipt.finalizedAt < before
    case AbortedBeforeReserve(at) => at < before
    case _ => false
  }

  /** Pruning removes exactly the requests that became final before the given time, and says how many. */
  lemma PruneRemovesExactly(limits: Limits, data: Data, before: nat)
    requires data.generation + 1 < U64
    ensures var o := Step(limits, data, PruneFinalized(before));
            && (forall id :: id in o.data.entries <==> id in data.entries && !Outdated(data.entries[id].state, before))
            && (forall id :: id in o.data.entries ==> id in data.entries && o.data.entries[id] == data.entries[id])
            && o.response == Pruned(|data.entries.Keys - o.data.entries.Keys|)
  {
    var kept := Kept(data.entries, before);
    forall id | id in data.entries ensures id in kept <==> !Outdated(data.entries[id].state, before) {}
    Removed(data.entries, kept);
    assert Step(limits, data, PruneFinalized(before)).data.entries == kept;
    hide Kept, Outdated;
  }

  lemma Removed(entries: Entries, kept: Entries)
    requires kept.Keys <= entries.Keys
    ensures |kept| <= |entries| && |entries.Keys - kept.Keys| == |entries| - |kept|
  {
    assert entries.Keys == kept.Keys + (entries.Keys - kept.Keys);
    assert |entries| == |entries.Keys| && |kept| == |kept.Keys|;
  }

  // ----- histories -----

  ghost predicate Dispatched(log: seq<Emitted>, core: Core) { exists e :: e in log && e.claim.core == core }

  /** What an entry's state says happened did happen: it was sent, and a call reported its final state. */
  ghost predicate Accounted(e: Entry, calls: seq<Call>, log: seq<Emitted>) {
    var (id, digest) := (e.core.requestId, e.core.digest);
    && (exists c :: c in calls && AskedBy(c, e.core))
    && (e.state.Dispatching? || e.state.MpcAdmitted? || e.state.Settled? ==> Dispatched(log, e.core))
    && match e.state
       case MpcAdmitted(_, at, mpc) => RecordMpcAdmission(id, digest, at, mpc) in calls && mpc.digest == digest
       case Settled(receipt) => RecordSettlement(id, digest, receipt) in calls && receipt.digest == digest
       case Released(receipt) => RecordRelease(id, digest, receipt) in calls && receipt.digest == digest
       case AbortedBeforeReserve(at) => RecordPreReserveAbort(id, digest, at) in calls
       case _ => true
  }

  ghost predicate AllAccounted(data: Data, calls: seq<Call>, log: seq<Emitted>) {
    && (forall id :: id in data.entries ==> Accounted(data.entries[id], calls, log))
    && (forall e :: e in log ==> exists c :: c in calls && AskedBy(c, e.claim.core))
  }

  /** More calls and more dispatches take nothing back. */
  lemma StaysAccounted(e: Entry, calls: seq<Call>, log: seq<Emitted>, call: Call, more: seq<Emitted>)
    requires Accounted(e, calls, log)
    ensures Accounted(e, calls + [call], log + more)
  {
    hide AskedBy;
    var c :| c in calls && AskedBy(c, e.core);
    assert c in calls + [call];
    if Dispatched(log, e.core) {
      var x :| x in log && x.claim.core == e.core;
      assert x in log + more;
    }
  }

  /** What a claim may do to an entry. */
  lemma ClaimTouches(entries: Entries, after: Entries, action: Option<Action>, now: nat, retryAfter: nat, healthy: bool)
    requires Answers(entries, after, action, now, retryAfter, healthy)
    ensures after.Keys == entries.Keys
    ensures forall id :: id in entries ==>
              || after[id] == entries[id]
              || (after[id].core == entries[id].core
                  && (after[id].state.Expired? || after[id].state.ManualReview?
                      || (after[id].state.Dispatching?
                          && action == Some(Dispatch(Claim(entries[id].core, after[id].state.attempt))))))
    ensures action.Some? && action.value.Dispatch? ==>
              exists id :: id in entries && entries[id].core == action.value.claim.core
  {
    hide Ready, Passed, Sent, Late, Unreleased;
  }

  /** A step that leaves an entry alone, or accounts for it anew, keeps everything accounted for. */
  lemma StepAccounts(data: Data, after: Data, calls: seq<Call>, log: seq<Emitted>, call: Call, more: seq<Emitted>)
    requires AllAccounted(data, calls, log)
    requires forall id :: id in after.entries ==>
               || (id in data.entries && after.entries[id] == data.entries[id])
               || Accounted(after.entries[id], calls + [call], log + more)
    requires forall e :: e in more ==> exists id :: id in data.entries && data.entries[id].core == e.claim.core
    ensures AllAccounted(after, calls + [call], log + more)
  {
    hide Accounted, AskedBy;
    forall id | id in after.entries ensures Accounted(after.entries[id], calls + [call], log + more) {
      if id in data.entries && after.entries[id] == data.entries[id] {
        StaysAccounted(data.entries[id], calls, log, call, more);
      }
    }
    forall e | e in log + more ensures exists c :: c in calls + [call] && AskedBy(c, e.claim.core) {
      var c := AskedFor(data, calls, log, more, e);
      assert c in calls + [call];
    }
  }

  lemma AskedFor(data: Data, calls: seq<Call>, log: seq<Emitted>, more: seq<Emitted>, e: Emitted) returns (c: Call)
    requires AllAccounted(data, calls, log) && e in log + more
    requires forall e :: e in more ==> exists id :: id in data.entries && data.entries[id].core == e.claim.core
    ensures c in calls && AskedBy(c, e.claim.core)
  {
    hide AskedBy;
    if e in log {
      c :| c in calls && AskedBy(c, e.claim.core);
    } else {
      var id :| id in data.entries && data.entries[id].core == e.claim.core;
      assert Accounted(data.entries[id], calls, log);
      c :| c in calls && AskedBy(c, data.entries[id].core);
    }
  }

  /** A claim accounts for what it sends, and sends only what is there. */
  lemma ClaimAccounts(data: Data, after: Data, calls: seq<Call>, log: seq<Emitted>, call: Call, action: Option<Action>,
                      more: seq<Emitted>)
    requires AllAccounted(data, calls, log) && (call.ClaimNext? || call.ClaimCoverSlot?)
    requires Answers(data.entries, after.entries, action, call.now, call.retryAfter, call.healthy)
    requires more == if action.Some? && action.value.Dispatch?
                     then [Emitted(action.value.claim, call.now, call.healthy)] else []
    ensures AllAccounted(after, calls + [call], log + more)
  {
    hide Answers, Accounted;
    ClaimTouches(data.entries, after.entries, action, call.now, call.retryAfter, call.healthy);
    forall id | id in after.entries && after.entries[id] != data.entries[id]
      ensures Accounted(after.entries[id], calls + [call], log + more)
    {
      StaysAccounted(data.entries[id], calls, log, call, more);
      if after.entries[id].state.Dispatching? { assert more[0] in log + more; }
      MovedOn(data.entries[id], after.entries[id], calls + [call], log + more);
    }
    StepAccounts(data, after, calls, log, call, more);
  }

  lemma MovedOn(e: Entry, after: Entry, calls: seq<Call>, log: seq<Emitted>)
    requires Accounted(e, calls, log) && after.core == e.core
    requires after.state.Expired? || after.state.ManualReview? || after.state.ReleasePending?
             || (after.state.Dispatching? && Dispatched(log, e.core))
    ensures Accounted(after, calls, log)
  {}

  /** A report accounts for the state it stores. */
  lemma ReportAccounts(data: Data, calls: seq<Call>, log: seq<Emitted>, call: Call)
    requires AllAccounted(data, calls, log) && Addresses(call)
    requires forall id :: id in data.entries ==> data.entries[id].core.requestId == id
    ensures AllAccounted(Transition(data, call).data, calls + [call], log)
  {
    hide AllAccounted;
    var o := Transition(data, call);
    assert log + [] == log;
    if o.response == Done {
      var (e, after) := (data.entries[call.id], o.data.entries[call.id]);
      EntryAccounted(data, calls, log, call.id);
      StaysAccounted(e, calls, log, call, []);
      ReportedState(e, after, calls + [call], log, call);
    }
    hide Accounted, Target, WellFormed;
    StepAccounts(data, o.data, calls, log, call, []);
  }

  lemma EntryAccounted(data: Data, calls: seq<Call>, log: seq<Emitted>, id: string)
    requires AllAccounted(data, calls, log) && id in data.entries
    ensures Accounted(data.entries[id], calls, log)
  {}

  lemma ReportedState(e: Entry, after: Entry, calls: seq<Call>, log: seq<Emitted>, call: Call)
    requires Accounted(e, calls, log) && Addresses(call) && WellFormed(call) && call in calls
    requires call.id == e.core.requestId && call.digest == e.core.digest
    requires Target(call, e.state) == Some(after.state) && after.core == e.core
    ensures Accounted(after, calls, log)
  {
    hide ValidIdentifier, AskedBy, Dispatched;
  }

  lemma EnqueueAccounts(limits: Limits, data: Data, calls: seq<Call>, log: seq<Emitted>, call: Call)
    requires AllAccounted(data, calls, log) && (call.Enqueue? || call.EnqueueFirstSeen?) && data.generation + 1 < U64
    ensures AllAccounted(Step(limits, data, call).data, calls + [call], log)
  {
    hide Step, AllAccounted, AskedBy, ValidIdentifier;
    EnqueueStores(limits, data, call);
    assert log + [] == log && call in calls + [call];
    var o := Step(limits, data, call);
    if o.response.Enqueued? {
      assert Accounted(o.data.entries[call.id], calls + [call], log);
      forall id | id in o.data.entries && id != call.id
        ensures id in data.entries && o.data.entries[id] == data.entries[id]
      {
        assert id in (o.data.entries - {call.id});
      }
    }
    hide Accounted;
    StepAccounts(data, o.data, calls, log, call, []);
  }

  lemma StepKeepsAccount(limits: Limits, data: Data, calls: seq<Call>, log: seq<Emitted>, call: Call)
    requires Inv(limits, data) && AllAccounted(data, calls, log)
    ensures var o := Step(limits, data, call);
            AllAccounted(o.data, calls + [call], log + EmittedBy(call, o.response))
  {
    hide AllAccounted, Accounted, Answers, Transition, Cover, ClaimOldest, Accept;
    var o := Step(limits, data, call);
    var more := EmittedBy(call, o.response);
    assert log + [] == log;
    if o == Outcome(data, Refused) {
      StepAccounts(data, data, calls, log, call, []);
    } else if call.ClaimNext? {
      ClaimNextAnswers(limits, data, call);
      ClaimAccounts(data, o.data, calls, log, call, o.response.action, more);
    } else if call.ClaimCoverSlot? {
      CoverSlotAnswers(limits, data, call);
      if o.response.Covered? && o.response.slot.Some? {
        ClaimAccounts(data, o.data, calls, log, call, Uncovered(o.response.slot.value.action), more);
      } else {
        StepAccounts(data, o.data, calls, log, call, []);
      }
    } else if call.Enqueue? || call.EnqueueFirstSeen? {
      EnqueueAccounts(limits, data, calls, log, call);
    } else if call.PruneFinalized? {
      StepAccounts(data, o.data, calls, log, call, []);
    } else {
      ReportAccounts(data, calls, log, call);
      SameEntries(Transition(data, call).data, o.data, calls + [call], log);
    }
  }

  lemma SameEntries(a: Data, b: Data, calls: seq<Call>, log: seq<Emitted>)
    requires AllAccounted(a, calls, log) && a.entries == b.entries
    ensures AllAccounted(b, calls, log)
  {}

  /**
   * Every run from an empty outbox: each entry and each dispatch carries the bytes, digest and
   * expiry some call asked for; whatever is dispatching, admitted or settled was dispatched; and
   * each final state was reported by a call naming the request and the digest of its bytes.
   */
  lemma {:induction false} RunIsAccounted(limits: Limits, calls: seq<Call>)
    ensures var (data, log) := Run(limits, EMPTY, calls);
            && (forall id :: id in data.entries ==> Accounted(data.entries[id], calls, log))
            && (forall e :: e in log ==> exists c :: c in calls && AskedBy(c, e.claim.core))
  {
    hide Step, Inv, Accounted, AskedBy;
    if calls != [] {
      var rest := calls[..|calls| - 1];
      RunIsAccounted(limits, rest);
      var (data, log) := Run(limits, EMPTY, rest);
      EmptyIsFine(limits);
      RunKeepsInv(limits, EMPTY, rest);
      StepKeepsAccount(limits, data, rest, log, calls[|rest|]);
      assert calls == rest + [calls[|rest|]];
    }
  }
}
