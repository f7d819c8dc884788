/**
 * The corporate outbox itself: an object whose calls rewrite its durable data, each proved to be
 * the step of the state machine.
 */
module Outbox {
  import opened Basics
  import opened Counting
  import opened OutboxClaims
  import opened OutboxRuns
  import opened OutboxSpec

  /** The filtered minimum over the entries. */
  method FindOldest(entries: Entries, kind: Kind) returns (r: Option<string>)
    requires UniqueSequences(entries)
    ensures r == Oldest(entries, kind)
  {
    hide Matches, UniqueSequences;
    var rest := entries.Keys;
    r := None;
    while rest != {}
      invariant rest <= entries.Keys
      invariant r.None? ==> forall id :: id in entries.Keys - rest ==> !Matches(kind, entries[id])
      invariant r.Some? ==> OldestAmong(entries, kind, entries.Keys - rest, r.value)
      decreases |rest|
    {
      var id :| id in rest;
      if Matches(kind, entries[id]) && (r.None? || entries[id].core.sequence < entries[r.value].core.sequence) {
        r := Some(id);
      }
      rest := rest - {id};
    }
    assert entries.Keys - rest == entries.Keys;
    if r.Some? { OldestIs(entries, kind, r.value); }
  }

  lemma StaysUnique(entries: Entries, id: string, state: State)
    requires UniqueSequences(entries) && id in entries
    ensures UniqueSequences(WithState(entries, id, state))
  {}

  /** The claim loop: requests out of attempts are set aside until one can be handed out. */
  method ClaimFrom(entries: Entries, now: nat, retryAfter: nat, healthy: bool)
    returns (after: Entries, action: Option<Action>)
    requires UniqueSequences(entries)
    ensures (after, action) == ClaimOldest(entries, now, retryAfter, healthy)
    ensures Answers(entries, after, action, now, retryAfter, healthy)
  {
    hide UniqueSequences, RetryDelay, Answers;
    ClaimAnswers(entries, now, retryAfter, healthy);
    after := entries;
    var pending := FindOldest(entries, AwaitingRelease);
    if pending.Some? { return entries, Some(Expire(pending.value, entries[pending.value].core.digest)); }
    var overdue := FindOldest(entries, Overdue(now));
    if overdue.Some? {
      return WithState(entries, overdue.value, Expired(now)),
             Some(Expire(overdue.value, entries[overdue.value].core.digest));
    }
    if !healthy { return entries, None; }
    while true
      invariant UniqueSequences(after) && DispatchNext(after, now, retryAfter) == DispatchNext(entries, now, retryAfter)
      decreases LiveIds(after)
    {
      var oldest := FindOldest(after, Dispatchable);
      if oldest.None? { return after, None; }
      var id := oldest.value;
      var e := after[id];
      var next;
      match e.state {
        case Queued => next := 1;
        case Dispatching(attempt, startedAt) =>
          if attempt >= MAX_ATTEMPTS {
            FewerLive(after, id, ManualReview(now, RETRY_LIMIT));
            StaysUnique(after, id, ManualReview(now, RETRY_LIMIT));
            after := WithState(after, id, ManualReview(now, RETRY_LIMIT));
            continue;
          }
          if now < Least(startedAt + RetryDelay(retryAfter, attempt), U64 - 1) { return after, None; }
          next := attempt + 1;
      }
      return WithState(after, id, Dispatching(next, now)), Some(Dispatch(Claim(e.core, next)));
    }
  }

  class CorporateOutbox {
    const limits: Limits
    var generation: nat
    var nextSequence: nat
    var nextCoverSlot: nat
    var nextCoverDueAt: Option<nat>
    var entries: Entries

    function Contents(): Data
      reads this
    {
      Data(generation, nextSequence, nextCoverSlot, nextCoverDueAt, entries)
    }

    ghost predicate Sound()
      reads this
    {
      Inv(limits, Contents())
    }

    constructor (limits: Limits)
      ensures this.limits == limits && Sound() && Contents() == EMPTY
    {
      this.limits := limits;
      generation, nextSequence, nextCoverSlot, nextCoverDueAt, entries := 0, 0, 0, None, map[];
    }

    /** Count the write and check the data once more before it replaces the old; the check cannot fail. */
    method Commit(o: Outcome, ghost call: Call) returns (r: Response)
      requires Sound() && o == Effect(limits, Contents(), call)
      modifies this
      ensures Sound() && Outcome(Contents(), r) == Step(limits, old(Contents()), call)
    {
      hide Effect;
      StepKeepsInv(limits, Contents(), call);
      if o.response.Refused? || generation + 1 >= U64 { return Refused; }
      var next := o.data.(generation := generation + 1);
      if !Valid(limits, next) {
        assert false;
      }
      generation, nextSequence, nextCoverSlot := next.generation, next.nextSequence, next.nextCoverSlot;
      nextCoverDueAt, entries := next.nextCoverDueAt, next.entries;
      r := o.response;
    }

    method Refuse(ghost call: Call) returns (r: Response)
      requires Sound() && Effect(limits, Contents(), call) == Outcome(Contents(), Refused)
      modifies this
      ensures Sound() && Outcome(Contents(), r) == Step(limits, old(Contents()), call)
    {
      hide Effect;
      r := Commit(Outcome(Contents(), Refused), call);
    }

    /** Store one entry's new state; storing the state it has still counts as a write. */
    method Move(id: string, state: State, ghost call: Call) returns (r: Response)
      requires Sound() && id in entries
      requires Effect(limits, Contents(), call) == Outcome(Contents().(entries := WithState(entries, id, state)), Done)
      modifies this
      ensures Sound() && Outcome(Contents(), r) == Step(limits, old(Contents()), call)
    {
      hide Effect;
      r := Commit(Outcome(Contents().(entries := WithState(entries, id, state)), Done), call);
    }

    method EnqueueRequest(id: string, bytes: Bytes, acceptedAt: nat, expiresAt: nat) returns (r: Response)
      requires Sound()
      modifies this
      ensures Sound() && Outcome(Contents(), r)
              == Step(limits, old(Contents()), Enqueue(id, bytes, acceptedAt, expiresAt))
    {
      hide Inv, ValidIdentifier;
      ghost var call := Enqueue(id, bytes, acceptedAt, expiresAt);
      if !ValidIdentifier(id, MAX_REQUEST_ID) { r := Refuse(call); return; }
      if |bytes| == 0 || |bytes| > limits.maxRequestBytes { r := Refuse(call); return; }
      if expiresAt <= acceptedAt { r := Refuse(call); return; }
      if id in entries {
        var e := entries[id];
        if e.core.digest == Digest(bytes) && e.core.bytes == bytes && e.core.acceptedAt == acceptedAt
            && e.core.expiresAt == expiresAt {
          r := Commit(Outcome(Contents(), AlreadyPresent(e.core.sequence)), call);
        } else {
          r := Refuse(call);
        }
        return;
      }
      if |entries| >= limits.maxEntries || nextSequence + 1 >= U64 { r := Refuse(call); return; }
      var entry := Entry(Core(id, nextSequence, acceptedAt, expiresAt, Digest(bytes), bytes), Queued);
      var next := Contents().(entries := entries[id := entry], nextSequence := nextSequence + 1);
      r := Commit(Outcome(next, Enqueued(nextSequence)), call);
    }

    /** A retry of the same bytes keeps the acceptance time it was first seen with. */
    method EnqueueOnFirstSight(id: string, bytes: Bytes, firstSeenAt: nat, expiresAt: nat) returns (r: Response)
      requires Sound()
      modifies this
      ensures Sound() && Outcome(Contents(), r)
              == Step(limits, old(Contents()), EnqueueFirstSeen(id, bytes, firstSeenAt, expiresAt))
    {
      hide Inv, ValidIdentifier;
      ghost var call := EnqueueFirstSeen(id, bytes, firstSeenAt, expiresAt);
      if !ValidIdentifier(id, MAX_REQUEST_ID) { r := Refuse(call); return; }
      if |bytes| == 0 || |bytes| > limits.maxRequestBytes { r := Refuse(call); return; }
      if expiresAt <= firstSeenAt { r := Refuse(call); return; }
      if id in entries {
        var e := entries[id];
        if e.core.digest == Digest(bytes) && e.core.bytes == bytes && e.core.expiresAt == expiresAt {
          r := Commit(Outcome(Contents(), AlreadyPresent(e.core.sequence)), call);
        } else {
          r := Refuse(call);
        }
        return;
      }
      if |entries| >= limits.maxEntries || nextSequence + 1 >= U64 { r := Refuse(call); return; }
      var entry := Entry(Core(id, nextSequence, firstSeenAt, expiresAt, Digest(bytes), bytes), Queued);
      var next := Contents().(entries := entries[id := entry], nextSequence := nextSequence + 1);
      r := Commit(Outcome(next, Enqueued(nextSequence)), call);
    }

    method NextAction(now: nat, healthy: bool, retryAfter: nat) returns (r: Response)
      requires Sound()
      modifies this
      ensures Sound() && Outcome(Contents(), r) == Step(limits, old(Contents()), ClaimNext(now, healthy, retryAfter))
    {
      hide ClaimOldest, Answers;
      var after, action := ClaimFrom(entries, now, retryAfter, healthy);
      r := Commit(Outcome(Contents().(entries := after), Claimed(action)), ClaimNext(now, healthy, retryAfter));
    }

    /** Advance the cover schedule by at most one slot; an unhealthy quorum is never handed a request. */
    method NextCoverSlot(now: nat, healthy: bool, retryAfter: nat, interval: nat) returns (r: Response)
      requires Sound()
      modifies this
      ensures Sound() && Outcome(Contents(), r)
              == Step(limits, old(Contents()), ClaimCoverSlot(now, healthy, retryAfter, interval))
    {
      hide ClaimOldest, Inv, Answers, Evolves, LiveUnchanged, DispatchedFrom;
      ghost var call := ClaimCoverSlot(now, healthy, retryAfter, interval);
      if interval == 0 { r := Commit(Outcome(Contents(), Refused), call); return; }
      var due := if nextCoverDueAt.Some? then nextCoverDueAt.value else now;
      if now < due { r := Commit(Outcome(Contents(), Covered(None)), call); return; }
      if nextCoverSlot + 1 >= U64 || due + interval >= U64 { r := Commit(Outcome(Contents(), Refused), call); return; }
      InvKeyed(limits, Contents());
      var after, action := ClaimFrom(entries, now, retryAfter, healthy);
      ClaimMoves(entries, now, retryAfter, healthy);
      var cover := Dummy;
      match action {
        case None =>
        case Some(Dispatch(claim)) =>
          if !healthy { assert false; }
          cover := Real(claim);
        case Some(Expire(id, digest)) => cover := Release(id, digest);
      }
      var next := Contents().(nextCoverSlot := nextCoverSlot + 1, nextCoverDueAt := Some(due + interval),
                              entries := after);
      r := Commit(Outcome(next, Covered(Some(CoverSlot(nextCoverSlot, due, cover)))), call);
    }

    /** A dispatched request becomes admitted; the same receipt again, or a settlement already made, changes nothing. */
    method RecordAdmission(id: string, digest: Digest, admittedAt: nat, mpc: MpcReceipt) returns (r: Response)
      requires Sound()
      modifies this
      ensures Sound() && Outcome(Contents(), r)
              == Step(limits, old(Contents()), RecordMpcAdmission(id, digest, admittedAt, mpc))
    {
      hide Inv, ValidIdentifier;
      ghost var call := RecordMpcAdmission(id, digest, admittedAt, mpc);
      if !ValidIdentifier(mpc.committee, MAX_RECEIPT_ID) || !ValidIdentifier(mpc.job, MAX_RECEIPT_ID)
          || mpc.digest != digest {
        r := Refuse(call);
        return;
      }
      if id !in entries || entries[id].core.digest != digest { r := Refuse(call); return; }
      var state := entries[id].state;
      match state {
        case Dispatching(attempt, _) => r := Move(id, MpcAdmitted(attempt, admittedAt, mpc), call);
        case MpcAdmitted(_, _, existing) =>
          if existing == mpc { r := Move(id, state, call); } else { r := Refuse(call); }
        case Settled(_) => r := Move(id, state, call);
        case _ => r := Refuse(call);
      }
    }

    /** A canonical settlement closes a dispatched or admitted request. */
    method RecordSettled(id: string, digest: Digest, receipt: CanonicalReceipt) returns (r: Response)
      requires Sound()
      modifies this
      ensures Sound() && Outcome(Contents(), r) == Step(limits, old(Contents()), RecordSettlement(id, digest, receipt))
    {
      hide Inv, ValidIdentifier;
      ghost var call := RecordSettlement(id, digest, receipt);
      if !ValidCanonical(receipt, digest) { r := Refuse(call); return; }
      if id !in entries || entries[id].core.digest != digest { r := Refuse(call); return; }
      var state := entries[id].state;
      match state {
        case Settled(existing) =>
          if SameTransition(existing, receipt) { r := Move(id, state, call); } else { r := Refuse(call); }
        case Dispatching(_, _) => r := Move(id, Settled(receipt), call);
        case MpcAdmitted(_, _, _) => r := Move(id, Settled(receipt), call);
        case _ => r := Refuse(call);
      }
    }

    /** Only an expired or reviewed request may ask for its release. */
    method RequestRelease(id: string, digest: Digest, requestedAt: nat) returns (r: Response)
      requires Sound()
      modifies this
      ensures Sound() && Outcome(Contents(), r)
              == Step(limits, old(Contents()), MarkReleasePending(id, digest, requestedAt))
    {
      hide Inv, ValidIdentifier;
      ghost var call := MarkReleasePending(id, digest, requestedAt);
      if id !in entries || entries[id].core.digest != digest { r := Refuse(call); return; }
      var state := entries[id].state;
      match state {
        case Expired(_) => r := Move(id, ReleasePending(requestedAt), call);
        case ManualReview(_, _) => r := Move(id, ReleasePending(requestedAt), call);
        case ReleasePending(_) => r := Move(id, state, call);
        case Released(_) => r := Move(id, state, call);
        case _ => r := Refuse(call);
      }
    }

    /** A canonical release closes any request that is not final. */
    method RecordReleased(id: string, digest: Digest, receipt: CanonicalReceipt) returns (r: Response)
      requires Sound()
      modifies this
      ensures Sound() && Outcome(Contents(), r) == Step(limits, old(Contents()), RecordRelease(id, digest, receipt))
    {
      hide Inv, ValidIdentifier;
      ghost var call := RecordRelease(id, digest, receipt);
      if !ValidCanonical(receipt, digest) { r := Refuse(call); return; }
      if id !in entries || entries[id].core.digest != digest { r := Refuse(call); return; }
      var state := entries[id].state;
      match state {
        case Released(existing) =>
          if SameTransition(existing, receipt) { r := Move(id, state, call); } else { r := Refuse(call); }
        case Settled(_) => r := Refuse(call);
        case AbortedBeforeReserve(_) => r := Refuse(call);
        case _ => r := Move(id, Released(receipt), call);
      }
    }

    /** A request that has not reached admission may abort; aborting again changes nothing. */
    method RecordAbort(id: string, digest: Digest, finalizedAt: nat) returns (r: Response)
      requires Sound()
      modifies this
      ensures Sound() && Outcome(Contents(), r)
              == Step(limits, old(Contents()), RecordPreReserveAbort(id, digest, finalizedAt))
    {
      hide Inv, ValidIdentifier;
      ghost var call := RecordPreReserveAbort(id, digest, finalizedAt);
      if id !in entries || entries[id].core.digest != digest { r := Refuse(call); return; }
      var state := entries[id].state;
      match state {
        case AbortedBeforeReserve(_) => r := Move(id, state, call);
        case MpcAdmitted(_, _, _) => r := Refuse(call);
        case Settled(_) => r := Refuse(call);
        case Released(_) => r := Refuse(call);
        case _ => r := Move(id, AbortedBeforeReserve(finalizedAt), call);
      }
    }

    /** Anything that is not final can be set aside, with a reason. */
    method SetAsideForReview(id: string, digest: Digest, markedAt: nat, reason: string) returns (r: Response)
      requires Sound()
      modifies this
      ensures Sound() && Outcome(Contents(), r)
              == Step(limits, old(Contents()), MarkManualReview(id, digest, markedAt, reason))
    {
      hide Inv, ValidIdentifier;
      ghost var call := MarkManualReview(id, digest, markedAt, reason);
      if |reason| == 0 || |reason| > MAX_REASON { r := Refuse(call); return; }
      if id !in entries || entries[id].core.digest != digest { r := Refuse(call); return; }
      var state := entries[id].state;
      if Final(state) {
        r := Refuse(call);
      } else {
        r := Move(id, ManualReview(markedAt, reason), call);
      }
    }

    /** Delete what was finalised before the given time, one entry after another. */
    method Prune(before: nat) returns (r: Response)
      requires Sound()
      modifies this
      ensures Sound() && Outcome(Contents(), r) == Step(limits, old(Contents()), PruneFinalized(before))
    {
      hide Prunable, Inv;
      var kept: Entries := entries;
      var rest := entries.Keys;
      while rest != {}
        invariant rest <= entries.Keys
        invariant kept.Keys <= entries.Keys && forall id :: id in kept ==> kept[id] == entries[id]
        invariant forall id :: id in entries ==> (id in kept <==> id in rest || !Prunable(entries[id], before))
        decreases |rest|
      {
        var id :| id in rest;
        if Prunable(entries[id], before) { kept := kept - {id}; }
        rest := rest - {id};
      }
      assert kept == Kept(entries, before);
      SubsetCard(kept.Keys, entries.Keys);
      r := Commit(Outcome(Contents().(entries := kept), Pruned(|entries| - |kept|)), PruneFinalized(before));
    }
  }

  /** A usable outbox needs a passphrase of twelve bytes and room for something. */
  method NewOutbox(passphrase: Bytes, limits: Limits) returns (r: CorporateOutbox?)
    ensures r != null <==> |passphrase| >= 12 && limits.maxEntries > 0 && limits.maxRequestBytes > 0
    ensures r != null ==> fresh(r) && r.limits == limits && r.Sound() && r.Contents() == EMPTY
  {
    if |passphrase| < 12 || limits.maxEntries == 0 || limits.maxRequestBytes == 0 { return null; }
    r := new CorporateOutbox(limits);
  }
}
