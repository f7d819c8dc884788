/**
 * When the outbox hands a request out, said of the entries alone: which request a claim answers
 * for, at which attempt, from which second on, and which requests it sets aside on the way.
 */
module OutboxClaims {
  import opened Basics
  import opened OutboxSpec
  import P = Polynomials

  // ----- the requests a claim looks for -----

  ghost predicate Unreleased(e: Entry) { e.state.Expired? || e.state.ReleasePending? }

  ghost predicate Late(e: Entry, now: nat) {
    (e.state.Queued? || e.state.Dispatching? || e.state.ManualReview?) && e.core.expiresAt <= now
  }

  /** Waiting for its first dispatch, or sent fewer than ten times. */
  ghost predicate Sendable(e: Entry) { e.state.Queued? || (e.state.Dispatching? && e.state.attempt < 10) }

  ghost predicate Exhausted(e: Entry) { e.state.Dispatching? && e.state.attempt >= 10 }

  ghost predicate First(entries: Entries, wanted: Entry -> bool, id: string) {
    && id in entries && wanted(entries[id])
    && forall other :: other in entries && wanted(entries[other]) ==>
         entries[id].core.sequence <= entries[other].core.sequence
  }

  ghost predicate Nowhere(entries: Entries, wanted: Entry -> bool) {
    forall id :: id in entries ==> !wanted(entries[id])
  }

  // ----- what a claim answers -----

  /** The wait before each resend, in multiples of the caller's: one, doubling up to 128. */
  ghost function Doublings(attempt: nat): nat {
    if attempt <= 1 then 1 else if attempt == 2 then 2 else if attempt == 3 then 4 else if attempt == 4 then 8
    else if attempt == 5 then 16 else if attempt == 6 then 32 else if attempt == 7 then 64 else 128
  }

  /** Never sent, five minutes gone, the wait gone, or the clock at its end. */
  ghost predicate Ready(s: State, now: nat, retryAfter: nat)
    requires s.Queued? || s.Dispatching?
  {
    || s.Queued? || now >= s.startedAt + 300 || now >= s.startedAt + retryAfter * Doublings(s.attempt)
    || now >= U64 - 1
  }

  /** Out of attempts, with no request that still has some before it. */
  ghost predicate Passed(entries: Entries, id: string)
    requires id in entries
  {
    && Exhausted(entries[id])
    && forall other :: other in entries && Sendable(entries[other]) ==>
         entries[id].core.sequence < entries[other].core.sequence
  }

  ghost function Reviewed(entries: Entries, now: nat): Entries {
    map id | id in entries ::
      if Passed(entries, id) then entries[id].(state := ManualReview(now, RETRY_LIMIT)) else entries[id]
  }

  ghost function Sent(e: Entry): nat { if e.state.Dispatching? then e.state.attempt else 0 }

  /** The answer for the oldest request that can still be sent. */
  ghost predicate Handled(entries: Entries, id: string, after: Entries, action: Option<Action>, now: nat,
                          retryAfter: nat)
    requires id in entries && Sendable(entries[id])
  {
    var (e, aside) := (entries[id], Reviewed(entries, now));
    var next := Sent(e) + 1;
    if Ready(e.state, now, retryAfter) then
      && action == Some(Dispatch(Claim(e.core, next)))
      && after == aside[id := Entry(e.core, Dispatching(next, now))]
    else action == None && after == aside
  }

  /**
   * A claim, for every queue: the oldest unreleased request is reported again; failing that the
   * oldest late one expires; failing that, and with a healthy quorum, the oldest request with
   * attempts left is sent when it is ready and held when it is not, and every request out of
   * attempts before it is set aside for review.
   */
  ghost predicate Answers(entries: Entries, after: Entries, action: Option<Action>, now: nat, retryAfter: nat,
                          healthy: bool) {
    var late := e => Late(e, now);
    if !Nowhere(entries, Unreleased) then
      && after == entries
      && exists id :: First(entries, Unreleased, id) && action == Some(Expire(id, entries[id].core.digest))
    else if !Nowhere(entries, late) then
      exists id :: First(entries, late, id) && action == Some(Expire(id, entries[id].core.digest))
                   && after == entries[id := Entry(entries[id].core, Expired(now))]
    else if !healthy then after == entries && action == None
    else if !Nowhere(entries, Sendable) then
      exists id :: First(entries, Sendable, id) && Handled(entries, id, after, action, now, retryAfter)
    else after == Reviewed(entries, now) && action == None
  }

  // ----- the state machine gives that answer -----

  lemma PowersOfTwo(k: nat)
    ensures P.Power(2, Least(if k == 0 then 0 else k - 1, 7)) == Doublings(k)
  {
    assert P.Power(2, 0) == 1 && P.Power(2, 1) == 2 && P.Power(2, 2) == 4 && P.Power(2, 3) == 8;
    assert P.Power(2, 4) == 16 && P.Power(2, 5) == 32;
    assert P.Power(2, 6) == 64 && P.Power(2, 7) == 128;
  }

  lemma ReadyWhenDue(attempt: nat, startedAt: nat, now: nat, retryAfter: nat)
    ensures Ready(Dispatching(attempt, startedAt), now, retryAfter)
            <==> now >= Least(startedAt + RetryDelay(retryAfter, attempt), U64 - 1)
  {
    PowersOfTwo(attempt);
    hide P.Power, Doublings;
    assert RetryDelay(retryAfter, attempt) == Least(Least(retryAfter * Doublings(attempt), U64 - 1), 300);
  }

  /** What a dispatch does with the oldest live request. */
  lemma DispatchNextUnfolds(entries: Entries, now: nat, retryAfter: nat, id: string)
    requires UniqueSequences(entries) && IsOldest(entries, Dispatchable, id)
    ensures Exhausted(entries[id]) ==>
              DispatchNext(entries, now, retryAfter)
              == DispatchNext(WithState(entries, id, ManualReview(now, RETRY_LIMIT)), now, retryAfter)
    ensures !Exhausted(entries[id]) ==>
              var (e, r) := (entries[id], DispatchNext(entries, now, retryAfter));
              if Ready(e.state, now, retryAfter) then
                && r.1 == Some(Dispatch(Claim(e.core, Sent(e) + 1)))
                && r.0 == entries[id := Entry(e.core, Dispatching(Sent(e) + 1, now))]
              else r == (entries, None)
  {
    hide RetryDelay, UniqueSequences;
    OldestIs(entries, Dispatchable, id);
    if entries[id].state.Dispatching? {
      ReadyWhenDue(entries[id].state.attempt, entries[id].state.startedAt, now, retryAfter);
    }
  }

  /** The live requests with attempts left, and those without, stay what they are. */
  lemma OthersStay(entries: Entries, id: string, now: nat)
    requires id in entries && Exhausted(entries[id])
    ensures var rest := WithState(entries, id, ManualReview(now, RETRY_LIMIT));
            && !Exhausted(rest[id]) && !Sendable(rest[id]) && !Sendable(entries[id]) && rest.Keys == entries.Keys
            && forall other :: other in entries && other != id ==> rest[other] == entries[other]
  {}

  /** Setting aside the oldest live request, when it is out of attempts, changes no other verdict. */
  lemma ReviewingOne(entries: Entries, id: string, now: nat)
    requires UniqueSequences(entries) && IsOldest(entries, Dispatchable, id) && Exhausted(entries[id])
    ensures Reviewed(WithState(entries, id, ManualReview(now, RETRY_LIMIT)), now) == Reviewed(entries, now)
  {
    var rest := WithState(entries, id, ManualReview(now, RETRY_LIMIT));
    assert Passed(entries, id);
    OthersStay(entries, id, now);
    hide UniqueSequences, IsOldest, Sendable, Exhausted, WithState;
    forall other | other in entries && other != id ensures Passed(rest, other) <==> Passed(entries, other) {
      if Passed(entries, other) {
        forall x | x in rest && Sendable(rest[x]) ensures entries[other].core.sequence < entries[x].core.sequence {
          assert Sendable(entries[x]);
        }
      }
      if Passed(rest, other) {
        forall x | x in entries && Sendable(entries[x]) ensures rest[other].core.sequence < rest[x].core.sequence {
          assert Sendable(rest[x]);
        }
      }
    }
  }

  lemma SameSendable(entries: Entries, id: string, now: nat, other: string)
    requires id in entries && Exhausted(entries[id])
    requires First(WithState(entries, id, ManualReview(now, RETRY_LIMIT)), Sendable, other)
    ensures First(entries, Sendable, other)
    ensures entries[other] == WithState(entries, id, ManualReview(now, RETRY_LIMIT))[other]
  {
    var rest := WithState(entries, id, ManualReview(now, RETRY_LIMIT));
    OthersStay(entries, id, now);
    hide Sendable, Exhausted, WithState;
    forall x | x in entries && Sendable(entries[x]) ensures entries[other].core.sequence <= entries[x].core.sequence {
      assert Sendable(rest[x]);
    }
  }

  lemma StillNowhere(entries: Entries, id: string, now: nat)
    requires id in entries && Exhausted(entries[id])
    ensures Nowhere(WithState(entries, id, ManualReview(now, RETRY_LIMIT)), Sendable) <==> Nowhere(entries, Sendable)
  {
    var rest := WithState(entries, id, ManualReview(now, RETRY_LIMIT));
    OthersStay(entries, id, now);
    hide Sendable, Exhausted, WithState;
    assert forall x :: x in entries ==> (Sendable(rest[x]) <==> Sendable(entries[x]));
  }

  /** With a sendable request oldest, or no live one at all, there is nothing to set aside. */
  lemma NothingToReview(entries: Entries, now: nat)
    requires forall id :: id in entries ==> !Passed(entries, id)
    ensures Reviewed(entries, now) == entries
  {
    hide Passed;
  }

  lemma {:induction false} DispatchNextAnswers(entries: Entries, now: nat, retryAfter: nat)
    requires UniqueSequences(entries)
    ensures var (after, action) := DispatchNext(entries, now, retryAfter);
            if Nowhere(entries, Sendable) then after == Reviewed(entries, now) && action == None
            else exists id :: First(entries, Sendable, id) && Handled(entries, id, after, action, now, retryAfter)
    decreases LiveIds(entries)
  {
    hide Reviewed, Ready, Sent;
    var oldest := Oldest(entries, Dispatchable);
    if oldest.None? {
      assert Nowhere(entries, Sendable);
      NothingToReview(entries, now);
    } else {
      var id := oldest.value;
      DispatchNextUnfolds(entries, now, retryAfter, id);
      hide DispatchNext;
      if Exhausted(entries[id]) {
        DispatchPastExhausted(entries, now, retryAfter, id);
      } else {
        assert First(entries, Sendable, id);
        NothingToReview(entries, now);
        var (after, action) := DispatchNext(entries, now, retryAfter);
        assert Handled(entries, id, after, action, now, retryAfter);
      }
    }
  }

  lemma {:induction false} DispatchPastExhausted(entries: Entries, now: nat, retryAfter: nat, id: string)
    requires UniqueSequences(entries) && IsOldest(entries, Dispatchable, id) && Exhausted(entries[id])
    ensures var rest := WithState(entries, id, ManualReview(now, RETRY_LIMIT));
            var (after, action) := DispatchNext(rest, now, retryAfter);
            if Nowhere(entries, Sendable) then after == Reviewed(entries, now) && action == None
            else exists id :: First(entries, Sendable, id) && Handled(entries, id, after, action, now, retryAfter)
    decreases LiveIds(entries), 0
  {
    hide Reviewed, Ready, Sent, DispatchNext, Nowhere;
    var rest := WithState(entries, id, ManualReview(now, RETRY_LIMIT));
    assert UniqueSequences(rest);
    FewerLive(entries, id, ManualReview(now, RETRY_LIMIT));
    DispatchNextAnswers(rest, now, retryAfter);
    ReviewingOne(entries, id, now);
    StillNowhere(entries, id, now);
    if !Nowhere(entries, Sendable) {
      var (after, action) := DispatchNext(rest, now, retryAfter);
      var other :| First(rest, Sendable, other) && Handled(rest, other, after, action, now, retryAfter);
      SameSendable(entries, id, now, other);
      assert Handled(entries, other, after, action, now, retryAfter);
    }
  }

  lemma OldestIsFirst(entries: Entries, kind: Kind, wanted: Entry -> bool)
    requires forall e :: Matches(kind, e) <==> wanted(e)
    ensures var r := Oldest(entries, kind);
            if r.None? then Nowhere(entries, wanted) else First(entries, wanted, r.value) && !Nowhere(entries, wanted)
  {}

  lemma ClaimAnswers(entries: Entries, now: nat, retryAfter: nat, healthy: bool)
    requires UniqueSequences(entries)
    ensures var (after, action) := ClaimOldest(entries, now, retryAfter, healthy);
            Answers(entries, after, action, now, retryAfter, healthy)
  {
    var late := e => Late(e, now);
    OldestIsFirst(entries, AwaitingRelease, Unreleased);
    OldestIsFirst(entries, Overdue(now), late);
    DispatchNextAnswers(entries, now, retryAfter);
    hide Nowhere, First, DispatchNext, Handled, Reviewed, Oldest, UniqueSequences;
  }

  /** The claim behind a cover slot's action: nothing to send is covered by a dummy. */
  ghost function Uncovered(action: CoverAction): Option<Action> {
    match action
    case Real(claim) => Some(Dispatch(claim))
    case Release(id, digest) => Some(Expire(id, digest))
    case Dummy => None
  }

  /** A plain claim gives that answer and stores exactly what it says. */
  lemma ClaimNextAnswers(limits: Limits, data: Data, call: Call)
    requires UniqueSequences(data.entries) && data.generation + 1 < U64 && call.ClaimNext?
    ensures var o := Step(limits, data, call);
            && o.response.Claimed?
            && Answers(data.entries, o.data.entries, o.response.action, call.now, call.retryAfter, call.healthy)
  {
    hide ClaimOldest, Answers, UniqueSequences, Cover, Accept, Transition, Kept;
    ClaimAnswers(data.entries, call.now, call.retryAfter, call.healthy);
  }

  /** So does a claimed cover slot; a cover call that claims no slot leaves the queue alone. */
  lemma CoverSlotAnswers(limits: Limits, data: Data, call: Call)
    requires UniqueSequences(data.entries) && call.ClaimCoverSlot?
    ensures var o := Step(limits, data, call);
            if o.response.Covered? && o.response.slot.Some? then
              Answers(data.entries, o.data.entries, Uncovered(o.response.slot.value.action), call.now, call.retryAfter,
                      call.healthy)
            else o.data.entries == data.entries
  {
    hide ClaimOldest, Answers, UniqueSequences, Accept, Transition, Kept;
    ClaimAnswers(data.entries, call.now, call.retryAfter, call.healthy);
    var action := ClaimOldest(data.entries, call.now, call.retryAfter, call.healthy).1;
    match action
    case None =>
    case Some(Dispatch(_)) =>
    case Some(Expire(_, _)) =>
  }
}
