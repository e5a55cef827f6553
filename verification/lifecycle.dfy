/**
 The lifecycle of one identifier's passcode, written as the state diagram it
 follows, independently of the store operations:

   (none)   --generate-->                              Pending
   Pending  --validate(correct, age <= window)-->      (none), Success
   Pending  --validate(wrong,   age <= window)-->      Pending unchanged, Mismatch
   Pending  --validate(age > window)-->                (none), Expired
   (none)   --validate-->                              (none), NotFound
   any      --generate again-->                        Pending with the new code

 Consumed and expired codes leave no trace: both end in (none). The lemmas
 below show that `Generate` and `Validate` move the addressed identifier
 along exactly these arrows and leave every other identifier where it was.
 */
module Lifecycle {
  import opened Text
  import opened OtpStore

  /** Where one identifier stands. */
  datatype Phase = Absent | Pending(code: string, issuedAt: int)

  /** The generate arrow: from any phase, issuing `code` at `at` leads to
      `Pending` with that code and time. Issuing reports no outcome. */
  predicate IssueArrow(before: Phase, code: string, at: int, after: Phase) {
    after == Pending(code, at)
  }

  /** The validate arrows: from `before`, checking the (trimmed) `submitted`
      code at time `at` reports `outcome` and leads to `after`. */
  predicate CheckArrow(before: Phase, submitted: string, at: int, outcome: ValidateOutcome, after: Phase) {
    match before
    case Absent => outcome == NotFound && after == Absent
    case Pending(code, issuedAt) =>
      if at - issuedAt > OtpExpirySeconds then outcome == Expired && after == Absent
      else if submitted == code then outcome == Success && after == Absent
      else outcome == Mismatch && after == before
  }

  /** The phase the store records for `key`. */
  function PhaseOf(store: Store, key: string): Phase {
    if key in store then Pending(store[key].otp, store[key].ts) else Absent
  }

  /** Generating a code moves the trimmed identifier to `Pending` with the new
      code and time, whatever it was before, and no other identifier moves. */
  lemma GenerateFollowsLifecycle(store: Store, identifier: string, draw: Draw, now: int)
    requires !AllSpace(identifier)
    ensures var r := Generate(store, identifier, draw, now);
      && r.outcome.Issued?
      && IssueArrow(PhaseOf(store, Strip(identifier)), r.outcome.code, now,
                    PhaseOf(r.store, Strip(identifier)))
      && forall k :: k != Strip(identifier) ==> PhaseOf(r.store, k) == PhaseOf(store, k)
  {
  }

  /** A validation with non-blank fields moves the trimmed identifier along
      one arrow of the diagram, reporting that arrow's outcome, and no other
      identifier moves. */
  lemma ValidateFollowsLifecycle(store: Store, identifier: string, code: string, now: int)
    requires !AllSpace(identifier) && !AllSpace(code)
    ensures var r := Validate(store, identifier, code, now);
      && CheckArrow(PhaseOf(store, Strip(identifier)), Strip(code), now, r.outcome,
                    PhaseOf(r.store, Strip(identifier)))
      && forall k :: k != Strip(identifier) ==> PhaseOf(r.store, k) == PhaseOf(store, k)
  {
    StripEmptyIff(identifier);
    StripEmptyIff(code);
    var key := Strip(identifier);
    var r := Validate(store, identifier, code, now);
    if key in store {
      ValidateRecorded(store, identifier, code, now);
      assert r.store == store || r.store == store - {key};
    } else {
      ValidateUnrecorded(store, identifier, code, now);
    }
    forall k | k != key ensures PhaseOf(r.store, k) == PhaseOf(store, k) {
      assert k in r.store <==> k in store;
    }
  }

  /** The diagram is deterministic for checks: one phase, one check, one
      outcome and one next phase. So the lemma above pins `Validate` down. */
  lemma CheckIsDeterministic(before: Phase, submitted: string, at: int,
                             o1: ValidateOutcome, a1: Phase, o2: ValidateOutcome, a2: Phase)
    requires CheckArrow(before, submitted, at, o1, a1)
    requires CheckArrow(before, submitted, at, o2, a2)
    ensures o1 == o2 && a1 == a2
  {
  }

  /** A blank field is refused before the lifecycle is consulted: no
      identifier moves. */
  lemma BlankValidateChangesNothing(store: Store, identifier: string, code: string, now: int)
    requires AllSpace(identifier) || AllSpace(code)
    ensures var r := Validate(store, identifier, code, now);
      r.outcome == InvalidInput && forall k :: PhaseOf(r.store, k) == PhaseOf(store, k)
  {
  }
}
