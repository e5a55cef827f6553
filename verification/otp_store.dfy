/**
 The OTP store and the two operations the web handlers perform on it.

 The store maps a (trimmed) identifier to its one pending record; `Generate`
 issues a fresh code and overwrites whatever was there, `Validate` checks a
 submitted code and consumes the record on success or on expiry. Both are
 pure: they return the outcome together with the store as it is afterwards.
 The random digits and the current time are parameters.
 */
module OtpStore {
  import opened Text
  import opened Digits

  /** Number of digits in a code. */
  const OtpLength: nat := 6

  /** How long a code stays valid, in seconds. An age of exactly this many
      seconds is still valid. */
  const OtpExpirySeconds: int := 30

  /** The `OtpLength` digits drawn from the secure random source for one code. */
  type Draw = ds: seq<Digit> | |ds| == OtpLength witness [0, 0, 0, 0, 0, 0]

  /** A pending code and the time it was issued. */
  datatype Record = Record(otp: string, ts: int)

  /** At most one pending record per identifier. */
  type Store = map<string, Record>

  datatype GenerateOutcome =
    | InvalidIdentifier
    | Issued(code: string, expiresIn: int)

  datatype ValidateOutcome =
    | InvalidInput
    | NotFound
    | Expired
    | Success
    | Mismatch

  /** An outcome together with the store after the operation. */
  datatype Step<+O> = Step(outcome: O, store: Store)

  /** A well-formed passcode: exactly `OtpLength` decimal digits. */
  predicate IsCode(s: string) {
    |s| == OtpLength && IsNumeric(s)
  }

  /** The record issued at `ts` is past its window at `now`. */
  predicate IsExpired(r: Record, now: int) {
    now - r.ts > OtpExpirySeconds
  }

  /** The code built from one draw: a well-formed code from which the draw
      can be read back, so no two draws share a code. */
  function NewCode(draw: Draw): (code: string)
    ensures IsCode(code)
    ensures Parse(code) == draw
  {
    ParseRender(draw);
    Render(draw)
  }

  /** Issue a code for `identifier` at time `now`.

      A blank identifier is refused and nothing changes. Otherwise the new
      record is stored under the trimmed identifier, replacing any earlier
      one whatever its state, and every other identifier keeps its record. */
  function Generate(store: Store, identifier: string, draw: Draw, now: int): (r: Step<GenerateOutcome>)
    ensures r.outcome == InvalidIdentifier <==> AllSpace(identifier)
    ensures r.outcome == InvalidIdentifier ==> r.store == store
    ensures r.outcome.Issued? ==>
      && IsCode(r.outcome.code)
      && Parse(r.outcome.code) == draw
      && r.outcome.expiresIn == OtpExpirySeconds
      && Strip(identifier) in r.store
      && r.store[Strip(identifier)] == Record(r.outcome.code, now)
      && r.store.Keys == store.Keys + {Strip(identifier)}
      && (forall k :: k in store && k != Strip(identifier) ==> r.store[k] == store[k])
  {
    StripEmptyIff(identifier);
    var key := Strip(identifier);
    if key == [] then
      Step(InvalidIdentifier, store)
    else
      var code := NewCode(draw);
      Step(Issued(code, OtpExpirySeconds), store[key := Record(code, now)])
  }

  /** Check `code` against the record of `identifier` at time `now`.

      A blank field gives `InvalidInput` and an identifier without a record
      gives `NotFound`, both leaving the store alone. A record older than the
      window gives `Expired`; a matching code within the window gives
      `Success`; both remove exactly that record. Any other code gives
      `Mismatch` and leaves the store exactly as it was. */
  function Validate(store: Store, identifier: string, code: string, now: int): (r: Step<ValidateOutcome>)
    ensures r.outcome == InvalidInput <==> AllSpace(identifier) || AllSpace(code)
    ensures r.outcome == NotFound <==>
      !AllSpace(identifier) && !AllSpace(code) && Strip(identifier) !in store
    ensures r.outcome == Expired <==>
      && !AllSpace(identifier) && !AllSpace(code) && Strip(identifier) in store
      && IsExpired(store[Strip(identifier)], now)
    ensures r.outcome == Success <==>
      && !AllSpace(identifier) && !AllSpace(code) && Strip(identifier) in store
      && !IsExpired(store[Strip(identifier)], now)
      && Strip(code) == store[Strip(identifier)].otp
    ensures r.outcome == Mismatch <==>
      && !AllSpace(identifier) && !AllSpace(code) && Strip(identifier) in store
      && !IsExpired(store[Strip(identifier)], now)
      && Strip(code) != store[Strip(identifier)].otp
    ensures r.outcome in {InvalidInput, NotFound, Mismatch} ==> r.store == store
    ensures r.outcome in {Expired, Success} ==>
      && r.store.Keys == store.Keys - {Strip(identifier)}
      && (forall k :: k in r.store ==> r.store[k] == store[k])
  {
    StripEmptyIff(identifier);
    StripEmptyIff(code);
    var key := Strip(identifier);
    var submitted := Strip(code);
    if key == [] || submitted == [] then
      Step(InvalidInput, store)
    else if key !in store then
      Step(NotFound, store)
    else if IsExpired(store[key], now) then
      Step(Expired, store - {key})
    else if submitted == store[key].otp then
      Step(Success, store - {key})
    else
      Step(Mismatch, store)
  }

  /** `Validate` on an identifier that has a record, with a non-blank code:
      the outcome is decided by age first and then by the code, and the
      record goes unless the code merely mismatched. */
  lemma ValidateRecorded(store: Store, identifier: string, code: string, now: int)
    requires Strip(identifier) != [] && Strip(code) != [] && Strip(identifier) in store
    ensures var key := Strip(identifier);
      var r := Validate(store, identifier, code, now);
      && r.outcome == (if IsExpired(store[key], now) then Expired
                       else if Strip(code) == store[key].otp then Success
                       else Mismatch)
      && r.store == (if r.outcome == Mismatch then store else store - {key})
  {
    var key := Strip(identifier);
    if IsExpired(store[key], now) {
      assert Validate(store, identifier, code, now) == Step(Expired, store - {key});
    } else if Strip(code) == store[key].otp {
      assert Validate(store, identifier, code, now) == Step(Success, store - {key});
    } else {
      assert Validate(store, identifier, code, now) == Step(Mismatch, store);
    }
  }

  /** `Validate` with non-blank fields on an identifier without a record
      reports `NotFound` and changes nothing. */
  lemma ValidateUnrecorded(store: Store, identifier: string, code: string, now: int)
    requires Strip(identifier) != [] && Strip(code) != [] && Strip(identifier) !in store
    ensures Validate(store, identifier, code, now) == Step(NotFound, store)
  {
  }

  /** `Generate` with a non-blank identifier stores the new code under the
      trimmed identifier. */
  lemma GenerateIssues(store: Store, identifier: string, draw: Draw, now: int)
    requires !AllSpace(identifier)
    ensures Generate(store, identifier, draw, now)
      == Step(Issued(NewCode(draw), OtpExpirySeconds),
              store[Strip(identifier) := Record(NewCode(draw), now)])
  {
    StripEmptyIff(identifier);
  }

  /** The store invariant: every key is a non-blank trimmed identifier and
      every pending code is well formed. */
  predicate Valid(store: Store) {
    forall k :: k in store ==> k != [] && Strip(k) == k && IsCode(store[k].otp)
  }

  lemma GeneratePreservesValid(store: Store, identifier: string, draw: Draw, now: int)
    requires Valid(store)
    ensures Valid(Generate(store, identifier, draw, now).store)
  {
    StripEmptyIff(identifier);
    var key := Strip(identifier);
    if key != [] {
      StripIdempotent(identifier);
      GenerateIssues(store, identifier, draw, now);
      var code := NewCode(draw);
      var m := store[key := Record(code, now)];
      forall k | k in m ensures k != [] && Strip(k) == k && IsCode(m[k].otp) {
        if k != key {
          assert m[k] == store[k];
        }
      }
      assert Valid(m);
    }
  }

  lemma ValidatePreservesValid(store: Store, identifier: string, code: string, now: int)
    requires Valid(store)
    ensures Valid(Validate(store, identifier, code, now).store)
  {
    var r := Validate(store, identifier, code, now);
    assert r.store.Keys <= store.Keys && forall k :: k in r.store ==> r.store[k] == store[k];
  }
}
