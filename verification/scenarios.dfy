/**
 Behaviour over several requests: issuing then redeeming a code, the exact
 expiry boundary, retries after a wrong code, a code superseded by a newer
 one, and single use over any sequence of requests.
 */
module Scenarios {
  import opened Text
  import opened Digits
  import opened OtpStore

  /** An issued code survives the trimming `Validate` applies to its input. */
  lemma CodeSurvivesTrim(code: string)
    requires IsCode(code)
    ensures Strip(code) == code && code != [] && !AllSpace(code)
  {
    assert !IsSpace(code[0]) && !IsSpace(code[|code| - 1]);
    StrippedIsFixed(code);
  }

  /** The code just issued for `identifier`, submitted back at `later`, is
      accepted if and only if at most `OtpExpirySeconds` have passed; at one
      second more it has expired. An age of exactly the window still counts. */
  lemma ExpiryBoundary(store: Store, identifier: string, draw: Draw, now: int, later: int)
    requires !AllSpace(identifier)
    ensures var g := Generate(store, identifier, draw, now);
      && g.outcome.Issued?
      && Validate(g.store, identifier, g.outcome.code, later).outcome
         == (if later - now > OtpExpirySeconds then Expired else Success)
  {
    var g := Generate(store, identifier, draw, now);
    StripEmptyIff(identifier);
    CodeSurvivesTrim(g.outcome.code);
    ValidateRecorded(g.store, identifier, g.outcome.code, later);
  }

  /** Generate then validate with the returned code within the window
      succeeds; a second validate with the same code, at any time, finds
      nothing: the code is single use. */
  lemma IssueThenRedeem(store: Store, identifier: string, draw: Draw, now: int, later: int, again: int)
    requires !AllSpace(identifier)
    requires later - now <= OtpExpirySeconds
    ensures var g := Generate(store, identifier, draw, now);
      && g.outcome.Issued?
      && var v := Validate(g.store, identifier, g.outcome.code, later);
      && v.outcome == Success
      && Validate(v.store, identifier, g.outcome.code, again).outcome == NotFound
  {
    var g := Generate(store, identifier, draw, now);
    StripEmptyIff(identifier);
    CodeSurvivesTrim(g.outcome.code);
    ValidateRecorded(g.store, identifier, g.outcome.code, later);
    var v := Validate(g.store, identifier, g.outcome.code, later);
    ValidateUnrecorded(v.store, identifier, g.outcome.code, again);
  }

  /** A wrong code within the window is reported as `Mismatch` and changes
      nothing, so the right code still succeeds later in the window. */
  lemma RetryAfterMismatch(store: Store, identifier: string, draw: Draw, now: int,
                           wrong: string, t1: int, t2: int)
    requires !AllSpace(identifier) && !AllSpace(wrong)
    requires t1 - now <= OtpExpirySeconds && t2 - now <= OtpExpirySeconds
    requires Strip(wrong) != Render(draw)
    ensures var g := Generate(store, identifier, draw, now);
      && g.outcome.Issued?
      && var m := Validate(g.store, identifier, wrong, t1);
      && m.outcome == Mismatch
      && m.store == g.store
      && Validate(m.store, identifier, g.outcome.code, t2).outcome == Success
  {
    var g := Generate(store, identifier, draw, now);
    StripEmptyIff(identifier);
    StripEmptyIff(wrong);
    CodeSurvivesTrim(g.outcome.code);
    ValidateRecorded(g.store, identifier, wrong, t1);
    ValidateRecorded(g.store, identifier, g.outcome.code, t2);
  }

  /** Generating twice for one identifier supersedes the first code: it is
      accepted afterwards only if the second draw happened to be the same
      digits and the second code has not expired. Otherwise it is refused as
      `Mismatch`, or `Expired` once the second code's window has passed. */
  lemma RegenerateSupersedes(store: Store, identifier: string, first: Draw, t1: int,
                             second: Draw, t2: int, now: int)
    requires !AllSpace(identifier)
    ensures var g1 := Generate(store, identifier, first, t1);
      && g1.outcome.Issued?
      && var g2 := Generate(g1.store, identifier, second, t2);
      && Validate(g2.store, identifier, g1.outcome.code, now).outcome
         == (if now - t2 > OtpExpirySeconds then Expired
             else if first == second then Success
             else Mismatch)
  {
    var g1 := Generate(store, identifier, first, t1);
    var g2 := Generate(g1.store, identifier, second, t2);
    StripEmptyIff(identifier);
    CodeSurvivesTrim(g1.outcome.code);
    RenderInjective(first, second);
    ValidateRecorded(g2.store, identifier, g1.outcome.code, now);
  }

  /** Once a record has expired it stays expired: validating the same store
      under its (trimmed) key, with no request in between, reports `Expired`
      at `now` and at any later time. Expiry is only ever noticed, never
      undone. (A real second request after the first finds no record, since
      the first one removes it.) */
  lemma ExpiryIsPermanent(store: Store, key: string, code: string, now: int, later: int)
    requires key != [] && IsStripped(key) && key in store && !AllSpace(code)
    requires IsExpired(store[key], now) && now <= later
    ensures Validate(store, key, code, now).outcome == Expired
    ensures Validate(store, key, code, later).outcome == Expired
  {
    StrippedIsFixed(key);
    assert !IsSpace(key[0]);
  }

  /** One request to the two handlers. */
  datatype Request =
    | GenerateRequest(identifier: string, draw: Draw, now: int)
    | ValidateRequest(identifier: string, code: string, now: int)

  datatype Response = Generated(g: GenerateOutcome) | Validated(v: ValidateOutcome)

  /** The responses to a sequence of requests and the store they leave. */
  datatype Trace = Trace(responses: seq<Response>, store: Store)

  /** Serve one request. */
  function Serve(store: Store, req: Request): Step<Response> {
    match req
    case GenerateRequest(identifier, draw, now) =>
      var r := Generate(store, identifier, draw, now);
      Step(Generated(r.outcome), r.store)
    case ValidateRequest(identifier, code, now) =>
      var r := Validate(store, identifier, code, now);
      Step(Validated(r.outcome), r.store)
  }

  lemma ServePreservesValid(store: Store, req: Request)
    ensures Valid(store) ==> Valid(Serve(store, req).store)
  {
    if Valid(store) {
      match req
      case GenerateRequest(identifier, draw, now) =>
        GeneratePreservesValid(store, identifier, draw, now);
      case ValidateRequest(identifier, code, now) =>
        ValidatePreservesValid(store, identifier, code, now);
    }
  }

  /** Serve `reqs` one after another, starting from `store`: one response per
      request, and a well-formed store stays well formed. */
  function Run(store: Store, reqs: seq<Request>): (t: Trace)
    ensures |t.responses| == |reqs|
    ensures Valid(store) ==> Valid(t.store)
    decreases |reqs|
  {
    if reqs == [] then
      Trace([], store)
    else
      var s := Serve(store, reqs[0]);
      ServePreservesValid(store, reqs[0]);
      var rest := Run(s.store, reqs[1..]);
      Trace([s.outcome] + rest.responses, rest.store)
  }

  /** The request generates a code for `key`. */
  predicate IssuesFor(req: Request, key: string) {
    req.GenerateRequest? && Strip(req.identifier) == key
  }

  /** How many requests in `reqs` validated `key` successfully, reading the
      outcomes from `resps`. */
  function Successes(reqs: seq<Request>, resps: seq<Response>, key: string): (n: nat)
    requires |resps| == |reqs|
    ensures n <= |reqs|
  {
    if reqs == [] then 0
    else
      var hit := reqs[0].ValidateRequest? && Strip(reqs[0].identifier) == key
        && resps[0] == Validated(Success);
      (if hit then 1 else 0) + Successes(reqs[1..], resps[1..], key)
  }

  /** Single use: with no new code issued for `key`, any sequence of
      requests, for whatever identifiers and at whatever times, validates
      `key` successfully at most once, and not at all if it had no record. */
  lemma {:induction false} AtMostOneSuccess(store: Store, reqs: seq<Request>, key: string)
    requires forall i :: 0 <= i < |reqs| ==> !IssuesFor(reqs[i], key)
    ensures Successes(reqs, Run(store, reqs).responses, key) <= (if key in store then 1 else 0)
    decreases |reqs|
  {
    if reqs != [] {
      var s := Serve(store, reqs[0]);
      var t := Run(store, reqs);
      var rest := Run(s.store, reqs[1..]);
      assert t.responses[1..] == rest.responses;
      assert key in s.store ==> key in store by {
        if reqs[0].GenerateRequest? {
          assert !IssuesFor(reqs[0], key);
        }
      }
      AtMostOneSuccess(s.store, reqs[1..], key);
      if reqs[0].ValidateRequest? && Strip(reqs[0].identifier) == key
        && t.responses[0] == Validated(Success) {
        assert key in store && key !in s.store;
      }
    }
  }
}
