# OTP Generator — a Dafny model of the passcode lifecycle

The OTP Generator is a small web app. It issues six-digit one-time passcodes
bound to an identifier, such as an email address or a phone number, and
checks codes that are submitted back. All of its logic sits in two request
handlers, `generate` and `validate`. They share one in-memory dictionary,
`otp_store`, which maps an identifier to its pending record `{otp, ts}`.
Two constants govern it: `OTP_LENGTH = 6` and `OTP_EXPIRY_SECONDS = 30`.

This project takes that logic out of the HTTP handlers and models it as pure
functions over an immutable `map<string, Record>`:

- `Text` models Python's `str.strip()`. It uses the exact set of characters
  that `str.isspace()` accepts. Both handlers trim their form fields with it.
- `Digits` models the code as a string of decimal digits built from the
  random draws. Leading zeros are kept.
- `OtpStore` holds the two constants `OtpLength` and `OtpExpirySeconds`, the
  record and store types, and the operations `Generate` and `Validate`. Each
  returns its outcome together with the new store.
- `Lifecycle` writes the per-identifier state diagram on its own
  (none → Pending → consumed/expired/superseded). It proves that both
  operations move the addressed identifier along that diagram and leave every
  other identifier alone.
- `Scenarios` proves the multi-request properties:
  - issue then redeem;
  - the exact expiry boundary;
  - a retry after a wrong code;
  - a code superseded by a newer one;
  - single use across any sequence of requests.

The random source and the clock are parameters. A `Draw` is the sequence of
`OtpLength` digits, each in 0..9, that `secrets.randbelow(10)` would return.
`now` is the current time in whole seconds.

Some details of the model:

- A missing form field is read as `""` (`request.form.get(..., "")`). So it
  behaves like a blank field, and the model takes the field as a plain string.
- The source tests `if not record`. A stored record is a non-empty dict and
  so is always truthy, which means the test is exactly "no record for this
  identifier".

Three further facts about the code shape the model:

- The handlers take no lock. Two simultaneous requests could interleave
  between the lookup at app.py:98 and the `pop` at app.py:109. The model
  serves requests one at a time.
- `time.time()` reads the wall clock, which can be set backwards. So an age
  `now - ts` can be negative, and a negative age is not expired.
- `generate` only flashes the code and the window in a message (app.py:86).
  The model returns them as `Issued(code, expiresIn)`, so that the caller's
  view of the code can be stated.

## Model

| member | source | states |
|---|---|---|
| `Text.TrimStart` | app.py:76 | The result is the longest suffix of the input that does not start with whitespace; everything removed is whitespace. |
| `Text.TrimEnd` | app.py:76 | The result is the longest prefix of the input that does not end with whitespace; everything removed is whitespace. |
| `Text.Strip` | app.py:76 | The trimmed field has no whitespace at either end and is no longer than the input. |
| `Text.StripOfPadded` | app.py:76 | For any whitespace `a` and `b` and any stripped `t`, `strip(a + t + b) == t`. This pins `strip()` down. |
| `Text.StripSplits` | app.py:76 | The input is the stripped result with whitespace before it and whitespace after it. |
| `Text.StripEmptyIff` | app.py:76-79 | A field is empty after trimming if and only if it holds only whitespace. |
| `Text.StripIdempotent` | app.py:91 | Trimming an already trimmed identifier changes nothing. So the key `validate` looks up is the key `generate` stored. |
| `Digits.Render` | app.py:81 | The joined code has one character per draw, and each character is in '0'..'9'. |
| `Digits.ParseRender` | app.py:81 | The digits can be read back from the joined code. |
| `Digits.RenderParse` | app.py:81 | Every string of decimal digits can be produced by some draw, including strings with leading zeros. |
| `Digits.RenderInjective` | app.py:81 | Two draws give the same code if and only if they are the same digits. |
| `OtpStore.NewCode` | app.py:81 | A new code has exactly `OTP_LENGTH` characters, each in '0'..'9', and the draw can be read back from it. |
| `OtpStore.Generate` | app.py:75-87 | A blank identifier (all whitespace) is refused and the store is unchanged. Otherwise the code is well formed and the window is 30 seconds. The trimmed identifier then maps to the new code and `now`, replacing any earlier record. The key set grows by that identifier only, and every other record is untouched. |
| `OtpStore.Validate` | app.py:90-113 | Each outcome holds if and only if its condition holds. A blank field gives InvalidInput. No record gives NotFound. `now - ts > 30` gives Expired. A matching code gives Success. Any other code gives Mismatch. InvalidInput, NotFound and Mismatch leave the store equal to the old one. Expired and Success remove exactly that identifier's record and keep every other record. |
| `OtpStore.GeneratePreservesValid` | app.py:76-83 | `generate` keeps the store invariant: every key is a non-blank trimmed identifier and every stored code is six digits. |
| `OtpStore.ValidatePreservesValid` | app.py:98-112 | `validate` keeps the same store invariant. |
| `Lifecycle.GenerateFollowsLifecycle` | app.py:83 | `generate` moves the identifier to Pending with the new code and time, whatever its phase was before, and no other identifier changes phase. |
| `Lifecycle.ValidateFollowsLifecycle` | app.py:98-112 | A `validate` with non-blank fields takes exactly one arrow of the state diagram: NotFound, Expired, Success or Mismatch, reaching the phase that arrow leads to. No other identifier changes phase. |
| `Lifecycle.CheckIsDeterministic` | app.py:103-112 | From a given phase, a given check has exactly one outcome and one next phase. |
| `Lifecycle.BlankValidateChangesNothing` | app.py:91-96 | A blank identifier or code gives InvalidInput, and no identifier changes phase. |
| `Scenarios.CodeSurvivesTrim` | app.py:92 | An issued code is unchanged by the trimming `validate` applies, and it is never blank. |
| `Scenarios.ExpiryBoundary` | app.py:103-110 | Validating the fresh code gives Success when at most 30 seconds have passed, including exactly 30. It gives Expired when more than 30 seconds have passed. |
| `Scenarios.IssueThenRedeem` | app.py:108-110 | Generating a code and then validating it within the window gives Success. A second validation with the same code, at any time, gives NotFound. |
| `Scenarios.RetryAfterMismatch` | app.py:111-112 | A wrong non-blank code within the window gives Mismatch and leaves the store unchanged. The right code still succeeds later in the window. |
| `Scenarios.RegenerateSupersedes` | app.py:83 | After a second `generate`, the first code gives Expired if the second code's window has passed. Otherwise it gives Success if the two draws were the same digits and Mismatch if they were not. It never succeeds otherwise. |
| `Scenarios.ExpiryIsPermanent` | app.py:103-106 | When the record stored under a trimmed identifier is past its window at `now`, validating the same store with any non-blank code, with no request in between, gives Expired at `now` and at any later time. A second request after the first gets NotFound instead, because the first removes the record. |
| `Scenarios.Run` | app.py:75-113 | Serving a sequence of requests gives one response per request and keeps the store invariant. |
| `Scenarios.AtMostOneSuccess` | app.py:108-110 | If no request issues a new code for an identifier, any sequence of requests validates that identifier successfully at most once. If it had no record to begin with, it is never validated successfully. |

## Left out

- Flask routing, the HTML template, `flash`/`redirect`/`url_for`, the secret-key lookup and `app.run` (app.py:1-8, 16-72, 115-116) are left out. They are presentation and I/O. The flashed messages are the outcome constructors.
- `secrets.randbelow(10)` is a call into the platform's secure random source. It becomes the caller-supplied `Draw`. Its unpredictability cannot be stated in this model.
- `time.time()` becomes an integer `now`. The source's timestamps are floats. An age such as 30.5 seconds is expired in the source, but whole seconds cannot express it.
- `OtpStore.Validate`: does not model fractional ages. The strict `>` comparison is kept, but it is applied to whole seconds only.
- `Scenarios.ExpiryBoundary`: states the boundary for whole-second ages only, because the clock is modelled in whole seconds.
- Concurrency is left out. The handlers have no locking, and simultaneous requests could interleave between the lookup and the `pop`. This model serves requests one after another, so `AtMostOneSuccess` is a statement about sequential service only.
- The HTML form's `maxlength` and `required` attributes are left out. The browser enforces them, not the server.
