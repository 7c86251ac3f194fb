# Waitlist signup of the SeuEstúdio.ai landing page, modelled in Dafny

The landing page (`src/pages/LadingPage.jsx`) has an e-mail waitlist form.
The form does four things. It trims and validates the typed address. It posts
the address to a form-processing service, with a 10-second deadline. It turns
any failure into one of a few fixed Portuguese texts. It shows the outcome in
a toast, which the user can close. Once a request has been sent, a timer
clears the text six seconds after the request settles. That timer may be
an earlier attempt's and fire sooner. The invalid-address text schedules no
timer of its own. It stays until it is closed, replaced, or cleared by a
timer an earlier attempt left pending.
This project models those four steps and proves their properties.

- `wrappers.dfy`: `Option` (JavaScript's `undefined`) and `Result` (a promise
  that resolves or rejects).
- `js_string.dfy` (module `JsString`): the string built-ins the code calls.
  These are `split` with a one-character separator, `includes` and `trim`.
  `trim` removes exactly ECMAScript's WhiteSpace and LineTerminator code
  points.
- `email.dfy` (module `Email`): `isValidEmail`. `RegexTest` is a hand-written
  greedy recogniser for the regular expression. `MatchesPattern` states the
  pattern the way the expression is written: a local part, `@`, and labels
  joined by dots. `RegexTestCorrect` proves that the two agree. `IsValidEmail`
  then follows the code line by line: the test, `split('@')`, the emptiness
  guard, and the ceilings of 64 and 255 characters.
- `errors.dfy` (module `Errors`): `ERROR_MESSAGES`, `getUserFriendlyError`,
  and the `catch` of `fetchWithTimeout`. A request's fate is an input
  (`Settlement`): it settles after some milliseconds, or it never settles.
  When it has not settled before the deadline, the abort wins.
- `waitlist.dfy` (module `Waitlist`): the `formStatus` record as the class
  `WaitlistForm`, with one method per event. `Submit` is the handler up to its
  first `await` (line 341). `Settle`, `Respond` and `Fail` are the rest of
  the handler, including the `await res.json()` at line 350, since the status
  does not change between the two.
  `AutoClear` is the 6000 ms timer firing, and `Dismiss` is the toast's close
  button. The class also has a flag for the request in flight and two
  counters: the pending timers and the analytics events sent. The invariant `Valid()` says
  that at most one flag is set, that `loading` holds exactly while a request
  is in flight, and that the message is empty or a fixed text of the flag
  that is set.

Some behaviour one might expect of such a form is not in the code, and the
model does not add it:

- No spam, invalid-credential or HTTP-status handling exists. The HTTP status
  is never read (`StatusIgnored`).
- There is no missing-access-key pre-flight check and no honeypot field.
- Closing the toast does not cancel the auto-clear timer. An earlier
  attempt's timer can clear a later attempt's text early
  (`StaleTimerScenario`).
- The handler itself does not reject a second submit. The only guard is the
  `disabled` attribute on the button and the input (lines 306, 436, 588).
  `Submit` therefore requires `!loading`, as a condition on its caller, the
  browser.
- The classifier can return only `timeout`, `network` or `default`. The
  `validation` and `server` texts are never shown. A refusal from the service
  is classified by its own message text, so a refusal saying "timeout" is
  shown as a timeout (`RefusalTextIsClassified`).

## Model

| member | source | states |
|---|---|---|
| `JsString.Split` | src/pages/LadingPage.jsx:57 | `split` always gives at least one piece, no piece holds the separator, and joining the pieces gives the input back |
| `JsString.SplitJoin` | src/pages/LadingPage.jsx:57 | round trip: splitting a join of separator-free parts gives exactly those parts |
| `JsString.Includes` | src/pages/LadingPage.jsx:74 | `includes(t)` holds exactly when `t` occurs at some index of the string |
| `JsString.Trim` | src/pages/LadingPage.jsx:319 | the result is the part of the input between a whitespace prefix and a whitespace suffix, and it neither starts nor ends with whitespace |
| `JsString.TrimPadding` | src/pages/LadingPage.jsx:319 | exactness: whitespace around a string without whitespace ends is removed and nothing else is |
| `Email.LocalRun` | src/pages/LadingPage.jsx:53 | the length of the longest prefix of local-part characters: all of them are in the class, and the next character, if any, is not |
| `Email.LabelRun` | src/pages/LadingPage.jsx:53 | the length of the longest prefix of letters, digits and hyphens, with the character after it outside that class |
| `Email.DomainMatches` | src/pages/LadingPage.jsx:53 | the recogniser for `label(\.label)*`; `DomainMatchesCorrect` proves it accepts exactly the `ValidDomain` strings |
| `Email.RegexTest` | src/pages/LadingPage.jsx:53-55 | the recogniser for the whole expression; `RegexTestCorrect` proves it agrees with `MatchesPattern` on every string |
| `Email.MatchesPattern` | src/pages/LadingPage.jsx:53 | the pattern as the expression writes it: a non-empty local part, `@`, and one or more labels joined by dots, anchored at both ends |
| `Email.IsLabel` | src/pages/LadingPage.jsx:53 | a label: 1 to 63 letters, digits and hyphens, with a letter or digit at each end |
| `Email.ValidDomain` | src/pages/LadingPage.jsx:53 | every piece of the domain split at dots is a label |
| `Email.IsValidEmail` | src/pages/LadingPage.jsx:52-62 | the validator step by step (test, `split('@')`, emptiness guard, ceilings); `ValidEmailIff` and `ValidEmailShape` state what it accepts |
| `Email.DomainMatchesCorrect` | src/pages/LadingPage.jsx:53 | the recogniser's domain part accepts exactly the domains whose dot-separated pieces are all labels: 1 to 63 letters, digits and hyphens with a letter or digit at each end. That is section 2.3.1 of RFC 1035 as relaxed by section 2.1 of RFC 1123, so a label may start with a digit |
| `Email.RegexTestCorrect` | src/pages/LadingPage.jsx:53 | the recogniser accepts exactly the strings that are a non-empty local part, `@`, and one or more labels joined by dots |
| `Email.RegexTestSplit` | src/pages/LadingPage.jsx:53-57 | a string matches exactly when `split('@')` gives two pieces, a valid local part and a valid domain |
| `Email.AtSignOnce` | src/pages/LadingPage.jsx:53 | a matching string holds exactly one `@` |
| `Email.SplitGuardNeverFires` | src/pages/LadingPage.jsx:57-58 | after a match the split has exactly two non-empty pieces, so the emptiness guard on the two pieces never rejects |
| `Email.JoinedLabelsShape` | src/pages/LadingPage.jsx:53 | a dot-join of labels is non-empty, starts and ends with a letter or digit, has only label characters and dots, and has a letter or digit on both sides of each dot |
| `Email.DomainShape` | src/pages/LadingPage.jsx:53 | an accepted domain has no leading or trailing dot, no empty label, and no label starting or ending with `-` |
| `Email.ValidEmailIff` | src/pages/LadingPage.jsx:52-62 | `local@domain` is accepted exactly when the local part is valid and at most 64 characters, and the domain is valid and at most 255 characters |
| `Email.ValidEmailShape` | src/pages/LadingPage.jsx:52-62 | an accepted address has one `@`, a local part of 1 to 64 local-part characters, and a domain of 1 to 255 characters whose pieces are all labels |
| `Email.CeilingsReject` | src/pages/LadingPage.jsx:59 | a string that matches the pattern but has a local part over 64 or a domain over 255 characters is rejected |
| `Email.LocalHasNoAt` | src/pages/LadingPage.jsx:53 | the local-part character class excludes `@` |
| `Email.DomainHasNoAt` | src/pages/LadingPage.jsx:53 | a valid domain holds no `@` |
| `Email.AcceptedExamples` | src/pages/LadingPage.jsx:52-62 | `a@b.co` and the single-label `a@b` are accepted |
| `Email.RejectedExamples` | src/pages/LadingPage.jsx:52-62 | `""`, `a@`, `@b.co` and `a@@b.co` are rejected |
| `Email.RejectsLeadingHyphen` | src/pages/LadingPage.jsx:53 | no domain starting with `-` is accepted, for example `a@-b.co` |
| `Email.RejectsEmptyLabel` | src/pages/LadingPage.jsx:53 | no domain holding `..` is accepted, for example `a@b..co` |
| `Email.RejectsTrailingDot` | src/pages/LadingPage.jsx:53 | no domain ending in `.` is accepted, for example `a@b.co.` |
| `Errors.ErrorMessage` | src/pages/LadingPage.jsx:64-70 | the `ERROR_MESSAGES` table, text for text; `ErrorMessagesDistinct` proves the texts non-empty and pairwise distinct |
| `Errors.ErrorMessagesDistinct` | src/pages/LadingPage.jsx:64-70 | each error category has its own non-empty text |
| `Errors.GetUserFriendlyError` | src/pages/LadingPage.jsx:72-76 | the classifier is total and returns only `timeout`, `network` or `default`: `timeout` exactly for the message "timeout", `network` exactly for another message holding "Failed to fetch" |
| `Errors.ClassifierTestsExclusive` | src/pages/LadingPage.jsx:73-74 | the two tests never both pass, so the `timeout` test's precedence never changes a result |
| `Errors.ClassifierIgnoresText` | src/pages/LadingPage.jsx:72-76 | errors that agree on the two tests get the same category and text, so no part of an error's own text reaches the user |
| `Errors.NetworkWordingMatters` | src/pages/LadingPage.jsx:74 | Chromium's "Failed to fetch" is classified as network, but Safari's "Load failed" gets the default text |
| `Errors.TranslateRejection` | src/pages/LadingPage.jsx:43-49 | no `AbortError` leaves the `catch`: an `AbortError` becomes an error classified as a timeout, and any other error is rethrown unchanged |
| `Errors.FetchWithTimeout` | src/pages/LadingPage.jsx:32-50 | a response that settles before the deadline comes back unchanged; no settlement in time gives `Error('timeout')`; an `AbortError` gives `Error('timeout')`; any other rejection is rethrown unchanged |
| `Errors.AbortYieldsTimeoutMessage` | src/pages/LadingPage.jsx:43-49 | an abort, whether from the deadline or from an `AbortError`, always reaches the user as the timeout text |
| `Waitlist.Attempt` | src/pages/LadingPage.jsx:341-350 | the `try` block yields a body only for a response that settled before the 10000 ms deadline, and then exactly that response's parsed body. A timely rejection comes out of `fetchWithTimeout`'s `catch` translated. No settlement in time yields `Error('timeout')` |
| `Waitlist.Rejection` | src/pages/LadingPage.jsx:365 | the thrown `Error` always has a non-empty message: the service's own message when it is a non-empty string, else the fallback text |
| `Waitlist.Thrown` | src/pages/LadingPage.jsx:350-373 | what the `catch` receives: the rejection of the `try` block, or the `Error` thrown for a body without a truthy `success`; `Settle` classifies it |
| `Waitlist.DeadlineShowsTimeout` | src/pages/LadingPage.jsx:341-348 | a request that does not settle within 10000 ms ends with the timeout text |
| `Waitlist.SuccessCondition` | src/pages/LadingPage.jsx:341-352 | an attempt succeeds exactly when a timely response's body parses with a truthy `success` |
| `Waitlist.StatusIgnored` | src/pages/LadingPage.jsx:341-352 | two responses that differ only in HTTP status end the same way |
| `Waitlist.RefusalTextIsClassified` | src/pages/LadingPage.jsx:365 | a refusal is classified by its own message: "timeout" shows the timeout text, "Failed to fetch" the network text |
| `Waitlist.SurroundingWhitespaceIgnored` | src/pages/LadingPage.jsx:319-321 | whitespace typed around a valid address is trimmed away, and the padded value is accepted |
| `Waitlist.MessageTextsDistinct` | src/pages/LadingPage.jsx:322-358 | the success and invalid-address texts differ from each other and from every classifier text |
| `Waitlist.ToastShowsFixedText` | src/pages/LadingPage.jsx:600-605 | a visible toast is never shown while loading; it is of the success type exactly when it shows the success text; otherwise it shows the invalid-address text or a classifier text |
| `Waitlist.WaitlistForm.Valid` | src/pages/LadingPage.jsx:228-379 | the invariant every event keeps: at most one flag set, `loading` exactly while a request is in flight, and an empty message or a fixed text of the flag that is set |
| `Waitlist.WaitlistForm.ToastVisible` | src/pages/LadingPage.jsx:603 | `visible={Boolean(formStatus.message)}`: the toast shows while the message is non-empty; `ToastShowsFixedText` says what it then shows |
| `Waitlist.WaitlistForm.ToastKind` | src/pages/LadingPage.jsx:602 | `formStatus.success ? 'success' : 'error'`; `ToastShowsFixedText` proves a success toast shows exactly the success text |
| `Waitlist.WaitlistForm.constructor` | src/pages/LadingPage.jsx:228-233 | the status starts with no flag set and an empty message, with no request, timer or analytics event |
| `Waitlist.WaitlistForm.Submit` | src/pages/LadingPage.jsx:316-331 | the request is sent exactly when the trimmed value is valid. An invalid one sets `{loading:false, success:false, error:true}` with the invalid-address text and schedules nothing. A valid one sets `{loading:true, success:false, error:false, message:''}` |
| `Waitlist.WaitlistForm.RejectAddress` | src/pages/LadingPage.jsx:321-329 | the invalid-address branch: `{loading:false, success:false, error:true}` with the invalid-address text, no request in flight, and the timers and analytics counter unchanged; `Valid()` is kept |
| `Waitlist.WaitlistForm.SendRequest` | src/pages/LadingPage.jsx:331-341 | the valid-address branch: `{loading:true, success:false, error:false, message:''}` with the request in flight, and the timers and analytics counter unchanged; `Valid()` is kept |
| `Waitlist.WaitlistForm.ScheduleClear` | src/pages/LadingPage.jsx:375-379 | the `finally` block adds one pending auto-clear timer |
| `Waitlist.WaitlistForm.Respond` | src/pages/LadingPage.jsx:350-379 | `success` equals the body's `success` flag and `error` is its negation. The text is the success text, or else the classified rejection. The analytics counter rises by one only on success with `gtag` present. One timer is scheduled |
| `Waitlist.WaitlistForm.Fail` | src/pages/LadingPage.jsx:367-379 | a rejection sets `{loading:false, success:false, error:true}` with the classified text, sends no analytics event, and schedules one timer |
| `Waitlist.WaitlistForm.ShowFailure` | src/pages/LadingPage.jsx:369-374 | the `catch` block's status: `{loading:false, success:false, error:true}` with the given classifier text and no request in flight, the counters unchanged; `Valid()` is kept |
| `Waitlist.WaitlistForm.Settle` | src/pages/LadingPage.jsx:333-379 | after the request settles, `loading` is false and exactly one of `success` and `error` holds. `success` holds iff a timely body had a truthy `success`. The analytics event fires at most once, and only on success |
| `Waitlist.WaitlistForm.AutoClear` | src/pages/LadingPage.jsx:376-378 | a timer firing empties the message, uses up that timer, and leaves `loading`, `success` and `error` unchanged |
| `Waitlist.WaitlistForm.Dismiss` | src/pages/LadingPage.jsx:604 | closing the toast empties the message, leaves the flags unchanged, and leaves the pending timers scheduled |
| `Waitlist.FailedAttempt` | src/pages/LadingPage.jsx:316-379 | a valid address submitted, refused and dismissed leaves the form not loading, with no text shown, one more timer pending and the analytics counter unchanged |
| `Waitlist.StaleTimerScenario` | src/pages/LadingPage.jsx:316-379 | a failed attempt, a dismissal and a successful second attempt leave two timers pending; the first one to fire hides the success text while `success` stays set |

## Left out

- The `fetch` call, `AbortController`, `setTimeout`/`clearTimeout` and
  `res.json()` are I/O. Their results are inputs. `Settlement` gives when
  and how the request settles. `HttpResponse.json` gives what parsing the
  body yields. A `null` body, on which reading `success` throws, is one of
  the failures given there.
- Reading the body (line 350) happens after the timer is cleared, so it has
  no deadline. A body that never arrives is modelled by never calling
  `Settle`.
- A settlement exactly at the deadline: which of the two callbacks runs first
  is up to the event loop. The model lets the abort win.
- Auto-clear timers are counted, not ordered. `AutoClear` stands for whichever
  pending timer fires; the 6000 ms delay itself is not modelled.
- The browser's own constraint validation of the `type="email"`, `required`
  input runs before the handler. It is not part of this model: `Submit`
  receives whatever value the browser delivers.
- `form.reset()`, `console.error` and the scroll, slider, chat-widget and
  layout code are foreign side effects or presentation. `window.gtag` is
  reduced to the `analyticsEvents` counter. `form.reset()` and `window.gtag`
  are assumed not to throw. Both run inside the `try` (lines 358-363), so
  a throw there would make the `catch` replace the success status with an
  error text. `WaitlistForm.Respond` does not model that path.
- `src/components/Toast/Toast.jsx` renders nothing when it is not visible or
  the message is empty. Both conditions are the same here, and
  `WaitlistForm.ToastVisible` states it. `src/App.jsx` is routing only.
- `JsString.Trim`: JavaScript strings are UTF-16. The model uses code points.
  This changes nothing here: every whitespace code point is a single code
  unit, and the validator accepts only ASCII. The list of space separators is
  that of Unicode 6.3 and later.
- `Waitlist.Body`: `data.message` is kept only when it is truthy, as the text
  `new Error` makes of it. A truthy non-string whose text is empty (such as
  `[]`) is treated like a falsy one.
- A thrown value without a `message` property is a `JsError` whose message is
  `None`. A thrown `null` or `undefined`, on which `getUserFriendlyError`
  itself would throw, is not modelled.
