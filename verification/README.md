# Credential renewal, session verdicts, one-time codes and route loads: a model

A Dafny model of the parts of the identuum UI whose correctness depends on the order of events, on time, or on an
encoding: what concurrent callers of the browser boundary do to each other's credentials, when an outage may be taken
for a sign-out, whether a one-time code is ever presented twice, and whether a superseded page load can overwrite a
newer one. `dafny verify dfyconfig.toml` checks everything.

| file | models |
|---|---|
| `BffProtocol.dfy` | `export/src/bff.ts` as a state machine: one step per await, any number of calls, every interleaving |
| `BffInvariant.dfy`, `BffTheorems.dfy`, `BffDecisions.dfy` | what every step keeps, what follows for every run, and what each step decides in every run, in the wire's own terms |
| `BffCancellation.dfy`, `BffOptIn.dfy` | which cancellations are invisible; the signed-out opt-in as a change of wording |
| `BffPage.dfy` | the module variables and calls updated in place; every method is proved to be its step of the protocol |
| `SessionValidation.dfy`, `RetryAfter.dfy`, `SessionGuard.dfy` | the retry loop under its budget, Retry-After, the guard |
| `SessionOutage.dfy` | protocol, loop and guard composed, as the export uses them |
| `Base32.dfy`, `TotpCode.dfy`, `TotpLedger.dfy`, `TotpHelper.dfy` | the base32 decoder, codes, the issued-step ledger, the helper's state |
| `RouteMemo.dfy`, `ServerRoute.dfy` | one computation per route generation; suppression of superseded builds |
| `OrgMatching.dfy`, `ServerTree.dfy`, `Redaction.dfy` | the organization matcher, tree resolution, log redaction |
| `Wrappers.dfy`, `Http.dfy`, `Decimal.dfy`, `Binary.dfy`, `Whitespace.dfy` | shared vocabulary |

The environment is adversarial: an action chooses each answer, whether a body can be read, each failure, abort and
settlement, and their order. An action that does not apply changes nothing, so a run is any list of actions.

## Where the code does less than it says

* **A mutation can be submitted although validate never answered ok** (`export/src/bff.ts:105-108`). The nested validate
  returns the renewal's own answer when it is not 204, and any 2xx counts as confirmation. If the signed-out 200 of a
  renewal cannot be read, or the boundary answers 2xx other than 204, the mutation goes out.
  `BffTheorems.UnreadRefusalSubmits` is such a run. `BffTheorems.MutationCondition` is the exact condition over every run,
  the guard on the refusal as it was read; `BffTheorems.MutationNeedsValidate` is the same for a boundary that answers a
  renewal ok only with 204 or a signed-out body.
* **Validation can outlast its budget** (`src/lib/session-validation.ts:23`, "total wall-clock budget, fetch timeouts
  included"). An opted-in probe whose renewal is refused returns that renewal's answer (`export/src/bff.ts:143`), whose
  body hangs on the renewal's own 6 s signal, not on the attempt's. `SessionOutage.StalledRenewalOverruns` is a run that
  takes 9.9 s with no timer late. `SessionValidation.InTimeCondition` is the exact condition: 8000 + d holds as far as the
  final body ends by its attempt's deadline; `SessionOutage.ExportInTime` is the bound otherwise.
* **An ok answer whose body is not read passes for a session** (`src/lib/session-validation.ts:115-123`): cut off by the
  attempt's own timeout, say. For a signed-out 200 the opt-in then changes the decision, not only the wording.
  `SessionOutage.UnreadSignOutIsASession` is such a run, and `SessionOutage.OptInKeepsTheVerdict` the exact condition for
  whole validations over paired runs.
* **A fresh-step code may be of a step that was "next" before the wait**, contrary to the comment at
  `e2e/helpers/totp.ts:234-236`. `TotpLedger.FreshStepWasNext` is the case, `TotpLedger.FreshnessCondition` the exact
  condition.
* **A caller can find no step after its wait by a race**, contrary to "a bug, not a race" at `e2e/helpers/totp.ts:187`: two
  callers of one user that wait together for the next boundary. `TotpLedger.SecondWaiterFails` is such a run, and
  `TotpLedger.WaitersServed` says exactly how many of any number of waiters are served, `TotpLedger.WindowSpentIff` when
  nothing is free however the claims are spread over the clock.
* **After a lost save a restarted process re-issues a step at once**, contrary to the comment at
  `e2e/helpers/totp.ts:118-119`. `TotpLedger.LostSaveRepeats` is the case. `TotpLedger.RestartCondition` is the exact
  condition: after a restart nothing is ever issued twice if and only if the file holds every issued step that is still in
  the window.
* **Cancelling is invisible to other callers exactly for calls that can no longer start a renewal** (waiters and starters
  of one included). A read cancelled earlier may leave a renewal unstarted that others would have joined.
  `BffCancellation.CancellationCondition`.

## Model

| member | source | states |
|---|---|---|
| BffTheorems.RenewalsAreSerial | export/src/bff.ts:32-54 | In every run at most one renewal is pending and it is the one in flight; refreshEpoch is the number of renewals answered 204; a renewal after a 204 starts in a later epoch, so one epoch has at most one success. |
| BffTheorems.SuccessesCount | export/src/bff.ts:47-50 | The running count of 204s is the size of the set of renewals answered 204. |
| BffInvariant.RunKeeps | export/src/bff.ts:92-150 | Every interleaving of any number of calls keeps the invariant on the shared variables and on each call's log, answers and program counter. |
| BffInvariant.SuccessMovesEpoch | export/src/bff.ts:47-49 | Whoever waits for a renewal that succeeds wakes in an epoch strictly newer than the one it was started in. |
| BffInvariant.InFlightIsCurrent | export/src/bff.ts:134-135 | A renewal in flight belongs to the epoch that is still current, so who joins it failed in its epoch. |
| BffTheorems.RequestDiscipline | export/src/bff.ts:104-149 | Every call of every run: at most four requests or waits for a protected mutation, three for an API read, one otherwise; the mutation is sent at most once and last; at most one renewal started or joined, of the very epoch captured before the send; at most one resend, only in a strictly newer epoch. |
| BffTheorems.OnlyApiCallsRenew | export/src/bff.ts:97-113 | Only API paths without their own bearer ever start or join a renewal; login steps and the organization lookup do not unless they only read. |
| BffTheorems.CohortRotatesOnce | export/src/bff.ts:111-136 | Reads that failed in one epoch rotate the credentials at most once: successful renewals they waited for are the same one. |
| BffTheorems.MutationIsConfirmed | export/src/bff.ts:104-112 | In every run a submitted mutation was preceded, in the same call, by a confirmation that returned ok; validate itself answered ok, except exactly when the confirmation was the renewal's own ok answer, which then is not 204. |
| BffTheorems.MutationCondition | export/src/bff.ts:104-143 | In every run, a submitted mutation was confirmed by an ok answer to validate if and only if no refusal of its confirmation's renewal passed, that is, was 2xx and not read as signed out. |
| BffTheorems.MutationNeedsValidate | export/src/bff.ts:104-143 | Against a boundary that answers a renewal ok only with 204 or a signed-out body: if and only if no signed-out refusal of its renewal went unread. |
| BffTheorems.UnreadRefusalSubmits | export/src/bff.ts:107-143 | A run, against a boundary that keeps that contract, in which a mutation is submitted while validate only ever answered 401. |
| BffTheorems.CallsAreFinite | export/src/bff.ts:92-150 | However long the run, a call takes at most 11 steps of its own, a single read or send at most 6. |
| BffTheorems.NoWaiterIsStranded | export/src/bff.ts:55-70 | Whoever waits for a renewal waits for the one in flight or a settled one, and leaves the wait once it has settled. |
| BffDecisions.WakeDecides | export/src/bff.ts:135-149 | In every run a waiter whose renewal was answered 204 resends its read, once, in a strictly newer epoch; any other answer is read as a refusal; a failure is its own; nobody else is touched. |
| BffDecisions.ClassifyDecides | export/src/bff.ts:121-149 | In every run, the whole decision on a read answer: returned unless it names a dead credential by the statuses and reasons written out; then cancelled, or resent if its epoch is past, starting nothing, or waiting for the renewal in flight, or for the only one, started now. |
| BffDecisions.RefusalDecides | export/src/bff.ts:136-143 | In every run a refusal is returned as it is, except a read signed-out 200 to a caller that did not opt in: 401 missing_refresh_credential. |
| BffDecisions.AnswerDecides | export/src/bff.ts:107-149 | In every run: which answers are the invocation's result unread, which are read, and that a nested validate answered 2xx lets the mutation go on while any other result is the call's. |
| BffDecisions.BeginDecides | export/src/bff.ts:111-112 | A live call sends with the epoch of that moment; a cancelled one sends nothing. |
| BffDecisions.SettleDecides | export/src/bff.ts:47-53 | In every run a renewal's settlement frees the slot and moves the epoch by one on a 204, not otherwise. |
| BffDecisions.FailureIsItsOwn | export/src/bff.ts:35-149 | In every run a call fails if and only if one of its fetches was dropped or its renewal failed, and is cancelled if and only if its own signal aborted it while it waited or before it went on. |
| BffDecisions.ConfirmsFirstIff | export/src/bff.ts:97-110 | A call confirms first exactly when it is a non-GET, non-HEAD API call without its own bearer that is no login step and no organization lookup. |
| BffDecisions.RenewableIff | export/src/bff.ts:28-29 | Renewable is exactly: opted in and read as a signed-out 200, or a 401 read with one of the three reasons. |
| BffTheorems.AbortReleases | export/src/bff.ts:56-70 | From its abort on, whatever others do, a call waits for nothing but a body it is reading and puts nothing more on the wire. |
| BffCancellation.CancellationCondition | export/src/bff.ts:35-70 | Cancelling a call is invisible to the shared variables and all other calls in every continuation if and only if the call can no longer start a renewal. |
| BffCancellation.CancellationIsInvisible | export/src/bff.ts:40-69 | Deleting the abort of such a call from any run leaves refreshInFlight, refreshEpoch, every renewal and every other call as they were. |
| BffCancellation.WaitersAreHarmless | export/src/bff.ts:56-70 | Every caller waiting for a renewal, its starter included, can be cancelled unnoticed. |
| BffOptIn.OptInKeepsRequests | export/src/bff.ts:110-144 | Paired runs, opted in or not: every call sends the same requests in the same epochs and joins the same renewals, and the answers returned differ only in how "signed out" is written. |
| BffPage.Page.RefreshSession | export/src/bff.ts:35-70 | Joins the renewal in flight, or starts one. |
| BffPage.Page.Classify | export/src/bff.ts:121-146 | Returns the answer, renews, or resends because another call renewed meanwhile. |
| BffPage.Page.SettleRenewal | export/src/bff.ts:47-53 | Bumps the epoch on a 204 and clears the slot, nothing else. |
| SessionValidation.PlannedWait | src/lib/session-validation.ts:54-65 | A planned wait is the larger of the backoff (200, 400, 800, 1600, then 2000) and Retry-After, capped at 2000, and leaves 100 ms; none is planned exactly when that does not fit. |
| SessionValidation.TimeoutIs | src/lib/session-validation.ts:107-113 | An attempt's timeout is what is left of the budget, at most 4000 ms and at least 100. |
| SessionValidation.ValidateSessionResponse | src/lib/session-validation.ts:85-158 | The loop computes the specified report: state, number of requests, elapsed time. |
| SessionValidation.RoundTiming | src/lib/session-validation.ts:103-155 | One round ends by its deadline plus what its body runs past it, or continues after at least the backoff, with at least 100 ms left before any lateness. |
| SessionValidation.ValidationInTime | src/lib/session-validation.ts:102-156 | With timers up to d ms late validation ends within 8000 + d ms plus what the final attempt's body runs past its deadline: neither lateness nor excess accumulates. |
| SessionValidation.InTimeIsTight | src/lib/session-validation.ts:102-156 | 8000 + d + b is reached, for every lateness d and every excess b. |
| SessionValidation.InTimeCondition | src/lib/session-validation.ts:102-156 | 8000 + d holds for every environment whose final body runs at most b ms past its deadline if and only if b is zero. |
| SessionValidation.ExcessIsTheBody | src/lib/session-validation.ts:104-134 | Only a body that the attempt's signal does not cut off runs past the deadline, and by no more than its own time. |
| SessionValidation.OneToSevenAttempts | src/lib/session-validation.ts:102-156 | For every server and every Retry-After, at least 1 and at most 7 requests. |
| SessionValidation.SevenIsTight | src/lib/session-validation.ts:102-156 | A server that answers 503 at once gets exactly 7. |
| SessionValidation.FirstVerdictDecides | src/lib/session-validation.ts:115-157 | Of the attempts made exactly the one that ended the loop with a verdict came to one, and it is the state; otherwise the state is unavailable and counts the attempts. |
| SessionValidation.UnavailableReport | src/lib/session-validation.ts:134-157 | An unavailable state counts its attempts and carries, field by field, what the final one left: a timeout's or rejection's error name alone; or the status, the request id, else the correlation id of a body that was read, and the Retry-After as of that moment. |
| SessionValidation.VerdictReport | src/lib/session-validation.ts:115-132 | A verdict is reported as soon as its body is complete or cut off: a 2xx as a session with its body as read, or as signed out; any other with its status and the reason, else the error, of a body that was read. |
| SessionValidation.PrintedRetryAfterIsHonoured | src/lib/session-validation.ts:134-155 | A printed Retry-After is waited for, up to the cap of a wait, if a useful attempt still fits; else the loop ends and reports it. |
| SessionValidation.DateRetryAfterIsHonoured | src/lib/session-validation.ts:44-64 | After an HTTP-date the next attempt starts no earlier than the date on the wall clock, or after the longest wait. |
| SessionValidation.ValidateSameKind | src/lib/session-validation.ts:115-132 | Transports of equal timing that differ only in how verdicts are worded: as many attempts and as long, and the same kind of state if and only if the final replies, read or cut off, are of one kind. |
| RetryAfter.DelaySecondsRoundTrip | src/lib/session-validation.ts:37-43 | A printed number of seconds, in any white space, is read back. |
| RetryAfter.DateIsReached | src/lib/session-validation.ts:44-46 | Waiting the seconds read from an HTTP-date reaches it, and one second less would not. |
| RetryAfter.NothingReadIff | src/lib/session-validation.ts:41-45 | Nothing is read exactly from an absent or empty header and from one that is neither digits nor a date. |
| SessionOutage.ProbeReturnsItsLastWord | export/src/bff.ts:121-149 | A settled opted-in probe returns the boundary's last word to it: the probe's, its resend's or the renewal's answer. |
| SessionGuard.DecisionIs | src/lib/session-guard.ts:20-47 | A session proceeds, an outage is rendered in place, a refusal goes to the login page: the plain one exactly for the three reasons that no credential was presented. |
| SessionOutage.RedirectIsAJudgement | export/src/platform/server-session.ts:25-36 | A redirect to the login page means the final attempt's last word judged the credential: a status below 500 other than 429, and if 2xx a signed-out body. |
| SessionOutage.OutageIsNeverASignOut | src/lib/session-guard.ts:35-47 | If the final attempt's last word is 5xx or 429, or missing, the page renders "unavailable" in place. |
| SessionOutage.DeliveredWordDecides | src/lib/session-guard.ts:35-47 | A last word delivered in its attempt's time decides at once: a judgement redirects, an ok answer proceeds with its session; an outage or none renders "unavailable" when final. |
| SessionOutage.ExportInTime | export/src/platform/server-session.ts:25-36 | The export's validation ends within 8000 + d ms if the final attempt's answer is no renewal's or its body ends by the deadline, else within 14000 + 2d. |
| SessionOutage.StalledRenewalOverruns | export/src/bff.ts:37-44 | A reachable run, no timer late, whose validation takes 9900 ms because a renewal's body stalls. |
| SessionOutage.PlainLoginMeansNoCredential | src/lib/session-guard.ts:28-47 | A redirect goes to the plain login page exactly when the reply is a 2xx or a body that was read names one of the three reasons. |
| SessionOutage.UnreadSignOutIsASession | src/lib/session-validation.ts:115-123 | A run in which a signed-out 200, whose body no read gets before the timeout, proceeds, while the paired run without the opt-in redirects. |
| SessionOutage.OptInKeepsTheVerdict | export/src/bff.ts:110-144 | Validations over paired runs, opted in and not, with equal timings: as many attempts and as long, and the same kind of state if and only if the final attempt was worded alike, ended without an answer, or had its body read. |
| TotpLedger.NoStepIssuedTwice | e2e/helpers/totp.ts:106-185 | No (user, step) is issued twice, over all claims, clock ticks and restarts with pruning reload, provided that at each restart the file holds every issued step still in the window. |
| TotpLedger.RestartCondition | e2e/helpers/totp.ts:106-185 | From every state in which no step was issued twice and each was in its window: after a restart no orderly continuation issues a step twice if and only if the file holds every issued step still in the window. |
| TotpLedger.SavedRunsAreOrderly | e2e/helpers/totp.ts:126-137 | If every save succeeds, every restart meets that condition. |
| TotpLedger.LostSaveRepeats | e2e/helpers/totp.ts:117-136 | A lost save followed by a restart re-issues the step at once. |
| TotpLedger.LoadedIs | e2e/helpers/totp.ts:106-124 | A process uses its own ledger; a new one takes the file's steps from two before the current one on, no others, and no user without any. |
| TotpLedger.OfferIs | e2e/helpers/totp.ts:174-184 | A claim is offered the current step if unused, else the next, else the previous, else nothing. |
| TotpLedger.ClaimRecords | e2e/helpers/totp.ts:172-185 | A claim records its step for its user alone, and the whole ledger in the file if the write succeeds; a claim that finds none only loads. |
| TotpLedger.WaitFreesAStep | e2e/helpers/totp.ts:225-230 | After a wait into a later step without another claim of the user, whatever other users did, a step is free, and it is the current one if that is unused, else the next, never the previous. |
| TotpLedger.FreshnessCondition | e2e/helpers/totp.ts:240-247 | The fresh-step code lies beyond the old current and next steps if and only if the wait did not end in the very next step with that step unused. |
| TotpLedger.FreshStepWasNext | e2e/helpers/totp.ts:240-247 | After one claim and an exact wait the code is of the step that was next. |
| TotpLedger.WaitersServed | e2e/helpers/totp.ts:225-230 | When a user's three steps are spent and callers wait together into the d-th step after, exactly min(d, 3) of those claiming at that instant find a step, whatever other users claim. |
| TotpLedger.WindowSpentIff | e2e/helpers/totp.ts:167-230 | When a user's three steps are spent, then d steps later in the same process, however claims are spread over time and users, a claim finds nothing if and only if min(d, 3) codes of the present window were issued to the user since. |
| TotpLedger.SecondWaiterFails | e2e/helpers/totp.ts:187-230 | A run from a fresh ledger in which two callers of one user wait together for the next boundary: the first is served, the second finds no step and throws. |
| TotpLedger.CodesPerUser | e2e/helpers/totp.ts:167-185 | In any k consecutive steps a user is issued at most k + 2 codes. |
| TotpLedger.CodesPerUserIsTight | e2e/helpers/totp.ts:167-185 | k + 2 is reached from any start, for every k. |
| TotpHelper.Helper.LoadLedger | e2e/helpers/totp.ts:106-124 | The ledger is the process's own, or the file's steps from current - 2 on, users without any dropped. |
| TotpHelper.Helper.ClaimUnconsumedTOTPWindow | e2e/helpers/totp.ts:167-185 | Claims the first unused of current, next, previous with its code, and fails exactly when all three are used. |
| TotpHelper.Helper.UnconsumedTOTP | e2e/helpers/totp.ts:220-231 | Always yields a code of a step not issued before, after a single wait exactly when no step was free. |
| TotpHelper.Helper.UnconsumedTOTPAfterFreshStep | e2e/helpers/totp.ts:240-247 | One wait, then a code of the new current or next step. |
| TotpHelper.Helper.Restart | e2e/helpers/totp.ts:98-124 | A process whose file holds every issued step still in the window may end; the next one starts from the file. |
| TotpCode.SleepCrossesTheBoundary | e2e/helpers/totp.ts:31-39 | A sleep that does not end early ends in a later step, and an exact one 250 ms into the next. |
| TotpCode.StepIs | e2e/helpers/totp.ts:31-39 | Steps are thirty seconds long and the computed sleep ends 250 ms into the next. |
| TotpCode.CounterRoundTrip | e2e/helpers/totp.ts:44-45 | The big-endian counter holds the step. |
| TotpCode.TruncationIsStandard | e2e/helpers/totp.ts:49-50 | The truncation is the value of section 5.3 of RFC 4226: four bytes from the offset in the last four bits, top bit masked, modulo a million. |
| TotpCode.SixDigits | e2e/helpers/totp.ts:50-50 | Every code is exactly the six digits, most significant first, of that value. |
| TotpCode.TotpCodeForStep | e2e/helpers/totp.ts:42-51 | The six digits of the standard's value of the HMAC of the decoded secret and the step as eight bytes, most significant first; a foreign character is refused before a step that does not fit. |
| Base32.DecodeNormalized | e2e/helpers/totp.ts:8-21 | With a wrapping 32-bit accumulator, the bytes are the first floor(5n/8) of the bit string of section 6 of RFC 4648; otherwise the first character outside the alphabet is reported. |
| Base32.Base32ToBuffer | e2e/helpers/totp.ts:5-22 | The same after upper-casing, whatever characters outside ASCII upper-case to, and stripping trailing padding. |
| Base32.UpperIs | e2e/helpers/totp.ts:7-7 | Upper-casing goes character by character: ASCII letters by code point, other ASCII unchanged, anything else as the engine has it. |
| Base32.StripIs | e2e/helpers/totp.ts:7-7 | Exactly the trailing '=' are stripped. |
| Base32.WrapKeepsLowBits | e2e/helpers/totp.ts:14-14 | The wrap to 32 bits keeps all low 32 bits, and so the at most twelve still needed. |
| Base32.ShiftInBit | e2e/helpers/totp.ts:14-14 | The accumulator's arithmetic is the bitwise shift and or on signed 32-bit words, bit by bit. |
| Base32.IndexIsPosition | e2e/helpers/totp.ts:6-13 | The index is the position in the alphabet, and nothing else has one. |
| Base32.DecodingIsUnique | e2e/helpers/totp.ts:5-22 | The bit string fixes the bytes. |
| Base32.DecodeEncode | e2e/helpers/totp.ts:5-22 | Decoding is a left inverse of the standard's padded encoding, for every length. |
| RouteMemo.MemoRefinesTable | export/src/platform/server-session.ts:23-36 | In every run the one-slot memo hands every caller what a table over all generations would. |
| RouteMemo.OncePerGeneration | export/src/platform/server-runtime-state.ts:10-24 | Each generation starts at most one validation and one discovery, and two callers share a computation exactly when they ask in the same generation. |
| RouteMemo.GenerationsCount | export/src/router.ts:17-51 | In every run the generation counts the navigations, history steps and revalidations, and the revalidations are counted. |
| RouteMemo.AskIsCurrent | export/src/platform/server-session.ts:25-36 | A caller is handed a result of its kind and of the present generation. |
| RouteMemo.Router.GetServerSessionState | export/src/platform/server-session.ts:25-36 | Hands out the generation's validation, started on first use. |
| RouteMemo.Router.GetServerRuntimeState | export/src/platform/server-runtime-state.ts:12-24 | Hands out the generation's discovery, started on first use. |
| ServerRoute.OnePendingBuild | export/src/server-route.tsx:34-48 | In every interleaving at most one build is uncancelled and pending, and it is the newest. |
| ServerRoute.ShownIsCurrent | export/src/server-route.tsx:50-54 | What is shown is loading, or the newest stored build, of the current route key. |
| ServerRoute.StoredStartsIncrease | export/src/server-route.tsx:34-48 | Builds are stored in strictly increasing order of their starts and never with an older revalidation. |
| ServerRoute.NewestResultIsShown | export/src/server-route.tsx:30-55 | In every run with a route mounted the newest build is of its key and revalidation, and once settled without a redirect it is what is shown; a commit mounts the latest location and revalidation. |
| ServerRoute.PageFollows | export/src/router.ts:37-51 | In every run the location is the last navigation's and every revalidation counts. |
| ServerRoute.RevalidationRebuilds | export/src/server-route.tsx:34-48 | In every run with a route mounted, a revalidation makes the next commit build exactly once more, for the present location, and what was shown for it stays until that build settles. |
| ServerRoute.OnlyTheNewestIsStored | export/src/server-route.tsx:36-44 | In every run a build that settles is stored exactly if it is the newest of a mounted route and did not redirect; a superseded one changes nothing on the page. |
| ServerRoute.LeavingForgets | export/src/server-route.tsx:45-52 | In every run, leaving for a path without a server tree cancels every build and forgets what was shown; the route entered again loads. |
| ServerRoute.CommitIsIdempotent | export/src/server-route.tsx:34-48 | A commit without a change builds nothing. |
| ServerRoute.Route.OnCommit | export/src/server-route.tsx:34-48 | Cleans up and starts a build exactly when the dependencies changed. |
| ServerRoute.Route.OnSettled | export/src/server-route.tsx:36-44 | Stores the result unless the build's own flag is set or it redirected. |
| OrgMatching.DeriveOrganizationCandidateMatches | src/lib/org-export-candidates.ts:160-206 | The map-indexed matcher equals the nested scan: first row of equal slug, else first row of equal name. |
| OrgMatching.SameKeyIff | src/lib/org-export-candidates.ts:139-141 | Two texts have the same key exactly when they agree up to surrounding white space and the case of ASCII letters. |
| OrgMatching.PairIs | src/lib/org-export-candidates.ts:180-203 | One AG row pairs with the first IDP row of the same non-blank slug, else the first of the same non-blank name, else none, in the rows' own texts. |
| OrgMatching.FirstWithIsFirst | src/lib/org-export-candidates.ts:167-176 | The scan finds the earliest row with the key, or there is none. |
| OrgMatching.InOrder | src/lib/org-export-candidates.ts:180-203 | The output is an in-order subsequence of the AG rows with their own matches, and no row that has one is missing. |
| OrgMatching.AppendingKeepsMatches | src/lib/org-export-candidates.ts:167-198 | More IDP rows never remove a match nor change a slug match; a name match turns at most into a slug match. |
| ServerTree.ResolutionKeepsRendering | export/src/area-routes.tsx:91-101 | The resolved tree renders, in order, what the original would with each component awaited in place. |
| ServerTree.ResolutionIsIdempotent | export/src/area-routes.tsx:91-101 | The result has no async component reachable through children, a second resolution changes nothing, and exactly the async-free trees are kept as they are. |
| ServerTree.FailsWithAThrow | export/src/area-routes.tsx:91-101 | Resolution fails exactly when a reachable component throws, with an error one of them threw. |
| Redaction.RedactionHides | e2e/helpers/appliance-fixture.ts:278-290 | Two values give equal output if and only if they differ at most under hidden keys, under `__proto__` (which sets no member), beyond depth 6, past 20 items or past 200 characters. |
| Redaction.RedactionIs | e2e/helpers/appliance-fixture.ts:278-290 | The bounds written out: depth 6, 20 items, 200 characters and an ellipsis, hidden members marked, everything else as it was. |
| Redaction.OwnIs | e2e/helpers/appliance-fixture.ts:282-284 | The members kept are, in order, all but those of the key `__proto__`. |
| Redaction.RedactionIsIdempotent | e2e/helpers/appliance-fixture.ts:278-290 | A second redaction changes nothing. |
| Redaction.HiddenValueIsUnseen | e2e/helpers/appliance-fixture.ts:275-290 | The value under a hidden key never reaches the output. |

## Left out

- HMAC-SHA-1 is any function to twenty bytes; the SHA-256 ledger key is the user; upper-casing outside ASCII is any mapping.
- `Date.parse`, beyond "some instant or none"; the matcher's lower-casing outside ASCII.
- Numbers beyond what a double holds exactly: a Retry-After of more than 15 digits is taken exactly, not rounded.
- Of a JSON body only `authenticated === false` and the string members `reason`, `error` and `correlation_id`; a
  `reason` that is no string but prints as a renewable one is not a renewable reason here.
- `fetch`, cookies and the Go boundary are the environment. That every renewal settles and its body ends by its own 6 s
  signal is an assumption on it. So is that a request of the loop settles by its attempt's signal, as the renewal
  protocol's calls do once aborted; a body is cut off by that signal unless it is the answer of a renewal.
- A renewal's settlement is one step: no caller's answer arrives between the epoch's increment and the clearing of the
  slot. The abort of a waiter that has already been resolved but not resumed is the abort before or after it.
- Code between two awaits takes no time.
- A React commit and its passive effects are one step. The action boundary and the alert's text are left out.
- An async component is given by the tree or error its promise settles with; which of several errors wins is the first in
  order here, the earliest in the code. Components that expand forever have no value.
- Other pages and other processes running at the same time: the code coordinates one page, and one runner.
- The ledger file is the map it holds; which writes fail is chosen by the environment.
- Which keys are redacted is a parameter, so the key pattern itself is not modelled; nor is a key that occurs twice in an
  object, nor `bodyForLog`'s final clip. Texts are clipped at 200 characters here, at 200 UTF-16 code units in the code.
- The route tables and first-match routing, the fixture envelope and its loaders, the request ring, the login cooldown
  and `unavailablePath`: each is settled by a table or one branch and would only add easy members.
- `parseOrganizationExportCandidatesResponse`: a field-by-field filter.
- `waitForSafeTOTPWindow` of the login helper: one comparison with the step boundary.
