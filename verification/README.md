# Commission quote: a verified model

A Dafny model of the parts of the commission quote services where a mistake would cost money or
availability, with proofs about them. `dafny verify dfyconfig.toml` checks everything.

| Files | What they model |
|---|---|
| `Breaker.dfy`, `BreakerRuns.dfy`, `BreakerDrain.dfy` | the Middleware's circuit breaker: a class whose two critical sections are atomic steps, and what holds of every interleaving of those steps |
| `Retry.dfy` | the bounded retry loop, its backoff in int64 arithmetic, and its time budget |
| `Vendor.dfy` | error trees, the classification of vendor outcomes, and the decoding of a reply |
| `Resilience.dfy` | breaker over retrier over vendor client |
| `Money.dfy`, `Decimal.dfy`, `Arith.dfy` | exact amounts and rates as fractions in lowest terms, rounding, the decimal parser and printer, and the number theory under them |
| `Tokens.dfy`, `Validation.dfy` | raw JSON number tokens and the Middleware's authoritative validation |
| `Pricing.dfy`, `Pipeline.dfy` | the vendor mock's checks and pricing, and a quote's whole journey across both services |
| `Sessions.dfy` | the BFF's session store |

## How it is modelled

**Circuit breaker.** `reject` and `record` each run under one mutex, so a run is a sequence of events:
a request arriving at a time, or an admitted call finishing with an outcome. `System` holds the
breaker's fields and what has happened: the clock, the calls between admission and record, the number
of state changes (a *phase*; each half-open episode is one), the outcomes recorded in the current
closed period, and the admissions and request faults of the current phase. The class keeps its run as
a ghost trace and its fields equal to the state that run reaches, so every theorem about runs holds
of every object. The clock does not go back, and an admitted call is recorded at most once. The
threshold is the fraction `num/den`, compared as `failures * den >= num * samples`.

**Retrier.** The wrapped source is an oracle: for each call its answer, how long it takes, the jitter
drawn after it, and which of a timer and a context firing at the same instant wins. Times are
nanoseconds. Arithmetic the program does in int64 wraps here too, and `Time.Sub` saturates.
For the safety argument a second oracle says what the vendor client met on each call and whether the
vendor created a quote.

**Money.** `big.Rat` is a fraction in lowest terms; `SetFrac`, `Mul`, `Add`, `Cmp` and `FloatString` are
modelled by what the Go documentation says they compute, the last with its own rounding and carry, so
that the proof can show they never fire. Text is a sequence of bytes.

## Where the code and its description differ

* `design/contract.md` says half-open "allows 3 probes". The limit is on probes in flight: an episode
  can admit up to `2 * Probes - 1` calls, plus one for each request fault, in any interleaving
  (`EpisodeAdmissions`), and that bound is met (`EpisodeBoundIsMet`). The configured number bounds an episode's admissions, faults
  apart, only when it is 1 (`ProbesBoundAdmissionsExactlyForOne`).
* A call admitted before the circuit opened can reopen the circuit from a later half-open episode
  (`StaleFailureReopens`) or close it (`StaleSuccessCloses`). It cannot when every call reports within a
  budget below `OpenFor`; no larger budget will do (`StaleExactlyWhenBudgetReachesOpenFor`). The retrier
  does report within the request budget (`BudgetDrainsBreaker`), and any run that does is one of the
  service's (`ServedExactlyWhenTimely`), so the same holds of the service (`ServiceIsStaleExactly`). The
  defaults are 6s against 10s; startup does not compare the two settings.
* Recording a success can open the circuit, though only as the `MinSamples`-th outcome of a closed
  period (`SuccessOpensOnlyAtMinSamples`).
* The budget check adds 100ms to the delay in int64. It means what it says exactly when that sum does
  not wrap (`WorthWaitingExact`). So the sleeps keep to the budget less 100ms in every run exactly when
  neither the vendor's longest wait nor a window a retry draws from makes it wrap
  (`SleepsWithinBudgetExactly`); a wait that does is slept on until the deadline
  (`WrappedWaitSpendsTheBudget`), and a Retry-After can be such a wait (`WrappingHeader`). Likewise a
  retry always starts with more than 100ms left exactly when the budget and 100ms together fit an int64
  (`RetriesLeaveMinimumExactly`).
* The exponential window is exact only while it fits an int64 (`WindowExact`). The first time it does
  not, the jitter is zero (`FirstOverflow`), which is attempt 37 with the default base, and from the
  65th attempt on there is none at all (`BackoffCollapses`).
* A retrier configured with no attempts returns neither a quote nor an error (`Retry.Quote`). Startup
  requires one attempt.
* The vendor mock accepts amounts so large that the Middleware could not read its reply
  (`HugeTotalIsRefused`); the Middleware never sends one (`AcceptedIsRelayed`).
* `SessionStore.Count` is described as reporting live sessions. It also counts expired ones nobody has
  asked for (`CountKeepsExpired`), and is right exactly when there is none (`CountExactly`).

## Model

| member | source | states |
|---|---|---|
| `Breaker.Breaker.constructor` | internal/cqappmiddleware/breaker.go:66-68 | a new breaker is closed, with an empty run behind it |
| `Breaker.Breaker.Reject` | internal/cqappmiddleware/breaker.go:85-104 | the verdict and the new state are those of an arrival at this time, and the object's run grows by exactly that step |
| `Breaker.Breaker.Record` | internal/cqappmiddleware/breaker.go:107-148 | the new state is that of this call finishing with this error's outcome, and the run grows by exactly that step |
| `Breaker.Breaker.Fold` | internal/cqappmiddleware/breaker.go:111-147 | one outcome folded into the fields; faults touch nothing but the calls in flight |
| `Breaker.Breaker.ShouldTrip` | internal/cqappmiddleware/breaker.go:150-161 | the counting loop decides enough samples and failure fraction at or above the threshold |
| `Breaker.Breaker.EnterState` | internal/cqappmiddleware/breaker.go:164-178 | a transition resets the success count, opening stamps the time, and opening or closing discards the window |
| `BreakerRuns.EveryRun` | internal/cqappmiddleware/breaker.go:71-178 | in every reachable state the in-flight count is the number of calls between admission and record, the window is the last Window outcomes of the full closed history (and empty when not closed), that history never tripped, successes stay below Probes, and no call was admitted since an opening |
| `BreakerRuns.WindowIsRecent` | internal/cqappmiddleware/breaker.go:133-137 | in every reachable closed state the window is, place by place, the end of the period's full history, and as long as the smaller of that and Window |
| `BreakerRuns.EveryBreaker` | internal/cqappmiddleware/breaker.go:51-63 | the same of every breaker object used through its methods |
| `BreakerRuns.HistoryIsRecorded` | internal/cqappmiddleware/breaker.go:113-137 | within a closed period the history is exactly the non-fault outcomes the events recorded, in order |
| `BreakerRuns.OpensExactlyOnTrip` | internal/cqappmiddleware/breaker.go:133-161 | from closed a record opens the circuit if and only if it is no fault and, of the most recent Window outcomes of the history including it, there are at least MinSamples and the number that failed is at least the threshold of them; of no earlier prefix had that been so |
| `BreakerRuns.NoFailingWindow` | internal/cqappmiddleware/breaker.go:133-161 | within a closed period no Window consecutive outcomes recorded are all failures |
| `BreakerRuns.SuccessOpensOnlyAtMinSamples` | internal/cqappmiddleware/breaker.go:133-161 | a success opens the circuit if and only if it is the MinSamples-th outcome of the closed period and the failures before it reach the threshold |
| `BreakerRuns.OpeningNeedsFailures` | internal/cqappmiddleware/breaker.go:150-161 | every opening from closed has at least Threshold times MinSamples failures recorded since the last close |
| `BreakerRuns.NothingAdmittedWhileOpen` | internal/cqappmiddleware/breaker.go:89-95 | in any interleaving, an arrival before opening plus OpenFor is rejected with exactly the time left, and nothing at all was admitted since the opening |
| `BreakerRuns.WaitIsBounded` | internal/cqappmiddleware/breaker.go:85-104 | every rejection carries a wait above zero and at most OpenFor |
| `BreakerRuns.WaitingIsEnough` | internal/cqappmiddleware/breaker.go:89-95 | a caller rejected by an open circuit who waits as told is not rejected by that same open period again |
| `BreakerRuns.ArrivalExactly` | internal/cqappmiddleware/breaker.go:85-104 | in every reachable state: closed admits; open rejects with the time left until OpenFor has passed, and any arrival from then on makes it half-open with no successes; half-open admits if and only if fewer than Probes calls are outstanding |
| `BreakerRuns.TransitionsExactly` | internal/cqappmiddleware/breaker.go:85-178 | over every run: closed is left only by a record, for open; open only by an arrival once OpenFor has passed, for half-open and never for closed; half-open for open exactly on a failure, and for closed only on a success |
| `BreakerRuns.OutcomeIgnored` | internal/cqappmiddleware/breaker.go:111-119 | a request fault, and any outcome recorded while open, frees its slot and changes nothing else |
| `BreakerRuns.EpisodeExactly` | internal/cqappmiddleware/breaker.go:120-131 | over a whole half-open episode: its first failure reopens the circuit, its Probes-th success closes it, and nothing else ends it |
| `BreakerRuns.ClosedByProbes` | internal/cqappmiddleware/breaker.go:85-131 | every close of the circuit is the Probes-th success of one half-open episode without a failure, begun by an arrival at least OpenFor after an opening |
| `BreakerRuns.HalfOpenNeverWedges` | internal/cqappmiddleware/breaker.go:97-103 | in every reachable half-open state the next request is admitted or some call is still outstanding |
| `BreakerRuns.EpisodeAdmissions` | internal/cqappmiddleware/breaker.go:97-103 | in any interleaving, however long calls take, one half-open episode admits at most 2 * Probes - 1 calls plus its request faults |
| `BreakerRuns.EpisodeAdmitsAtMost` | internal/cqappmiddleware/breaker.go:97-103 | the same counted from the events: calls admitted since the episode began against request faults recorded in it |
| `BreakerRuns.HalfOpenCounts` | internal/cqappmiddleware/breaker.go:120-128 | without a failure, any interleaving of fewer successes than are wanted stays in the same half-open episode and counts each |
| `BreakerRuns.ClosesAfterProbes` | internal/cqappmiddleware/breaker.go:127-131 | if every later non-fault outcome succeeds, the circuit closes at exactly the (Probes - successes)-th of them, with an empty window |
| `BreakerDrain.DrainedEpisodes` | internal/cqappmiddleware/breaker.go:85-178 | when every call reports within a budget below OpenFor, each half-open episode starts with nothing in flight, counts only its own probes, and its admissions are exactly its calls in flight, its successes and its request faults |
| `BreakerDrain.StaleExactlyWhenBudgetReachesOpenFor` | internal/cqappmiddleware/breaker.go:85-148 | for every sane configuration, some run in which calls report within the budget counts a stale call in half-open if and only if the budget reaches OpenFor; and if and only if then can one reopen the circuit, or close it |
| `BreakerDrain.StaleFailureReopens` | internal/cqappmiddleware/breaker.go:121-126 | such a run ends with the failure of a call from before the opening, counted in half-open, which reopens the circuit |
| `BreakerDrain.StaleSuccessCloses` | internal/cqappmiddleware/breaker.go:127-131 | another ends with the success of such a call, which closes the circuit after Probes - 1 successes of the episode's own |
| `BreakerDrain.EpisodeBoundIsMet` | internal/cqappmiddleware/breaker.go:97-103 | some run of prompt calls and no faults has a half-open episode with 2 * Probes - 1 admissions |
| `BreakerDrain.ProbesBoundAdmissionsExactlyForOne` | internal/cqappmiddleware/breaker.go:97-103 | every half-open episode of every run admits at most Probes calls plus its faults if and only if Probes is 1; the same of the runs in which calls report within any one budget |
| `BreakerDrain.HalfOpenTrickle` | internal/cqappmiddleware/breaker.go:97-103 | under any interleaving an admission while half-open leaves at most Probes calls in flight |
| `Resilience.BreakerHearsTheLastCall` | internal/cqappmiddleware/handler.go:71-80 | the breaker sees one outcome per user request, the last vendor call's: a success exactly for a decodable 201, ignored exactly for a 400 |
| `Resilience.ServedInTime` | internal/cqappmiddleware/handler.go:71-104 | when the calls the breaker admits are run by the retrier under a request deadline at most the budget away, every call reports within the budget |
| `Resilience.BudgetDrainsBreaker` | internal/cqappmiddleware/handler.go:71-104 | so with a request budget below OpenFor each half-open episode of the service starts empty, hears only its own probes, and accounts for its admissions |
| `Resilience.ServedExactlyWhenTimely` | internal/cqappmiddleware/handler.go:71-104 | the runs of the breaker over retriers of the vendor client under a request budget are exactly those in which every call reports within the budget |
| `Resilience.ServiceIsStaleExactly` | internal/cqappmiddleware/handler.go:71-104 | some run of the service lets a stale call be counted in half-open, reopen the circuit, or close it, if and only if its request budget reaches OpenFor |
| `Vendor.TraversesTree` | internal/cqappmiddleware/vendor.go:54-65 | a sentinel is found exactly when it occurs in the error tree, however deep and through whatever wrapping, and the httpx.Error found is the first in pre-order |
| `Vendor.Classification` | internal/cqappmiddleware/vendor.go:150-223 | through the error tree, a failure is marked transient if and only if it is a 429, 502, 503, 504, a timeout or a transport failure that is no cancellation; a request fault if and only if it is a 400; and there is no error if and only if it is a decodable 201 |
| `Vendor.RenderedFailure` | internal/cqappmiddleware/vendor.go:150-223 | every failure carries an httpx.Error found through its markers, with the timeout, contract and internal codes exactly where the taxonomy puts them, and a vendor wait only from a 429 |
| `Vendor.RetryAfterExact` | internal/cqappmiddleware/vendor.go:268-278 | the header's seconds become the right number of nanoseconds if and only if they are at most 9223372036 |
| `Vendor.RetryAfterUnusable` | internal/cqappmiddleware/vendor.go:268-278 | a header that is empty, no integer an int64 holds, or not positive asks for no wait |
| `Retry.Quote` | internal/cqappmiddleware/retry.go:60-102 | the loop makes exactly the attempts of the specification, returns the last one's result and ends when it does; with no attempts allowed it returns no quote and no error |
| `Retry.Pause` | internal/cqappmiddleware/retry.go:83-98 | between attempts it sleeps the backoff, unless the budget or the caller forbids it |
| `Retry.Backoff` | internal/cqappmiddleware/retry.go:111-127 | the delay is the jitter drawn below the capped window, or the vendor's wait when that is longer |
| `Retry.BacksOffExactly` | internal/cqappmiddleware/retry.go:63-152 | another attempt is made if and only if the failure may be repeated, the budget check passes and the context outlasts the backoff; it starts exactly the backoff after the one before ended; otherwise nothing is slept, or exactly until the context ends |
| `Retry.RetryAfterIsRespected` | internal/cqappmiddleware/retry.go:122-126 | no retry after a 429 starts before the wait its header asks for has gone by |
| `Retry.AttemptIsCall` | internal/cqappmiddleware/retry.go:63-98 | the i-th attempt is the i-th call, and the sleep after it is the one decided on |
| `Retry.AttemptFollows` | internal/cqappmiddleware/retry.go:63-98 | another attempt follows exactly on a decision to go on, and starts when the sleep ends |
| `Retry.RepeatsAreTransient` | internal/cqappmiddleware/retry.go:63-98 | between 1 and Attempts calls are made, every one but the last failed transiently, and a transient failure is given up on early only when the budget check or the sleep failed |
| `Retry.DuplicatesOnlyFromTimeouts` | internal/cqappmiddleware/retry.go:28-35 | if requests that never reached the handler create nothing, one user request leaves at most one quote plus one for each timeout that was retried |
| `Retry.DelayBounds` | internal/cqappmiddleware/retry.go:111-127 | whatever the shift wraps to, the jitter is 0 or in [0, Cap), and the delay is the maximum of it and the vendor's wait |
| `Retry.JitterReaches` | internal/cqappmiddleware/retry.go:117-120 | the jitter can be every number from 0 up to the window, and no other |
| `Retry.WindowExact` | internal/cqappmiddleware/retry.go:112-115 | every window up to the n-th is min(Cap, Base * 2^(i-1)) if and only if Base * 2^(n-1) fits an int64 |
| `Retry.WindowCongruent` | internal/cqappmiddleware/retry.go:112-115 | at any attempt the window is the smaller of Cap and the one int64 congruent to Base * 2^(attempt-1) modulo 2^64 |
| `Retry.FirstOverflow` | internal/cqappmiddleware/retry.go:112-120 | the first product not to fit always leaves a negative window and no jitter |
| `Retry.DefaultBackoffEndsAt37` | internal/cqappmiddleware/config.go:102-106 | with the default base the formula holds up to attempt 36 and fails at 37 |
| `Retry.WindowNeverShrinks` | internal/cqappmiddleware/retry.go:112-115 | while the product fits, the window never shrinks |
| `Retry.BackoffCollapses` | internal/cqappmiddleware/retry.go:112-120 | from attempt 65 on the window and the jitter are zero |
| `Retry.WorthWaitingExact` | internal/cqappmiddleware/retry.go:131-137 | the check compares the time left with delay plus 100ms if and only if that sum fits an int64 (and, for deadlines beyond int64 too, if and only if it stays below the maximum); past that it compares with the wrapped sum; without a deadline it always passes |
| `Retry.RunKeepsDeadline` | internal/cqappmiddleware/retry.go:63-101 | with any deadline and attempts that end by it, the call returns by the deadline, or at once if it started after it |
| `Retry.RetriesLeaveMinimumExactly` | internal/cqappmiddleware/retry.go:83-98 | every run within a budget starts each attempt after the first with more than 100ms left, if and only if the budget is at most the int64 maximum less 100ms |
| `Retry.SleepsWithinBudgetExactly` | internal/cqappmiddleware/retry.go:83-137 | against a vendor that asks for at most a given wait, all sleeps together are shorter than the budget less 100ms in every run, if and only if neither that wait nor the longest jitter of any retry exceeds the int64 maximum less 100ms |
| `Retry.HeaderKeepsBudgetExactly` | internal/cqappmiddleware/retry.go:122-137 | for one 429, nothing else wrapping: every run it starts keeps its budget so if and only if its header reads as at most the int64 maximum less 100ms |
| `Retry.SleepsWithinBudget` | internal/cqappmiddleware/retry.go:83-98 | a run none of whose waits exceeds that keeps its budget, whenever it starts and however long its calls take |
| `Retry.SleptToTheEnd` | internal/cqappmiddleware/retry.go:131-152 | any longer wait, on whichever attempt, is slept on until the deadline |
| `Retry.WrappedWaitSpendsTheBudget` | internal/cqappmiddleware/retry.go:131-152 | any 429 whose header reads as a longer wait makes the retrier sleep out its whole budget after the first call |
| `Retry.WrappingHeader` | internal/cqappmiddleware/vendor.go:268-278 | a header asking for 33831688342692755 seconds reads as such a wait |
| `Money.RoundHalfUpExact` | internal/platform/money/money.go:164-178 | rounding gives the one multiple n/10^p with n - 1/2 <= r * 10^p < n + 1/2, whatever reductions happen on the way |
| `Money.RoundHalfUpIdempotent` | internal/platform/money/money.go:164-178 | rounding twice is rounding once |
| `Money.RoundHalfUpMonotone` | internal/platform/money/money.go:164-178 | rounding keeps order |
| `Money.ScaledIntExact` | internal/platform/money/money.go:184-194 | the scaled integer is that same n, by an exact division, and is reported if and only if it fits an int64 |
| `Money.FormatExact` | internal/platform/money/money.go:196-200 | printing shows exactly the half-up units; the library printer's own rounding never changes them |
| `Money.RenderFits` | internal/platform/money/money.go:24-26 | printed text passes the 32-byte guard if and only if its digits number at most 31 with a point, one fewer with a sign |
| `Money.ParseExactly` | internal/platform/money/money.go:202-242 | the parser accepts exactly an optional sign, digits, and a point only with digits after it, in at most 32 bytes, as that number in lowest terms and its count of fraction digits; it calls text too long exactly beyond 32 bytes |
| `Money.ParseRender` | internal/platform/money/money.go:202-242 | parsing printed units gives them back in lowest terms with their places, or too long, and nothing else |
| `Money.ParseOfFormat` | internal/platform/money/money.go:68-90 | any value survives printing and parsing as its rounding, with that many places, unless the text is too long |
| `Money.FormatOfParse` | internal/platform/money/money.go:145-155 | any accepted text prints as its half-up rounding, and as itself if and only if it was canonical |
| `Money.RenderIsCanonical` | internal/platform/money/money.go:196-200 | printed text is canonical: no plus, no superfluous zero, no negative zero, exactly the places |
| `Money.CanonicalIsRender` | internal/platform/money/money.go:202-242 | every canonical text is the print of some value |
| `Decimal.ScanDigits` | internal/platform/money/money.go:244-254 | the scan accepts exactly non-empty strings of digits |
| `Decimal.ParseInt64Exactly` | internal/cqappmiddleware/validate.go:104 | an integer is read from exactly the signed digit strings whose value an int64 holds |
| `Tokens.NumberTextExactly` | internal/cqappmiddleware/validate.go:133-141 | white space around a token is dropped and nothing else; absent, null and quoted tokens are no numbers |
| `Validation.Validate` | internal/cqappmiddleware/validate.go:73-131 | the report is, in fixed order, what each field comes to on its own, at most once each; the result carries exactly the fields that were fine; no errors if and only if accepted |
| `Validation.ValidateAmount` | internal/cqappmiddleware/validate.go:81-97 | the amount's part of it, with the bounds parsed from their text |
| `Validation.ValidateTerm` | internal/cqappmiddleware/validate.go:99-115 | the term's part of it |
| `Validation.Contains` | internal/cqappmiddleware/validate.go:143-150 | the loop decides membership |
| `Validation.MinAmountParses` | internal/cqappmiddleware/validate.go:14-16 | the lower bound's text parses to 1000 |
| `Validation.MaxAmountParses` | internal/cqappmiddleware/validate.go:14-17 | the upper bound's text parses to 5000000 |
| `Validation.AmountVerdict` | internal/cqappmiddleware/validate.go:81-97 | on any JSON number the amount is invalid for an exponent or over 32 bytes, imprecise for more than two fraction digits, and out of range exactly outside 1000 to 5000000 |
| `Validation.TermVerdict` | internal/cqappmiddleware/validate.go:99-115 | on any JSON number the term is no integer for a fraction or an exponent, invalid beyond int64, and out of range exactly outside 6 to 360 |
| `Validation.PublishedAmountIsShort` | internal/platform/money/money.go:204-207 | an acceptable amount is at most 10 bytes, so the guard never rejects one |
| `Validation.JsonRequestAccepted` | internal/cqappmiddleware/validate.go:81-130 | a request of JSON numbers is accepted if and only if the amount has no exponent, at most two fraction digits and a value from 1000 to 5000000, the term is an integer literal from 6 to 360, and the band is A, B or C |
| `Validation.RequestIsRead` | internal/cqappmiddleware/validate.go:81-130 | an accepted request carries the amount and the term its tokens parse to and the very band that was sent |
| `Validation.JsonRequestIsRead` | internal/cqappmiddleware/validate.go:81-130 | of JSON numbers: the amount is the fraction its digits write with its count of fraction digits, the months the integer its digits write, the band the one sent |
| `Validation.FieldsReportedInvalid` | internal/cqappmiddleware/validate.go:81-128 | a field that is absent, null, quoted or no plain number is reported invalid, and so is any band but A, B and C |
| `Validation.AcceptedAmountInCents` | internal/cqappmiddleware/validate.go:90-95 | an accepted amount, from whatever token, is a whole number of cents from 100000 to 500000000 |
| `Pricing.RateNeverOverflows` | internal/cqapimock/quote.go:50-60 | for every int64 term neither step of the rate leaves int64 |
| `Pricing.RateFormula` | internal/cqapimock/quote.go:26-60 | the rate card in ten thousandths for every int64 term: A 100, B 150, C 225, and 5 for each full year below 72 months or 30 from there on; from 100 to 255 for every term a request can carry |
| `Pricing.TotalInCents` | internal/cqapimock/quote.go:69-88 | the rational price rounded where it is printed is (cents * n + 5000) div 10000 |
| `Pricing.PriceMonotone` | internal/cqapimock/quote.go:50-88 | for any positive amounts in order, and terms in order, the generated rate and total are in order, exactly and as printed |
| `Pipeline.AcceptedIsNeverRefused` | internal/cqapimock/handler.go:72-117 | whatever the Middleware accepts the vendor accepts, reading the same rational amount, months and band |
| `Pipeline.MockAcceptsExactly` | internal/cqapimock/handler.go:72-117 | on JSON numbers the mock accepts exactly a plain positive amount of at most two fraction digits and 32 bytes, a positive integer term an int64 holds and a published band, and reads what their digits write |
| `Pipeline.RelayedIsDecode` | internal/cqappmiddleware/vendor.go:230-264 | the figures relayed are those of the decoded answer, and the reply is refused exactly when they cannot be read |
| `Pipeline.RelayedRounds` | internal/cqappmiddleware/vendor.go:245-263 | arbitrary vendor numbers come back rounded half up to 4 and 2 places, and unchanged if and only if both were canonical |
| `Pipeline.FiguresSurvive` | internal/cqappmiddleware/vendor.go:230-264 | the mock's figures are relayed to the last byte if and only if the total is below 10^31 cents (above -10^30), and refused otherwise |
| `Pipeline.RelayedBelowGuard` | internal/cqapimock/handler.go:72-117 | every request the mock accepts is for whole cents, and its figures come back as the integer formula if and only if (cents * n + 5000) div 10000 is below 10^31 |
| `Pipeline.HugeTotalIsRefused` | internal/cqapimock/handler.go:77-92 | a concrete request the mock accepts and prices, whose reply is refused |
| `Pipeline.AcceptedIsRelayed` | internal/cqapimock/quote.go:74-88 | every request accepted, whatever its tokens, is relayed byte for byte with the rate and total of the integer formula, the rate in 100..255 ten thousandths and the total in 1000..12750000 cents |
| `Pipeline.EndToEnd` | internal/cqapimock/quote.go:26-88 | for JSON numbers, from the tokens to the text: the caller sees the rate of the published card for the band and term sent, and (cents * n + 5000) div 10000 of the very cents sent |
| `Sessions.SessionStore.constructor` | internal/cqappbff/session.go:38-40 | a new store is empty |
| `Sessions.SessionStore.Create` | internal/cqappbff/session.go:43-55 | a session is issued that expires a lifetime from now, and the run grows by exactly that step |
| `Sessions.SessionStore.Get` | internal/cqappbff/session.go:59-72 | it returns a session if and only if that one was created under the id, not deleted since and not expired; an expired one is dropped |
| `Sessions.SessionStore.Delete` | internal/cqappbff/session.go:76-80 | the session is gone, whatever its expiry |
| `Sessions.SessionStore.Count` | internal/cqappbff/session.go:83-87 | the count is at least the number of live sessions, and equal to it exactly as in CountExactly |
| `Sessions.GetIsExact` | internal/cqappbff/session.go:59-72 | over every run, lookup finds exactly the created, undeleted, unexpired session |
| `Sessions.LazyAgreesWithEager` | internal/cqappbff/session.go:43-87 | over every run, lookup agrees with a store that drops sessions as they expire, and the count is no smaller |
| `Sessions.HeldExactly` | internal/cqappbff/session.go:43-80 | the store keeps a session if and only if it was created, and since neither deleted nor asked for once it had expired |
| `Sessions.CountExactly` | internal/cqappbff/session.go:82-87 | the count is the number of live sessions if and only if every session created, and since neither deleted nor asked for once it had expired, is still to expire |
| `Sessions.GoneStaysGone` | internal/cqappbff/session.go:57-80 | a session that was issued and is gone is never found again, whatever follows |
| `Sessions.CountKeepsExpired` | internal/cqappbff/session.go:82-87 | a run after which the store counts one session and none is live |

## Left out

- A panic in the wrapped source: `record` is not deferred, so such a call would stay counted as in flight; every admitted call here is recorded once or is still outstanding.
- Rounding of the float64 quotient in the threshold test: it is compared as an exact fraction.
- `Config.Sane`: startup checks only that MinSamples does not exceed Window and that the threshold is from 0 to 1; the other conditions are assumed by the lemmas that need them, and listed there.
- Data races and the mutex itself: each critical section is one step.
- Vendor calls made while the circuit is open by requests admitted earlier, which may still be retrying; what is proved is that no new request is admitted.
- The Retry-After header sent to callers, which is floored to whole seconds; waits are durations here.
- HTTP, JSON decoding and encoding, unknown fields and trailing content, logging and tracing: the model starts from raw number tokens and decoded strings and ends with the figures' text.
- White space other than ASCII around a token.
- math/big, strconv, errors and time are not part of this model beyond the operations named above; shifts and multiplications on int64 wrap as the Go language defines.
- Message texts of errors, and HTTP status codes sent to callers.
- Randomness: jitter is any draw below the window, session and quote ids are given, and session ids are fresh.
- Cookies, passwords, tokens, entitlements, the BFF's wording, the failure injector, configuration loading and the front end: they would add table lookups and short checks.
