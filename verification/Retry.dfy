// internal/cqappmiddleware/retry.go: bounded retries of a vendor call that is
// not idempotent, within a time budget. Times and durations are nanoseconds.
module Retry {
  import opened Arith
  import opened Decimal
  import opened Vendor

  // All three are int64 in the program.
  datatype RetryConfig = RetryConfig(attempts: int, base: int, cap: int)

  const MIN_ATTEMPT_BUDGET := 100_000_000

  // One possible call to the wrapped source: its answer, how long it takes, the
  // jitter drawn after it, and which of a timer and a context that fire
  // together wins.
  datatype Call = Call(answer: Answer, takes: nat, draw: nat, timerWins: bool)

  // The wrapped source as an oracle, and the caller's context.
  datatype World = World(call: nat -> Call, deadline: Option<int>, canceledAt: Option<int>)
  {
    function DoneAt(): Option<int> {
      if deadline.None? then canceledAt
      else if canceledAt.None? then deadline
      else if deadline.value <= canceledAt.value then deadline
      else canceledAt
    }
  }

  // -------------------------------------------------------------- backoff

  function Pow2(k: nat): (p: nat)
    ensures 1 <= p
  {
    if k == 0 then 1 else 2 * Pow2(k - 1)
  }

  // base << (attempt - 1) in int64 arithmetic, capped.
  function Window(cfg: RetryConfig, attempt: nat): int
    requires 1 <= attempt
  {
    var shifted := Wrap64(cfg.base * Pow2(attempt - 1));
    if shifted > cfg.cap then cfg.cap else shifted
  }

  // What the random source hands out when asked for a number in [0, window): a
  // draw outside it counts as 0, so every number in it can be had.
  function Jitter(window: int, draw: nat): int {
    if draw < window then draw else 0
  }

  function Delay(cfg: RetryConfig, attempt: nat, draw: nat, err: Err): int
    requires 1 <= attempt
  {
    var jitter := Jitter(Window(cfg, attempt), draw);
    match RetryAfterOf(err)
    case None => jitter
    case Some(r) => if jitter < r then r else jitter
  }

  method Backoff(cfg: RetryConfig, attempt: nat, draw: nat, err: Err) returns (d: int)
    requires 1 <= attempt
    ensures d == Delay(cfg, attempt, draw, err)
  {
    var window := Wrap64(cfg.base * Pow2(attempt - 1));
    if window > cfg.cap {
      window := cfg.cap;
    }
    var delay := 0;
    if window > 0 {
      delay := Jitter(window, draw);
    }
    var vendorWait := RetryAfterOf(err);
    if vendorWait.Some? && vendorWait.value > delay {
      return vendorWait.value;
    }
    return delay;
  }

  // Whatever the shift wraps to, the jittered part is 0 or below the cap, and
  // the delay is the larger of it and the vendor's own wait.
  lemma DelayBounds(cfg: RetryConfig, attempt: nat, draw: nat, err: Err)
    requires 1 <= attempt
    ensures var jitter := Jitter(Window(cfg, attempt), draw);
            && (jitter == 0 || 0 <= jitter < cfg.cap)
            && var d := Delay(cfg, attempt, draw, err);
               && jitter <= d && 0 <= d
               && (RetryAfterOf(err).Some? ==> RetryAfterOf(err).value <= d)
               && (d == jitter || RetryAfterOf(err) == Some(d))
  {
  }

  // Every number below the window can be drawn, and none when there is none.
  lemma JitterReaches(window: int, x: nat)
    ensures (exists draw: nat :: Jitter(window, draw) == x) <==> x < window || x == 0
  {
    if x < window {
      assert Jitter(window, x) == x;
    } else if x == 0 {
      assert Jitter(window, 0) == 0;
    }
  }

  // The window is the smaller of Cap and the one int64 that differs from the
  // exponential by a multiple of 2^64.
  lemma WindowCongruent(cfg: RetryConfig, attempt: nat) returns (shifted: int)
    requires 1 <= attempt
    ensures FitsInt64(shifted) && (shifted - Exponential(cfg, attempt)) % TWO_64 == 0
    ensures Window(cfg, attempt) == Capped(shifted, cfg.cap)
  {
    shifted := Wrap64(Exponential(cfg, attempt));
  }

  // The window before int64 arithmetic and the cap have their say.
  function Exponential(cfg: RetryConfig, attempt: nat): int
    requires 1 <= attempt
  {
    cfg.base * Pow2(attempt - 1)
  }

  function Capped(n: int, cap: int): int {
    if n > cap then cap else n
  }

  lemma Doubles(cfg: RetryConfig, attempt: nat)
    requires 1 <= attempt
    ensures Exponential(cfg, attempt + 1) == 2 * Exponential(cfg, attempt)
  {
    assert Pow2(attempt) == 2 * Pow2(attempt - 1);
  }

  lemma {:induction false} ExponentialGrows(cfg: RetryConfig, m: nat, n: nat)
    requires 1 <= m <= n && 0 <= cfg.base
    ensures 0 <= Exponential(cfg, m) <= Exponential(cfg, n)
    decreases n
  {
    if m < n {
      ExponentialGrows(cfg, m, n - 1);
      Doubles(cfg, n - 1);
    } else if 1 < m {
      ExponentialGrows(cfg, m - 1, m - 1);
      Doubles(cfg, m - 1);
    }
  }

  // The first exponential an int64 does not hold wraps to a negative window, so
  // the attempt after it is made without any backoff of our own.
  lemma FirstOverflow(cfg: RetryConfig, attempt: nat, draw: nat)
    requires 1 <= attempt && Exponential(cfg, attempt) <= MAX_INT64 < Exponential(cfg, attempt + 1)
    ensures Window(cfg, attempt + 1) < 0 && Jitter(Window(cfg, attempt + 1), draw) == 0
  {
    Doubles(cfg, attempt);
  }

  lemma {:induction false} OverflowsFirst(cfg: RetryConfig, n: nat) returns (k: nat)
    requires 1 <= n && cfg.base <= MAX_INT64 < Exponential(cfg, n)
    ensures 1 <= k < n && Exponential(cfg, k) <= MAX_INT64 < Exponential(cfg, k + 1)
  {
    assert Exponential(cfg, 1) == cfg.base;
    if Exponential(cfg, n - 1) <= MAX_INT64 {
      k := n - 1;
    } else {
      k := OverflowsFirst(cfg, n - 1);
    }
  }

  // Every window up to the n-th is the capped exponential exactly when the n-th
  // exponential fits an int64.
  lemma WindowExact(cfg: RetryConfig, n: nat)
    requires 1 <= n && 0 <= cfg.base <= MAX_INT64 && 0 <= cfg.cap
    ensures (forall i | 1 <= i <= n :: Window(cfg, i) == Capped(Exponential(cfg, i), cfg.cap))
            <==> Exponential(cfg, n) <= MAX_INT64
  {
    if Exponential(cfg, n) <= MAX_INT64 {
      forall i | 1 <= i <= n ensures Window(cfg, i) == Capped(Exponential(cfg, i), cfg.cap) {
        ExponentialGrows(cfg, i, n);
      }
    } else {
      var k := OverflowsFirst(cfg, n);
      FirstOverflow(cfg, k, 0);
      ExponentialGrows(cfg, k + 1, n);
    }
  }

  lemma Pow2Of32()
    ensures Pow2(32) == 0x1_0000_0000
  {
    assert Pow2(8) == 256;
    Pow2Sum(8, 8);
    Pow2Sum(16, 16);
  }

  lemma Pow2Of35()
    ensures Pow2(35) == 0x8_0000_0000
  {
    Pow2Of32();
    assert Pow2(34) == 2 * Pow2(33) == 4 * Pow2(32);
  }

  // With the default base of 150ms the formula holds up to attempt 36 and fails
  // at attempt 37.
  lemma DefaultBackoffEndsAt37(cfg: RetryConfig, draw: nat)
    requires cfg.base == 150_000_000 && 0 <= cfg.cap
    ensures forall i | 1 <= i <= 36 :: Window(cfg, i) == Capped(Exponential(cfg, i), cfg.cap)
    ensures Window(cfg, 37) < 0 && Jitter(Window(cfg, 37), draw) == 0
  {
    Pow2Of35();
    Doubles(cfg, 36);
    WindowExact(cfg, 36);
    FirstOverflow(cfg, 36, draw);
  }

  lemma WindowNeverShrinks(cfg: RetryConfig, attempt: nat)
    requires 1 <= attempt && 0 <= cfg.base && Exponential(cfg, attempt + 1) <= MAX_INT64
    ensures Window(cfg, attempt) <= Window(cfg, attempt + 1)
  {
    ExponentialGrows(cfg, attempt, attempt + 1);
  }

  lemma {:induction false} Pow2Sum(a: nat, b: nat)
    ensures Pow2(a + b) == Pow2(a) * Pow2(b)
  {
    if a == 0 {
    } else {
      Pow2Sum(a - 1, b);
      assert Pow2(a + b) == 2 * Pow2(a - 1 + b);
      assert 2 * (Pow2(a - 1) * Pow2(b)) == Pow2(a) * Pow2(b);
    }
  }

  // From attempt 65 on, the shift leaves nothing: retries no longer back off.
  lemma BackoffCollapses(cfg: RetryConfig, attempt: nat, draw: nat)
    requires 65 <= attempt && 0 < cfg.cap
    ensures Window(cfg, attempt) == 0 && Jitter(Window(cfg, attempt), draw) == 0
  {
    Pow2Sum(64, attempt - 65);
    Pow2Of64();
    ShiftedOut(cfg.base, Pow2(attempt - 65));
  }

  lemma Pow2Of64()
    ensures Pow2(64) == TWO_64
  {
    Pow2Of32();
    Pow2Sum(32, 32);
  }

  lemma ShiftedOut(x: int, y: int)
    ensures Wrap64(x * (TWO_64 * y)) == 0
  {
    assert x * (TWO_64 * y) == TWO_64 * (x * y);
    ExactModulus(x * y);
  }

  lemma ExactModulus(k: int)
    ensures Wrap64(TWO_64 * k) == 0
  {
  }

  // ------------------------------------------------------------ the budget

  // Time.Sub saturates.
  function Clamp64(n: int): int {
    if n < MIN_INT64 then MIN_INT64 else if n > MAX_INT64 then MAX_INT64 else n
  }

  predicate WorthWaiting(deadline: Option<int>, now: int, delay: int) {
    deadline.None? || Clamp64(deadline.value - now) > Wrap64(delay + MIN_ATTEMPT_BUDGET)
  }

  // The longest delay the minimum can be added to.
  const LONGEST_DELAY := MAX_INT64 - MIN_ATTEMPT_BUDGET

  // The comparison means what it says exactly when its sum does not wrap.
  lemma WorthWaitingExact(delay: int)
    requires 0 <= delay <= MAX_INT64
    ensures (forall left | FitsInt64(left) ::
               WorthWaiting(Some(left), 0, delay) <==> left > delay + MIN_ATTEMPT_BUDGET)
            <==> delay <= LONGEST_DELAY
    ensures (forall deadline, now :: WorthWaiting(Some(deadline), now, delay) <==>
                                     deadline - now > delay + 100_000_000)
            <==> delay < LONGEST_DELAY
    ensures delay > LONGEST_DELAY ==>
              forall deadline, now | FitsInt64(deadline - now) ::
                WorthWaiting(Some(deadline), now, delay) <==> deadline - now > delay + 100_000_000 - TWO_64
    ensures forall now :: WorthWaiting(None, now, delay)
  {
    if delay > LONGEST_DELAY {
      assert FitsInt64(0) && WorthWaiting(Some(0), 0, delay);
    } else if delay == LONGEST_DELAY {
      assert !WorthWaiting(Some(MAX_INT64 + 1), 0, delay);
    }
  }

  // sleepCtx: when it woke, and whether the whole delay went by.
  datatype Nap = Nap(woke: int, whole: bool)

  function Sleep(now: int, delay: int, doneAt: Option<int>, timerWins: bool): Nap {
    if delay <= 0 then Nap(now, true)
    else if doneAt.Some? && (doneAt.value < now + delay || (doneAt.value == now + delay && !timerWins)) then
      Nap(if doneAt.value < now then now else doneAt.value, false)
    else Nap(now + delay, true)
  }

  // -------------------------------------------------------------- the loop

  // What follows an attempt: stop, or sleep through and call again.
  datatype Decision = Stop(slept: int) | Again(slept: int)

  function Decide(cfg: RetryConfig, w: World, n: nat, end: int): Decision
    requires 1 <= n
  {
    var err := w.call(n).answer.err;
    if err.None? || !Is(err.value, ErrTransient) || n == cfg.attempts then Stop(0)
    else
      var delay := Delay(cfg, n, w.call(n).draw, err.value);
      if !WorthWaiting(w.deadline, end, delay) then Stop(0)
      else
        var nap := Sleep(end, delay, w.DoneAt(), w.call(n).timerWins);
        if nap.whole then Again(nap.woke - end) else Stop(nap.woke - end)
  }

  datatype Attempt = Attempt(start: int, end: int, answer: Answer, slept: int)

  // The attempts of a run, first to last.
  datatype Log = One(made: Attempt) | Then(made: Attempt, later: Log)
  {
    function Count(): (k: nat)
      ensures 1 <= k
    {
      if One? then 1 else 1 + later.Count()
    }

    function Last(): Attempt {
      if One? then made else later.Last()
    }

    function At(i: nat): Attempt
      requires i < Count()
    {
      if i == 0 then made else later.At(i - 1)
    }

    function Slept(): int {
      made.slept + if One? then 0 else later.Slept()
    }
  }

  // The attempts the retrier makes from the n-th on, when that one starts at
  // `now`.
  function Attempts(cfg: RetryConfig, w: World, n: nat, now: int): (log: Log)
    requires 1 <= n
    ensures log.made.start == now
    decreases cfg.attempts - n
  {
    var end := now + w.call(n).takes;
    var d := Decide(cfg, w, n, end);
    var made := Attempt(now, end, w.call(n).answer, d.slept);
    if d.Again? && n < cfg.attempts then Then(made, Attempts(cfg, w, n + 1, end + d.slept)) else One(made)
  }

  // The i-th of them is call n + i, with the sleep decided on after it.
  lemma {:induction false} AttemptIsCall(cfg: RetryConfig, w: World, n: nat, now: int, i: nat)
    requires 1 <= n <= cfg.attempts && i < Attempts(cfg, w, n, now).Count()
    ensures var a := Attempts(cfg, w, n, now).At(i);
            && n + i <= cfg.attempts
            && a.answer == w.call(n + i).answer && a.end == a.start + w.call(n + i).takes
            && a.slept == Decide(cfg, w, n + i, a.end).slept
    decreases i
  {
    hide Decide;
    if i != 0 {
      var log := Attempts(cfg, w, n, now);
      AttemptIsCall(cfg, w, n + 1, log.made.end + log.made.slept, i - 1);
    }
  }

  // Another follows exactly on a decision to go on, and starts after the sleep.
  lemma {:induction false} AttemptFollows(cfg: RetryConfig, w: World, n: nat, now: int, i: nat)
    requires 1 <= n <= cfg.attempts && i < Attempts(cfg, w, n, now).Count()
    ensures var log := Attempts(cfg, w, n, now);
            var a := log.At(i);
            && (i + 1 < log.Count() <==> Decide(cfg, w, n + i, a.end).Again? && n + i < cfg.attempts)
            && (i + 1 < log.Count() ==> log.At(i + 1).start == a.end + a.slept)
    decreases i
  {
    hide Decide;
    var log := Attempts(cfg, w, n, now);
    if i != 0 {
      AttemptFollows(cfg, w, n + 1, log.made.end + log.made.slept, i - 1);
    } else if log.Then? {
      assert log.At(1) == log.later.At(0) == log.later.made;
    }
  }

  lemma {:induction false} LastAttempt(log: Log)
    ensures log.Last() == log.At(log.Count() - 1)
  {
    if log.Then? {
      LastAttempt(log.later);
    }
  }

  // Between two attempts: back off, unless the budget or the caller forbids it.
  method Pause(cfg: RetryConfig, w: World, attempt: nat, now: int, err: Err) returns (d: Decision)
    requires 1 <= attempt && attempt != cfg.attempts
    requires w.call(attempt).answer.err == Some(err) && Is(err, ErrTransient)
    ensures d == Decide(cfg, w, attempt, now)
  {
    var delay := Backoff(cfg, attempt, w.call(attempt).draw, err);
    if !WorthWaiting(w.deadline, now, delay) {
      return Stop(0);
    }
    var nap := Sleep(now, delay, w.DoneAt(), w.call(attempt).timerWins);
    if !nap.whole {
      return Stop(nap.woke - now);
    }
    return Again(nap.woke - now);
  }

  // What the loop hands back of an answer: no quote with an error.
  function Returned(a: Answer): Answer {
    if a.err.None? then a else Answer(NO_QUOTE, a.err)
  }

  // The retrier makes those attempts and returns the last one's result. Without
  // a single attempt it returns no quote and no error.
  method Quote(cfg: RetryConfig, w: World, start: int) returns (answer: Answer, calls: nat, finish: int)
    ensures cfg.attempts < 1 ==> answer == Answer(NO_QUOTE, None) && calls == 0 && finish == start
    ensures 1 <= cfg.attempts ==>
              var log := Attempts(cfg, w, 1, start);
              var last := log.Last();
              && calls == log.Count() && finish == last.end + last.slept
              && answer == Returned(last.answer)
  {
    hide Decide, Is;
    ghost var rest := Attempts(cfg, w, 1, start);
    ghost var count, last := rest.Count(), rest.Last();
    var lastErr: Option<Err> := None;
    var now := start;
    var attempt: nat := 1;
    calls := 0;
    while attempt <= cfg.attempts
      invariant 1 <= attempt && calls == attempt - 1
      invariant cfg.attempts < 1 ==> attempt == 1 && now == start && lastErr == None
      invariant 1 <= cfg.attempts ==> attempt <= cfg.attempts
      invariant rest == Attempts(cfg, w, attempt, now)
      invariant count == calls + rest.Count() && last == rest.Last()
    {
      var call := w.call(attempt);
      calls := calls + 1;
      now := now + call.takes;
      if call.answer.err.None? {
        GivesUp(cfg, w, attempt, now - call.takes);
        return call.answer, calls, now;
      }
      lastErr := call.answer.err;
      if !Is(lastErr.value, ErrTransient) {
        GivesUp(cfg, w, attempt, now - call.takes);
        return Answer(NO_QUOTE, lastErr), calls, now;
      }
      if attempt == cfg.attempts {
        GivesUp(cfg, w, attempt, now - call.takes);
        break;
      }
      var d := Pause(cfg, w, attempt, now, lastErr.value);
      GoesBy(cfg, w, attempt, now - call.takes, d);
      now := now + d.slept;
      if d.Stop? {
        break;
      }
      rest := rest.later;
      attempt := attempt + 1;
    }
    return Answer(NO_QUOTE, lastErr), calls, now;
  }

  lemma GivesUp(cfg: RetryConfig, w: World, n: nat, now: int)
    requires 1 <= n
    requires var err := w.call(n).answer.err; err.None? || !Is(err.value, ErrTransient) || n == cfg.attempts
    ensures Attempts(cfg, w, n, now) == One(Attempt(now, now + w.call(n).takes, w.call(n).answer, 0))
  {
  }

  lemma GoesBy(cfg: RetryConfig, w: World, n: nat, now: int, d: Decision)
    requires 1 <= n < cfg.attempts && Decide(cfg, w, n, now + w.call(n).takes) == d
    ensures var made := Attempt(now, now + w.call(n).takes, w.call(n).answer, d.slept);
            Attempts(cfg, w, n, now) ==
            if d.Again? then Then(made, Attempts(cfg, w, n + 1, made.end + d.slept)) else One(made)
  {
  }

  // ----------------------------------------------------- what a run makes

  // Call k failed in a way that may be repeated, and is not the last allowed.
  predicate Waits(cfg: RetryConfig, w: World, k: nat) {
    1 <= k < cfg.attempts && FailedTransiently(w.call(k).answer)
  }

  // The backoff after it.
  function WaitAfter(cfg: RetryConfig, w: World, k: nat): int
    requires Waits(cfg, w, k)
  {
    Delay(cfg, k, w.call(k).draw, w.call(k).answer.err.value)
  }

  // The caller's deadline has passed, or the caller has given up.
  predicate EndedBy(w: World, t: int) {
    (w.deadline.Some? && w.deadline.value <= t) || (w.canceledAt.Some? && w.canceledAt.value <= t)
  }

  // A wait from `now` on that the context does not cut short.
  predicate Uncut(w: World, k: nat, now: int, wait: int) {
    wait == 0 || !EndedBy(w, if w.call(k).timerWins then now + wait - 1 else now + wait)
  }

  // What comes after an attempt, for all of them. A next one is made exactly
  // after a repeatable failure with budget left and the context not over before
  // the backoff is, and then exactly that long after this one ended. Otherwise
  // nothing is slept, unless the context ends the backoff: then exactly until
  // it ends.
  lemma BacksOffExactly(cfg: RetryConfig, w: World, start: int, i: nat)
    requires 1 <= cfg.attempts && i < Attempts(cfg, w, 1, start).Count()
    ensures var log := Attempts(cfg, w, 1, start);
            var k, end := i + 1, log.At(i).end;
            var worth := Waits(cfg, w, k) && WorthWaiting(w.deadline, end, WaitAfter(cfg, w, k));
            && (i + 1 < log.Count() <==> worth && Uncut(w, k, end, WaitAfter(cfg, w, k)))
            && (i + 1 < log.Count() ==> log.At(i + 1).start == end + WaitAfter(cfg, w, k))
            && (if !worth then log.At(i).slept == 0
                else if i + 1 < log.Count() then log.At(i).slept == WaitAfter(cfg, w, k)
                else SleptUntilDone(w, end, log.At(i).slept))
  {
    hide Attempts;
    var log := Attempts(cfg, w, 1, start);
    AttemptIsCall(cfg, w, 1, start, i);
    AttemptFollows(cfg, w, 1, start, i);
    DecidesExactly(cfg, w, i + 1, log.At(i).end);
  }

  // Woken at the first moment, from `end` on, that the context is over.
  ghost predicate SleptUntilDone(w: World, end: int, slept: int) {
    0 <= slept && EndedBy(w, end + slept) && forall t | end <= t < end + slept :: !EndedBy(w, t)
  }

  lemma DecidesExactly(cfg: RetryConfig, w: World, k: nat, end: int)
    requires 1 <= k <= cfg.attempts
    ensures var d := Decide(cfg, w, k, end);
            var worth := Waits(cfg, w, k) && WorthWaiting(w.deadline, end, WaitAfter(cfg, w, k));
            && (d.Again? <==> worth && Uncut(w, k, end, WaitAfter(cfg, w, k)))
            && (if !worth then d.slept == 0
                else if d.Again? then d.slept == WaitAfter(cfg, w, k)
                else SleptUntilDone(w, end, d.slept))
  {
    hide Is, Delay;
    if Waits(cfg, w, k) {
      DelayBounds(cfg, k, w.call(k).draw, w.call(k).answer.err.value);
    }
  }

  // No retry after a 429 starts before the wait it asked for has gone by.
  lemma RetryAfterIsRespected(cfg: RetryConfig, w: World, start: int, i: nat, header: string, body: Body)
    requires 1 <= cfg.attempts && i + 1 < Attempts(cfg, w, 1, start).Count()
    requires w.call(i + 1).answer == Translate(Response(429, header, body))
    ensures var log := Attempts(cfg, w, 1, start);
            log.At(i + 1).start >= log.At(i).end + RetryAfter(header)
  {
    hide Attempts, Is, AsHttp, Window, RetryAfter;
    BacksOffExactly(cfg, w, start, i);
    RateLimitedIsTransient(RetryAfter(header));
    DelayBounds(cfg, i + 1, w.call(i + 1).draw, w.call(i + 1).answer.err.value);
  }

  // Only harmless failures are repeated, and a transient failure is given up
  // on only for want of attempts or of time.
  lemma RepeatsAreTransient(cfg: RetryConfig, w: World, start: int)
    requires 1 <= cfg.attempts
    ensures var log := Attempts(cfg, w, 1, start);
            var calls := log.Count();
            && 1 <= calls <= cfg.attempts
            && log.Last().answer == w.call(calls).answer
            && (forall k | 1 <= k < calls :: FailedTransiently(w.call(k).answer))
            && (calls < cfg.attempts && FailedTransiently(w.call(calls).answer) ==>
                  var delay := Delay(cfg, calls, w.call(calls).draw, w.call(calls).answer.err.value);
                  !WorthWaiting(w.deadline, log.Last().end, delay)
                  || !Sleep(log.Last().end, delay, w.DoneAt(), w.call(calls).timerWins).whole)
  {
    hide Attempts, Delay, Is;
    var log := Attempts(cfg, w, 1, start);
    forall k | 1 <= k < log.Count() ensures FailedTransiently(w.call(k).answer) {
      AttemptIsCall(cfg, w, 1, start, k - 1);
      AttemptFollows(cfg, w, 1, start, k - 1);
    }
    LastAttempt(log);
    AttemptIsCall(cfg, w, 1, start, log.Count() - 1);
    AttemptFollows(cfg, w, 1, start, log.Count() - 1);
  }

  predicate FailedTransiently(a: Answer) {
    a.err.Some? && Is(a.err.value, ErrTransient)
  }

  // Over the vendor client: what it met on each call, and whether the vendor
  // created a quote in it.
  datatype Oracle = Oracle(reply: nat -> Reply, created: nat -> bool)

  ghost predicate Drives(o: Oracle, w: World) {
    forall k: nat :: WellFormed(o.reply(k)) && w.call(k).answer == Translate(o.reply(k))
  }

  // Quotes the vendor created in calls 1 to k, and timeouts among them.
  ghost function Created(o: Oracle, k: nat): nat {
    if k == 0 then 0 else Created(o, k - 1) + if o.created(k) then 1 else 0
  }

  ghost function Timeouts(o: Oracle, k: nat): nat {
    if k == 0 then 0 else Timeouts(o, k - 1) + if TimedOut(o.reply(k)) then 1 else 0
  }

  lemma {:induction false} CreatedByRepeats(o: Oracle, k: nat)
    requires forall i | 1 <= i <= k :: NeverHandled(o.reply(i)) || TimedOut(o.reply(i))
    requires forall i | 1 <= i <= k && NeverHandled(o.reply(i)) :: !o.created(i)
    ensures Created(o, k) <= Timeouts(o, k)
  {
    if k != 0 {
      CreatedByRepeats(o, k - 1);
      assert NeverHandled(o.reply(k)) || TimedOut(o.reply(k));
    }
  }

  // If a request that never reached the handler creates nothing, one user
  // request leaves at most one quote, plus one for each timeout retried.
  lemma DuplicatesOnlyFromTimeouts(cfg: RetryConfig, w: World, o: Oracle, start: int)
    requires 1 <= cfg.attempts && Drives(o, w)
    requires forall k: nat | NeverHandled(o.reply(k)) :: !o.created(k)
    ensures var calls := Attempts(cfg, w, 1, start).Count();
            && (forall k | 1 <= k < calls :: NeverHandled(o.reply(k)) || TimedOut(o.reply(k)))
            && Created(o, calls) <= 1 + Timeouts(o, calls - 1)
  {
    hide Attempts, Is, Translate;
    RepeatsAreTransient(cfg, w, start);
    var calls := Attempts(cfg, w, 1, start).Count();
    forall k | 1 <= k < calls ensures NeverHandled(o.reply(k)) || TimedOut(o.reply(k)) {
      assert FailedTransiently(w.call(k).answer);
      Classification(o.reply(k));
    }
    CreatedByRepeats(o, calls - 1);
  }

  // --------------------------------------------------------- the time spent

  function Later(a: int, b: int): int {
    if a < b then b else a
  }

  // A call ends by the deadline, or at once when it starts after it, as the HTTP
  // client's do.
  ghost predicate EndsByDeadline(log: Log, deadline: int) {
    && log.made.end <= Later(log.made.start, deadline)
    && (log.Then? ==> EndsByDeadline(log.later, deadline))
  }

  // Every sleep is cut at the deadline.
  lemma SleepEndsByDeadline(cfg: RetryConfig, w: World, n: nat, end: int, deadline: int)
    requires 1 <= n && w.deadline == Some(deadline)
    ensures var d := Decide(cfg, w, n, end);
            0 <= d.slept && end + d.slept <= Later(end, deadline)
  {
    var err := w.call(n).answer.err;
    if err.Some? {
      DelayBounds(cfg, n, w.call(n).draw, err.value);
    }
  }

  lemma {:induction false} LaterAttemptsEndByDeadline(cfg: RetryConfig, w: World, n: nat, now: int, deadline: int)
    requires 1 <= n && w.deadline == Some(deadline)
    requires EndsByDeadline(Attempts(cfg, w, n, now), deadline)
    ensures var log := Attempts(cfg, w, n, now);
            log.Last().end + log.Last().slept <= Later(now, deadline)
    decreases cfg.attempts - n
  {
    hide Decide;
    var log := Attempts(cfg, w, n, now);
    SleepEndsByDeadline(cfg, w, n, log.made.end, deadline);
    if log.Then? {
      LaterAttemptsEndByDeadline(cfg, w, n + 1, log.made.end + log.made.slept, deadline);
    }
  }

  // A run with a deadline is over by it, or at once if it started after it.
  lemma RunKeepsDeadline(cfg: RetryConfig, w: World, start: int, deadline: int)
    requires w.deadline == Some(deadline)
    requires EndsByDeadline(Attempts(cfg, w, 1, start), deadline)
    ensures var last := Attempts(cfg, w, 1, start).Last();
            last.end + last.slept <= Later(start, deadline)
  {
    LaterAttemptsEndByDeadline(cfg, w, 1, start, deadline);
  }

  // A retry that goes ahead leaves more than the minimum before the deadline.
  lemma RetryLeavesMinimum(cfg: RetryConfig, w: World, n: nat, end: int, deadline: int)
    requires 1 <= n && w.deadline == Some(deadline) && deadline - end <= LONGEST_DELAY
    ensures var d := Decide(cfg, w, n, end);
            d.Again? ==> deadline - (end + d.slept) > MIN_ATTEMPT_BUDGET
  {
    var err := w.call(n).answer.err;
    if err.Some? {
      DelayBounds(cfg, n, w.call(n).draw, err.value);
    }
  }

  // The attempts after the first start with more than 100ms left.
  ghost predicate RetriesLeaveMinimum(log: Log, deadline: int) {
    forall i | 1 <= i < log.Count() :: deadline - log.At(i).start > MIN_ATTEMPT_BUDGET
  }

  lemma RetriesLeaveMinimumOfLater(log: Log, deadline: int)
    requires log.Then? && deadline - log.later.made.start > MIN_ATTEMPT_BUDGET
    requires RetriesLeaveMinimum(log.later, deadline)
    ensures RetriesLeaveMinimum(log, deadline)
  {
    forall i | 1 <= i < log.Count() ensures deadline - log.At(i).start > MIN_ATTEMPT_BUDGET {
      assert log.At(i) == log.later.At(i - 1);
    }
  }

  lemma {:induction false} LaterAttemptsLeaveMinimum(cfg: RetryConfig, w: World, n: nat, now: int, deadline: int)
    requires 1 <= n && w.deadline == Some(deadline) && deadline - now <= LONGEST_DELAY
    ensures RetriesLeaveMinimum(Attempts(cfg, w, n, now), deadline)
    decreases cfg.attempts - n
  {
    hide Decide;
    var log := Attempts(cfg, w, n, now);
    RetryLeavesMinimum(cfg, w, n, log.made.end, deadline);
    SleepEndsByDeadline(cfg, w, n, log.made.end, deadline);
    if log.Then? {
      LaterAttemptsLeaveMinimum(cfg, w, n + 1, log.made.end + log.made.slept, deadline);
      RetriesLeaveMinimumOfLater(log, deadline);
    }
  }

  // That, of a run whose calls end by its deadline.
  ghost predicate LeavesMinimum(cfg: RetryConfig, w: World, start: int) {
    var log := Attempts(cfg, w, 1, start);
    w.deadline.Some? && EndsByDeadline(log, w.deadline.value) ==> RetriesLeaveMinimum(log, w.deadline.value)
  }

  // A first call that takes a while and then asks for all that is left of the
  // budget; and calls that fail at once.
  function AsksForTheRest(takes: nat, rest: int): World {
    World(n => Call(Fail(RateLimited(if n == 1 then rest else 0)), if n == 1 then takes else 0, 0, true),
          Some(takes + rest), None)
  }

  lemma {:induction false} InstantCallsEnd(cfg: RetryConfig, w: World, n: nat, now: int, deadline: int)
    requires 1 <= n && forall k | n <= k :: w.call(k).takes == 0
    ensures EndsByDeadline(Attempts(cfg, w, n, now), deadline)
    decreases cfg.attempts - n
  {
    hide Decide;
    var log := Attempts(cfg, w, n, now);
    if log.Then? {
      InstantCallsEnd(cfg, w, n + 1, log.made.end + log.made.slept, deadline);
    }
  }

  // The retry is made when nothing is left.
  lemma RetriedAtTheDeadline(cfg: RetryConfig, takes: nat, rest: int)
    requires 2 <= cfg.attempts && LONGEST_DELAY < rest <= MAX_INT64
    ensures !LeavesMinimum(cfg, AsksForTheRest(takes, rest), 0)
  {
    hide Is, AsHttp, Window;
    var w := AsksForTheRest(takes, rest);
    RateLimitedIsTransient(rest);
    assert Delay(cfg, 1, 0, RateLimited(rest)) == rest;
    assert w.call(1).answer == Fail(RateLimited(rest));
    assert Decide(cfg, w, 1, takes) == Again(rest);
    GoesBy(cfg, w, 1, 0, Again(rest));
    var log := Attempts(cfg, w, 1, 0);
    InstantCallsEnd(cfg, w, 2, takes + rest, takes + rest);
    assert log.At(1) == log.later.made;
  }

  // Every run within a budget leaves an attempt after the first more than 100ms,
  // exactly when the budget and the 100ms together fit an int64.
  lemma RetriesLeaveMinimumExactly(cfg: RetryConfig, budget: int)
    requires 2 <= cfg.attempts
    ensures (forall w: World, start | w.deadline == Some(start + budget) :: LeavesMinimum(cfg, w, start))
            <==> budget <= LONGEST_DELAY
  {
    if budget <= LONGEST_DELAY {
      forall w: World, start | w.deadline == Some(start + budget) ensures LeavesMinimum(cfg, w, start) {
        LaterAttemptsLeaveMinimum(cfg, w, 1, start, start + budget);
      }
    } else {
      var takes := Later(0, budget - MAX_INT64);
      RetriedAtTheDeadline(cfg, takes, budget - takes);
      assert AsksForTheRest(takes, budget - takes).deadline == Some(0 + budget);
    }
  }

  // No delay from call n on wraps when the minimum is added to it.
  ghost predicate DelaysFit(cfg: RetryConfig, w: World, n: nat) {
    forall k: nat | n <= k && Waits(cfg, w, k) :: WaitAfter(cfg, w, k) <= LONGEST_DELAY
  }

  // Whatever was slept is shorter than the budget less 100ms.
  ghost predicate KeepsBudget(cfg: RetryConfig, w: World, start: int) {
    w.deadline.Some? ==>
      var slept := Attempts(cfg, w, 1, start).Slept();
      slept == 0 || 0 < slept < w.deadline.value - start - MIN_ATTEMPT_BUDGET
  }

  lemma WaitFitsBudget(cfg: RetryConfig, w: World, n: nat, end: int, deadline: int)
    requires 1 <= n <= cfg.attempts && w.deadline == Some(deadline)
    requires Waits(cfg, w, n) ==> WaitAfter(cfg, w, n) <= LONGEST_DELAY
    ensures var d := Decide(cfg, w, n, end);
            d.slept == 0 || 0 < d.slept < deadline - end - MIN_ATTEMPT_BUDGET
  {
    if Waits(cfg, w, n) {
      DelayBounds(cfg, n, w.call(n).draw, w.call(n).answer.err.value);
    }
  }

  lemma {:induction false} LaterSleepsFit(cfg: RetryConfig, w: World, n: nat, now: int, deadline: int)
    requires 1 <= n <= cfg.attempts && w.deadline == Some(deadline) && DelaysFit(cfg, w, n)
    ensures var slept := Attempts(cfg, w, n, now).Slept();
            slept == 0 || 0 < slept < deadline - now - MIN_ATTEMPT_BUDGET
    decreases cfg.attempts - n
  {
    hide Decide;
    var log := Attempts(cfg, w, n, now);
    WaitFitsBudget(cfg, w, n, log.made.end, deadline);
    if log.Then? {
      LaterSleepsFit(cfg, w, n + 1, log.made.end + log.made.slept, deadline);
    }
  }

  // When no delay wraps, the run sleeps less than its budget less 100ms in all,
  // whenever it starts and however long its calls take.
  lemma SleepsWithinBudget(cfg: RetryConfig, w: World, start: int)
    requires 1 <= cfg.attempts && DelaysFit(cfg, w, 1)
    ensures KeepsBudget(cfg, w, start)
  {
    if w.deadline.Some? {
      LaterSleepsFit(cfg, w, 1, start, w.deadline.value);
    }
  }

  // A delay that wraps passes the check whatever the budget, and is slept on
  // until the deadline.
  lemma WrappedDelay(cfg: RetryConfig, w: World, n: nat, now: int, budget: int)
    requires Waits(cfg, w, n) && LONGEST_DELAY < WaitAfter(cfg, w, n) <= MAX_INT64
    requires 0 < budget < WaitAfter(cfg, w, n) && w.deadline == Some(now + budget) && w.canceledAt == None
    requires w.call(n).takes == 0
    ensures Attempts(cfg, w, n, now) == One(Attempt(now, now, w.call(n).answer, budget))
  {
    assert Decide(cfg, w, n, now) == Stop(budget);
  }

  lemma NothingToWaitFor(cfg: RetryConfig, w: World, n: nat, now: int, budget: int)
    requires Waits(cfg, w, n) && WaitAfter(cfg, w, n) == 0
    requires MIN_ATTEMPT_BUDGET < budget <= LONGEST_DELAY && w.deadline == Some(now + budget)
    ensures Decide(cfg, w, n, now) == Again(0)
  {
  }

  // So too after calls that failed at once and were not waited for.
  lemma {:induction false} SleptToTheEnd(cfg: RetryConfig, w: World, n: nat, k: nat, now: int, budget: int)
    requires 1 <= n <= k && Waits(cfg, w, k) && LONGEST_DELAY < WaitAfter(cfg, w, k) <= MAX_INT64
    requires forall i | n <= i < k :: Waits(cfg, w, i) && WaitAfter(cfg, w, i) == 0
    requires forall i | n <= i <= k :: w.call(i).takes == 0
    requires MIN_ATTEMPT_BUDGET < budget <= LONGEST_DELAY
    requires w.deadline == Some(now + budget) && w.canceledAt == None
    ensures Attempts(cfg, w, n, now).Slept() == budget
    decreases k - n
  {
    hide Attempts, Decide, FailedTransiently, WaitAfter;
    if n == k {
      WrappedDelay(cfg, w, n, now, budget);
    } else {
      SleptToTheEnd(cfg, w, n + 1, k, now, budget);
      assert Waits(cfg, w, n);
      NothingToWaitFor(cfg, w, n, now, budget);
      GoesBy(cfg, w, n, now, Again(0));
    }
  }

  // A vendor that rate limits every call at once, and asks for a wait on call k.
  function RateLimiter(k: nat, wait: int, draw: nat): World {
    World(n => Call(Fail(RateLimited(if n == k then wait else 0)), 0, if n == k then draw else 0, true),
          Some(MIN_ATTEMPT_BUDGET + 1), None)
  }

  lemma RateLimiterCall(k: nat, wait: int, draw: nat, i: nat)
    ensures var c := RateLimiter(k, wait, draw).call(i);
            && c.takes == 0 && c.draw == (if i == k then draw else 0)
            && FailedTransiently(c.answer)
            && RetryAfterOf(c.answer.err.value) == Some(if i == k then wait else 0)
  {
    var asked := if i == k then wait else 0;
    RateLimitedIsTransient(asked);
    assert RateLimiter(k, wait, draw).call(i).answer == Fail(RateLimited(asked));
  }

  lemma RateLimiterDelay(cfg: RetryConfig, k: nat, wait: int, draw: nat, i: nat)
    requires 1 <= i < cfg.attempts && 0 <= wait <= MAX_INT64
    ensures var w := RateLimiter(k, wait, draw);
            && Waits(cfg, w, i)
            && WaitAfter(cfg, w, i) == if i == k then Later(Jitter(Window(cfg, k), draw), wait) else 0
  {
    hide Is, AsHttp, Window;
    RateLimiterCall(k, wait, draw, i);
  }

  lemma RateLimiterSpendsTheBudget(cfg: RetryConfig, k: nat, wait: int, draw: nat)
    requires 1 <= k < cfg.attempts && 0 <= wait <= MAX_INT64
    requires LONGEST_DELAY < wait || LONGEST_DELAY < Jitter(Window(cfg, k), draw)
    ensures !KeepsBudget(cfg, RateLimiter(k, wait, draw), 0)
  {
    hide Decide, Is, AsHttp, Attempts, FailedTransiently, WaitAfter;
    var w := RateLimiter(k, wait, draw);
    forall i | 1 <= i <= k
      ensures Waits(cfg, w, i) && w.call(i).takes == 0
      ensures WaitAfter(cfg, w, i) == if i == k then Later(Jitter(Window(cfg, k), draw), wait) else 0
    {
      RateLimiterDelay(cfg, k, wait, draw, i);
      RateLimiterCall(k, wait, draw, i);
    }
    SleptToTheEnd(cfg, w, 1, k, 0, MIN_ATTEMPT_BUDGET + 1);
  }

  // The vendor never asks for a longer wait.
  ghost predicate AsksAtMost(w: World, most: int) {
    forall k: nat | FailedTransiently(w.call(k).answer) ::
      var r := RetryAfterOf(w.call(k).answer.err.value);
      r.None? || r.value <= most
  }

  // Neither that wait nor any window a retry can draw from wraps the check.
  predicate NothingWraps(cfg: RetryConfig, most: int) {
    forall n | 1 <= n < cfg.attempts :: most <= LONGEST_DELAY && Window(cfg, n) <= LONGEST_DELAY + 1
  }

  // Every run against a vendor that asks for at most a given wait sleeps less
  // than its budget less 100ms, exactly when nothing wraps: whatever the deadline,
  // the start, the calls' lengths, the jitter and the caller's patience.
  lemma SleepsWithinBudgetExactly(cfg: RetryConfig, most: int)
    requires 1 <= cfg.attempts && 0 <= most <= MAX_INT64
    ensures (forall w, start | AsksAtMost(w, most) :: KeepsBudget(cfg, w, start)) <==> NothingWraps(cfg, most)
  {
    if !NothingWraps(cfg, most) {
      var n :| 1 <= n < cfg.attempts && (LONGEST_DELAY < most || LONGEST_DELAY + 1 < Window(cfg, n));
      var long := LONGEST_DELAY < most;
      var wait, draw := if long then most else 0, if long then 0 else Window(cfg, n) - 1;
      var w := RateLimiter(n, wait, draw);
      RateLimiterSpendsTheBudget(cfg, n, wait, draw);
      forall k: nat | FailedTransiently(w.call(k).answer)
        ensures RetryAfterOf(w.call(k).answer.err.value) == Some(if k == n then wait else 0)
      {
        RateLimiterCall(n, wait, draw, k);
      }
      assert AsksAtMost(w, most) && !KeepsBudget(cfg, w, 0);
    } else {
      forall w, start | AsksAtMost(w, most) ensures KeepsBudget(cfg, w, start) {
        SleepsWithinBudget(cfg, w, start);
      }
    }
  }

  // The same of a single 429, when nothing else wraps: the runs it starts keep
  // their budget exactly when its header does not read as too long a wait.
  lemma HeaderKeepsBudgetExactly(cfg: RetryConfig, header: string, body: Body)
    requires 2 <= cfg.attempts && Window(cfg, 1) <= LONGEST_DELAY + 1
    ensures (forall w: World, start |
               w.call(1).answer == Translate(Response(429, header, body)) && DelaysFit(cfg, w, 2) ::
               KeepsBudget(cfg, w, start))
            <==> RetryAfter(header) <= LONGEST_DELAY
  {
    hide Is, AsHttp, Attempts, KeepsBudget, RetryAfter, Window;
    var wait := RetryAfter(header);
    RateLimitedIsTransient(wait);
    if LONGEST_DELAY < wait {
      var w := RateLimiter(1, wait, 0);
      RateLimiterSpendsTheBudget(cfg, 1, wait, 0);
      assert w.call(1).answer == Translate(Response(429, header, body));
      forall k: nat | 2 <= k && Waits(cfg, w, k) ensures WaitAfter(cfg, w, k) == 0 {
        RateLimiterDelay(cfg, 1, wait, 0, k);
      }
      assert DelaysFit(cfg, w, 2) && !KeepsBudget(cfg, w, 0);
    } else {
      forall w: World, start | w.call(1).answer == Translate(Response(429, header, body)) && DelaysFit(cfg, w, 2)
        ensures KeepsBudget(cfg, w, start)
      {
        SleepsWithinBudget(cfg, w, start);
      }
    }
  }

  // A first call rate limited with such a header is slept on until the deadline,
  // and no second call is made.
  lemma WrappedWaitSpendsTheBudget(cfg: RetryConfig, w: World, start: int, budget: int, header: string, body: Body)
    requires 2 <= cfg.attempts && LONGEST_DELAY < RetryAfter(header)
    requires 0 < budget < RetryAfter(header) && w.deadline == Some(start + budget) && w.canceledAt == None
    requires w.call(1).takes == 0 && w.call(1).answer == Translate(Response(429, header, body))
    ensures Attempts(cfg, w, 1, start) == One(Attempt(start, start, w.call(1).answer, budget))
  {
    RateLimitedIsTransient(RetryAfter(header));
    WrappedDelay(cfg, w, 1, start, budget);
  }

  // One such header: its nanoseconds wrap to just under the int64 limit.
  const WRAPPING_SECONDS := 33831688342692755

  lemma WrappingHeader(secs: int)
    requires secs == WRAPPING_SECONDS
    ensures RetryAfter(IntText(secs)) == MAX_INT64 - 511 > LONGEST_DELAY
  {
    HeaderText(secs);
    WrappedSeconds(secs * SECOND);
  }

  lemma HeaderText(secs: int)
    requires 0 <= secs <= MAX_INT64
    ensures RetryAfter(IntText(secs)) == Wrap64(secs * SECOND)
  {
    ParseIntText(secs);
    assert IntText(secs) != "";
  }

  lemma WrappedSeconds(n: int)
    requires n == WRAPPING_SECONDS * SECOND
    ensures Wrap64(n) == MAX_INT64 - 511
  {
    assert n == 1834019 * TWO_64 + (MAX_INT64 - 511);
  }

  lemma RateLimitedIsTransient(wait: int)
    ensures Is(RateLimited(wait), ErrTransient) && RetryAfterOf(RateLimited(wait)) == Some(wait)
  {
    var e := Http(UpstreamUnavailable, wait, Leaf("vendor rate limited us"));
    WrapIs(ErrTransient, ErrTransient, e);
    AsHttpOfMarked(ErrTransient, e);
  }
}
