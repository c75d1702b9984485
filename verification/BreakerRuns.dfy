// What holds of every run of the circuit breaker, under any interleaving of
// calls: the window, the way it opens, the wait it asks for, and its recovery.
module BreakerRuns {
  import opened Arith
  import opened Breaker

  // ------------------------------------------------------- the invariant

  // The circuit did not trip on any prefix of the history.
  ghost predicate NeverTripped(cfg: Config, history: seq<bool>) {
    forall k | 0 <= k <= |history| :: !Trips(cfg, LastOf(history[..k], cfg.window))
  }

  ghost predicate CallsAccounted(s: System) {
    && s.f.inFlight == |s.calls|
    && forall id | id in s.calls :: id < s.nextId && s.calls[id].at <= s.now && s.calls[id].phase <= s.phase
  }

  // The truncated window is the recent end of the full history while closed,
  // and empty otherwise.
  ghost predicate WindowRefines(cfg: Config, s: System) {
    if s.f.state.Closed? then s.f.outcomes == LastOf(s.history, cfg.window) && NeverTripped(cfg, s.history)
    else s.f.outcomes == [] && s.history == []
  }

  ghost predicate SuccessesBounded(cfg: Config, s: System) {
    0 <= s.f.successes && (if s.f.state.HalfOpen? then s.f.successes < cfg.probes else s.f.successes == 0)
  }

  // Nothing was admitted since the circuit opened.
  ghost predicate ShutSinceOpening(s: System) {
    s.f.state.Open? ==> s.f.openedAt <= s.now && forall id | id in s.calls :: s.calls[id].at <= s.f.openedAt
  }

  ghost predicate Inv(cfg: Config, s: System) {
    CallsAccounted(s) && WindowRefines(cfg, s) && SuccessesBounded(cfg, s) && ShutSinceOpening(s)
  }

  lemma LastOfExtended(h: seq<bool>, k: nat, x: bool)
    ensures LastOf(LastOf(h, k) + [x], k) == LastOf(h + [x], k)
  {
  }

  lemma NeverTrippedExtended(cfg: Config, h: seq<bool>, x: bool)
    requires NeverTripped(cfg, h) && !Trips(cfg, LastOf(h + [x], cfg.window))
    ensures NeverTripped(cfg, h + [x])
  {
    forall k | 0 <= k <= |h + [x]| ensures !Trips(cfg, LastOf((h + [x])[..k], cfg.window)) {
      if k <= |h| {
        assert (h + [x])[..k] == h[..k];
      } else {
        assert (h + [x])[..k] == h + [x];
      }
    }
  }

  lemma ArrivalKeeps(cfg: Config, s: System, at: int)
    requires 1 <= cfg.probes && Inv(cfg, s) && s.now <= at
    ensures Inv(cfg, Step(cfg, s, Arrive(at)))
  {
    var t := Step(cfg, s, Arrive(at));
    if VerdictOn(cfg, s.f, at).Admitted? {
      assert s.nextId !in s.calls;
      assert |t.calls| == |s.calls| + 1;
    }
  }

  lemma FinishKeeps(cfg: Config, s: System, at: int, id: nat, o: Outcome)
    requires 1 <= cfg.probes && Inv(cfg, s) && Enabled(s, Finish(at, id, o))
    ensures Inv(cfg, Step(cfg, s, Finish(at, id, o)))
  {
    var t := Step(cfg, s, Finish(at, id, o));
    CallRemoved(s.calls, id);
    assert CallsAccounted(t);
    if s.f.state.Closed? && !o.Fault? {
      LastOfExtended(s.history, cfg.window, o.Failure?);
      if t.f.state.Closed? {
        NeverTrippedExtended(cfg, s.history, o.Failure?);
      }
    }
    assert NeverTripped(cfg, []);
  }

  lemma CallRemoved(calls: map<nat, Admission>, id: nat)
    requires id in calls
    ensures |calls - {id}| == |calls| - 1
  {
    var rest := calls - {id};
    assert rest.Keys == calls.Keys - {id};
    assert |rest.Keys| == |rest| && |calls.Keys| == |calls|;
  }

  lemma StepKeeps(cfg: Config, s: System, e: Event)
    requires 1 <= cfg.probes && Inv(cfg, s) && Enabled(s, e)
    ensures Inv(cfg, Step(cfg, s, e))
  {
    match e
    case Arrive(at) => ArrivalKeeps(cfg, s, at);
    case Finish(at, id, o) => FinishKeeps(cfg, s, at, id, o);
  }

  lemma {:induction false} RunKeeps(cfg: Config, s: System, es: seq<Event>)
    requires 1 <= cfg.probes && Inv(cfg, s) && Legal(cfg, s, es)
    ensures Inv(cfg, Run(cfg, s, es))
    decreases |es|
  {
    if es != [] {
      StepKeeps(cfg, s, es[0]);
      RunKeeps(cfg, Step(cfg, s, es[0]), es[1..]);
    }
  }

  // Every reachable state: in-flight calls are exactly the outstanding ones,
  // the window is the end of the history, and nothing got in since an opening.
  lemma EveryRun(cfg: Config, es: seq<Event>)
    requires 1 <= cfg.probes && Legal(cfg, START, es)
    ensures Inv(cfg, Run(cfg, START, es))
  {
    RunKeeps(cfg, START, es);
  }

  // So in every reachable closed state the window is, place by place, the end of
  // the history.
  lemma WindowIsRecent(cfg: Config, es: seq<Event>)
    requires 1 <= cfg.probes && Legal(cfg, START, es)
    ensures var s := Run(cfg, START, es);
            var n := |s.f.outcomes|;
            s.f.state.Closed? ==>
              && n == (if |s.history| < cfg.window then |s.history| else cfg.window)
              && forall i | 0 <= i < n :: s.f.outcomes[i] == s.history[|s.history| - n + i]
  {
    EveryRun(cfg, es);
  }

  // And so every breaker object that was only ever used through its methods.
  lemma EveryBreaker(b: Breaker)
    requires b.Valid() && 1 <= b.cfg.probes
    ensures Inv(b.cfg, b.Reached())
    ensures b.inFlight == |b.Reached().calls|
  {
    EveryRun(b.cfg, b.trace);
  }

  // ---------------------------------------------------- the full history

  lemma StepMonotone(cfg: Config, s: System, e: Event)
    requires Enabled(s, e)
    ensures s.now <= Step(cfg, s, e).now == e.at && s.phase <= Step(cfg, s, e).phase
    ensures Step(cfg, s, e).phase == s.phase <==> Step(cfg, s, e).f.state == s.f.state
  {
  }

  lemma {:induction false} RunMonotone(cfg: Config, s: System, es: seq<Event>)
    requires Legal(cfg, s, es)
    ensures s.now <= Run(cfg, s, es).now && s.phase <= Run(cfg, s, es).phase
    decreases |es|
  {
    if es != [] {
      StepMonotone(cfg, s, es[0]);
      RunMonotone(cfg, Step(cfg, s, es[0]), es[1..]);
    }
  }

  // What an event records: a non-fault outcome, true for a failure.
  function RecordedBy(e: Event): seq<bool> {
    if e.Finish? && !e.outcome.Fault? then [e.outcome.Failure?] else []
  }

  function Recorded(es: seq<Event>): seq<bool>
    decreases |es|
  {
    if es == [] then [] else RecordedBy(es[0]) + Recorded(es[1..])
  }

  lemma HistoryStep(cfg: Config, s: System, e: Event)
    requires s.f.state.Closed? && Enabled(s, e) && Step(cfg, s, e).phase == s.phase
    ensures Step(cfg, s, e).f.state.Closed? && Step(cfg, s, e).history == s.history + RecordedBy(e)
  {
  }

  // Within one closed period the history is what the events recorded.
  lemma {:induction false} HistoryIsRecorded(cfg: Config, s: System, es: seq<Event>)
    requires s.f.state.Closed? && Legal(cfg, s, es) && Run(cfg, s, es).phase == s.phase
    ensures Run(cfg, s, es).f.state.Closed? && Run(cfg, s, es).history == s.history + Recorded(es)
    decreases |es|
  {
    if es == [] {
      assert s.history + [] == s.history;
    } else {
      var t := Step(cfg, s, es[0]);
      StepMonotone(cfg, s, es[0]);
      RunMonotone(cfg, t, es[1..]);
      HistoryStep(cfg, s, es[0]);
      HistoryIsRecorded(cfg, t, es[1..]);
      Associate(s.history, RecordedBy(es[0]), Recorded(es[1..]));
    }
  }

  // ------------------------------------------------- opening from closed

  // Where the outcomes from a place on are failures.
  function FailedFrom(h: seq<bool>, from: nat): set<nat> {
    set i: nat | from <= i < |h| && h[i]
  }

  lemma {:induction false} FailuresCounted(h: seq<bool>, from: nat)
    requires from <= |h|
    ensures Failures(h[from..]) == |FailedFrom(h, from)|
    decreases |h|
  {
    if from == |h| {
      assert FailedFrom(h, from) == {};
    } else {
      var n := |h| - 1;
      FailuresCounted(h[..n], from);
      assert h[from..][..|h[from..]| - 1] == h[..n][from..];
      assert FailedFrom(h, from) == FailedFrom(h[..n], from) + if h[n] then {n} else {};
    }
  }

  // The threshold test over the recent end of a history: enough outcomes, and
  // the fraction of failures among them at or above num/den.
  ghost predicate RecentlyFailing(cfg: Config, h: seq<bool>) {
    var n := if |h| < cfg.window then |h| else cfg.window;
    cfg.minSamples <= n && 0 < n && |FailedFrom(h, |h| - n)| * cfg.den >= cfg.num * n
  }

  lemma TripsExactly(cfg: Config, h: seq<bool>)
    ensures Trips(cfg, LastOf(h, cfg.window)) <==> RecentlyFailing(cfg, h)
  {
    var n := if |h| < cfg.window then |h| else cfg.window;
    assert LastOf(h, cfg.window) == h[|h| - n..];
    FailuresCounted(h, |h| - n);
  }

  // From closed, a record opens the circuit exactly when the trip predicate
  // holds of the window over the full history, that is when enough of the most
  // recent outcomes recorded failed; no record had tripped before.
  lemma OpensExactlyOnTrip(cfg: Config, s: System, at: int, id: nat, o: Outcome)
    requires Inv(cfg, s) && s.f.state.Closed? && Enabled(s, Finish(at, id, o))
    ensures Step(cfg, s, Finish(at, id, o)).f.state ==
            if !o.Fault? && Trips(cfg, LastOf(s.history + [o.Failure?], cfg.window)) then Open else Closed
    ensures Step(cfg, s, Finish(at, id, o)).f.state ==
            if !o.Fault? && RecentlyFailing(cfg, s.history + [o.Failure?]) then Open else Closed
    ensures forall k | 0 <= k <= |s.history| :: !RecentlyFailing(cfg, s.history[..k])
  {
    TripsExactly(cfg, s.history + [o.Failure?]);
    forall k | 0 <= k <= |s.history| ensures !RecentlyFailing(cfg, s.history[..k]) {
      TripsExactly(cfg, s.history[..k]);
    }
    LastOfExtended(s.history, cfg.window, o.Failure?);
  }

  lemma {:induction false} FailuresJoined(a: seq<bool>, b: seq<bool>)
    ensures Failures(a + b) == Failures(a) + Failures(b)
    decreases |b|
  {
    if b == [] {
      assert a + b == a;
    } else {
      assert (a + b)[..|a + b| - 1] == a + b[..|b| - 1];
      FailuresJoined(a, b[..|b| - 1]);
    }
  }

  // The end of a sequence holds no more failures than the whole.
  lemma FailuresOfLast(s: seq<bool>, k: nat)
    ensures Failures(LastOf(s, k)) <= Failures(s)
  {
    if k < |s| {
      FailuresJoined(s[..|s| - k], s[|s| - k..]);
      assert s[..|s| - k] + s[|s| - k..] == s;
    }
  }

  lemma FractionBelow(f: nat, g: nat, den: nat, num: nat, m: nat, n: nat)
    requires g <= f && m <= n && f * den < num * m
    ensures g * den < num * n
  {
    assert (f - g) * den >= 0 && num * (n - m) >= 0;
  }

  // A success cannot push a window that did not trip over the threshold.
  lemma SuccessKeepsUntripped(cfg: Config, h: seq<bool>)
    requires 1 <= cfg.minSamples <= cfg.window && cfg.minSamples <= |h| && !Trips(cfg, LastOf(h, cfg.window))
    ensures !Trips(cfg, LastOf(h + [false], cfg.window))
  {
    var w := LastOf(h, cfg.window);
    LastOfExtended(h, cfg.window, false);
    FailuresJoined(w, [false]);
    assert [false][..0] == [];
    FailuresOfLast(w + [false], cfg.window);
    var v := LastOf(w + [false], cfg.window);
    FractionBelow(Failures(w), Failures(v), cfg.den, cfg.num, |w|, |v|);
  }

  // A success opens the circuit exactly when it is the MinSamples-th outcome of
  // the closed period and the failures before it already reach the threshold.
  lemma SuccessOpensOnlyAtMinSamples(cfg: Config, s: System, at: int, id: nat)
    requires cfg.Sane() && Inv(cfg, s) && s.f.state.Closed? && Enabled(s, Finish(at, id, Success))
    ensures Step(cfg, s, Finish(at, id, Success)).f.state.Open? <==>
            |s.history| + 1 == cfg.minSamples && Failures(s.history) * cfg.den >= cfg.num * cfg.minSamples
  {
    var h := s.history;
    OpensExactlyOnTrip(cfg, s, at, id, Success);
    if cfg.minSamples <= |h| {
      assert h[..|h|] == h;
      SuccessKeepsUntripped(cfg, h);
    } else {
      FailuresJoined(h, [false]);
      assert [false][..0] == [];
    }
  }

  // A closed circuit never sits out a whole window of failures: among any
  // `window` consecutive outcomes recorded within a closed period, one was a
  // success.
  lemma NoFailingWindow(cfg: Config, pre: seq<Event>, es: seq<Event>, from: nat)
    requires cfg.Sane() && Legal(cfg, START, pre + es)
    requires Run(cfg, START, pre).f.state.Closed? && Run(cfg, START, pre + es).phase == Run(cfg, START, pre).phase
    requires from + cfg.window <= |Recorded(es)|
    ensures exists i :: from <= i < from + cfg.window && !Recorded(es)[i]
  {
    var s := Run(cfg, START, pre);
    RunJoined(cfg, START, pre, es);
    hide Legal, Run, Trips, LastOf;
    HistoryIsRecorded(cfg, s, es);
    EveryRun(cfg, pre + es);
    var h := Run(cfg, START, pre + es).history;
    assert h == s.history + Recorded(es);
    var start := |s.history| + from;
    var i := RecentSuccess(cfg, h[..start + cfg.window]);
    assert h[i] == Recorded(es)[i - |s.history|];
  }

  lemma RecentSuccess(cfg: Config, h: seq<bool>) returns (i: nat)
    requires cfg.Sane() && cfg.window <= |h| && !Trips(cfg, LastOf(h, cfg.window))
    ensures |h| - cfg.window <= i < |h| && !h[i]
  {
    TripsExactly(cfg, h);
    var start := |h| - cfg.window;
    if forall i | start <= i < |h| :: h[i] {
      AllFailed(h, start);
      MulOrder(cfg.num, cfg.den, cfg.window);
      assert false;
    }
    i :| start <= i < |h| && !h[i];
  }

  lemma {:induction false} AllFailed(h: seq<bool>, from: nat)
    requires from <= |h| && forall i | from <= i < |h| :: h[i]
    ensures |FailedFrom(h, from)| == |h| - from
    decreases |h|
  {
    if from == |h| {
      assert FailedFrom(h, from) == {};
    } else {
      var n := |h| - 1;
      AllFailed(h[..n], from);
      assert FailedFrom(h, from) == FailedFrom(h[..n], from) + {n};
    }
  }

  // Every opening from closed has at least Threshold * MinSamples failures
  // recorded since the circuit last closed.
  lemma OpeningNeedsFailures(cfg: Config, s: System, at: int, id: nat, o: Outcome)
    requires Inv(cfg, s) && s.f.state.Closed? && Enabled(s, Finish(at, id, o))
    requires Step(cfg, s, Finish(at, id, o)).f.state.Open?
    ensures !o.Fault? && Failures(s.history + [o.Failure?]) * cfg.den >= cfg.num * cfg.minSamples
  {
    OpensExactlyOnTrip(cfg, s, at, id, o);
    var h := s.history + [o.Failure?];
    FailuresOfLast(h, cfg.window);
    var w := LastOf(h, cfg.window);
    if Failures(h) * cfg.den < cfg.num * cfg.minSamples {
      FractionBelow(Failures(h), Failures(w), cfg.den, cfg.num, cfg.minSamples, |w|);
    }
  }

  // ------------------------------------------------- while it is open

  // An open circuit stays the same open period until its time is up.
  lemma {:induction false} StaysOpen(cfg: Config, s: System, es: seq<Event>)
    requires s.f.state.Open? && Legal(cfg, s, es)
    requires Run(cfg, s, es).now < s.f.openedAt + cfg.openFor
    ensures var t := Run(cfg, s, es);
            t.f.state.Open? && t.f.openedAt == s.f.openedAt && t.phase == s.phase && t.nextId == s.nextId
    decreases |es|
  {
    if es != [] {
      var t := Step(cfg, s, es[0]);
      StepMonotone(cfg, s, es[0]);
      RunMonotone(cfg, t, es[1..]);
      StaysOpen(cfg, t, es[1..]);
    }
  }

  // In any interleaving, nothing is admitted from an opening until OpenFor
  // later, and each rejection says how long is left.
  lemma NothingAdmittedWhileOpen(cfg: Config, pre: seq<Event>, e: Event, mid: seq<Event>, at: int)
    requires Legal(cfg, START, pre + [e] + mid + [Arrive(at)])
    requires var s := Run(cfg, START, pre);
             !s.f.state.Open? && Step(cfg, s, e).f.state.Open?
    requires at < e.at + cfg.openFor
    ensures var t := Run(cfg, START, pre + [e] + mid);
            VerdictOn(cfg, t.f, at) == Rejected(e.at + cfg.openFor - at)
    ensures Run(cfg, START, pre + [e] + mid + [Arrive(at)]).nextId == Run(cfg, START, pre + [e]).nextId
  {
    RunExtended(cfg, START, pre, e);
    RunJoined(cfg, START, pre + [e], mid);
    RunExtended(cfg, START, pre + [e] + mid, Arrive(at));
    StaysOpen(cfg, Run(cfg, START, pre + [e]), mid);
  }

  // Every rejection asks for a positive wait of at most OpenFor.
  lemma WaitIsBounded(cfg: Config, es: seq<Event>, at: int)
    requires 0 < cfg.openFor && 1 <= cfg.probes && Legal(cfg, START, es + [Arrive(at)])
    ensures var verdict := VerdictOn(cfg, Run(cfg, START, es).f, at);
            verdict.Rejected? ==> 0 < verdict.wait <= cfg.openFor
  {
    RunExtended(cfg, START, es, Arrive(at));
    EveryRun(cfg, es);
  }

  // An open period is one phase, with one opening time.
  lemma {:induction false} SamePhaseSameOpening(cfg: Config, s: System, es: seq<Event>)
    requires Legal(cfg, s, es) && Run(cfg, s, es).phase == s.phase
    ensures Run(cfg, s, es).f.state == s.f.state && Run(cfg, s, es).f.openedAt == s.f.openedAt
    decreases |es|
  {
    if es != [] {
      StepMonotone(cfg, s, es[0]);
      RunMonotone(cfg, Step(cfg, s, es[0]), es[1..]);
      SamePhaseSameOpening(cfg, Step(cfg, s, es[0]), es[1..]);
    }
  }

  // A caller turned away by an open circuit who waits as long as it was told is
  // not turned away by that same open period again.
  lemma WaitingIsEnough(cfg: Config, s: System, at: int, es: seq<Event>, later: int)
    requires s.f.state.Open? && s.now <= at && at - s.f.openedAt < cfg.openFor
    requires Legal(cfg, Step(cfg, s, Arrive(at)), es)
    requires later >= at + VerdictOn(cfg, s.f, at).wait
    ensures var t := Run(cfg, Step(cfg, s, Arrive(at)), es);
            t.f.state.Open? && later - t.f.openedAt < cfg.openFor ==> t.phase != s.phase
  {
    var r := Step(cfg, s, Arrive(at));
    if Run(cfg, r, es).phase == s.phase {
      SamePhaseSameOpening(cfg, r, es);
    }
  }

  // ------------------------------------------------------------- recovery

  // Half-open never wedges: the next request is let through, or some admitted
  // call is still to report.
  lemma HalfOpenNeverWedges(cfg: Config, es: seq<Event>, at: int)
    requires 1 <= cfg.probes && Legal(cfg, START, es)
    ensures var s := Run(cfg, START, es);
            s.f.state.HalfOpen? ==> VerdictOn(cfg, s.f, at).Admitted? || s.calls != map[]
  {
    EveryRun(cfg, es);
  }

  // What an arrival meets, in any reachable state: a closed circuit admits it;
  // an open one turns it away until OpenFor has passed and is half-open from
  // then on, with no successes yet; half-open admits it if a slot is free.
  lemma ArrivalExactly(cfg: Config, es: seq<Event>, at: int)
    requires 1 <= cfg.probes && Legal(cfg, START, es + [Arrive(at)])
    ensures var s, t := Run(cfg, START, es), Run(cfg, START, es + [Arrive(at)]);
            var early := s.f.state.Open? && at < s.f.openedAt + cfg.openFor;
            var admitted := s.f.state.Closed? || (!early && |s.calls| < cfg.probes);
            && t.f.state == (if s.f.state.Closed? then Closed else if early then Open else HalfOpen)
            && VerdictOn(cfg, s.f, at) ==
               (if admitted then Admitted
                else if early then Rejected(s.f.openedAt + cfg.openFor - at)
                else Rejected(cfg.openFor))
            && t.calls.Keys == s.calls.Keys + (if admitted then {s.nextId} else {})
            && t.f.inFlight == s.f.inFlight + (if admitted then 1 else 0)
            && t.f.openedAt == s.f.openedAt && t.f.outcomes == s.f.outcomes
            && t.f.successes == (if s.f.state.Open? then 0 else s.f.successes)
  {
    RunExtended(cfg, START, es, Arrive(at));
    EveryRun(cfg, es);
  }

  // A fault, and any outcome while open, frees its slot and changes nothing else.
  lemma OutcomeIgnored(cfg: Config, s: System, at: int, id: nat, o: Outcome)
    requires Enabled(s, Finish(at, id, o)) && (o.Fault? || s.f.state.Open?)
    ensures Step(cfg, s, Finish(at, id, o)).f == s.f.(inFlight := s.f.inFlight - 1)
  {
  }

  // How the state can change: only a record opens or closes the circuit, only an
  // arrival after OpenFor makes it half-open, and it closes only from there.
  lemma TransitionsExactly(cfg: Config, es: seq<Event>, e: Event)
    requires 1 <= cfg.probes && Legal(cfg, START, es + [e])
    ensures var s, t := Run(cfg, START, es).f, Run(cfg, START, es + [e]).f;
            match s.state
            case Closed =>
              !t.state.HalfOpen? && (t.state.Open? ==> e.Finish? && !e.outcome.Fault? && t.openedAt == e.at)
            case Open =>
              !t.state.Closed? && (t.state.HalfOpen? <==> e.Arrive? && s.openedAt + cfg.openFor <= e.at)
            case HalfOpen =>
              && (t.state.Open? <==> e.Finish? && e.outcome.Failure?) && (t.state.Open? ==> t.openedAt == e.at)
              && (t.state.Closed? ==> e.Finish? && e.outcome.Success?)
  {
    RunExtended(cfg, START, es, e);
  }

  // A half-open episode: the step into it, and what has happened in it since.
  ghost predicate Episode(cfg: Config, pre: seq<Event>, turn: Event, mid: seq<Event>) {
    && Legal(cfg, START, pre + [turn] + mid)
    && !Run(cfg, START, pre).f.state.HalfOpen? && Run(cfg, START, pre + [turn]).f.state.HalfOpen?
    && Run(cfg, START, pre + [turn] + mid).phase == Run(cfg, START, pre + [turn]).phase
  }

  // Within one phase, the counters count the events.
  lemma {:induction false} PhaseCounts(cfg: Config, s: System, es: seq<Event>)
    requires s.f.state.HalfOpen? && Legal(cfg, s, es) && Run(cfg, s, es).phase == s.phase
    ensures var t := Run(cfg, s, es);
            && t.f.state.HalfOpen? && NoFailure(es)
            && t.f.successes == s.f.successes + Successes(es)
            && t.faults == s.faults + Faults(es)
            && t.admitted - s.admitted == t.nextId - s.nextId
    decreases |es|
  {
    if es != [] {
      var t := Step(cfg, s, es[0]);
      StepMonotone(cfg, s, es[0]);
      RunMonotone(cfg, t, es[1..]);
      PhaseCounts(cfg, t, es[1..]);
    }
  }

  lemma EpisodeJoined(cfg: Config, pre: seq<Event>, turn: Event, mid: seq<Event>)
    requires Episode(cfg, pre, turn, mid)
    ensures Legal(cfg, START, pre + [turn]) && Legal(cfg, Run(cfg, START, pre + [turn]), mid)
    ensures Run(cfg, START, pre + [turn] + mid) == Run(cfg, Run(cfg, START, pre + [turn]), mid)
    ensures Enabled(Run(cfg, START, pre), turn)
    ensures Run(cfg, START, pre + [turn]) == Step(cfg, Run(cfg, START, pre), turn)
  {
    RunJoined(cfg, START, pre + [turn], mid);
    RunExtended(cfg, START, pre, turn);
  }

  // What ends an episode, over all of it: its first failure reopens the circuit,
  // its Probes-th success closes it, and nothing else ends it.
  lemma EpisodeExactly(cfg: Config, pre: seq<Event>, turn: Event, mid: seq<Event>, e: Event)
    requires 1 <= cfg.probes && Episode(cfg, pre, turn, mid) && Legal(cfg, START, pre + [turn] + mid + [e])
    ensures NoFailure(mid) && Successes(mid) < cfg.probes
    ensures Run(cfg, START, pre + [turn] + mid + [e]).f.state ==
            if e.Finish? && e.outcome.Failure? then Open
            else if e.Finish? && e.outcome.Success? && Successes(mid) + 1 == cfg.probes then Closed
            else HalfOpen
  {
    hide Run, Legal, Step, Episode;
    EpisodeCounts(cfg, pre, turn, mid);
    RunExtended(cfg, START, pre + [turn] + mid, e);
    HalfOpenStep(cfg, Run(cfg, START, pre + [turn] + mid), e);
  }

  // So far into an episode, its successes are the events', and none has failed.
  lemma EpisodeCounts(cfg: Config, pre: seq<Event>, turn: Event, mid: seq<Event>)
    requires 1 <= cfg.probes && Episode(cfg, pre, turn, mid)
    ensures var s := Run(cfg, START, pre + [turn] + mid);
            s.f.state.HalfOpen? && s.f.successes == Successes(mid) < cfg.probes && NoFailure(mid)
  {
    hide Step, Legal, Enabled;
    EpisodeJoined(cfg, pre, turn, mid);
    EpisodeBegins(cfg, pre, turn);
    PhaseCounts(cfg, Run(cfg, START, pre + [turn]), mid);
    EveryRun(cfg, pre + [turn] + mid);
  }

  lemma EpisodeBegins(cfg: Config, pre: seq<Event>, turn: Event)
    requires Legal(cfg, START, pre + [turn])
    requires !Run(cfg, START, pre).f.state.HalfOpen? && Run(cfg, START, pre + [turn]).f.state.HalfOpen?
    ensures var s := Run(cfg, START, pre + [turn]);
            s.f.successes == 0 && s.faults == 0 && s.admitted == s.nextId - Run(cfg, START, pre).nextId
  {
    RunExtended(cfg, START, pre, turn);
  }

  lemma HalfOpenStep(cfg: Config, s: System, e: Event)
    requires s.f.state.HalfOpen? && s.f.successes < cfg.probes
    ensures Step(cfg, s, e).f.state ==
            if e.Finish? && e.outcome.Failure? then Open
            else if e.Finish? && e.outcome.Success? && s.f.successes + 1 == cfg.probes then Closed
            else HalfOpen
  {
  }

  // Every half-open state is in some episode.
  lemma {:induction false} EpisodeOf(cfg: Config, es: seq<Event>)
    returns (pre: seq<Event>, turn: Event, mid: seq<Event>)
    requires Legal(cfg, START, es) && Run(cfg, START, es).f.state.HalfOpen?
    ensures es == pre + [turn] + mid && Episode(cfg, pre, turn, mid)
    decreases |es|
  {
    var init, e := es[..|es| - 1], es[|es| - 1];
    assert es == init + [e];
    RunExtended(cfg, START, init, e);
    if Run(cfg, START, init).f.state.HalfOpen? {
      pre, turn, mid := EpisodeOf(cfg, init);
      assert pre + [turn] + mid + [e] == pre + [turn] + (mid + [e]);
      mid := mid + [e];
    } else {
      pre, turn, mid := init, e, [];
      assert pre + [turn] + [] == pre + [turn];
    }
  }

  // Every close of the circuit is the Probes-th success of one half-open episode
  // without a failure, which an arrival at least OpenFor after an opening began.
  lemma ClosedByProbes(cfg: Config, es: seq<Event>, e: Event)
    returns (pre: seq<Event>, turn: Event, mid: seq<Event>)
    requires 1 <= cfg.probes && Legal(cfg, START, es + [e])
    requires !Run(cfg, START, es).f.state.Closed? && Run(cfg, START, es + [e]).f.state.Closed?
    ensures es == pre + [turn] + mid && Episode(cfg, pre, turn, mid)
    ensures Run(cfg, START, pre).f.state.Open? && turn.Arrive?
    ensures Run(cfg, START, pre).f.openedAt + cfg.openFor <= turn.at
    ensures e.Finish? && e.outcome.Success? && NoFailure(mid) && Successes(mid) + 1 == cfg.probes
  {
    TransitionsExactly(cfg, es, e);
    RunExtended(cfg, START, es, e);
    pre, turn, mid := EpisodeOf(cfg, es);
    EpisodeExactly(cfg, pre, turn, mid, e);
    EpisodeJoined(cfg, pre, turn, mid);
    TransitionsExactly(cfg, pre, turn);
  }

  // The outstanding calls admitted in the current phase.
  function Own(s: System): set<nat> {
    set id | id in s.calls && s.calls[id].phase == s.phase
  }

  // An episode's own calls hold at most all the slots, and every admission is
  // still outstanding or was followed by an outcome counted in the episode.
  ghost predicate AdmissionsAccounted(cfg: Config, s: System) {
    s.f.state.HalfOpen? ==> |Own(s)| <= cfg.probes && s.admitted <= |Own(s)| + s.f.successes + s.faults
  }

  lemma OwnAreOutstanding(s: System)
    ensures |Own(s)| <= |s.calls|
  {
    SubsetSize(Own(s), s.calls.Keys);
    assert |s.calls.Keys| == |s.calls|;
  }

  lemma SubsetSize(a: set<nat>, b: set<nat>)
    requires a <= b
    ensures |a| <= |b|
  {
    assert b == a + (b - a);
  }

  lemma AdmissionAccounted(cfg: Config, s: System, at: int)
    requires 1 <= cfg.probes && Inv(cfg, s) && AdmissionsAccounted(cfg, s) && s.now <= at
    ensures AdmissionsAccounted(cfg, Step(cfg, s, Arrive(at)))
  {
    hide WindowRefines, SuccessesBounded, ShutSinceOpening, Step, Own, VerdictOn;
    OwnAreOutstanding(s);
    OwnAfterArrival(cfg, s, at);
    ArrivalCounted(cfg, s, at);
  }

  // An episode starts with no call of its own, and each admission adds one.
  lemma OwnAfterArrival(cfg: Config, s: System, at: int)
    requires CallsAccounted(s)
    ensures s.nextId !in Own(s)
    ensures var t := Step(cfg, s, Arrive(at));
            var before := if t.phase == s.phase then Own(s) else {};
            Own(t) == if VerdictOn(cfg, s.f, at).Admitted? then before + {s.nextId} else before
  {
    hide AfterReject, VerdictOn;
    var t := Step(cfg, s, Arrive(at));
    var admission := Admission(at, t.phase);
    assert t.calls == if VerdictOn(cfg, s.f, at).Admitted? then s.calls[s.nextId := admission] else s.calls;
  }

  lemma ArrivalCounted(cfg: Config, s: System, at: int)
    requires Inv(cfg, s)
    ensures |s.calls| == s.f.inFlight
    ensures var t := Step(cfg, s, Arrive(at));
            t.f.state.HalfOpen? ==>
              && t.f.successes == (if t.phase == s.phase then s.f.successes else 0)
              && (t.phase == s.phase <==> s.f.state.HalfOpen?) && (t.phase == s.phase ==> t.faults == s.faults)
              && t.admitted == (if t.phase == s.phase then s.admitted else 0)
                               + (if VerdictOn(cfg, s.f, at).Admitted? then 1 else 0)
              && (VerdictOn(cfg, s.f, at).Admitted? && t.phase == s.phase ==> s.f.inFlight < cfg.probes)
  {
  }

  lemma OutcomeAccounted(cfg: Config, s: System, at: int, id: nat, o: Outcome)
    requires 1 <= cfg.probes && Inv(cfg, s) && AdmissionsAccounted(cfg, s) && Enabled(s, Finish(at, id, o))
    ensures AdmissionsAccounted(cfg, Step(cfg, s, Finish(at, id, o)))
  {
    var t := Step(cfg, s, Finish(at, id, o));
    if t.f.state.HalfOpen? {
      assert Own(t) == Own(s) - {id};
      SubsetSize(Own(t), Own(s));
    }
  }

  lemma {:induction false} RunAccounted(cfg: Config, s: System, es: seq<Event>)
    requires 1 <= cfg.probes && Inv(cfg, s) && AdmissionsAccounted(cfg, s) && Legal(cfg, s, es)
    ensures AdmissionsAccounted(cfg, Run(cfg, s, es))
    decreases |es|
  {
    if es != [] {
      match es[0] {
        case Arrive(at) => AdmissionAccounted(cfg, s, at);
        case Finish(at, id, o) => OutcomeAccounted(cfg, s, at, id, o);
      }
      StepKeeps(cfg, s, es[0]);
      RunAccounted(cfg, Step(cfg, s, es[0]), es[1..]);
    }
  }

  // Under any interleaving, however long calls take, one half-open episode
  // admits at most 2 * Probes - 1 calls and one more for each request fault.
  lemma EpisodeAdmissions(cfg: Config, es: seq<Event>)
    requires 1 <= cfg.probes && Legal(cfg, START, es)
    ensures var s := Run(cfg, START, es);
            s.f.state.HalfOpen? ==> s.admitted <= 2 * cfg.probes - 1 + s.faults
  {
    RunAccounted(cfg, START, es);
    EveryRun(cfg, es);
  }

  // Counted from the events: the calls admitted since the circuit was last not
  // half-open.
  lemma EpisodeAdmitsAtMost(cfg: Config, pre: seq<Event>, turn: Event, mid: seq<Event>)
    requires 1 <= cfg.probes && Episode(cfg, pre, turn, mid)
    ensures Run(cfg, START, pre + [turn] + mid).nextId - Run(cfg, START, pre).nextId
            <= 2 * cfg.probes - 1 + Faults(mid)
  {
    hide Step, Legal, Enabled;
    EpisodeJoined(cfg, pre, turn, mid);
    EpisodeBegins(cfg, pre, turn);
    PhaseCounts(cfg, Run(cfg, START, pre + [turn]), mid);
    EpisodeAdmissions(cfg, pre + [turn] + mid);
  }

  // Finished successes in a run.
  function Successes(es: seq<Event>): nat
    decreases |es|
  {
    if es == [] then 0 else (if es[0].Finish? && es[0].outcome.Success? then 1 else 0) + Successes(es[1..])
  }

  // Request faults in a run.
  function Faults(es: seq<Event>): nat
    decreases |es|
  {
    if es == [] then 0 else (if es[0].Finish? && es[0].outcome.Fault? then 1 else 0) + Faults(es[1..])
  }

  predicate NoFailure(es: seq<Event>) {
    forall i | 0 <= i < |es| :: !(es[i].Finish? && es[i].outcome.Failure?)
  }

  // Without a failure, half-open counts each success until the last one wanted.
  lemma {:induction false} HalfOpenCounts(cfg: Config, s: System, es: seq<Event>)
    requires s.f.state.HalfOpen? && Legal(cfg, s, es) && NoFailure(es)
    requires s.f.successes + Successes(es) < cfg.probes
    ensures var t := Run(cfg, s, es);
            t.f.state.HalfOpen? && t.phase == s.phase && t.f.successes == s.f.successes + Successes(es)
    decreases |es|
  {
    if es != [] {
      HalfOpenCounts(cfg, Step(cfg, s, es[0]), es[1..]);
    }
  }

  // It closes at exactly the (Probes - successes)-th success.
  lemma ClosesAfterProbes(cfg: Config, s: System, es: seq<Event>, at: int, id: nat)
    requires s.f.state.HalfOpen? && Legal(cfg, s, es + [Finish(at, id, Success)]) && NoFailure(es)
    requires s.f.successes + Successes(es) + 1 == cfg.probes
    ensures Run(cfg, s, es).f.state.HalfOpen?
    ensures var t := Run(cfg, s, es + [Finish(at, id, Success)]);
            t.f.state.Closed? && t.f.outcomes == [] && t.f.successes == 0
  {
    RunExtended(cfg, s, es, Finish(at, id, Success));
    HalfOpenCounts(cfg, s, es);
  }
}
