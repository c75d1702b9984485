// The circuit breaker when every admitted call reports within a budget: no call
// from before an opening can then speak for a later half-open episode.
module BreakerDrain {
  import opened Breaker
  import opened BreakerRuns

  // Every call still outstanding at an event was admitted at most `budget`
  // before it; so each reports within the budget.
  ghost predicate Prompt(budget: int, s: System, e: Event) {
    forall id | id in s.calls :: e.at <= s.calls[id].at + budget
  }

  // A legal run in which every call reports within the budget.
  ghost predicate Timely(cfg: Config, budget: int, s: System, es: seq<Event>)
    decreases |es|
  {
    es == [] || (Enabled(s, es[0]) && Prompt(budget, s, es[0]) && Timely(cfg, budget, Step(cfg, s, es[0]), es[1..]))
  }

  lemma {:induction false} TimelyJoined(cfg: Config, budget: int, s: System, es: seq<Event>, fs: seq<Event>)
    ensures Timely(cfg, budget, s, es + fs) <==> Timely(cfg, budget, s, es) && Timely(cfg, budget, Run(cfg, s, es), fs)
    decreases |es|
  {
    if es == [] {
      assert es + fs == fs;
    } else {
      assert (es + fs)[1..] == es[1..] + fs;
      TimelyJoined(cfg, budget, Step(cfg, s, es[0]), es[1..], fs);
    }
  }

  lemma TimelyExtended(cfg: Config, budget: int, s: System, es: seq<Event>, e: Event)
    ensures var t := Run(cfg, s, es);
            && Run(cfg, s, es + [e]) == Step(cfg, t, e)
            && (Timely(cfg, budget, s, es + [e]) <==>
                Timely(cfg, budget, s, es) && Enabled(t, e) && Prompt(budget, t, e))
  {
    RunExtended(cfg, s, es, e);
    TimelyJoined(cfg, budget, s, es, [e]);
    assert [e][1..] == [];
    assert Timely(cfg, budget, Step(cfg, Run(cfg, s, es), e), []);
  }

  // In half-open every outstanding call is a probe of this very episode, and
  // the episode's admissions are its calls in flight, successes and faults.
  ghost predicate OwnProbes(cfg: Config, s: System) {
    s.f.state.HalfOpen? ==>
      && (forall id | id in s.calls :: s.calls[id].phase == s.phase)
      && s.admitted == |s.calls| + s.f.successes + s.faults
      && |s.calls| <= cfg.probes
  }

  // The circuit turns half-open with no call in flight.
  ghost predicate StartsEmpty(cfg: Config, s: System, e: Event) {
    !s.f.state.HalfOpen? && Step(cfg, s, e).f.state.HalfOpen? ==> s.calls == map[] && s.f.inFlight == 0
  }

  lemma PromptArrival(cfg: Config, budget: int, s: System, at: int)
    requires 1 <= cfg.probes && budget < cfg.openFor
    requires Inv(cfg, s) && OwnProbes(cfg, s) && Enabled(s, Arrive(at)) && Prompt(budget, s, Arrive(at))
    ensures OwnProbes(cfg, Step(cfg, s, Arrive(at))) && StartsEmpty(cfg, s, Arrive(at))
  {
    if s.f.state.Open? && at - s.f.openedAt >= cfg.openFor {
      assert forall id :: id !in s.calls;
      assert s.calls == map[];
    }
    if VerdictOn(cfg, s.f, at).Admitted? {
      assert s.nextId !in s.calls;
      assert |s.calls[s.nextId := Admission(at, Step(cfg, s, Arrive(at)).phase)]| == |s.calls| + 1;
    }
  }

  lemma PromptFinish(cfg: Config, s: System, at: int, id: nat, o: Outcome)
    requires 1 <= cfg.probes && Inv(cfg, s) && OwnProbes(cfg, s) && Enabled(s, Finish(at, id, o))
    ensures OwnProbes(cfg, Step(cfg, s, Finish(at, id, o))) && StartsEmpty(cfg, s, Finish(at, id, o))
  {
    CallRemoved(s.calls, id);
  }

  lemma PromptStep(cfg: Config, budget: int, s: System, e: Event)
    requires 1 <= cfg.probes && budget < cfg.openFor
    requires Inv(cfg, s) && OwnProbes(cfg, s) && Enabled(s, e) && Prompt(budget, s, e)
    ensures OwnProbes(cfg, Step(cfg, s, e)) && StartsEmpty(cfg, s, e)
  {
    match e
    case Arrive(at) => PromptArrival(cfg, budget, s, at);
    case Finish(at, id, o) => PromptFinish(cfg, s, at, id, o);
  }

  lemma {:induction false} PromptRun(cfg: Config, budget: int, s: System, es: seq<Event>)
    requires 1 <= cfg.probes && budget < cfg.openFor
    requires Inv(cfg, s) && OwnProbes(cfg, s) && Timely(cfg, budget, s, es)
    ensures Inv(cfg, Run(cfg, s, es)) && OwnProbes(cfg, Run(cfg, s, es))
    decreases |es|
  {
    if es != [] {
      StepKeeps(cfg, s, es[0]);
      PromptStep(cfg, budget, s, es[0]);
      PromptRun(cfg, budget, Step(cfg, s, es[0]), es[1..]);
    }
  }

  // An outcome that half-open counts although its call belongs to another phase.
  predicate CountsStale(s: System, e: Event) {
    e.Finish? && !e.outcome.Fault? && s.f.state.HalfOpen? && e.id in s.calls && s.calls[e.id].phase != s.phase
  }

  ghost predicate StaleRun(cfg: Config, budget: int, es: seq<Event>, e: Event) {
    Timely(cfg, budget, START, es + [e]) && CountsStale(Run(cfg, START, es), e)
  }

  // With a budget below OpenFor, each half-open episode starts with nothing in
  // flight and hears only its own probes, and each of its admissions is still
  // outstanding or has been counted, once, as a success or a fault.
  lemma DrainedEpisodes(cfg: Config, budget: int, es: seq<Event>, e: Event)
    requires 1 <= cfg.probes && budget < cfg.openFor && Timely(cfg, budget, START, es + [e])
    ensures var s := Run(cfg, START, es);
            && StartsEmpty(cfg, s, e)
            && !CountsStale(s, e)
            && (s.f.state.HalfOpen? ==> s.admitted == |s.calls| + s.f.successes + s.faults)
            && (s.f.state.HalfOpen? ==> s.admitted <= 2 * cfg.probes - 1 + s.faults)
  {
    TimelyExtended(cfg, budget, START, es, e);
    PromptRun(cfg, budget, START, es);
    PromptStep(cfg, budget, Run(cfg, START, es), e);
  }

  // Under any interleaving, prompt or not, an admission while half-open leaves
  // at most Probes calls in flight.
  lemma HalfOpenTrickle(cfg: Config, es: seq<Event>, at: int)
    requires 1 <= cfg.probes && Legal(cfg, START, es + [Arrive(at)])
    ensures var s := Run(cfg, START, es);
            var t := Step(cfg, s, Arrive(at));
            t.f.state.HalfOpen? && VerdictOn(cfg, s.f, at).Admitted? ==> t.f.inFlight == |t.calls| <= cfg.probes
  {
    RunExtended(cfg, START, es, Arrive(at));
    EveryRun(cfg, es + [Arrive(at)]);
  }

  // ------------------------------------------------------ the bound is exact

  function Repeat(n: nat): (s: seq<bool>)
    ensures |s| == n
  {
    seq(n, _ => true)
  }

  lemma {:induction false} FailuresOfRepeat(n: nat)
    ensures Failures(Repeat(n)) == n
  {
    if n != 0 {
      FailuresOfRepeat(n - 1);
      assert Repeat(n)[..n - 1] == Repeat(n - 1);
    }
  }

  lemma FailuresTrip(cfg: Config, n: nat)
    requires cfg.Sane()
    ensures Trips(cfg, Repeat(n)) <==> cfg.minSamples <= n
  {
    FailuresOfRepeat(n);
    if cfg.minSamples <= n {
      assert n * cfg.den - cfg.num * n == n * (cfg.den - cfg.num) >= 0;
    }
  }

  // Call 0 stays out while k later calls fail at once, all at time 0.
  lemma {:induction false} FailAtOnce(cfg: Config, budget: int, k: nat) returns (es: seq<Event>)
    requires cfg.Sane() && 0 <= budget && k <= cfg.minSamples
    ensures Timely(cfg, budget, START, es)
    ensures var s := Run(cfg, START, es);
            && s.now == 0 && s.nextId == k + 1 && s.calls == map[0 := Admission(0, 0)] && s.f.inFlight == 1
            && (if k < cfg.minSamples then
                  s.f.state == Closed && s.phase == 0 && s.f.outcomes == Repeat(k)
                else s.f.state == Open && s.phase == 1 && s.f.openedAt == 0)
  {
    if k == 0 {
      es := [Arrive(0)];
      TimelyExtended(cfg, budget, START, [], Arrive(0));
      assert [] + [Arrive(0)] == es;
    } else {
      es := FailAtOnce(cfg, budget, k - 1);
      var s := Run(cfg, START, es);
      TimelyExtended(cfg, budget, START, es, Arrive(0));
      var t := Step(cfg, s, Arrive(0));
      assert t.calls == map[0 := Admission(0, 0), k := Admission(0, 0)];
      es := es + [Arrive(0)];
      TimelyExtended(cfg, budget, START, es, Finish(0, k, Failure));
      assert t.calls - {k} == map[0 := Admission(0, 0)];
      assert Repeat(k - 1) + [true] == Repeat(k);
      FailuresTrip(cfg, k);
      es := es + [Finish(0, k, Failure)];
    }
  }

  // A stale outcome that takes the circuit to a state.
  ghost predicate StaleRunTo(cfg: Config, budget: int, es: seq<Event>, e: Event, to: Circuit) {
    StaleRun(cfg, budget, es, e) && Step(cfg, Run(cfg, START, es), e).f.state == to
  }

  // A half-open episode in which k probes succeeded, with call 0 from before the
  // opening the only one outstanding.
  ghost predicate OnlyStaleOut(cfg: Config, s: System, k: int) {
    && s.f.state.HalfOpen? && s.now == cfg.openFor && s.phase == 2 && 1 <= s.nextId
    && s.calls == map[0 := Admission(0, 0)] && s.f.inFlight == 1 && s.f.successes == k
  }

  // A budget of OpenFor lets call 0 outlive the open period. The first probe,
  // if there is a slot for it, meets a request fault; then k probes succeed.
  lemma {:induction false} StaleEpisode(cfg: Config, budget: int, k: nat) returns (es: seq<Event>)
    requires cfg.Sane() && cfg.openFor <= budget && k < cfg.probes
    ensures Timely(cfg, budget, START, es) && OnlyStaleOut(cfg, Run(cfg, START, es), k)
  {
    if k == 0 {
      es := FailAtOnce(cfg, budget, cfg.minSamples);
      if cfg.probes == 1 {
        TimelyExtended(cfg, budget, START, es, Arrive(cfg.openFor));
        es := es + [Arrive(cfg.openFor)];
      } else {
        es := ProbeBeside(cfg, budget, es, Fault);
      }
    } else {
      es := StaleEpisode(cfg, budget, k - 1);
      es := ProbeBeside(cfg, budget, es, Success);
    }
  }

  // A probe comes and goes while call 0 is out.
  lemma ProbeBeside(cfg: Config, budget: int, es: seq<Event>, o: Outcome) returns (fs: seq<Event>)
    requires cfg.Sane() && cfg.openFor <= budget && Timely(cfg, budget, START, es)
    requires var s := Run(cfg, START, es);
             && s.now <= cfg.openFor && 1 <= s.nextId && 1 < cfg.probes
             && s.calls == map[0 := Admission(0, 0)] && s.f.inFlight == 1
             && (if s.f.state.Open? then s.phase == 1 && s.f.openedAt == 0 && o.Fault?
                 else OnlyStaleOut(cfg, s, s.f.successes) && s.f.successes + 1 < cfg.probes && o.Success?)
    ensures Timely(cfg, budget, START, fs)
    ensures OnlyStaleOut(cfg, Run(cfg, START, fs),
                         if o.Fault? then 0 else Run(cfg, START, es).f.successes + 1)
  {
    var s := Run(cfg, START, es);
    var next, done := Arrive(cfg.openFor), Finish(cfg.openFor, s.nextId, o);
    TimelyExtended(cfg, budget, START, es, next);
    TimelyExtended(cfg, budget, START, es + [next], done);
    assert Step(cfg, s, next).calls - {s.nextId} == map[0 := Admission(0, 0)];
    fs := es + [next] + [done];
  }

  // Its failure is counted against the half-open episode, which it ends.
  lemma StaleFailureReopens(cfg: Config, budget: int) returns (es: seq<Event>, e: Event)
    requires cfg.Sane() && cfg.openFor <= budget
    ensures e.Finish? && e.outcome.Failure? && StaleRunTo(cfg, budget, es, e, Open)
  {
    es := StaleEpisode(cfg, budget, 0);
    e := Finish(cfg.openFor, 0, Failure);
    TimelyExtended(cfg, budget, START, es, e);
  }

  // Its success is counted in the place of the last probe, and closes the
  // circuit.
  lemma StaleSuccessCloses(cfg: Config, budget: int) returns (es: seq<Event>, e: Event)
    requires cfg.Sane() && cfg.openFor <= budget
    ensures e.Finish? && e.outcome.Success? && StaleRunTo(cfg, budget, es, e, Closed)
  {
    es := StaleEpisode(cfg, budget, cfg.probes - 1);
    e := Finish(cfg.openFor, 0, Success);
    TimelyExtended(cfg, budget, START, es, e);
  }

  // A stale call can be counted in some timely run exactly when the budget
  // reaches OpenFor; and exactly then can one reopen the circuit, or close it.
  lemma StaleExactlyWhenBudgetReachesOpenFor(cfg: Config, budget: int)
    requires cfg.Sane() && 0 <= budget
    ensures (exists es, e :: StaleRun(cfg, budget, es, e)) <==> cfg.openFor <= budget
    ensures (exists es, e :: StaleRunTo(cfg, budget, es, e, Open)) <==> cfg.openFor <= budget
    ensures (exists es, e :: StaleRunTo(cfg, budget, es, e, Closed)) <==> cfg.openFor <= budget
  {
    if cfg.openFor <= budget {
      var es, e := StaleFailureReopens(cfg, budget);
      var fs, f := StaleSuccessCloses(cfg, budget);
    } else {
      forall es, e | StaleRun(cfg, budget, es, e) ensures false {
        DrainedEpisodes(cfg, budget, es, e);
      }
    }
  }

  // A half-open episode that just let its first probe through, all calls quick.
  lemma FreshEpisode(cfg: Config, budget: int) returns (es: seq<Event>)
    requires cfg.Sane() && 0 <= budget
    ensures Timely(cfg, budget, START, es)
    ensures Trickling(cfg, Run(cfg, START, es), 1)
  {
    es := FailAtOnce(cfg, budget, cfg.minSamples);
    TimelyExtended(cfg, budget, START, es, Finish(0, 0, Success));
    assert Run(cfg, START, es).calls - {0} == map[];
    es := es + [Finish(0, 0, Success)];
    TimelyExtended(cfg, budget, START, es, Arrive(cfg.openFor));
    es := es + [Arrive(cfg.openFor)];
  }

  // k probes admitted, all but the latest back with a success.
  ghost predicate Trickling(cfg: Config, s: System, k: nat) {
    && 1 <= k && 1 <= s.nextId && s.f.state.HalfOpen? && s.now == cfg.openFor
    && s.calls == map[s.nextId - 1 := Admission(cfg.openFor, s.phase)] && s.f.inFlight == 1
    && s.f.successes == k - 1 && s.admitted == k && s.faults == 0
  }

  lemma {:induction false} TrickleRound(cfg: Config, budget: int, k: nat) returns (es: seq<Event>)
    requires cfg.Sane() && 0 <= budget && 1 <= k <= cfg.probes
    ensures Timely(cfg, budget, START, es) && Trickling(cfg, Run(cfg, START, es), k)
  {
    if k == 1 {
      es := FreshEpisode(cfg, budget);
    } else {
      hide Trickling, Step, Enabled, Prompt;
      es := TrickleRound(cfg, budget, k - 1);
      var s := Run(cfg, START, es);
      var next, done := Arrive(cfg.openFor), Finish(cfg.openFor, s.nextId - 1, Success);
      TimelyExtended(cfg, budget, START, es, next);
      TimelyExtended(cfg, budget, START, es + [next], done);
      ProbeReplaced(cfg, budget, s, k - 1);
      es := es + [next] + [done];
    }
  }

  // The next probe is let in, and the one before it reports a success.
  lemma ProbeReplaced(cfg: Config, budget: int, s: System, k: nat)
    requires cfg.Sane() && 0 <= budget && k < cfg.probes && Trickling(cfg, s, k)
    ensures var next, done := Arrive(cfg.openFor), Finish(cfg.openFor, s.nextId - 1, Success);
            var t := Step(cfg, s, next);
            && Enabled(s, next) && Prompt(budget, s, next) && Enabled(t, done) && Prompt(budget, t, done)
            && Trickling(cfg, Step(cfg, t, done), k + 1)
  {
    var t := Step(cfg, s, Arrive(cfg.openFor));
    assert t.calls - {s.nextId - 1} == map[s.nextId := Admission(cfg.openFor, s.phase)];
  }

  // Then the slots those successes freed are filled.
  lemma {:induction false} FillSlots(cfg: Config, budget: int, j: nat) returns (es: seq<Event>)
    requires cfg.Sane() && 0 <= budget && j < cfg.probes
    ensures Timely(cfg, budget, START, es)
    ensures var s := Run(cfg, START, es);
            && s.f.state.HalfOpen? && s.now == cfg.openFor && s.f.inFlight == 1 + j
            && (forall id | id in s.calls :: s.calls[id].at == cfg.openFor)
            && s.admitted == cfg.probes + j && s.faults == 0
  {
    if j == 0 {
      es := TrickleRound(cfg, budget, cfg.probes);
    } else {
      es := FillSlots(cfg, budget, j - 1);
      TimelyExtended(cfg, budget, START, es, Arrive(cfg.openFor));
      es := es + [Arrive(cfg.openFor)];
    }
  }

  // The bound on an episode's admissions is met, with no fault and any budget:
  // the documented number of probes bounds the calls in flight, not the episode.
  lemma EpisodeBoundIsMet(cfg: Config, budget: int) returns (es: seq<Event>)
    requires cfg.Sane() && 0 <= budget
    ensures Timely(cfg, budget, START, es)
    ensures var s := Run(cfg, START, es);
            s.f.state.HalfOpen? && s.faults == 0 && s.admitted == 2 * cfg.probes - 1
  {
    es := FillSlots(cfg, budget, cfg.probes - 1);
  }

  lemma {:induction false} TimelyIsLegal(cfg: Config, budget: int, s: System, es: seq<Event>)
    requires Timely(cfg, budget, s, es)
    ensures Legal(cfg, s, es)
    decreases |es|
  {
    if es != [] {
      TimelyIsLegal(cfg, budget, Step(cfg, s, es[0]), es[1..]);
    }
  }

  // So an episode admits no more than the documented number of probes, faults
  // apart, exactly when that number is one: over all runs, and over those in
  // which calls report within a budget, whatever it is.
  lemma ProbesBoundAdmissionsExactlyForOne(cfg: Config, budget: int)
    requires cfg.Sane() && 0 <= budget
    ensures (forall es | Legal(cfg, START, es) :: ProbesBoundAdmissions(cfg, Run(cfg, START, es)))
            <==> cfg.probes == 1
    ensures (forall es | Timely(cfg, budget, START, es) :: ProbesBoundAdmissions(cfg, Run(cfg, START, es)))
            <==> cfg.probes == 1
  {
    if cfg.probes == 1 {
      forall es | Legal(cfg, START, es) ensures ProbesBoundAdmissions(cfg, Run(cfg, START, es)) {
        EpisodeAdmissions(cfg, es);
      }
      forall es | Timely(cfg, budget, START, es) ensures ProbesBoundAdmissions(cfg, Run(cfg, START, es)) {
        TimelyIsLegal(cfg, budget, START, es);
      }
    } else {
      var es := EpisodeBoundIsMet(cfg, budget);
      TimelyIsLegal(cfg, budget, START, es);
      assert !ProbesBoundAdmissions(cfg, Run(cfg, START, es));
    }
  }

  predicate ProbesBoundAdmissions(cfg: Config, s: System) {
    s.f.state.HalfOpen? ==> s.admitted <= cfg.probes + s.faults
  }
}
