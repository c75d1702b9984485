// internal/cqappmiddleware/breaker.go: the circuit breaker. Its two critical
// sections, reject and record, are atomic steps; any number of calls may be
// between the two at once.
module Breaker {
  import opened Decimal
  import opened Vendor

  datatype Circuit = Closed | Open | HalfOpen

  // Threshold is the fraction num/den.
  datatype Config = Config(window: nat, minSamples: nat, num: nat, den: nat, openFor: int, probes: int)
  {
    // What the breaker needs of its configuration to work at all.
    predicate Sane() {
      1 <= minSamples <= window && num <= den && 0 < den && 0 < openFor && 1 <= probes
    }
  }

  // What record sees of a finished call.
  datatype Outcome = Success | Failure | Fault

  function Judge(err: Option<Err>): Outcome {
    if err.None? then Success
    else if Is(err.value, ErrRequestFault) then Fault
    else Failure
  }

  // The fields the mutex guards. In outcomes, true is a failure.
  datatype Guarded = Guarded(state: Circuit, outcomes: seq<bool>, openedAt: int, successes: int, inFlight: int)

  const INITIAL := Guarded(Closed, [], 0, 0, 0)

  datatype Verdict = Admitted | Rejected(wait: int)

  function Failures(outcomes: seq<bool>): nat {
    if outcomes == [] then 0
    else Failures(outcomes[..|outcomes| - 1]) + if outcomes[|outcomes| - 1] then 1 else 0
  }

  // The last k of a sequence.
  function LastOf(s: seq<bool>, k: nat): (t: seq<bool>)
    ensures |t| == if |s| <= k then |s| else k
  {
    if |s| <= k then s else s[|s| - k..]
  }

  // Enough samples, and the failure fraction at or above the threshold.
  predicate Trips(cfg: Config, outcomes: seq<bool>) {
    cfg.minSamples <= |outcomes| && 0 < |outcomes| && Failures(outcomes) * cfg.den >= cfg.num * |outcomes|
  }

  function Enter(f: Guarded, s: Circuit, now: int): Guarded {
    match s
    case Open => Guarded(Open, [], now, 0, f.inFlight)
    case Closed => Guarded(Closed, [], f.openedAt, 0, f.inFlight)
    case HalfOpen => Guarded(HalfOpen, f.outcomes, f.openedAt, 0, f.inFlight)
  }

  function VerdictOn(cfg: Config, f: Guarded, now: int): Verdict {
    if f.state.Open? && now - f.openedAt < cfg.openFor then Rejected(cfg.openFor - (now - f.openedAt))
    else if !f.state.Closed? && f.inFlight >= cfg.probes then Rejected(cfg.openFor)
    else Admitted
  }

  function AfterReject(cfg: Config, f: Guarded, now: int): Guarded {
    if f.state.Open? && now - f.openedAt < cfg.openFor then f
    else
      var g := if f.state.Open? then Enter(f, HalfOpen, now) else f;
      if g.state.HalfOpen? && g.inFlight >= cfg.probes then g else g.(inFlight := g.inFlight + 1)
  }

  function AfterRecord(cfg: Config, f: Guarded, now: int, o: Outcome): Guarded {
    var g := f.(inFlight := f.inFlight - 1);
    if o.Fault? then g
    else match f.state
      case HalfOpen =>
        if o.Failure? then Enter(g, Open, now)
        else if f.successes + 1 >= cfg.probes then Enter(g, Closed, now)
        else g.(successes := f.successes + 1)
      case Closed =>
        var outcomes := LastOf(f.outcomes + [o.Failure?], cfg.window);
        if Trips(cfg, outcomes) then Enter(g, Open, now) else g.(outcomes := outcomes)
      case Open => g
  }

  // ------------------------------------------------------------------ runs

  // A step of the whole system: a request arrives and goes through reject, or
  // the call admitted under an id finishes and goes through record.
  datatype Event = Arrive(at: int) | Finish(at: int, id: nat, outcome: Outcome)

  // When a call was admitted, and in which phase.
  datatype Admission = Admission(at: int, phase: nat)

  // The breaker together with what has happened: the clock, the calls between
  // admission and record, how many times the circuit changed state, the
  // non-fault outcomes recorded since it last closed, and the admissions and
  // request faults of the current phase.
  datatype System = System(f: Guarded, now: int, nextId: nat, calls: map<nat, Admission>, phase: nat,
                           history: seq<bool>, admitted: nat, faults: nat)

  const START := System(INITIAL, 0, 0, map[], 0, [], 0, 0)

  predicate Enabled(s: System, e: Event) {
    s.now <= e.at && (e.Finish? ==> e.id in s.calls)
  }

  // The bookkeeping of a step that leaves the fields at f.
  function Advance(s: System, f: Guarded, at: int): System {
    if f.state == s.f.state then s.(f := f, now := at)
    else s.(f := f, now := at, phase := s.phase + 1, history := [], admitted := 0, faults := 0)
  }

  function Step(cfg: Config, s: System, e: Event): System {
    match e
    case Arrive(at) =>
      var t := Advance(s, AfterReject(cfg, s.f, at), at);
      if VerdictOn(cfg, s.f, at).Admitted? then
        t.(calls := t.calls[t.nextId := Admission(at, t.phase)], nextId := t.nextId + 1, admitted := t.admitted + 1)
      else t
    case Finish(at, id, o) =>
      var t := Advance(s, AfterRecord(cfg, s.f, at, o), at).(calls := s.calls - {id});
      if o.Fault? then t.(faults := t.faults + 1)
      else if s.f.state.Closed? && t.f.state.Closed? then t.(history := s.history + [o.Failure?])
      else t
  }

  function Run(cfg: Config, s: System, es: seq<Event>): System
    decreases |es|
  {
    if es == [] then s else Run(cfg, Step(cfg, s, es[0]), es[1..])
  }

  predicate Legal(cfg: Config, s: System, es: seq<Event>)
    decreases |es|
  {
    es == [] || (Enabled(s, es[0]) && Legal(cfg, Step(cfg, s, es[0]), es[1..]))
  }

  lemma {:induction false} RunJoined(cfg: Config, s: System, es: seq<Event>, fs: seq<Event>)
    ensures Run(cfg, s, es + fs) == Run(cfg, Run(cfg, s, es), fs)
    ensures Legal(cfg, s, es + fs) <==> Legal(cfg, s, es) && Legal(cfg, Run(cfg, s, es), fs)
    decreases |es|
  {
    if es == [] {
      assert es + fs == fs;
    } else {
      assert (es + fs)[1..] == es[1..] + fs;
      RunJoined(cfg, Step(cfg, s, es[0]), es[1..], fs);
    }
  }

  lemma RunExtended(cfg: Config, s: System, es: seq<Event>, e: Event)
    ensures Run(cfg, s, es + [e]) == Step(cfg, Run(cfg, s, es), e)
    ensures Legal(cfg, s, es + [e]) <==> Legal(cfg, s, es) && Enabled(Run(cfg, s, es), e)
  {
    RunJoined(cfg, s, es, [e]);
    assert [e][1..] == [];
    assert Run(cfg, Run(cfg, s, es), [e]) == Run(cfg, Step(cfg, Run(cfg, s, es), e), []);
  }

  // ----------------------------------------------------------- the breaker

  // The object. Its ghost trace is the run it has been through; every method
  // adds its own step, so what holds of all runs holds of it.
  class Breaker {
    const cfg: Config
    var state: Circuit
    var outcomes: seq<bool>
    var openedAt: int
    var successes: int
    var inFlight: int
    ghost var trace: seq<Event>

    ghost function View(): Guarded
      reads this
    {
      Guarded(state, outcomes, openedAt, successes, inFlight)
    }

    ghost function Reached(): System
      reads this
    {
      Run(cfg, START, trace)
    }

    ghost predicate Valid()
      reads this
    {
      Legal(cfg, START, trace) && Reached().f == View()
    }

    constructor (cfg: Config)
      ensures Valid() && this.cfg == cfg && trace == []
    {
      this.cfg := cfg;
      state, outcomes, openedAt, successes, inFlight := Closed, [], 0, 0, 0;
      trace := [];
    }

    // Whether a request is turned away, and for how long.
    method Reject(now: int) returns (retryAfter: int, rejected: bool)
      requires Valid() && Reached().now <= now
      modifies this
      ensures Valid() && trace == old(trace) + [Arrive(now)]
      ensures View() == AfterReject(cfg, old(View()), now)
      ensures VerdictOn(cfg, old(View()), now) == if rejected then Rejected(retryAfter) else Admitted
    {
      RunExtended(cfg, START, trace, Arrive(now));
      trace := trace + [Arrive(now)];
      if state == Open {
        var elapsed := now - openedAt;
        if elapsed < cfg.openFor {
          return cfg.openFor - elapsed, true;
        }
        EnterState(HalfOpen, now);
      }
      if state == HalfOpen && inFlight >= cfg.probes {
        return cfg.openFor, true;
      }
      inFlight := inFlight + 1;
      return 0, false;
    }

    // One outcome, folded into the view of the vendor's health.
    method Record(now: int, ghost id: nat, err: Option<Err>)
      requires Valid() && Reached().now <= now && id in Reached().calls
      modifies this
      ensures Valid() && trace == old(trace) + [Finish(now, id, Judge(err))]
      ensures View() == AfterRecord(cfg, old(View()), now, Judge(err))
    {
      RunExtended(cfg, START, trace, Finish(now, id, Judge(err)));
      trace := trace + [Finish(now, id, Judge(err))];
      Fold(now, err);
    }

    method Fold(now: int, err: Option<Err>)
      modifies `state, `successes, `openedAt, `outcomes, `inFlight
      ensures View() == AfterRecord(cfg, old(View()), now, Judge(err))
    {
      inFlight := inFlight - 1;
      if err.Some? && Is(err.value, ErrRequestFault) {
        return;
      }
      var failed := err.Some?;
      match state {
        case HalfOpen =>
          if failed {
            EnterState(Open, now);
            return;
          }
          successes := successes + 1;
          if successes >= cfg.probes {
            EnterState(Closed, now);
          }
        case Closed =>
          outcomes := outcomes + [failed];
          if |outcomes| > cfg.window {
            outcomes := outcomes[|outcomes| - cfg.window..];
          }
          var trip := ShouldTrip();
          if trip {
            EnterState(Open, now);
          }
        case Open =>
      }
    }

    method ShouldTrip() returns (trip: bool)
      ensures trip == Trips(cfg, outcomes)
    {
      if |outcomes| < cfg.minSamples || |outcomes| == 0 {
        return false;
      }
      var failures := 0;
      for i := 0 to |outcomes|
        invariant failures == Failures(outcomes[..i])
      {
        assert outcomes[..i + 1][..i] == outcomes[..i];
        if outcomes[i] {
          failures := failures + 1;
        }
      }
      assert outcomes[..|outcomes|] == outcomes;
      return failures * cfg.den >= cfg.num * |outcomes|;
    }

    method EnterState(s: Circuit, now: int)
      modifies `state, `successes, `openedAt, `outcomes
      ensures View() == Enter(old(View()), s, now)
    {
      state := s;
      successes := 0;
      match s {
        case Open =>
          openedAt := now;
          outcomes := [];
        case Closed =>
          outcomes := [];
        case HalfOpen =>
      }
    }
  }
}
