// The running service's composition: breaker over retrier over vendor client.
module Resilience {
  import opened Arith
  import opened Decimal
  import opened Money
  import opened Tokens
  import opened Vendor
  import opened Retry
  import opened Breaker
  import opened BreakerDrain

  // However many calls the retrier makes, the breaker hears of one outcome, and
  // it is the last call's: a success exactly for a quote, ignored exactly for a
  // 400, and a failure for everything else.
  lemma BreakerHearsTheLastCall(cfg: RetryConfig, w: World, o: Oracle, start: int)
    requires 1 <= cfg.attempts && Drives(o, w)
    ensures var k := Attempts(cfg, w, 1, start).Count();
            var answer := Returned(Attempts(cfg, w, 1, start).Last().answer);
            && answer == Translate(o.reply(k))
            && (Judge(answer.err).Success? <==>
                o.reply(k).Response? && o.reply(k).status == 201 && Decodable(o.reply(k).body))
            && (Judge(answer.err).Fault? <==> o.reply(k).Response? && o.reply(k).status == 400)
  {
    RepeatsAreTransient(cfg, w, start);
    var k := Attempts(cfg, w, 1, start).Count();
    assert w.call(k).answer == Translate(o.reply(k));
    Classification(o.reply(k));
  }

  // ------------------------------------------------ the budget and the breaker

  // The last attempt of the retrier for the call admitted under an id, with the
  // world it meets, when its Quote makes any; and when that returns.
  function LastMade(rc: RetryConfig, w: World, at: int): Attempt {
    Attempts(rc, w, 1, at).Last()
  }

  function Returns(rc: RetryConfig, w: World, at: int): int {
    LastMade(rc, w, at).end + LastMade(rc, w, at).slept
  }

  // The request's deadline is at most its budget away when it is admitted, and
  // its vendor calls end by it.
  ghost predicate Budgeted(rc: RetryConfig, w: World, at: int, budget: int) {
    w.deadline.Some? && w.deadline.value <= at + budget
    && EndsByDeadline(Attempts(rc, w, 1, at), w.deadline.value)
  }

  // Nothing happens to the breaker past the moment an outstanding call returns,
  // without that call being recorded.
  ghost predicate NoneOverdue(rc: RetryConfig, worlds: nat -> World, budget: int, s: System, e: Event) {
    forall id | id in s.calls ::
      Budgeted(rc, worlds(id), s.calls[id].at, budget) && e.at <= Returns(rc, worlds(id), s.calls[id].at)
  }

  // A call is recorded when the retrier returns, with what it returned.
  ghost predicate RecordsReturn(rc: RetryConfig, worlds: nat -> World, s: System, e: Event) {
    e.Finish? && e.id in s.calls ==>
      var w, at := worlds(e.id), s.calls[e.id].at;
      e.at == Returns(rc, w, at) && e.outcome == Judge(Returned(LastMade(rc, w, at).answer).err)
  }

  // A run of the breaker over retriers.
  ghost predicate Serves(cfg: Config, rc: RetryConfig, worlds: nat -> World, budget: int, s: System, es: seq<Event>)
    decreases |es|
  {
    es == [] ||
    (&& Enabled(s, es[0]) && NoneOverdue(rc, worlds, budget, s, es[0]) && RecordsReturn(rc, worlds, s, es[0])
     && Serves(cfg, rc, worlds, budget, Step(cfg, s, es[0]), es[1..]))
  }

  lemma ReturnsWithinBudget(rc: RetryConfig, w: World, at: int, budget: int)
    requires 0 <= budget && Budgeted(rc, w, at, budget)
    ensures Returns(rc, w, at) <= at + budget
  {
    RunKeepsDeadline(rc, w, at, w.deadline.value);
  }

  lemma {:induction false} ServedInTime(cfg: Config, rc: RetryConfig, worlds: nat -> World, budget: int,
                                        s: System, es: seq<Event>)
    requires 0 <= budget && Serves(cfg, rc, worlds, budget, s, es)
    ensures Timely(cfg, budget, s, es)
    decreases |es|
  {
    if es != [] {
      forall id | id in s.calls ensures es[0].at <= s.calls[id].at + budget {
        ReturnsWithinBudget(rc, worlds(id), s.calls[id].at, budget);
      }
      ServedInTime(cfg, rc, worlds, budget, Step(cfg, s, es[0]), es[1..]);
    }
  }

  // With a request budget below OpenFor, the service's half-open episodes start
  // with nothing in flight, hear only their own probes, and are bounded.
  lemma BudgetDrainsBreaker(cfg: Config, rc: RetryConfig, worlds: nat -> World, budget: int,
                            es: seq<Event>, e: Event)
    requires 1 <= cfg.probes && 0 <= budget < cfg.openFor
    requires Serves(cfg, rc, worlds, budget, START, es + [e])
    ensures var s := Run(cfg, START, es);
            && StartsEmpty(cfg, s, e) && !CountsStale(s, e)
            && (s.f.state.HalfOpen? ==> s.admitted == |s.calls| + s.f.successes + s.faults)
            && (s.f.state.HalfOpen? ==> s.admitted <= 2 * cfg.probes - 1 + s.faults)
  {
    ServedInTime(cfg, rc, worlds, budget, START, es + [e]);
    DrainedEpisodes(cfg, budget, es, e);
  }

  // ------------------------------------------- every timely run is one of these

  // A reply the breaker judges so.
  function ReplyFor(o: Outcome): Reply {
    match o
    case Success => Response(201, "", Fields("q", Render(1, 0), Render(1, 0)))
    case Failure => Response(500, "", Fields("", "", ""))
    case Fault => Response(400, "", Fields("", "", ""))
  }

  lemma JudgedSo(o: Outcome)
    ensures WellFormed(ReplyFor(o)) && Judge(Returned(Translate(ReplyFor(o))).err) == o
    ensures !FailedTransiently(Translate(ReplyFor(o)))
  {
    Classification(ReplyFor(o));
    if o.Success? {
      OneIsDecodable();
    }
  }

  lemma OneIsDecodable()
    ensures NumberText(Render(1, 0)).Some? && ParseDecimal(NumberText(Render(1, 0)).value).Parsed?
  {
    NumberTextOfRender(1, 0);
    RenderFits(1, 0);
    Pow10Monotone(1, 31);
    assert Pow10(1) == 10;
    ParseRender(1, 0);
  }

  // A vendor whose every answer takes so long and comes to that outcome, for a
  // request admitted at a time.
  function Answering(o: Outcome, takes: nat, at: int, budget: int): World {
    World(_ => Call(Translate(ReplyFor(o)), takes, 0, true), Some(at + budget), None)
  }

  lemma AnsweredOnce(rc: RetryConfig, o: Outcome, takes: nat, at: int, budget: int)
    requires takes <= budget
    ensures var w := Answering(o, takes, at, budget);
            && Budgeted(rc, w, at, budget) && Returns(rc, w, at) == at + takes
            && Judge(Returned(LastMade(rc, w, at).answer).err) == o
  {
    hide Judge, Translate, Is;
    JudgedSo(o);
    GivesUp(rc, Answering(o, takes, at, budget), 1, at);
  }

  // The vendor client gives such answers.
  ghost predicate Driven(w: World) {
    exists o :: Drives(o, w)
  }

  ghost predicate Real(worlds: nat -> World) {
    forall id: nat :: Driven(worlds(id))
  }

  lemma AnsweringIsReal(o: Outcome, takes: nat, at: int, budget: int)
    ensures Driven(Answering(o, takes, at, budget))
  {
    hide Translate, Is;
    JudgedSo(o);
    assert Drives(Oracle(_ => ReplyFor(o), _ => false), Answering(o, takes, at, budget));
  }

  ghost predicate IdsIssued(s: System) {
    forall id | id in s.calls :: id < s.nextId
  }

  // A call that has reported has no more say.
  lemma {:induction false} ServesElsewhere(cfg: Config, rc: RetryConfig, worlds: nat -> World, others: nat -> World,
                                           gone: nat, budget: int, s: System, es: seq<Event>)
    requires IdsIssued(s) && gone < s.nextId && gone !in s.calls
    requires forall id: nat | id != gone :: others(id) == worlds(id)
    requires Serves(cfg, rc, worlds, budget, s, es)
    ensures Serves(cfg, rc, others, budget, s, es)
    decreases |es|
  {
    if es != [] {
      ServesElsewhere(cfg, rc, worlds, others, gone, budget, Step(cfg, s, es[0]), es[1..]);
    }
  }

  // Every outstanding call will return within the budget, and has not yet.
  ghost predicate Pending(rc: RetryConfig, worlds: nat -> World, budget: int, s: System) {
    forall id | id in s.calls ::
      Budgeted(rc, worlds(id), s.calls[id].at, budget) && s.now <= Returns(rc, worlds(id), s.calls[id].at)
  }

  function AllOut(s: System, budget: nat): nat -> World {
    (id: nat) => Answering(Success, budget, if id in s.calls then s.calls[id].at else 0, budget)
  }

  function Replaced(worlds: nat -> World, gone: nat, w: World): nat -> World {
    (id: nat) => if id == gone then w else worlds(id)
  }

  // Looking back from the end of a run, each call took until its record, with
  // the outcome recorded; those still out take the whole budget.
  lemma {:induction false} Realised(cfg: Config, rc: RetryConfig, budget: nat, s: System, es: seq<Event>)
    returns (worlds: nat -> World)
    requires IdsIssued(s) && (forall id | id in s.calls :: s.calls[id].at <= s.now <= s.calls[id].at + budget)
    requires Timely(cfg, budget, s, es)
    ensures Real(worlds) && Pending(rc, worlds, budget, s) && Serves(cfg, rc, worlds, budget, s, es)
    decreases |es|
  {
    if es == [] {
      worlds := AllOut(s, budget);
      AllOutIsPending(rc, s, budget);
    } else {
      hide Budgeted, Returns, Driven, RecordsReturn, Real;
      var e, t := es[0], Step(cfg, s, es[0]);
      var later := Realised(cfg, rc, budget, t, es[1..]);
      worlds := if e.Finish? then Replaced(later, e.id, Made(s, e, budget)) else later;
      if e.Finish? {
        FinishRealised(cfg, rc, budget, s, e, later);
        ServesElsewhere(cfg, rc, later, worlds, e.id, budget, t, es[1..]);
      } else {
        ArrivalRealised(cfg, rc, budget, s, e, later);
      }
    }
  }

  lemma AllOutIsPending(rc: RetryConfig, s: System, budget: nat)
    requires forall id | id in s.calls :: s.now <= s.calls[id].at + budget
    ensures Real(AllOut(s, budget)) && Pending(rc, AllOut(s, budget), budget, s)
  {
    hide Budgeted, Returns, Driven, Answering;
    var worlds := AllOut(s, budget);
    forall id: nat ensures Driven(worlds(id)) {
      AnsweringIsReal(Success, budget, if id in s.calls then s.calls[id].at else 0, budget);
    }
    forall id | id in s.calls
      ensures Budgeted(rc, worlds(id), s.calls[id].at, budget)
      ensures Returns(rc, worlds(id), s.calls[id].at) == s.calls[id].at + budget
    {
      AnsweredOnce(rc, Success, budget, s.calls[id].at, budget);
    }
  }

  lemma ArrivalRealised(cfg: Config, rc: RetryConfig, budget: nat, s: System, e: Event, worlds: nat -> World)
    requires IdsIssued(s) && e.Arrive? && Enabled(s, e) && Pending(rc, worlds, budget, Step(cfg, s, e))
    ensures Pending(rc, worlds, budget, s) && NoneOverdue(rc, worlds, budget, s, e) && RecordsReturn(rc, worlds, s, e)
  {
    hide Budgeted, Returns;
    var t := Step(cfg, s, e);
    assert forall id | id in s.calls :: id in t.calls && t.calls[id] == s.calls[id];
  }

  // What the call that reports at an event had met.
  function Made(s: System, e: Event, budget: nat): World
    requires e.Finish? && e.id in s.calls && s.calls[e.id].at <= e.at
  {
    Answering(e.outcome, e.at - s.calls[e.id].at, s.calls[e.id].at, budget)
  }

  lemma FinishRealised(cfg: Config, rc: RetryConfig, budget: nat, s: System, e: Event, later: nat -> World)
    requires e.Finish? && Enabled(s, e) && s.calls[e.id].at <= e.at <= s.calls[e.id].at + budget
    requires Real(later) && Pending(rc, later, budget, Step(cfg, s, e))
    ensures var worlds := Replaced(later, e.id, Made(s, e, budget));
            && Real(worlds) && Pending(rc, worlds, budget, s)
            && NoneOverdue(rc, worlds, budget, s, e) && RecordsReturn(rc, worlds, s, e)
  {
    hide Budgeted, Returns, LastMade, Judge, Driven, Answering;
    var t, at := Step(cfg, s, e), s.calls[e.id].at;
    AnsweredOnce(rc, e.outcome, e.at - at, at, budget);
    AnsweringIsReal(e.outcome, e.at - at, at, budget);
    assert forall id | id in s.calls && id != e.id :: id in t.calls && t.calls[id] == s.calls[id];
  }

  // The breaker over retriers of the vendor client has such a run.
  ghost predicate Serviceable(cfg: Config, rc: RetryConfig, budget: int, es: seq<Event>) {
    exists worlds :: Real(worlds) && Serves(cfg, rc, worlds, budget, START, es)
  }

  // The runs of the breaker over retriers of the vendor client under a request
  // budget are exactly those in which every call reports within the budget.
  lemma ServedExactlyWhenTimely(cfg: Config, rc: RetryConfig, budget: int, es: seq<Event>)
    requires 0 <= budget
    ensures Serviceable(cfg, rc, budget, es) <==> Timely(cfg, budget, START, es)
  {
    if Timely(cfg, budget, START, es) {
      var worlds := Realised(cfg, rc, budget, START, es);
    } else if worlds :| Real(worlds) && Serves(cfg, rc, worlds, budget, START, es) {
      ServedInTime(cfg, rc, worlds, budget, START, es);
    }
  }

  // In such a run a half-open episode counts a stale call.
  ghost predicate ServesStale(cfg: Config, rc: RetryConfig, budget: int, es: seq<Event>, e: Event) {
    Serviceable(cfg, rc, budget, es + [e]) && CountsStale(Run(cfg, START, es), e)
  }

  // So the service lets a stale call speak for a half-open episode, reopen the
  // circuit, or close it, exactly when its request budget reaches OpenFor.
  lemma ServiceIsStaleExactly(cfg: Config, rc: RetryConfig, budget: int, to: Circuit)
    requires cfg.Sane() && 0 <= budget && !to.HalfOpen?
    ensures (exists es, e :: ServesStale(cfg, rc, budget, es, e)) <==> cfg.openFor <= budget
    ensures (exists es, e :: ServesStale(cfg, rc, budget, es, e) && Step(cfg, Run(cfg, START, es), e).f.state == to)
            <==> cfg.openFor <= budget
  {
    if cfg.openFor <= budget {
      var es, e := StaleFailureReopens(cfg, budget);
      ServedExactlyWhenTimely(cfg, rc, budget, es + [e]);
      assert ServesStale(cfg, rc, budget, es, e);
      var fs, f := StaleSuccessCloses(cfg, budget);
      ServedExactlyWhenTimely(cfg, rc, budget, fs + [f]);
      assert ServesStale(cfg, rc, budget, fs, f);
    } else {
      forall es, e ensures !ServesStale(cfg, rc, budget, es, e) {
        ServedExactlyWhenTimely(cfg, rc, budget, es + [e]);
        if Serviceable(cfg, rc, budget, es + [e]) {
          DrainedEpisodes(cfg, budget, es, e);
        }
      }
    }
  }
}
