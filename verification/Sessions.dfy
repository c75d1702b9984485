// internal/cqappbff/session.go: the session store. Expiry is lazy: an expired
// session stays until someone asks for it.
module Sessions {
  import opened Decimal

  datatype Session = Session(id: string, staff: string, expiresAt: int)

  type Table = map<string, Session>

  // Get: what it returns, and what it leaves. Expired means now is not before
  // the expiry time.
  function Lookup(byID: Table, id: string, now: int): Option<Session> {
    if id in byID && now < byID[id].expiresAt then Some(byID[id]) else None
  }

  function AfterGet(byID: Table, id: string, now: int): Table {
    if id in byID && byID[id].expiresAt <= now then byID - {id} else byID
  }

  // The sessions a store would hold if it dropped each at its expiry.
  function Live(byID: Table, now: int): Table {
    map id | id in byID && now < byID[id].expiresAt :: byID[id]
  }

  // ------------------------------------------------------------------ runs

  datatype Event =
    | Create(at: int, id: string, staff: string)
    | Get(at: int, id: string)
    | Delete(at: int, id: string)

  // The lazy store, an eager one that drops sessions as they expire, the clock,
  // and every id ever issued.
  datatype State = State(lazy: Table, eager: Table, now: int, issued: set<string>)

  const START := State(map[], map[], 0, {})

  // The clock does not go back, and ids are fresh.
  predicate Enabled(s: State, e: Event) {
    s.now <= e.at && (e.Create? ==> e.id !in s.issued)
  }

  function Step(ttl: int, s: State, e: Event): State {
    var dropped := Live(s.eager, e.at);
    match e
    case Create(at, id, staff) =>
      var sess := Session(id, staff, at + ttl);
      State(s.lazy[id := sess], Live(dropped[id := sess], at), at, s.issued + {id})
    case Get(at, id) => s.(lazy := AfterGet(s.lazy, id, at), eager := dropped, now := at)
    case Delete(at, id) => s.(lazy := s.lazy - {id}, eager := dropped - {id}, now := at)
  }

  function Run(ttl: int, es: seq<Event>): State {
    if es == [] then START else Step(ttl, Run(ttl, es[..|es| - 1]), es[|es| - 1])
  }

  predicate Legal(ttl: int, es: seq<Event>) {
    es == [] || (Legal(ttl, es[..|es| - 1]) && Enabled(Run(ttl, es[..|es| - 1]), es[|es| - 1]))
  }

  lemma RunExtended(ttl: int, es: seq<Event>, e: Event)
    ensures Run(ttl, es + [e]) == Step(ttl, Run(ttl, es), e)
    ensures Legal(ttl, es + [e]) <==> Legal(ttl, es) && Enabled(Run(ttl, es), e)
  {
    assert (es + [e])[..|es + [e]| - 1] == es;
  }

  // ------------------------------------------------ lazy agrees with eager

  lemma StepAgrees(ttl: int, s: State, e: Event)
    requires s.eager == Live(s.lazy, s.now) && Enabled(s, e)
    ensures Step(ttl, s, e).eager == Live(Step(ttl, s, e).lazy, e.at)
  {
    assert Live(s.eager, e.at) == Live(s.lazy, e.at);
  }

  lemma {:induction false} EagerIsLive(ttl: int, es: seq<Event>)
    requires Legal(ttl, es)
    ensures Run(ttl, es).eager == Live(Run(ttl, es).lazy, Run(ttl, es).now)
  {
    if es != [] {
      EagerIsLive(ttl, es[..|es| - 1]);
      StepAgrees(ttl, Run(ttl, es[..|es| - 1]), es[|es| - 1]);
    }
  }

  lemma LiveIsFewer(byID: Table, now: int)
    ensures |Live(byID, now)| <= |byID|
    ensures |Live(byID, now)| == |byID| <==> forall id | id in byID :: now < byID[id].expiresAt
  {
    var live := Live(byID, now);
    assert live.Keys <= byID.Keys;
    assert |live| == |live.Keys| && |byID| == |byID.Keys|;
    var gone := byID.Keys - live.Keys;
    assert byID.Keys == live.Keys + gone;
    assert |byID.Keys| == |live.Keys| + |gone|;
    if |live| == |byID| {
      assert gone == {};
      forall id | id in byID ensures now < byID[id].expiresAt {
        assert id in live.Keys;
      }
    } else {
      assert gone != {};
      var id :| id in gone;
    }
  }

  // Every lookup in the lazy store finds what the eager one holds at that time,
  // and the lazy store counts at least as many sessions.
  lemma LazyAgreesWithEager(ttl: int, es: seq<Event>, id: string, at: int)
    requires Legal(ttl, es) && Run(ttl, es).now <= at
    ensures var s := Run(ttl, es);
            var eager := Live(s.eager, at);
            && Lookup(s.lazy, id, at) == (if id in eager then Some(eager[id]) else None)
            && |eager| <= |s.lazy|
  {
    EagerIsLive(ttl, es);
    var s := Run(ttl, es);
    assert Live(s.eager, at) == Live(s.lazy, at);
    LiveIsFewer(s.lazy, at);
  }

  // ------------------------------------------------- what the events say

  // Created at the i-th event, never deleted since, and not yet expired.
  ghost predicate Granted(ttl: int, es: seq<Event>, i: nat, sess: Session, at: int) {
    && i < |es| && es[i].Create?
    && sess == Session(es[i].id, es[i].staff, es[i].at + ttl)
    && at < sess.expiresAt
    && forall j | i < j < |es| :: !(es[j].Delete? && es[j].id == sess.id)
  }

  ghost predicate IsGranted(ttl: int, es: seq<Event>, sess: Session, at: int) {
    exists i: nat :: Granted(ttl, es, i, sess, at)
  }

  lemma GrantedExtended(ttl: int, es: seq<Event>, e: Event, sess: Session, at: int)
    ensures IsGranted(ttl, es + [e], sess, at) <==>
            || (e.Create? && sess == Session(e.id, e.staff, e.at + ttl) && at < sess.expiresAt)
            || (!(e.Delete? && e.id == sess.id) && IsGranted(ttl, es, sess, at))
  {
    var fs := es + [e];
    if IsGranted(ttl, es, sess, at) && !(e.Delete? && e.id == sess.id) {
      var i: nat :| Granted(ttl, es, i, sess, at);
      assert Granted(ttl, fs, i, sess, at);
    }
    if e.Create? && sess == Session(e.id, e.staff, e.at + ttl) && at < sess.expiresAt {
      assert Granted(ttl, fs, |es|, sess, at);
    }
    if IsGranted(ttl, fs, sess, at) {
      var i: nat :| Granted(ttl, fs, i, sess, at);
      if i < |es| {
        assert fs[|es|] == e;
        assert forall j | i < j < |es| :: es[j] == fs[j];
        assert Granted(ttl, es, i, sess, at);
      }
    }
  }

  // A granted session's id has been issued.
  lemma {:induction false} GrantedIsIssued(ttl: int, es: seq<Event>, sess: Session, at: int)
    requires IsGranted(ttl, es, sess, at)
    ensures sess.id in Run(ttl, es).issued
  {
    if es != [] {
      var init, e := es[..|es| - 1], es[|es| - 1];
      assert es == init + [e];
      GrantedExtended(ttl, init, e, sess, at);
      if IsGranted(ttl, init, sess, at) {
        GrantedIsIssued(ttl, init, sess, at);
      }
    }
  }

  // Get returns exactly the session that was created under the id, not deleted
  // since, and not expired.
  lemma {:induction false} GetIsExact(ttl: int, es: seq<Event>, sess: Session, at: int)
    requires Legal(ttl, es) && Run(ttl, es).now <= at
    ensures Lookup(Run(ttl, es).lazy, sess.id, at) == Some(sess) <==> IsGranted(ttl, es, sess, at)
  {
    if es != [] {
      var init, e := es[..|es| - 1], es[|es| - 1];
      assert es == init + [e];
      GetIsExact(ttl, init, sess, at);
      GrantedExtended(ttl, init, e, sess, at);
      if IsGranted(ttl, init, sess, at) {
        GrantedIsIssued(ttl, init, sess, at);
      }
    }
  }

  lemma FoundUnderItsId(ttl: int, es: seq<Event>, id: string, at: int)
    requires Legal(ttl, es)
    ensures Lookup(Run(ttl, es).lazy, id, at).Some? ==> Lookup(Run(ttl, es).lazy, id, at).value.id == id
  {
    if es != [] {
      FoundUnderItsId(ttl, es[..|es| - 1], id, at);
    }
  }

  // Created at the i-th event, and never since deleted, or asked for once it had
  // expired.
  ghost predicate Held(ttl: int, es: seq<Event>, i: nat, sess: Session) {
    && i < |es| && es[i].Create?
    && sess == Session(es[i].id, es[i].staff, es[i].at + ttl)
    && forall j | i < j < |es| :: !Drops(es[j], sess)
  }

  predicate Drops(e: Event, sess: Session) {
    (e.Delete? && e.id == sess.id) || (e.Get? && e.id == sess.id && sess.expiresAt <= e.at)
  }

  ghost predicate IsHeld(ttl: int, es: seq<Event>, sess: Session) {
    exists i: nat :: Held(ttl, es, i, sess)
  }

  lemma HeldExtended(ttl: int, es: seq<Event>, e: Event, sess: Session)
    ensures IsHeld(ttl, es + [e], sess) <==>
            || (e.Create? && sess == Session(e.id, e.staff, e.at + ttl))
            || (!Drops(e, sess) && IsHeld(ttl, es, sess))
  {
    var fs := es + [e];
    if IsHeld(ttl, es, sess) && !Drops(e, sess) {
      var i: nat :| Held(ttl, es, i, sess);
      assert Held(ttl, fs, i, sess);
    }
    if e.Create? && sess == Session(e.id, e.staff, e.at + ttl) {
      assert Held(ttl, fs, |es|, sess);
    }
    if IsHeld(ttl, fs, sess) {
      var i: nat :| Held(ttl, fs, i, sess);
      if i < |es| {
        assert fs[|es|] == e;
        assert forall j | i < j < |es| :: es[j] == fs[j];
        assert Held(ttl, es, i, sess);
      }
    }
  }

  // A held session's id has been issued.
  lemma {:induction false} HeldIsIssued(ttl: int, es: seq<Event>, sess: Session)
    requires IsHeld(ttl, es, sess)
    ensures sess.id in Run(ttl, es).issued
  {
    if es != [] {
      var init, e := es[..|es| - 1], es[|es| - 1];
      assert es == init + [e];
      HeldExtended(ttl, init, e, sess);
      if IsHeld(ttl, init, sess) {
        HeldIsIssued(ttl, init, sess);
      }
    }
  }

  // The store keeps exactly the sessions held, each under its own id.
  lemma {:induction false} HeldExactly(ttl: int, es: seq<Event>, sess: Session)
    requires Legal(ttl, es)
    ensures var lazy := Run(ttl, es).lazy;
            sess.id in lazy && lazy[sess.id] == sess <==> IsHeld(ttl, es, sess)
  {
    if es != [] {
      var init, e := es[..|es| - 1], es[|es| - 1];
      assert es == init + [e];
      HeldExactly(ttl, init, sess);
      HeldExtended(ttl, init, e, sess);
      if IsHeld(ttl, init, sess) {
        HeldIsIssued(ttl, init, sess);
      }
    }
  }

  lemma {:induction false} KeptUnderItsId(ttl: int, es: seq<Event>, id: string)
    requires Legal(ttl, es) && id in Run(ttl, es).lazy
    ensures Run(ttl, es).lazy[id].id == id
  {
    if es != [] {
      var init := es[..|es| - 1];
      if id in Run(ttl, init).lazy {
        KeptUnderItsId(ttl, init, id);
      }
    }
  }

  // The store counts exactly the live sessions when, and only when, every one
  // created, and since neither deleted nor asked for after its expiry, is still
  // to expire.
  lemma CountExactly(ttl: int, es: seq<Event>, at: int)
    requires Legal(ttl, es) && Run(ttl, es).now <= at
    ensures |Run(ttl, es).lazy| == |Live(Run(ttl, es).eager, at)|
            <==> forall sess | IsHeld(ttl, es, sess) :: at < sess.expiresAt
  {
    var s := Run(ttl, es);
    EagerIsLive(ttl, es);
    assert Live(s.eager, at) == Live(s.lazy, at);
    LiveIsFewer(s.lazy, at);
    forall id | id in s.lazy ensures IsHeld(ttl, es, s.lazy[id]) {
      KeptUnderItsId(ttl, es, id);
      HeldExactly(ttl, es, s.lazy[id]);
    }
    forall sess | IsHeld(ttl, es, sess) ensures sess.id in s.lazy && s.lazy[sess.id] == sess {
      HeldExactly(ttl, es, sess);
    }
  }

  // A session that is gone never returns, whatever follows.
  lemma {:induction false} GoneStaysGone(ttl: int, es: seq<Event>, fs: seq<Event>, id: string, at: int, later: int)
    requires Legal(ttl, es + fs) && id in Run(ttl, es).issued
    requires Lookup(Run(ttl, es).lazy, id, at).None?
    requires Run(ttl, es).now <= at <= later && forall f | f in fs :: at <= f.at
    ensures id in Run(ttl, es + fs).issued && Lookup(Run(ttl, es + fs).lazy, id, later).None?
    decreases |fs|
  {
    if fs == [] {
      assert es + fs == es;
    } else {
      var init, f := fs[..|fs| - 1], fs[|fs| - 1];
      assert es + fs == (es + init) + [f];
      RunExtended(ttl, es + init, f);
      GoneStaysGone(ttl, es, init, id, at, later);
    }
  }

  // The store's own count is not the number of live sessions: one that expired
  // and was not asked for since is still counted.
  lemma CountKeepsExpired(ttl: int, id: string, staff: string, at: int)
    requires 0 < ttl <= at
    ensures var es := [Create(0, id, staff)];
            Legal(ttl, es) && |Run(ttl, es).lazy| == 1 && Live(Run(ttl, es).eager, at) == map[]
  {
    RunExtended(ttl, [], Create(0, id, staff));
    assert [] + [Create(0, id, staff)] == [Create(0, id, staff)];
  }

  // ------------------------------------------------------------- the store

  class SessionStore {
    const ttl: int
    var byID: Table
    ghost var trace: seq<Event>

    ghost predicate Valid()
      reads this
    {
      Legal(ttl, trace) && Run(ttl, trace).lazy == byID
    }

    constructor (ttl: int)
      ensures Valid() && this.ttl == ttl && trace == [] && byID == map[]
    {
      this.ttl := ttl;
      byID := map[];
      trace := [];
    }

    // The id is fresh: it comes from 256 random bits.
    method Create(now: int, id: string, staff: string) returns (sess: Session)
      requires Valid() && Run(ttl, trace).now <= now && id !in Run(ttl, trace).issued
      modifies this
      ensures Valid() && trace == old(trace) + [Event.Create(now, id, staff)]
      ensures sess == Session(id, staff, now + ttl) && byID == old(byID)[id := sess]
    {
      RunExtended(ttl, trace, Event.Create(now, id, staff));
      sess := Session(id, staff, now + ttl);
      byID := byID[id := sess];
      trace := trace + [Event.Create(now, id, staff)];
    }

    method Get(now: int, id: string) returns (sess: Option<Session>)
      requires Valid() && Run(ttl, trace).now <= now
      modifies this
      ensures Valid() && trace == old(trace) + [Event.Get(now, id)]
      ensures sess == Lookup(old(byID), id, now) && byID == AfterGet(old(byID), id, now)
      ensures forall s: Session | s.id == id :: sess == Some(s) <==> IsGranted(ttl, old(trace), s, now)
      ensures sess.Some? ==> sess.value.id == id
    {
      RunExtended(ttl, trace, Event.Get(now, id));
      FoundUnderItsId(ttl, trace, id, now);
      forall s: Session | s.id == id
        ensures Lookup(byID, id, now) == Some(s) <==> IsGranted(ttl, trace, s, now)
      {
        GetIsExact(ttl, trace, s, now);
      }
      trace := trace + [Event.Get(now, id)];
      if id !in byID {
        return None;
      }
      var s := byID[id];
      if !(now < s.expiresAt) {
        byID := byID - {id};
        return None;
      }
      return Some(s);
    }

    // Signing out reads no clock; `now` is when it happens.
    method Delete(ghost now: int, id: string)
      requires Valid() && Run(ttl, trace).now <= now
      modifies this
      ensures Valid() && trace == old(trace) + [Event.Delete(now, id)]
      ensures byID == old(byID) - {id}
    {
      RunExtended(ttl, trace, Event.Delete(now, id));
      byID := byID - {id};
      trace := trace + [Event.Delete(now, id)];
    }

    // Never fewer than the sessions still live, and just as many exactly when none
    // was left to expire unnoticed.
    method Count(ghost now: int) returns (n: nat)
      requires Valid() && Run(ttl, trace).now <= now
      ensures n == |byID| && |Live(Run(ttl, trace).eager, now)| <= n
      ensures n == |Live(Run(ttl, trace).eager, now)| <==>
              forall sess | IsHeld(ttl, trace, sess) :: now < sess.expiresAt
    {
      CountExactly(ttl, trace, now);
      LazyAgreesWithEager(ttl, trace, "", now);
      return |byID|;
    }
  }
}
