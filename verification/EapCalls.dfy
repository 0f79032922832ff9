/** One Access-Request keeps the handler's structure, whatever it carries and whatever the TLS
    library, the TEAP state machine and the random source answer. */
module EapCalls {
  import opened Octets
  import opened EapCodec
  import opened EapSessions
  import opened Binding
  import opened EapHandler
  import opened EapStructure

  ghost predicate OthersSettled(cfg: Config, h: Handler, id: Id) {
    forall other :: other in h.m.sessions && other != id ==> Settled(cfg, h, other)
  }

  // ---------------------------------------------------------------------------------------
  // Eviction
  // ---------------------------------------------------------------------------------------

  lemma EvictingFewer(h: Handler, m: Manager, clock: nat)
    requires Orderly(h, clock) && Within(m, h.m)
    ensures Fewer(h, Evicting(h, m))
  {
    var h' := Evicting(h, m);
    assert h'.tls == (map id | id in h.tls && id in h'.m.sessions :: h.tls[id]);
    assert h'.teap == (map id | id in h.teap && id in h'.m.sessions :: h.teap[id]);
  }

  lemma FewerStructured(cfg: Config, h: Handler, h': Handler, clock: nat)
    requires Structured(cfg, h, clock) && Fewer(h, h') && h'.m.WellFormed(clock)
    ensures Structured(cfg, h', clock)
  {
    assert h'.m.sessions.Keys <= h.m.sessions.Keys;
    SubsetSize(h'.m.sessions.Keys, h.m.sessions.Keys);
    forall id | id in h'.m.sessions ensures Settled(cfg, h', id) {
      assert Settled(cfg, h, id);
    }
  }

  lemma ReapIdleKeeps(cfg: Config, h: Handler, clock: nat, now: nat)
    requires Structured(cfg, h, clock)
    ensures Structured(cfg, ReapIdle(h, now), clock) && Fewer(h, ReapIdle(h, now))
    ensures forall id :: id in ReapIdle(h, now).m.sessions <==>
              id in h.m.sessions && now <= h.m.sessions[id].lastActivity + h.m.timeout
  {
    SweepKeeps(h.m, clock, now);
    SweepExactly(h.m, now);
    EvictingFewer(h, h.m.SweepIdle(now), clock);
    FewerStructured(cfg, h, ReapIdle(h, now), clock);
  }

  /** The sessions active within the timeout. */
  function Active(m: Manager, now: nat): set<Id> {
    set id | id in m.sessions && now <= m.sessions[id].lastActivity + m.timeout
  }

  /** Only active sessions are left, all of them if one more fits and otherwise as many as leave room for one more; and
      those are more recently used than the ones that had to go. */
  ghost predicate ReapsExactly(m: Manager, left: Manager, now: nat) {
    var active := Active(m, now);
    && left.sessions.Keys <= active
    && |left.sessions| == (if |active| < m.maxSessions then |active| else m.maxSessions - 1)
    && forall kept, gone :: kept in left.sessions && gone in active && gone !in left.sessions ==>
         m.sessions[gone].lruSeq < m.sessions[kept].lruSeq
  }

  lemma ReapMeaning(m: Manager, clock: nat, now: nat)
    requires m.WellFormed(clock) && m.maxSessions >= 1
    ensures ReapsExactly(m, m.SweepIdle(now).Trim(), now)
  {
    var swept := m.SweepIdle(now);
    SweepKeeps(m, clock, now);
    SweepExactly(m, now);
    TrimMeaning(swept, clock);
    assert swept.sessions.Keys == Active(m, now);
  }

  lemma ReapKeeps(cfg: Config, h: Handler, clock: nat, now: nat)
    requires Structured(cfg, h, clock)
    ensures Structured(cfg, Reap(h, now), clock) && Fewer(h, Reap(h, now))
    ensures |Reap(h, now).m.sessions| < h.m.maxSessions && ReapsExactly(h.m, Reap(h, now).m, now)
  {
    var swept := h.m.SweepIdle(now);
    SweepKeeps(h.m, clock, now);
    TrimMeaning(swept, clock);
    hide ReapsExactly;
    ReapMeaning(h.m, clock, now);
    EvictingFewer(h, swept.Trim(), clock);
    FewerStructured(cfg, h, Reap(h, now), clock);
  }

  // ---------------------------------------------------------------------------------------
  // Starting
  // ---------------------------------------------------------------------------------------

  /** A conversation that was just created under `id` on top of `base`. */
  ghost predicate Created(cfg: Config, base: Handler, h: Handler, id: Id, clock: nat) {
    && id !in base.m.sessions && Open(cfg, h, id, clock) && SameOthers(base, h, id)
    && id !in h.tls && id !in h.teap && |h.m.sessions| <= h.m.maxSessions
    && OthersSettled(cfg, h, id)
  }

  lemma CreateOpens(cfg: Config, h: Handler, id: Id, binding: seq<byte>, clock: nat, now: nat)
    requires Structured(cfg, h, clock) && clock <= now
    requires id !in h.m.sessions && NamesItself(id) && |h.m.sessions| < h.m.maxSessions
    ensures var m := h.m.Create(id, now);
            && id in m.sessions
            && var h1 := h.(m := m.Put(id, m.sessions[id].(binding := binding)));
               Created(cfg, h, h1, id, now) &&
                 h1.m.sessions[id] == NewSession(now).(lruSeq := h.m.nextSeq, binding := binding)
  {
    CreateBoundKeeps(h.m, id, binding, clock, now);
    var m := h.m.Create(id, now);
    assert OthersSettled(cfg, h, id);
    var s := m.sessions[id].(binding := binding);
    assert m.Put(id, s).sessions == h.m.sessions[id := s];
    PlaceOrderly(h, id, m.Put(id, s), s, now);
    PlaceOpens(cfg, h, id, m.Put(id, s), s, now);
  }

  lemma {:induction false} PlaceOpens(cfg: Config, h: Handler, id: Id, m: Manager, s: Session, now: nat)
    requires OthersSettled(cfg, h, id) && id !in h.tls && id !in h.teap
    requires id !in h.m.sessions && NamesItself(id) && |h.m.sessions| < h.m.maxSessions == m.maxSessions
    requires m.sessions == h.m.sessions[id := s] && s.state.Initialize?
    requires Orderly(h.(m := m), now) && SameOthers(h, h.(m := m), id)
    ensures Created(cfg, h, h.(m := m), id, now)
  {
    hide OthersSettled, NamesItself, SameOthers, Orderly;
    assert m.sessions.Keys == h.m.sessions.Keys + {id};
    OthersFrame(cfg, h, h.(m := m), id);
  }

  lemma {:induction false} PlaceOrderly(h: Handler, id: Id, m: Manager, s: Session, now: nat)
    requires h.tls.Keys <= h.m.sessions.Keys && h.teap.Keys <= h.m.sessions.Keys && m.maxSessions >= 1
    requires m.WellFormed(now) && m.timeout == h.m.timeout && m.maxSessions == h.m.maxSessions
    requires m.sessions == h.m.sessions[id := s]
    ensures Orderly(h.(m := m), now) && SameOthers(h, h.(m := m), id)
  {
    assert m.sessions.Keys == h.m.sessions.Keys + {id};
    UpdateElsewhere(h.m.sessions, id, s);
  }

  lemma StartSessionOpens(cfg: Config, h: Handler, binding: seq<byte>, env: Env, clock: nat)
    requires Structured(cfg, h, clock) && clock <= env.clock.create
    requires StartSession(h, binding, env).1.Some?
    ensures var (h1, started) := StartSession(h, binding, env);
            && Created(cfg, Reap(h, env.clock.reap), h1, started.value, env.clock.create)
            && h1.m.sessions[started.value] ==
               NewSession(env.clock.create).(lruSeq := Reap(h, env.clock.reap).m.nextSeq, binding := binding)
  {
    ReapKeeps(cfg, h, clock, env.clock.reap);
    StateMapping(env.drawn.value, env.drawn.value);
    CreateOpens(cfg, Reap(h, env.clock.reap), SessionIdForState(env.drawn).value, binding, clock, env.clock.create);
  }

  lemma SeedOpens(cfg: Config, h: Handler, id: Id, response: byte, clock: nat, now: nat)
    requires Open(cfg, h, id, clock) && clock <= now
    ensures var h1 := Seed(h, id, response, now);
            && Open(cfg, h1, id, now) && SameOthers(h, h1, id) && h1.tls == h.tls && h1.teap == h.teap
            && h1.m.sessions[id] ==
                  h.m.sessions[id].(lruSeq := h.m.nextSeq, lastActivity := now).SeedIdentifierAfter(response)
  {
    var s := h.m.sessions[id].(lruSeq := h.m.nextSeq, lastActivity := now).SeedIdentifierAfter(response);
    TouchAndPut(h, id, s, clock, now, now);
    assert Seed(h, id, response, now) == h.(m := h.m.Touch(id, now).Put(id, s));
  }

  // ---------------------------------------------------------------------------------------
  // Finishing
  // ---------------------------------------------------------------------------------------

  lemma OthersFrame(cfg: Config, h: Handler, h': Handler, id: Id)
    requires SameOthers(h, h', id) && OthersSettled(cfg, h, id)
    ensures OthersSettled(cfg, h', id)
  {
    forall other | other in h'.m.sessions && other != id ensures Settled(cfg, h', other) {
      InOthers(h, h', id, other);
      assert Settled(cfg, h, other);
    }
  }

  lemma InOthers(h: Handler, h': Handler, id: Id, other: Id)
    requires SameOthers(h, h', id) && other != id
    ensures other in h'.m.sessions <==> other in h.m.sessions
    ensures other in h.m.sessions ==> h'.m.sessions[other] == h.m.sessions[other]
    ensures other in h'.tls <==> other in h.tls
    ensures other in h.tls ==> h'.tls[other] == h.tls[other]
    ensures other in h'.teap <==> other in h.teap
    ensures other in h.teap ==> h'.teap[other] == h.teap[other]
  {
    var s, s' := h.m.sessions - {id}, h'.m.sessions - {id};
    assert other in h.m.sessions <==> other in s;
    assert other in h'.m.sessions <==> other in s';
    var t, t' := h.tls - {id}, h'.tls - {id};
    assert other in h.tls <==> other in t;
    assert other in h'.tls <==> other in t';
    var e, e' := h.teap - {id}, h'.teap - {id};
    assert other in h.teap <==> other in e;
    assert other in h'.teap <==> other in e';
  }

  lemma SameKeys(h: Handler, h': Handler, id: Id)
    requires SameOthers(h, h', id) && id in h.m.sessions && id in h'.m.sessions
    ensures h'.m.sessions.Keys == h.m.sessions.Keys
  {
    forall other ensures other in h.m.sessions <==> other in h'.m.sessions {
      if other != id { InOthers(h, h', id, other); }
    }
  }

  /** The conversation a call worked on is either waiting for the answer to the Request in the
      Challenge just returned, or entirely forgotten. */
  ghost predicate Concluded(cfg: Config, out: Out, id: Id) {
    if out.result.Challenge? then id in out.h.m.sessions && NamesItself(id) && Announces(cfg, out, id)
    else id !in out.h.m.sessions && id !in out.h.tls && id !in out.h.teap
  }

  lemma FinishKeeps(cfg: Config, h: Handler, id: Id, out: Out, clock: nat, now: nat)
    requires Served(cfg, h, id, out, clock) && clock <= now
    requires OthersSettled(cfg, h, id) && id in h.m.sessions && |h.m.sessions| <= h.m.maxSessions
    ensures var done := Finish(out, id, now);
            && Structured(cfg, done.h, now) && SameOthers(h, done.h, id)
            && done.result == out.result && done.log == out.log
            && Concluded(cfg, done, id)
  {
    OthersFrame(cfg, h, out.h, id);
    SameKeys(h, out.h, id);
    var done := Finish(out, id, now);
    if out.result.Challenge? {
      TouchKeeps(out.h.m, id, clock, now);
      FinishSettled(cfg, out, id, now);
    } else {
      EndKeeps(cfg, out.h, id, clock);
      OrderlyLater(done.h, clock, now);
      assert done.h.m.sessions.Keys <= out.h.m.sessions.Keys;
      SubsetSize(done.h.m.sessions.Keys, out.h.m.sessions.Keys);
    }
    OthersFrame(cfg, out.h, done.h, id);
  }

  lemma EndKeeps(cfg: Config, h: Handler, id: Id, clock: nat)
    requires Orderly(h, clock)
    ensures var e := EndSession(h, id);
            Orderly(e, clock) && SameOthers(h, e, id) && id !in e.m.sessions && id !in e.tls && id !in e.teap
  {
    RemoveKeeps(h.m, id, clock);
    DropKeeps(h, id, clock);
    var e := EndSession(h, id);
    assert e.m.sessions == h.m.sessions - {id};
  }

  lemma FinishSettled(cfg: Config, out: Out, id: Id, now: nat)
    requires out.result.Challenge? && id in out.h.m.sessions
    requires Settled(cfg, out.h, id) && Announces(cfg, out, id)
    ensures var done := Finish(out, id, now);
            && SameOthers(out.h, done.h, id) && id in done.h.m.sessions
            && Settled(cfg, done.h, id) && Announces(cfg, done, id)
            && done.h.m.sessions.Keys == out.h.m.sessions.Keys
            && done.h.tls == out.h.tls && done.h.teap == out.h.teap
  {
    var done := Finish(out, id, now);
    assert done.h.m.sessions ==
           out.h.m.sessions[id := out.h.m.sessions[id].(lruSeq := out.h.m.nextSeq, lastActivity := now)];
  }

  // ---------------------------------------------------------------------------------------
  // The call
  // ---------------------------------------------------------------------------------------

  /** The effect of a call that starts from `base`: nothing, or a step of one conversation. */
  ghost predicate Effect(cfg: Config, base: Handler, out: Out, now: nat) {
    && Structured(cfg, out.h, now)
    && (out.log == [] ==> (out.result.Reject? || out.result.Discard?) && out.h == base)
    && (out.log != [] ==>
          SameOthers(base, out.h, out.log[0].id) && Concluded(cfg, out, out.log[0].id) && !out.result.Discard?)
  }

  /** Handle the identity of a conversation just created, and finish. */
  lemma BeganKeeps(cfg: Config, base: Handler, h: Handler, user: string, id: Id, began: Event, env: Env, clock: nat)
    requires Created(cfg, base, h, id, clock) && began.id == id
    requires clock <= env.clock.touch <= env.clock.issue <= env.clock.stamp <= env.clock.finish
    ensures var out := HandleIdentity(cfg, h, user, id, env);
            Effect(cfg, base, Finish(out.(log := [began] + out.log), id, env.clock.finish), env.clock.finish)
  {
    var out := HandleIdentity(cfg, h, user, id, env);
    IdentityServes(cfg, h, user, id, env, clock);
    var logged := out.(log := [began] + out.log);
    ServedLogged(cfg, h, id, out, [began], env.clock.stamp);
    FinishKeeps(cfg, h, id, logged, env.clock.stamp, env.clock.finish);
  }

  lemma SeedCreated(cfg: Config, base: Handler, h: Handler, id: Id, response: byte, clock: nat, now: nat)
    requires Created(cfg, base, h, id, clock) && clock <= now
    ensures Created(cfg, base, Seed(h, id, response, now), id, now)
  {
    SeedOpens(cfg, h, id, response, clock, now);
    OthersFrame(cfg, h, Seed(h, id, response, now), id);
    SameKeys(h, Seed(h, id, response, now), id);
  }

  lemma BeginKeeps(cfg: Config, h: Handler, user: string, binding: seq<byte>, seed: Option<byte>, env: Env, clock: nat)
    requires Structured(cfg, h, clock) && env.clock.Monotone(clock)
    ensures Effect(cfg, Reap(h, env.clock.reap), Begin(cfg, h, user, binding, seed, env), env.clock.finish)
  {
    var base := Reap(h, env.clock.reap);
    ReapKeeps(cfg, h, clock, env.clock.reap);
    var (h1, started) := StartSession(h, binding, env);
    if started.None? {
      OrderlyLater(h1, clock, env.clock.finish);
    } else {
      StartSessionOpens(cfg, h, binding, env, clock);
      BeginCreated(cfg, base, h1, user, started.value, binding, seed, env);
    }
  }

  /** Seed the Identifier if the peer sent one, then handle its identity. */
  lemma BeginCreated(cfg: Config, base: Handler, h: Handler, user: string, id: Id, binding: seq<byte>,
                     seed: Option<byte>, env: Env)
    requires Created(cfg, base, h, id, env.clock.create)
    requires env.clock.create <= env.clock.seed <= env.clock.touch
    requires env.clock.touch <= env.clock.issue <= env.clock.stamp <= env.clock.finish
    ensures var h2 := if seed.Some? then Seed(h, id, seed.value, env.clock.seed) else h;
            var out := HandleIdentity(cfg, h2, user, id, env);
            Effect(cfg, base, Finish(out.(log := [Began(id, binding, seed)] + out.log), id, env.clock.finish),
                   env.clock.finish)
  {
    if seed.Some? {
      SeedCreated(cfg, base, h, id, seed.value, env.clock.create, env.clock.seed);
      BeganKeeps(cfg, base, Seed(h, id, seed.value, env.clock.seed), user, id, Began(id, binding, seed), env,
                 env.clock.seed);
    } else {
      BeganKeeps(cfg, base, h, user, id, Began(id, binding, seed), env, env.clock.create);
    }
  }

  lemma ClaimKeepsOrder(h: Handler, id: Id, clock: nat)
    requires Orderly(h, clock) && id in h.m.sessions
    ensures var h1 := h.(m := h.m.Put(id, h.m.sessions[id].(outstanding := None)));
            Orderly(h1, clock) && SameOthers(h, h1, id)
  {
    PutKeeps(h.m, id, h.m.sessions[id].(outstanding := None), clock, clock);
  }

  lemma ClaimOpens(cfg: Config, h: Handler, id: Id, binding: seq<byte>, identifier: byte, clock: nat)
    requires Structured(cfg, h, clock) && h.m.ClaimOf(id, binding, identifier).Claimed?
    ensures var h1 := h.(m := h.m.Claim(id, binding, identifier));
            && Open(cfg, h1, id, clock) && SameOthers(h, h1, id) && OthersSettled(cfg, h1, id)
            && |h1.m.sessions| <= h1.m.maxSessions
            && h1.m.sessions[id] == h.m.sessions[id].(outstanding := None)
  {
    var h1 := h.(m := h.m.Claim(id, binding, identifier));
    assert Settled(cfg, h, id);
    ClaimKeepsOrder(h, id, clock);
    SameKeys(h, h1, id);
    OthersFrame(cfg, h, h1, id);
  }

  lemma DispatchServes(cfg: Config, h: Handler, user: string, id: Id, p: EapPacket, env: Env, clock: nat)
    requires Open(cfg, h, id, clock) && clock <= env.clock.touch <= env.clock.issue <= env.clock.stamp
    requires id in h.tls ==> id !in h.teap && h.m.sessions[id].eapMethod == Some(Tls)
    requires id in h.teap ==> id !in h.tls && h.m.sessions[id].eapMethod == Some(Teap)
    ensures Served(cfg, h, id, Dispatch(cfg, h, user, id, p, env), env.clock.stamp)
  {
    hide ContinueTls, ContinueTeap, HandleNak, Served;
    match p.eapType
    case Some(Tls) => ContinueTlsServes(cfg, h, user, id, p, env, clock);
    case Some(Teap) => ContinueTeapServes(cfg, h, user, id, p, env, clock);
    case Some(Nak) => NakServes(cfg, h, id, p.data, env, clock);
    case _ => RejectServes(cfg, h, id, h, [], clock, env.clock.stamp);
  }

  lemma ContinueKeeps(cfg: Config, h: Handler, user: string, binding: seq<byte>, state: Option<seq<byte>>,
                      p: EapPacket, env: Env, clock: nat)
    requires Structured(cfg, h, clock) && env.clock.Monotone(clock)
    ensures var out := Continue(cfg, h, user, binding, state, p, env);
            && Effect(cfg, h, out, env.clock.finish)
            && (out.log != [] ==> SessionIdForState(state) == Some(out.log[0].id))
  {
    hide Dispatch, Served, SameOthers, EndSession, NamesItself, Orderly, QueueFits;
    var named := SessionIdForState(state);
    if named.None? || !h.m.ClaimOf(named.value, binding, p.identifier).Claimed? {
      RefusedKeeps(cfg, h, Reject, clock, env.clock.finish);
      RefusedKeeps(cfg, h, Discard, clock, env.clock.finish);
      var out := Continue(cfg, h, user, binding, state, p, env);
      assert out == Out(h, Reject, []) || out == Out(h, Discard, []);
    } else {
      var id := named.value;
      var h1 := h.(m := h.m.Claim(id, binding, p.identifier));
      assert Settled(cfg, h, id);
      ClaimOpens(cfg, h, id, binding, p.identifier, clock);
      DispatchServes(cfg, h1, user, id, p, env, clock);
      var out := Dispatch(cfg, h1, user, id, p, env);
      var logged := out.(log := [ResponseClaimed(id, binding, p.identifier)] + out.log);
      ServedLogged(cfg, h1, id, out, [ResponseClaimed(id, binding, p.identifier)], env.clock.stamp);
      FinishKeeps(cfg, h1, id, logged, env.clock.stamp, env.clock.finish);
      OthersTransitive(h, h1, Finish(logged, id, env.clock.finish).h, id);
    }
  }

  lemma OthersTransitive(h: Handler, h1: Handler, h2: Handler, id: Id)
    requires SameOthers(h, h1, id) && SameOthers(h1, h2, id)
    ensures SameOthers(h, h2, id)
  {
  }

  lemma RouteKeeps(cfg: Config, h: Handler, request: seq<Attribute>, client: Option<Ip>, env: Env, clock: nat)
    requires Structured(cfg, h, clock) && env.clock.Monotone(clock)
    ensures var base := if Read(request).Opening? then Reap(h, env.clock.reap) else h;
            Effect(cfg, base, Route(cfg, h, request, client, env), env.clock.finish)
  {
    var user, binding := UserName(cfg, request), ConversationBinding(request, client);
    match Read(request)
    case Opening(seed) => BeginKeeps(cfg, h, user, binding, seed, env, clock);
    case Answering(p) => ContinueKeeps(cfg, h, user, binding, Find(request, STATE), p, env, clock);
    case Unreadable => RefusedKeeps(cfg, h, Reject, clock, env.clock.finish);
  }

  lemma RefusedKeeps(cfg: Config, h: Handler, result: AuthResult, clock: nat, now: nat)
    requires Structured(cfg, h, clock) && clock <= now && (result.Reject? || result.Discard?)
    ensures Effect(cfg, h, Out(h, result, []), now)
  {
    OrderlyLater(h, clock, now);
  }

  /** The handler after the evictions a request triggers: idle conversations, and when a new
      conversation is asked for, as many of the least recently used as it needs. */
  function AfterEviction(h: Handler, request: seq<Attribute>, env: Env): Handler {
    var idle := ReapIdle(h, env.clock.idle);
    if Read(request).Opening? then Reap(idle, env.clock.reap) else idle
  }

  /** What a request gets that neither starts a conversation nor answers an outstanding Request, on a
      handler whose idle conversations are gone; `None` for one that does. */
  function Refusal(h: Handler, request: seq<Attribute>, client: Option<Ip>, env: Env): Option<AuthResult> {
    match Read(request)
    case Opening(_) =>
      var id := SessionIdForState(env.drawn);
      if id.None? || id.value in Reap(h, env.clock.reap).m.sessions then Some(Reject) else None
    case Unreadable => Some(Reject)
    case Answering(p) =>
      var id := SessionIdForState(Find(request, STATE));
      if id.None? then Some(Reject)
      else
        match h.m.ClaimOf(id.value, ConversationBinding(request, client), p.identifier)
        case Claimed => None
        case IdentifierMismatch => Some(Discard)
        case _ => Some(Reject)
  }

  /** `out` is the refusal, if there is one, and nothing else is silent or discarded. */
  predicate Refuses(refusal: Option<AuthResult>, base: Handler, out: Out) {
    && (refusal.Some? <==> out.log == [])
    && (refusal.Some? ==> out.result == refusal.value && out.h == base)
    && (out.result.Discard? <==> refusal == Some(Discard))
  }

  /** What one call does to the handler. A refused packet changes nothing beyond eviction. Any
      other packet concerns the one conversation named first in its log, which is afterwards
      either waiting on the Challenge returned or entirely forgotten. */
  lemma {:induction false} CallKeeps(cfg: Config, h: Handler, request: seq<Attribute>, client: Option<Ip>, env: Env,
                                     clock: nat)
    requires Structured(cfg, h, clock) && env.clock.Monotone(clock)
    ensures Effect(cfg, AfterEviction(h, request, env), Authenticate(cfg, h, request, client, env), env.clock.finish)
    ensures Refuses(Refusal(ReapIdle(h, env.clock.idle), request, client, env), AfterEviction(h, request, env),
                    Authenticate(cfg, h, request, client, env))
    ensures Fewer(h, AfterEviction(h, request, env))
  {
    var idle := ReapIdle(h, env.clock.idle);
    ReapIdleKeeps(cfg, h, clock, env.clock.idle);
    RouteKeeps(cfg, idle, request, client, env, clock);
    RouteRefuses(cfg, idle, request, client, env);
    assert Authenticate(cfg, h, request, client, env) == Route(cfg, idle, request, client, env);
    if Read(request).Opening? {
      ReapKeeps(cfg, idle, clock, env.clock.reap);
      FewerTransitive(h, idle, Reap(idle, env.clock.reap));
    }
  }

  /** A request is refused exactly when it does nothing that is logged. */
  lemma {:induction false} RouteRefuses(cfg: Config, h: Handler, request: seq<Attribute>, client: Option<Ip>, env: Env)
    ensures var out, refusal := Route(cfg, h, request, client, env), Refusal(h, request, client, env);
            (refusal.Some? <==> out.log == []) && (refusal.Some? ==> out.result == refusal.value)
  {
  }

  lemma FewerTransitive(h: Handler, h1: Handler, h2: Handler)
    requires Fewer(h, h1) && Fewer(h1, h2)
    ensures Fewer(h, h2)
  {
    assert h2.tls == (map id | id in h.tls && id in h2.m.sessions :: h.tls[id]);
    assert h2.teap == (map id | id in h.teap && id in h2.m.sessions :: h.teap[id]);
  }
}
