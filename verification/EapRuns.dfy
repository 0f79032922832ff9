/** Whole runs of the handler: any sequence of Access-Requests and reaper calls, with arbitrary
    answers of the outside world, under a clock that does not go backwards. */
module EapRuns {
  import opened Octets
  import opened EapCodec
  import opened EapFragments
  import opened EapSessions
  import opened Binding
  import opened EapHandler
  import opened EapStructure
  import opened EapCalls
  import opened EapTales

  datatype Call =
    | Packet(request: seq<Attribute>, client: Option<Ip>, env: Env)
    | ReapCall(now: nat)
    | ReapIdleCall(now: nat)

  /** Handler, log and the latest clock reading. */
  datatype World = World(h: Handler, log: seq<Event>, clock: nat)

  function Initial(timeout: nat, maxSessions: nat): World {
    World(Handler(EmptyManager(timeout, maxSessions), map[], map[]), [], 0)
  }

  function After(cfg: Config, w: World, call: Call): World {
    match call
    case Packet(request, client, env) =>
      var out := Authenticate(cfg, w.h, request, client, env);
      World(out.h, w.log + out.log, env.clock.finish)
    case ReapCall(now) => w.(h := Reap(w.h, now))
    case ReapIdleCall(now) => w.(h := ReapIdle(w.h, now))
  }

  ghost predicate Timely(w: World, call: Call) {
    call.Packet? ==> call.env.clock.Monotone(w.clock)
  }

  function Play(cfg: Config, w: World, calls: seq<Call>): World {
    if calls == [] then w else After(cfg, Play(cfg, w, calls[..|calls| - 1]), calls[|calls| - 1])
  }

  ghost predicate Valid(cfg: Config, w: World, calls: seq<Call>) {
    calls != [] ==>
      var before := calls[..|calls| - 1];
      Valid(cfg, w, before) && Timely(Play(cfg, w, before), calls[|calls| - 1])
  }

  // ---------------------------------------------------------------------------------------
  // The conversation an ID names
  // ---------------------------------------------------------------------------------------

  /** The events of the latest conversation under `id`. */
  function Conversation(log: seq<Event>, id: Id): seq<Event> {
    if log == [] then []
    else
      var before, last := log[..|log| - 1], log[|log| - 1];
      if last.id != id then Conversation(before, id)
      else if last.Began? then [last]
      else Conversation(before, id) + [last]
  }

  lemma {:induction false} ConversationElsewhere(log: seq<Event>, more: seq<Event>, id: Id)
    requires forall e :: e in more ==> e.id != id
    ensures Conversation(log + more, id) == Conversation(log, id)
    decreases |more|
  {
    if more == [] {
      assert log + more == log;
    } else {
      var n := |more| - 1;
      ConversationElsewhere(log, more[..n], id);
      assert (log + more)[..|log + more| - 1] == log + more[..n];
      assert more[n] in more;
    }
  }

  lemma {:induction false} ConversationGrows(log: seq<Event>, more: seq<Event>, id: Id)
    requires forall i :: 0 <= i < |more| ==> more[i].id == id && !more[i].Began?
    ensures Conversation(log + more, id) == Conversation(log, id) + more
    decreases |more|
  {
    if more == [] {
      assert log + more == log && Conversation(log, id) + [] == Conversation(log, id);
    } else {
      var n := |more| - 1;
      ConversationGrows(log, more[..n], id);
      assert (log + more)[..|log + more| - 1] == log + more[..n];
      assert more == more[..n] + [more[n]];
    }
  }

  lemma ConversationStarts(log: seq<Event>, began: Event, more: seq<Event>, id: Id)
    requires began.Began? && began.id == id
    requires forall i :: 0 <= i < |more| ==> more[i].id == id && !more[i].Began?
    ensures Conversation(log + ([began] + more), id) == [began] + more
  {
    ConversationGrows(log + [began], more, id);
    assert (log + [began])[..|log|] == log;
    assert log + ([began] + more) == (log + [began]) + more;
  }

  // ---------------------------------------------------------------------------------------
  // The invariant of a run
  // ---------------------------------------------------------------------------------------

  /** At every point of the log, every conversation so far is lawful. */
  ghost predicate LawfulLog(cfg: Config, log: seq<Event>) {
    forall n, id :: 0 <= n <= |log| ==> Lawful(cfg, Conversation(log[..n], id))
  }

  /** The state of a live conversation is what the log tells. */
  ghost predicate Matches(cfg: Config, h: Handler, log: seq<Event>, id: Id)
    requires id in h.m.sessions
  {
    var story := Conversation(log, id);
    && story != [] && MatchesSession(Tell(story), h.m.sessions[id])
    && MatchesMethod(cfg, Tell(story), h, id)
  }

  ghost predicate AllMatch(cfg: Config, h: Handler, log: seq<Event>) {
    forall id :: id in h.m.sessions ==> Matches(cfg, h, log, id)
  }

  ghost predicate Safe(cfg: Config, w: World) {
    Structured(cfg, w.h, w.clock) && LawfulLog(cfg, w.log) && AllMatch(cfg, w.h, w.log)
  }

  lemma LawfulNow(cfg: Config, log: seq<Event>, id: Id)
    requires LawfulLog(cfg, log)
    ensures Lawful(cfg, Conversation(log, id))
  {
    assert log[..|log|] == log;
  }

  lemma {:induction false} LawfulPrefix(cfg: Config, story: seq<Event>, n: nat)
    requires Lawful(cfg, story) && n <= |story|
    ensures Lawful(cfg, story[..n])
    decreases |story|
  {
    if n < |story| {
      LawfulPrefix(cfg, story[..|story| - 1], n);
      assert story[..|story| - 1][..n] == story[..n];
    } else {
      assert story[..n] == story;
    }
  }

  lemma LawfulAt(cfg: Config, story: seq<Event>, i: nat)
    requires Lawful(cfg, story) && i < |story|
    ensures if i == 0 then story[i].Began? else Permits(cfg, Tell(story[..i]), story[i])
  {
    LawfulPrefix(cfg, story, i + 1);
    assert story[..i + 1][..i] == story[..i];
  }

  /** The story that new events continue. */
  function Story(log: seq<Event>, more: seq<Event>, id: Id): seq<Event>
    requires more != []
  {
    if more[0].Began? then [] else Conversation(log, id)
  }

  lemma OnlyFirstBegan(cfg: Config, story: seq<Event>, more: seq<Event>, i: nat)
    requires Lawful(cfg, story + more) && i < |more| && (i > 0 || story != [])
    ensures !more[i].Began?
  {
    LawfulAt(cfg, story + more, |story| + i);
    assert (story + more)[|story| + i] == more[i];
  }

  /** New events, all of one conversation, that continue its story lawfully or start a new one. */
  ghost predicate Extends(cfg: Config, log: seq<Event>, more: seq<Event>, id: Id) {
    && more != [] && (forall i :: 0 <= i < |more| ==> more[i].id == id)
    && Lawful(cfg, Story(log, more, id) + more)
    && (!more[0].Began? ==> Conversation(log, id) != [])
  }

  lemma {:induction false} ConversationContinues(cfg: Config, log: seq<Event>, more: seq<Event>, k: nat, id: Id)
    requires Extends(cfg, log, more, id) && 0 < k <= |more|
    ensures Conversation(log + more[..k], id) == Story(log, more, id) + more[..k]
  {
    forall i | (if more[0].Began? then 0 < i else 0 <= i) && i < |more| ensures !more[i].Began? {
      OnlyFirstBegan(cfg, Story(log, more, id), more, i);
    }
    if more[0].Began? {
      ConversationStarts(log, more[0], more[1..k], id);
      assert [more[0]] + more[1..k] == more[..k];
      assert [] + more[..k] == more[..k];
    } else {
      ConversationGrows(log, more[..k], id);
    }
  }

  lemma {:induction false} LawfulUpTo(cfg: Config, log: seq<Event>, more: seq<Event>, id: Id, k: nat, x: Id)
    requires LawfulLog(cfg, log) && Extends(cfg, log, more, id) && 0 < k <= |more|
    ensures Lawful(cfg, Conversation(log + more[..k], x))
  {
    if x == id {
      ConversationContinues(cfg, log, more, k, id);
      LawfulCut(cfg, Story(log, more, id), more, k);
    } else {
      ConversationElsewhere(log, more[..k], x);
      assert log[..|log|] == log;
    }
  }

  lemma {:induction false} LawfulCut(cfg: Config, story: seq<Event>, more: seq<Event>, k: nat)
    requires Lawful(cfg, story + more) && k <= |more|
    ensures Lawful(cfg, story + more[..k])
  {
    hide Lawful;
    LawfulPrefix(cfg, story + more, |story| + k);
    TakeConcat(story, more, |story| + k);
    assert k == 0 ==> story + more[..k] == story[..|story|];
  }

  /** New events of one conversation keep every point of the log lawful. */
  lemma {:induction false} LawfulLogGrows(cfg: Config, log: seq<Event>, more: seq<Event>, id: Id)
    requires LawfulLog(cfg, log) && Extends(cfg, log, more, id)
    ensures LawfulLog(cfg, log + more)
    ensures Conversation(log + more, id) == Story(log, more, id) + more
  {
    forall n, x | 0 <= n <= |log + more| ensures Lawful(cfg, Conversation((log + more)[..n], x)) {
      TakeConcat(log, more, n);
      if n > |log| {
        LawfulUpTo(cfg, log, more, id, n - |log|, x);
      }
    }
    ConversationContinues(cfg, log, more, |more|, id);
    assert more[..|more|] == more;
  }

  // ---------------------------------------------------------------------------------------
  // One call
  // ---------------------------------------------------------------------------------------

  lemma FinishRecounts(cfg: Config, story: seq<Event>, id: Id, out: Out, now: nat)
    requires Recounts(cfg, story, id, out)
    ensures Recounts(cfg, story, id, Finish(out, id, now))
  {
  }

  /** A call that works on a conversation tells a lawful continuation of its story: a new one,
      or the one in the log. */
  ghost predicate Continues(cfg: Config, log: seq<Event>, out: Out) {
    out.log != [] ==>
      var id := out.log[0].id;
      if out.log[0].Began? then Recounts(cfg, [], id, out)
      else Conversation(log, id) != [] && Recounts(cfg, Conversation(log, id), id, out)
  }

  lemma BeganUnderway(cfg: Config, h: Handler, id: Id, user: string, binding: seq<byte>, seed: Option<byte>)
    requires id in h.m.sessions && NameOf(cfg, binding, user)
    requires h.m.sessions[id].binding == binding && h.m.sessions[id].outstanding.None? &&
             h.m.sessions[id].attemptCount == 0
    requires h.m.sessions[id].currentIdentifier == if seed.Some? then (seed.value + 1) % 256 else 0
    ensures Underway(cfg, [Began(id, binding, seed)], h, id, user)
  {
    var began := Began(id, binding, seed);
    assert [began][..0] == [];
  }

  lemma BeginContinues(cfg: Config, h: Handler, log: seq<Event>, user: string, binding: seq<byte>, seed: Option<byte>,
                       env: Env, clock: nat)
    requires Structured(cfg, h, clock) && env.clock.Monotone(clock) && NameOf(cfg, binding, user)
    ensures Continues(cfg, log, Begin(cfg, h, user, binding, seed, env))
  {
    hide HandleIdentity, Recounts, Underway, Lawful, NameOf, OthersSettled, SameOthers, Orderly, NamesItself, QueueFits;
    hide Structured, Settled;
    var (h1, started) := StartSession(h, binding, env);
    if started.Some? {
      var id := started.value;
      StartSessionOpens(cfg, h, binding, env, clock);
      var h2 := if seed.Some? then Seed(h1, id, seed.value, env.clock.seed) else h1;
      if seed.Some? {
        SeedOpens(cfg, h1, id, seed.value, env.clock.create, env.clock.seed);
      }
      BeganUnderway(cfg, h2, id, user, binding, seed);
      BeganRecounts(cfg, h2, user, id, Began(id, binding, seed), env);
    }
  }

  lemma {:induction false} BeganRecounts(cfg: Config, h: Handler, user: string, id: Id, began: Event, env: Env)
    requires Underway(cfg, [began], h, id, user) && began.id == id && id !in h.tls && id !in h.teap
    ensures var out := HandleIdentity(cfg, h, user, id, env);
            Recounts(cfg, [], id, Finish(out.(log := [began] + out.log), id, env.clock.finish))
  {
    var out := HandleIdentity(cfg, h, user, id, env);
    IdentityRecounts(cfg, [began], h, user, id, env);
    assert [] + [began] == [began];
    RecountsAfter(cfg, [], began, id, out);
    FinishRecounts(cfg, [], id, out.(log := [began] + out.log), env.clock.finish);
  }

  /** The answer to the outstanding Request, once claimed. */
  lemma {:induction false} ClaimUnderway(cfg: Config, h: Handler, log: seq<Event>, user: string, id: Id,
                                         binding: seq<byte>, identifier: byte)
    requires h.m.ClaimOf(id, binding, identifier).Claimed? && Matches(cfg, h, log, id)
    requires Lawful(cfg, Conversation(log, id)) && NameOf(cfg, binding, user)
    ensures var story := Conversation(log, id) + [ResponseClaimed(id, binding, identifier)];
            var h1 := h.(m := h.m.Claim(id, binding, identifier));
            && Underway(cfg, story, h1, id, user) && Tell(story).issues > Tell(story).switches && Tell(story).claimed
            && MatchesMethod(cfg, Tell(story), h1, id)
  {
    MethodOfStory(cfg, Conversation(log, id));
    Snoc(cfg, Conversation(log, id), ResponseClaimed(id, binding, identifier));
  }

  lemma {:induction false} LiveMatches(cfg: Config, h: Handler, log: seq<Event>, clock: nat, id: Id)
    requires Structured(cfg, h, clock) && AllMatch(cfg, h, log) && id in h.m.sessions
    ensures Settled(cfg, h, id) && Matches(cfg, h, log, id)
  {
    hide Orderly, Settled, Matches;
  }

  lemma {:induction false} ContinueContinues(cfg: Config, h: Handler, log: seq<Event>, user: string, binding: seq<byte>,
                                             state: Option<seq<byte>>, p: EapPacket, env: Env, clock: nat)
    requires Structured(cfg, h, clock) && NameOf(cfg, binding, user) && LawfulLog(cfg, log) && AllMatch(cfg, h, log)
    ensures Continues(cfg, log, Continue(cfg, h, user, binding, state, p, env))
  {
    hide Dispatch, Lawful, Tell, Underway, Recounts, MatchesMethod, NameOf, EndSession, Structured, AllMatch, LawfulLog;
    var named := SessionIdForState(state);
    if named.Some? && h.m.ClaimOf(named.value, binding, p.identifier).Claimed? {
      var id := named.value;
      LiveMatches(cfg, h, log, clock, id);
      LawfulNow(cfg, log, id);
      ClaimUnderway(cfg, h, log, user, id, binding, p.identifier);
      ClaimedRecounts(cfg, h.(m := h.m.Claim(id, binding, p.identifier)), Conversation(log, id), user, id,
                      ResponseClaimed(id, binding, p.identifier), p, env);
    }
  }

  lemma {:induction false} ClaimedRecounts(cfg: Config, h: Handler, story: seq<Event>, user: string, id: Id,
                                           claimed: Event, p: EapPacket, env: Env)
    requires claimed.id == id && Underway(cfg, story + [claimed], h, id, user)
    requires Tell(story + [claimed]).issues > Tell(story + [claimed]).switches && Tell(story + [claimed]).claimed
    requires MatchesMethod(cfg, Tell(story + [claimed]), h, id)
    requires id in h.tls ==> id !in h.teap && h.m.sessions[id].eapMethod == Some(Tls)
    requires id in h.teap ==> id !in h.tls && h.m.sessions[id].eapMethod == Some(Teap)
    ensures var out := Dispatch(cfg, h, user, id, p, env);
            Recounts(cfg, story, id, Finish(out.(log := [claimed] + out.log), id, env.clock.finish))
  {
    hide Dispatch, Recounts, Underway, MatchesMethod, Tell, Lawful, Finish;
    var out := Dispatch(cfg, h, user, id, p, env);
    DispatchRecounts(cfg, story + [claimed], h, user, id, p, env);
    RecountsAfter(cfg, story, claimed, id, out);
    FinishRecounts(cfg, story, id, out.(log := [claimed] + out.log), env.clock.finish);
  }

  lemma RequestNames(cfg: Config, request: seq<Attribute>, client: Option<Ip>)
    ensures NameOf(cfg, ConversationBinding(request, client), UserName(cfg, request))
  {
  }

  lemma {:induction false} RouteContinues(cfg: Config, h: Handler, log: seq<Event>, request: seq<Attribute>,
                                          client: Option<Ip>, env: Env, clock: nat)
    requires Structured(cfg, h, clock) && env.clock.Monotone(clock) && LawfulLog(cfg, log) && AllMatch(cfg, h, log)
    ensures Continues(cfg, log, Route(cfg, h, request, client, env))
  {
    hide Begin, Continue, Structured, LawfulLog, AllMatch, Recounts, Conversation, UserName, ConversationBinding;
    hide NameOf, Read;
    var user, binding := UserName(cfg, request), ConversationBinding(request, client);
    RequestNames(cfg, request, client);
    match Read(request)
    case Opening(seed) => BeginContinues(cfg, h, log, user, binding, seed, env, clock);
    case Answering(p) => ContinueContinues(cfg, h, log, user, binding, Find(request, STATE), p, env, clock);
    case Unreadable =>
  }

  /** Conversations that are left still match. */
  lemma {:induction false} FewerMatch(cfg: Config, h: Handler, h': Handler, log: seq<Event>)
    requires Fewer(h, h') && AllMatch(cfg, h, log)
    ensures AllMatch(cfg, h', log)
  {
    forall id | id in h'.m.sessions ensures Matches(cfg, h', log, id) {
      assert Matches(cfg, h, log, id);
    }
  }

  /** New events belong to one conversation: its story goes on with them, or starts anew; no other changes. */
  ghost predicate OneStoryGrows(log: seq<Event>, more: seq<Event>) {
    more != [] ==>
      var id := more[0].id;
      && Conversation(log + more, id) == Story(log, more, id) + more
      && forall other :: other != id ==> Conversation(log + more, other) == Conversation(log, other)
  }

  /** One Access-Request keeps the run safe and extends exactly one conversation's story. */
  lemma {:induction false} PacketSafe(cfg: Config, w: World, call: Call)
    requires Safe(cfg, w) && call.Packet? && Timely(w, call)
    ensures Safe(cfg, After(cfg, w, call)) && After(cfg, w, call).h.m.maxSessions == w.h.m.maxSessions
    ensures OneStoryGrows(w.log, Authenticate(cfg, w.h, call.request, call.client, call.env).log)
  {
    var request, client, env := call.request, call.client, call.env;
    var out := Authenticate(cfg, w.h, request, client, env);
    CallKeeps(cfg, w.h, request, client, env, w.clock);
    PacketContinues(cfg, w, request, client, env);
    FewerMatch(cfg, w.h, AfterEviction(w.h, request, env), w.log);
    if out.log == [] {
      assert w.log + [] == w.log;
    } else {
      LogGrows(cfg, AfterEviction(w.h, request, env), w.log, out);
    }
  }

  lemma {:induction false} PacketContinues(cfg: Config, w: World, request: seq<Attribute>, client: Option<Ip>, env: Env)
    requires Safe(cfg, w) && env.clock.Monotone(w.clock)
    ensures Continues(cfg, w.log, Authenticate(cfg, w.h, request, client, env))
  {
    var idle := ReapIdle(w.h, env.clock.idle);
    ReapIdleKeeps(cfg, w.h, w.clock, env.clock.idle);
    FewerMatch(cfg, w.h, idle, w.log);
    RouteContinues(cfg, idle, w.log, request, client, env, w.clock);
  }

  lemma {:induction false} LogGrows(cfg: Config, base: Handler, log: seq<Event>, out: Out)
    requires LawfulLog(cfg, log) && out.log != [] && Continues(cfg, log, out) && AllMatch(cfg, base, log)
    requires SameOthers(base, out.h, out.log[0].id) && Concluded(cfg, out, out.log[0].id)
    ensures LawfulLog(cfg, log + out.log) && OneStoryGrows(log, out.log) && AllMatch(cfg, out.h, log + out.log)
  {
    var id := out.log[0].id;
    assert forall i :: 0 <= i < |out.log| ==> out.log[i] in out.log;
    LawfulLogGrows(cfg, log, out.log, id);
    forall other | other != id ensures Conversation(log + out.log, other) == Conversation(log, other) {
      ConversationElsewhere(log, out.log, other);
    }
    forall other | other in out.h.m.sessions ensures Matches(cfg, out.h, log + out.log, other) {
      if other != id {
        InOthers(base, out.h, id, other);
        assert Matches(cfg, base, log, other);
      }
    }
  }

  lemma {:induction false} CallSafe(cfg: Config, w: World, call: Call)
    requires Safe(cfg, w) && Timely(w, call)
    ensures Safe(cfg, After(cfg, w, call)) && After(cfg, w, call).h.m.maxSessions == w.h.m.maxSessions
  {
    if call.Packet? {
      PacketSafe(cfg, w, call);
    } else {
      if call.ReapCall? {
        ReapKeeps(cfg, w.h, w.clock, call.now);
      } else {
        ReapIdleKeeps(cfg, w.h, w.clock, call.now);
      }
      FewerMatch(cfg, w.h, After(cfg, w, call).h, w.log);
    }
  }

  lemma {:induction false} RunSafe(cfg: Config, timeout: nat, maxSessions: nat, calls: seq<Call>)
    requires maxSessions >= 1 && Valid(cfg, Initial(timeout, maxSessions), calls)
    ensures var w := Play(cfg, Initial(timeout, maxSessions), calls); Safe(cfg, w) && w.h.m.maxSessions == maxSessions
    decreases |calls|
  {
    if calls != [] {
      RunSafe(cfg, timeout, maxSessions, calls[..|calls| - 1]);
      CallSafe(cfg, Play(cfg, Initial(timeout, maxSessions), calls[..|calls| - 1]), calls[|calls| - 1]);
    } else {
      assert Initial(timeout, maxSessions).log[..0] == [];
    }
  }

  /** The handler, log and clock that some run of a server configured for `maxSessions`
      conversations ends with. */
  ghost predicate Reachable(cfg: Config, maxSessions: nat, w: World) {
    exists timeout: nat, calls: seq<Call> ::
      && maxSessions >= 1 && Valid(cfg, Initial(timeout, maxSessions), calls)
      && w == Play(cfg, Initial(timeout, maxSessions), calls)
  }

  /** Every run from an empty handler is safe. */
  lemma ReachableSafe(cfg: Config, maxSessions: nat, w: World)
    requires Reachable(cfg, maxSessions, w)
    ensures Safe(cfg, w) && w.h.m.maxSessions == maxSessions
  {
    var timeout: nat, calls: seq<Call> :|
      && maxSessions >= 1 && Valid(cfg, Initial(timeout, maxSessions), calls)
      && w == Play(cfg, Initial(timeout, maxSessions), calls);
    RunSafe(cfg, timeout, maxSessions, calls);
  }
}
