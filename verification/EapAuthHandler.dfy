/** The handler as an object: a session manager and two method maps, updated in place. It is valid as long as
    it is in a state that a safe run leaves; every packet keeps it so and is answered as the safety theorems say. */
module EapAuth {
  import opened Octets
  import opened EapCodec
  import opened EapFragments
  import opened EapSessions
  import opened Binding
  import opened EapHandler
  import opened EapStructure
  import opened EapCalls
  import opened EapRuns
  import opened EapSafety

  class EapAuthHandler {
    const cfg: Config
    const manager: EapSessionManager
    var tlsSessions: map<Id, TlsServer>
    var teapSessions: map<Id, TeapServer>

    /** What happened so far, and the last clock reading. */
    ghost var history: seq<Event>
    ghost var clock: nat

    function Model(): Handler
      reads this, manager
    {
      Handler(manager.Model(), tlsSessions, teapSessions)
    }

    ghost function State(): World
      reads this, manager
    {
      World(Model(), history, clock)
    }

    ghost predicate Valid()
      reads this, manager
    {
      Safe(cfg, State())
    }

    constructor (cfg: Config, timeout: nat, maxSessions: nat)
      ensures Valid() && fresh(manager) && this.cfg == cfg
      ensures State() == Initial(timeout, if maxSessions == 0 then 1 else maxSessions)
    {
      this.cfg := cfg;
      manager := new EapSessionManager(timeout, maxSessions);
      tlsSessions, teapSessions, history, clock := map[], map[], [], 0;
      new;
      RunSafe(cfg, timeout, manager.maxSessions, []);
    }

    /** Drop the per-method state of the given sessions. */
    method DropMethodStates(ids: seq<Id>)
      modifies `tlsSessions, `teapSessions
      ensures Model() == DropMethodState(old(Model()), set id | id in ids)
    {
      for n := 0 to |ids|
        invariant tlsSessions == old(tlsSessions) - (set id | id in ids[..n])
        invariant teapSessions == old(teapSessions)
      {
        tlsSessions := tlsSessions - {ids[n]};
      }
      for n := 0 to |ids|
        invariant tlsSessions == old(tlsSessions) - (set id | id in ids)
        invariant teapSessions == old(teapSessions) - (set id | id in ids[..n])
      {
        teapSessions := teapSessions - {ids[n]};
      }
    }

    /** Drop the method state of evicted sessions. */
    method DropEvicted(evicted: seq<(Id, EvictionReason)>, ghost before: Handler)
      requires Model() == before.(m := manager.Model()) && Reported(before.m.sessions, manager.sessions, evicted)
      modifies `tlsSessions, `teapSessions
      ensures Model() == Evicting(before, old(manager.Model()))
    {
      var ids := seq(|evicted|, i requires 0 <= i < |evicted| => evicted[i].0);
      DropMethodStates(ids);
      assert (set id | id in ids) == Ids(evicted) by {
        assert forall i :: 0 <= i < |ids| ==> ids[i] == evicted[i].0;
      }
      assert before.m.sessions.Keys - manager.sessions.Keys == Ids(evicted);
    }

    method ReapIdleAt(now: nat)
      requires Valid()
      modifies `tlsSessions, `teapSessions, manager
      ensures Valid() && Model() == ReapIdle(old(Model()), now)
    {
      ghost var before := Model();
      var evicted := manager.EvictIdleAt(now, clock);
      DropEvicted(evicted, before);
      ReapIdleKeeps(cfg, before, clock, now);
      FewerMatch(cfg, before, Model(), history);
    }

    method ReapAt(now: nat)
      requires Valid()
      modifies `tlsSessions, `teapSessions, manager
      ensures Valid() && Model() == Reap(old(Model()), now)
    {
      hide LawfulLog;
      ghost var before := Model();
      var evicted := manager.EvictAt(now, clock);
      DropEvicted(evicted, before);
      ReapKeeps(cfg, before, clock, now);
      FewerMatch(cfg, before, Model(), history);
    }

    method FinishCall(id: Id, result: AuthResult, now: nat, ghost log: seq<Event>)
      modifies `tlsSessions, `teapSessions, manager
      ensures Out(Model(), result, log) == Finish(Out(old(Model()), result, log), id, now)
    {
      if result.Challenge? {
        var s := manager.GetSessionMut(id, now);
      } else {
        manager.RemoveSession(id);
        DropMethodStates([id]);
        assert (set x | x in [id]) == {id};
      }
    }

    method StartConversation(binding: seq<byte>, env: Env) returns (started: Option<Id>)
      requires Valid()
      modifies `tlsSessions, `teapSessions, manager
      ensures (Model(), started) == StartSession(old(Model()), binding, env)
    {
      ReapAt(env.clock.reap);
      var id := SessionIdForState(env.drawn);
      if id.None? || id.value in manager.sessions {
        return None;
      }
      manager.CreateSession(id.value, env.clock.create);
      manager.Put(id.value, manager.sessions[id.value].(binding := binding));
      return id;
    }

    /** Allocate the Identifier of the next Request and send it. */
    method SendRequest(id: Id, eapType: EapType, data: seq<byte>, env: Env, missing: byte)
      returns (result: AuthResult, ghost log: seq<Event>)
      modifies manager
      ensures Out(Model(), result, log) == Ask(old(Model()), id, eapType, data, env, missing)
    {
      var s := manager.GetSessionMut(id, env.clock.issue);
      var identifier := missing;
      if s.Some? {
        identifier := s.value.currentIdentifier;
        manager.Put(id, s.value.NextIdentifier(env.clock.stamp));
      }
      var attributes := EapToAttributes(EapPacket(Request, identifier, Some(eapType), data));
      result := Challenge(StateFor(id), attributes);
      log := [Issued(id, identifier, eapType, data)];
    }

    method StartEapTls(id: Id, env: Env) returns (result: AuthResult, ghost log: seq<Event>)
      modifies `tlsSessions, `teapSessions, manager
      ensures Out(Model(), result, log) == StartTls(cfg, old(Model()), id, env)
    {
      if cfg.realms == {} || !env.connects {
        return Reject, [];
      }
      tlsSessions := tlsSessions[id := TlsServer(env.newConn, Started, CLEARED, [], 0, false)];
      if id !in manager.sessions {
        return Reject, [];
      }
      result, log := SendRequest(id, Tls, EncodeTls(START), env, 0);
    }

    method StartEapTeap(id: Id, env: Env) returns (result: AuthResult, ghost log: seq<Event>)
      modifies `tlsSessions, `teapSessions, manager
      ensures Out(Model(), result, log) == StartTeap(cfg, old(Model()), id, env)
    {
      if !cfg.TeapEnabled() || !env.connects {
        return Reject, [];
      }
      teapSessions := teapSessions[id := TeapServer(false, [], 0, false, None)];
      result, log := SendRequest(id, Teap, TeapTypeData(START), env, 0);
    }

    method ProposeMethod(id: Id, eapMethod: Option<EapType>,
                         env: Env) returns (result: AuthResult, ghost log: seq<Event>)
      modifies `tlsSessions, `teapSessions, manager
      ensures Out(Model(), result, log) == StartMethod(cfg, old(Model()), id, eapMethod, env)
    {
      if eapMethod == Some(Teap) {
        result, log := StartEapTeap(id, env);
      } else if eapMethod == Some(Tls) {
        result, log := StartEapTls(id, env);
      } else {
        result, log := Reject, [];
      }
    }

    method AnswerIdentity(user: string, id: Id, env: Env) returns (result: AuthResult, ghost log: seq<Event>)
      modifies `tlsSessions, `teapSessions, manager
      ensures Out(Model(), result, log) == HandleIdentity(cfg, old(Model()), user, id, env)
    {
      var preferred := if cfg.TeapEnabled() then Some(Teap) else if cfg.TlsEnabled() then Some(Tls) else None;
      var session := manager.GetSessionMut(id, env.clock.touch);
      if session.None? {
        return Reject, [];
      }
      var s := session.value.(identity := Some(user));
      s := s.Transition(IdentityReceived, env.clock.touch);
      s := s.Transition(MethodRequested, env.clock.touch);
      s := s.(eapMethod := preferred);
      manager.Put(id, s);
      result, log := ProposeMethod(id, preferred, env);
    }

    method AnswerNak(id: Id, desired: seq<byte>, env: Env) returns (result: AuthResult, ghost log: seq<Event>)
      modifies `tlsSessions, `teapSessions, manager
      ensures Out(Model(), result, log) == HandleNak(cfg, old(Model()), id, desired, env)
    {
      if id !in manager.sessions || manager.sessions[id].attemptCount > 0 || MethodStarted(Model(), id) {
        return Reject, [];
      }
      var next := NextMethod(cfg, desired, manager.sessions[id].eapMethod);
      if next.None? {
        return Reject, [];
      }
      DropMethodStates([id]);
      assert (set x | x in [id]) == {id};
      var session := manager.GetSessionMut(id, env.clock.touch);
      manager.Put(id, session.value.(attemptCount := session.value.attemptCount + 1, eapMethod := next));
      assert Model() == SwitchTo(old(Model()), id, next, env.clock.touch);
      result, log := ProposeMethod(id, next, env);
      log := [Switched(id, next.value)] + log;
    }

    method SendFragment(id: Id, server: TlsServer, env: Env,
                        missing: byte) returns (result: AuthResult, ghost log: seq<Event>)
      modifies `tlsSessions, `teapSessions, manager
      ensures Out(Model(), result, log) == SendNext(old(Model()), id, server, env, missing)
    {
      if !server.HasPending() {
        tlsSessions := tlsSessions[id := server];
        return Reject, [];
      }
      tlsSessions := tlsSessions[id := server.Advance()];
      result, log := SendRequest(id, Tls, EncodeTls(server.outgoing[server.cursor]), env, missing);
    }

    /** Touch the session and try to record success. */
    method RecordSuccess(id: Id, env: Env)
      modifies manager
      ensures manager.Model() ==
              var m := old(manager.Model()).Touch(id, env.clock.issue);
              if id in m.sessions then m.Put(id, m.sessions[id].Transition(SuccessState, env.clock.stamp)) else m
    {
      var session := manager.GetSessionMut(id, env.clock.issue);
      if session.Some? {
        manager.Put(id, session.value.Transition(SuccessState, env.clock.stamp));
      }
    }

    method SucceedTls(id: Id, user: string, server: TlsServer, identifier: byte, env: Env)
      returns (result: AuthResult, ghost log: seq<Event>)
      modifies manager
      ensures Out(Model(), result, log) == FinishTls(old(Model()), id, user, server, identifier, env)
    {
      if server.conn.handshaking || env.keys.None? {
        return Reject, [];
      }
      RecordSuccess(id, env);
      var attributes := EapToAttributes(EapPacket(EapSuccess, identifier, None, []));
      result, log := Accept(attributes, env.keys), [AcceptedTls(id, user, server.conn)];
    }

    /** Nothing to send after processing: verify, then commit or succeed. */
    method HandshakeOver(user: string, id: Id, server: TlsServer, identifier: byte, env: Env)
      returns (result: AuthResult, ghost log: seq<Event>)
      modifies `tlsSessions, `teapSessions, manager
      ensures Out(Model(), result, log) == CompleteTls(cfg, old(Model()), user, id, server, identifier, env)
    {
      if server.conn.handshaking {
        return Reject, [];
      }
      var verified := server.conn.peerCerts.None? ||
                      (server.conn.peerCerts.value != [] && cfg.identifies(server.conn.peerCerts.value, user));
      if !verified {
        return Reject, [];
      }
      if server.conn.tls13 {
        if env.commitment.None? || env.commitment.value == [] {
          return Reject, [Verified(id, user, server.conn)];
        }
        var committed := server.(commitmentSent := true).Queue(env.commitment.value, cfg.maxFragment);
        result, log := SendFragment(id, committed, env, (identifier + 1) % 256);
        log := [Verified(id, user, server.conn)] + ([Committed(id, env.commitment.value)] + log);
      } else {
        result, log := SucceedTls(id, user, server, identifier, env);
        log := [Verified(id, user, server.conn)] + log;
      }
    }

    method ContinueEapTls(user: string, id: Id, response: EapPacket,
                          env: Env) returns (result: AuthResult, ghost log: seq<Event>)
      modifies `tlsSessions, `teapSessions, manager
      ensures Out(Model(), result, log) == ContinueTls(cfg, old(Model()), user, id, response, env)
    {
      if id !in tlsSessions {
        return Reject, [];
      }
      var server := tlsSessions[id];
      var missing := (response.identifier + 1) % 256;
      // The peer acknowledged a fragment: send the next one.
      if server.HasPending() {
        result, log := SendFragment(id, server, env, missing);
        return;
      }
      // The peer acknowledged the commitment record.
      if server.commitmentSent && !server.conn.handshaking {
        result, log := SucceedTls(id, user, server, response.identifier, env);
        return;
      }
      var decoded := DecodeTls(response.data);
      if decoded.Failure? {
        return Reject, [];
      }
      var p := decoded.value;
      var processed := Process(server, p, env);
      tlsSessions := tlsSessions[id := processed.server];
      match processed.result {
        case Failure(_) =>
          result, log := Reject, [];
        case Success(Some(output)) =>
          result, log := SendFragment(id, processed.server.Queue(output, cfg.maxFragment), env, missing);
        case Success(None) =>
          if p.flags.more {
            result, log := SendRequest(id, Tls, EncodeTls(ACK), env, missing);
          } else {
            result, log := HandshakeOver(user, id, processed.server, response.identifier, env);
          }
      }
      log := Told(id, p, processed) + log;
    }

    method SendTeapFragment(id: Id, server: TeapServer, env: Env,
                            missing: byte) returns (result: AuthResult, ghost log: seq<Event>)
      modifies `tlsSessions, `teapSessions, manager
      ensures Out(Model(), result, log) == SendNextTeap(old(Model()), id, server, env, missing)
    {
      if !server.HasPending() {
        teapSessions := teapSessions[id := server];
        return Reject, [];
      }
      teapSessions := teapSessions[id := server.(cursor := server.cursor + 1)];
      result, log := SendRequest(id, Teap, TeapTypeData(server.outgoing[server.cursor]), env, missing);
    }

    /** Send what the TEAP state machine wants sent; if nothing, acknowledge a fragment, fail or succeed. */
    method SendTeapAnswer(user: string, id: Id, server: TeapServer, output: Option<seq<byte>>, p: EapTlsPacket,
                          identifier: byte, env: Env) returns (result: AuthResult, ghost log: seq<Event>)
      modifies `tlsSessions, `teapSessions, manager
      ensures Out(Model(), result, log) ==
              AnswerTeap(cfg, old(Model()), user, id, server, output, p, identifier, env)
    {
      var missing := (identifier + 1) % 256;
      if output.Some? {
        result, log := SendTeapFragment(id, server.Queue(output.value, cfg.maxFragment), env, missing);
        return;
      }
      if p.flags.more {
        result, log := SendRequest(id, Teap, TeapTypeData(ACK), env, missing);
        return;
      }
      if !server.complete || server.msk.None? {
        return Reject, [];
      }
      RecordSuccess(id, env);
      var attributes := EapToAttributes(EapPacket(EapSuccess, identifier, None, []));
      result, log := Accept(attributes, server.msk), [AcceptedTeap(id, user)];
    }

    method ContinueEapTeap(user: string, id: Id, response: EapPacket,
                           env: Env) returns (result: AuthResult, ghost log: seq<Event>)
      modifies `tlsSessions, `teapSessions, manager
      ensures Out(Model(), result, log) == ContinueTeap(cfg, old(Model()), user, id, response, env)
    {
      var missing := (response.identifier + 1) % 256;
      var read := cfg.readTeap(response.data);
      if id !in teapSessions || read.None? {
        return Reject, [];
      }
      var server, p := teapSessions[id], read.value;
      if server.HasPending() {
        if p.data != [] || p.flags.more {
          return Reject, [];
        }
        result, log := SendTeapFragment(id, server, env, missing);
        return;
      }
      if env.teapAnswer.None? {
        return Reject, [];
      }
      var answer := env.teapAnswer.value;
      server := server.(negotiated := true, complete := answer.complete, msk := answer.msk);
      teapSessions := teapSessions[id := server];
      result, log := SendTeapAnswer(user, id, server, answer.output, p, response.identifier, env);
      log := [Ran(id, p, answer)] + log;
    }

    method BeginConversation(user: string, binding: seq<byte>, seed: Option<byte>, env: Env)
      returns (result: AuthResult, ghost log: seq<Event>)
      requires Valid()
      modifies `tlsSessions, `teapSessions, manager
      ensures Out(Model(), result, log) == Begin(cfg, old(Model()), user, binding, seed, env)
    {
      hide HandleIdentity, Finish, Safe;
      var started := StartConversation(binding, env);
      if started.None? {
        return Reject, [];
      }
      var id := started.value;
      if seed.Some? {
        var session := manager.GetSessionMut(id, env.clock.seed);
        if session.Some? {
          manager.Put(id, session.value.SeedIdentifierAfter(seed.value));
        }
      }
      result, log := AnswerIdentity(user, id, env);
      log := [Began(id, binding, seed)] + log;
      FinishCall(id, result, env.clock.finish, log);
    }

    method ContinueConversation(user: string, binding: seq<byte>, state: Option<seq<byte>>, p: EapPacket, env: Env)
      returns (result: AuthResult, ghost log: seq<Event>)
      modifies `tlsSessions, `teapSessions, manager
      ensures Out(Model(), result, log) == Continue(cfg, old(Model()), user, binding, state, p, env)
    {
      var named := SessionIdForState(state);
      if named.None? {
        return Reject, [];
      }
      var id := named.value;
      var claim := manager.ClaimResponse(id, binding, p.identifier);
      match claim {
        case Claimed =>
        case IdentifierMismatch => return Discard, [];
        case UnknownSession => return Reject, [];
        case BindingMismatch => return Reject, [];
      }
      match p.eapType {
        case Some(Tls) => result, log := ContinueEapTls(user, id, p, env);
        case Some(Teap) => result, log := ContinueEapTeap(user, id, p, env);
        case Some(Nak) => result, log := AnswerNak(id, p.data, env);
        case _ => result, log := Reject, [];
      }
      log := [ResponseClaimed(id, binding, p.identifier)] + log;
      FinishCall(id, result, env.clock.finish, log);
    }

    /** Route a packet, once idle conversations are gone. */
    method RoutePacket(request: seq<Attribute>, client: Option<Ip>, env: Env)
      returns (result: AuthResult, ghost log: seq<Event>)
      requires Valid()
      modifies `tlsSessions, `teapSessions, manager
      ensures Out(Model(), result, log) == Route(cfg, old(Model()), request, client, env)
    {
      hide Begin, Continue, Safe, ConversationBinding, DecodeEap;
      var user, binding := UserName(cfg, request), ConversationBinding(request, client);
      var bytes := EapOctets(request);
      if bytes == [] {
        result, log := BeginConversation(user, binding, None, env);
        return;
      }
      var decoded := DecodeEap(bytes);
      if decoded.Failure? {
        return Reject, [];
      }
      var p := decoded.value;
      if p.code != Response {
        return Reject, [];
      }
      if p.eapType == Some(Identity) {
        result, log := BeginConversation(user, binding, Some(p.identifier), env);
      } else {
        result, log := ContinueConversation(user, binding, Find(request, STATE), p, env);
      }
    }

    /** Handle one Access-Request: one step of a safe run. An Accept is justified by the conversation it ends, a
        Challenge carries the outstanding Request of the conversation its State names, and a request that
        neither begins nor answers anything changes nothing beyond eviction. */
    method AuthenticateEap(request: seq<Attribute>, client: Option<Ip>, env: Env) returns (result: AuthResult)
      requires Valid() && env.clock.Monotone(clock)
      modifies this, manager
      ensures Valid() && State() == After(cfg, old(State()), Packet(request, client, env))
      ensures result == Answer(cfg, old(State()), Packet(request, client, env)).result
      ensures result.Accept? ==> Justified(cfg, old(State()), Packet(request, client, env))
      ensures result.Challenge? ==>
                exists id, p :: CarriesRequest(cfg, Answer(cfg, old(State()), Packet(request, client, env)), id, p)
      ensures var refusal := Refusal(ReapIdle(old(Model()), env.clock.idle), request, client, env);
              refusal.Some? ==>
                result == refusal.value && Model() == AfterEviction(old(Model()), request, env) &&
                  history == old(history)
    {
      ghost var w, call := State(), Packet(request, client, env);
      PacketSafe(cfg, w, call);
      CallKeeps(cfg, w.h, request, client, env, w.clock);
      ReapIdleAt(env.clock.idle);
      ghost var log;
      result, log := RoutePacket(request, client, env);
      history, clock := history + log, env.clock.finish;
      if result.Accept? {
        AcceptJustified(cfg, w, call);
      }
      if result.Challenge? {
        ChallengeCarries(cfg, w, call);
      }
    }
  }
}
