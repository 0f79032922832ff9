/** What every call of the handler keeps: session table and method maps fit together, and a call
    touches one conversation only. */
module EapStructure {
  import opened Octets
  import opened EapCodec
  import opened EapFragments
  import opened EapSessions
  import opened Binding
  import opened EapHandler

  /** The session ID is the one its State names. */
  ghost predicate NamesItself(id: Id) {
    SessionIdForState(Some(StateFor(id))) == Some(id)
  }

  ghost predicate QueueFits(cfg: Config, outgoing: seq<EapTlsPacket>) {
    forall i :: 0 <= i < |outgoing| ==> |EncodeTls(outgoing[i])| <= cfg.maxFragment
  }

  /** The store is in order, and no method state outlives its session. */
  ghost predicate Orderly(h: Handler, clock: nat) {
    && h.m.WellFormed(clock) && h.m.maxSessions >= 1
    && h.tls.Keys <= h.m.sessions.Keys && h.teap.Keys <= h.m.sessions.Keys
  }

  /** A live conversation between calls: exactly one method's state, the one it negotiated, and
      one outstanding Request. The recorded EAP state never leaves its initial value. */
  ghost predicate Settled(cfg: Config, h: Handler, id: Id)
    requires id in h.m.sessions
  {
    var s := h.m.sessions[id];
    && NamesItself(id) && s.state.Initialize? && s.outstanding.Some?
    && (s.eapMethod == Some(Tls) || s.eapMethod == Some(Teap))
    && (id in h.tls <==> s.eapMethod == Some(Tls))
    && (id in h.teap <==> s.eapMethod == Some(Teap))
    && (id in h.tls ==> QueueFits(cfg, h.tls[id].outgoing))
    && (id in h.teap ==> QueueFits(cfg, h.teap[id].outgoing))
  }

  ghost predicate Structured(cfg: Config, h: Handler, clock: nat) {
    && Orderly(h, clock)
    && |h.m.sessions| <= h.m.maxSessions
    && forall id :: id in h.m.sessions ==> Settled(cfg, h, id)
  }

  /** Nothing but conversation `id` differs. */
  ghost predicate SameOthers(h: Handler, h': Handler, id: Id) {
    && h'.m.sessions - {id} == h.m.sessions - {id}
    && h'.tls - {id} == h.tls - {id}
    && h'.teap - {id} == h.teap - {id}
    && h'.m.timeout == h.m.timeout && h'.m.maxSessions == h.m.maxSessions
  }

  /** Some conversations are gone, the others are as they were. */
  ghost predicate Fewer(h: Handler, h': Handler) {
    && (forall id :: id in h'.m.sessions ==> id in h.m.sessions && h'.m.sessions[id] == h.m.sessions[id])
    && h'.tls == (map id | id in h.tls && id in h'.m.sessions :: h.tls[id])
    && h'.teap == (map id | id in h.teap && id in h'.m.sessions :: h.teap[id])
    && h'.m.timeout == h.m.timeout && h'.m.maxSessions == h.m.maxSessions
  }

  /** A conversation in the middle of a call. */
  ghost predicate Open(cfg: Config, h: Handler, id: Id, clock: nat) {
    && Orderly(h, clock) && id in h.m.sessions && NamesItself(id) && h.m.sessions[id].state.Initialize?
    && (id in h.tls ==> QueueFits(cfg, h.tls[id].outgoing))
    && (id in h.teap ==> QueueFits(cfg, h.teap[id].outgoing))
  }

  /** `out` is an Access-Challenge that carries the Request logged last, which is the outstanding one of `id`. */
  ghost predicate Announces(cfg: Config, out: Out, id: Id)
    requires id in out.h.m.sessions && out.result.Challenge?
  {
    var s := out.h.m.sessions[id];
    && out.log != []
    && var e := out.log[|out.log| - 1];
       && e.Issued? && e.id == id && s.outstanding == Some(e.identifier) && s.eapMethod == Some(e.eapType)
       && |e.data| <= cfg.maxFragment && out.result.state == StateFor(id)
       && out.result.attributes == ToAttributes(EapPacket(Request, e.identifier, Some(e.eapType), e.data))
  }

  /** What a method leaves behind when it has handled a packet of conversation `id`. */
  ghost predicate Served(cfg: Config, h: Handler, id: Id, out: Out, clock: nat) {
    && SameOthers(h, out.h, id) && Orderly(out.h, clock) && id in out.h.m.sessions
    && !out.result.Discard?
    && (out.result.Challenge? ==> Settled(cfg, out.h, id) && Announces(cfg, out, id))
  }

  // ---------------------------------------------------------------------------------------
  // Building blocks
  // ---------------------------------------------------------------------------------------

  lemma UpdateElsewhere<K, V>(entries: map<K, V>, k: K, v: V)
    ensures entries[k := v] - {k} == entries - {k}
  {
  }

  /** Touching and rewriting the touched session keeps the store in order. */
  lemma TouchAndPut(h: Handler, id: Id, s: Session, clock: nat, touched: nat, now: nat)
    requires Orderly(h, clock) && clock <= touched <= now && id in h.m.sessions
    requires s.lruSeq == h.m.nextSeq && touched <= s.lastActivity <= now
    ensures var h1 := h.(m := h.m.Touch(id, touched).Put(id, s));
            Orderly(h1, now) && SameOthers(h, h1, id) && h1.m.sessions == h.m.sessions[id := s]
  {
    var m := h.m.Touch(id, touched);
    TouchKeeps(h.m, id, clock, touched);
    PutKeeps(m, id, s, touched, now);
    assert m.Put(id, s).sessions == h.m.sessions[id := s];
  }

  lemma OrderlyLater(h: Handler, clock: nat, now: nat)
    requires Orderly(h, clock) && clock <= now
    ensures Orderly(h, now)
  {
    forall a, b | a in h.m.sessions && b in h.m.sessions ensures h.m.InOrder(a, b) {
    }
  }

  lemma AskServes(cfg: Config, h: Handler, id: Id, eapType: EapType, data: seq<byte>, env: Env, missing: byte,
                  clock: nat)
    requires Open(cfg, h, id, clock) && clock <= env.clock.issue <= env.clock.stamp
    requires |data| <= cfg.maxFragment
    requires h.m.sessions[id].eapMethod == Some(eapType)
    requires (eapType == Tls && id in h.tls && id !in h.teap) || (eapType == Teap && id in h.teap && id !in h.tls)
    ensures Served(cfg, h, id, Ask(h, id, eapType, data, env, missing), env.clock.stamp)
  {
    var s := h.m.sessions[id].(lruSeq := h.m.nextSeq, lastActivity := env.clock.issue).NextIdentifier(env.clock.stamp);
    TouchAndPut(h, id, s, clock, env.clock.issue, env.clock.stamp);
    var out := Ask(h, id, eapType, data, env, missing);
    assert out.h.m.sessions[id] == s;
  }

  lemma QueuedFits(cfg: Config, message: seq<byte>, policy: LengthFlagPolicy)
    ensures QueueFits(cfg, Job(message, cfg.maxFragment, policy).Packets())
  {
    var job := Job(message, cfg.maxFragment, policy);
    forall i | 0 <= i < |job.Packets()| ensures |EncodeTls(job.Packets()[i])| <= cfg.maxFragment {
      PacketAt(job, 0, i);
    }
  }

  lemma RejectServes(cfg: Config, h: Handler, id: Id, h1: Handler, log: seq<Event>, clock: nat, now: nat)
    requires Open(cfg, h, id, clock) && clock <= now && SameOthers(h, h1, id) && Orderly(h1, clock) &&
             id in h1.m.sessions
    ensures Served(cfg, h, id, Out(h1, Reject, log), now)
  {
    OrderlyLater(h1, clock, now);
  }

  // ---------------------------------------------------------------------------------------
  // Methods
  // ---------------------------------------------------------------------------------------

  lemma ServedVia(cfg: Config, h: Handler, h1: Handler, id: Id, out: Out, clock: nat)
    requires SameOthers(h, h1, id) && Served(cfg, h1, id, out, clock)
    ensures Served(cfg, h, id, out, clock)
  {
  }

  /** Logging what came before changes nothing. */
  lemma ServedLogged(cfg: Config, h: Handler, id: Id, out: Out, before: seq<Event>, clock: nat)
    requires Served(cfg, h, id, out, clock)
    ensures Served(cfg, h, id, out.(log := before + out.log), clock) && !out.result.Discard?
  {
    hide Settled, Orderly, SameOthers;
  }

  lemma TlsPlaced(h: Handler, id: Id, server: TlsServer, clock: nat)
    requires Orderly(h, clock) && id in h.m.sessions
    ensures var h1 := h.(tls := h.tls[id := server]); Orderly(h1, clock) && SameOthers(h, h1, id)
  {
    UpdateElsewhere(h.tls, id, server);
  }

  lemma TeapPlaced(h: Handler, id: Id, server: TeapServer, clock: nat)
    requires Orderly(h, clock) && id in h.m.sessions
    ensures var h1 := h.(teap := h.teap[id := server]); Orderly(h1, clock) && SameOthers(h, h1, id)
  {
    UpdateElsewhere(h.teap, id, server);
  }

  lemma StartTlsServes(cfg: Config, h: Handler, id: Id, env: Env, clock: nat)
    requires Open(cfg, h, id, clock) && clock <= env.clock.issue <= env.clock.stamp
    requires h.m.sessions[id].eapMethod == Some(Tls) && id !in h.tls && id !in h.teap
    ensures Served(cfg, h, id, StartTls(cfg, h, id, env), env.clock.stamp)
  {
    if cfg.realms == {} || !env.connects {
      RejectServes(cfg, h, id, h, [], clock, env.clock.stamp);
    } else {
      var h1 := h.(tls := h.tls[id := TlsServer(env.newConn, Started, CLEARED, [], 0, false)]);
      TlsPlaced(h, id, h1.tls[id], clock);
      AskServes(cfg, h1, id, Tls, EncodeTls(START), env, 0, clock);
      ServedVia(cfg, h, h1, id, StartTls(cfg, h, id, env), env.clock.stamp);
    }
  }

  lemma StartTeapServes(cfg: Config, h: Handler, id: Id, env: Env, clock: nat)
    requires Open(cfg, h, id, clock) && clock <= env.clock.issue <= env.clock.stamp
    requires h.m.sessions[id].eapMethod == Some(Teap) && id !in h.tls && id !in h.teap
    ensures Served(cfg, h, id, StartTeap(cfg, h, id, env), env.clock.stamp)
  {
    if !cfg.TeapEnabled() || !env.connects {
      RejectServes(cfg, h, id, h, [], clock, env.clock.stamp);
    } else {
      var h1 := h.(teap := h.teap[id := TeapServer(false, [], 0, false, None)]);
      TeapPlaced(h, id, h1.teap[id], clock);
      AskServes(cfg, h1, id, Teap, TeapTypeData(START), env, 0, clock);
      ServedVia(cfg, h, h1, id, StartTeap(cfg, h, id, env), env.clock.stamp);
    }
  }

  lemma StartMethodServes(cfg: Config, h: Handler, id: Id, eapMethod: Option<EapType>, env: Env, clock: nat)
    requires Open(cfg, h, id, clock) && clock <= env.clock.issue <= env.clock.stamp
    requires h.m.sessions[id].eapMethod == eapMethod && id !in h.tls && id !in h.teap
    ensures Served(cfg, h, id, StartMethod(cfg, h, id, eapMethod, env), env.clock.stamp)
  {
    if eapMethod == Some(Teap) {
      StartTeapServes(cfg, h, id, env, clock);
    } else if eapMethod == Some(Tls) {
      StartTlsServes(cfg, h, id, env, clock);
    } else {
      RejectServes(cfg, h, id, h, [], clock, env.clock.stamp);
    }
  }

  lemma IdentityServes(cfg: Config, h: Handler, user: string, id: Id, env: Env, clock: nat)
    requires Open(cfg, h, id, clock) && clock <= env.clock.touch <= env.clock.issue <= env.clock.stamp
    requires id !in h.tls && id !in h.teap
    ensures Served(cfg, h, id, HandleIdentity(cfg, h, user, id, env), env.clock.stamp)
  {
    var now := env.clock.touch;
    var s := h.m.sessions[id].(lruSeq := h.m.nextSeq, lastActivity := now, identity := Some(user),
                               eapMethod := Preferred(cfg));
    TouchAndPut(h, id, s, clock, now, now);
    var h1 := h.(m := h.m.Touch(id, now).Put(id, s));
    StartMethodServes(cfg, h1, id, Preferred(cfg), env, now);
    assert HandleIdentity(cfg, h, user, id, env) == StartMethod(cfg, h1, id, Preferred(cfg), env);
  }

  lemma DropKeeps(h: Handler, id: Id, clock: nat)
    requires Orderly(h, clock)
    ensures var d := DropMethodState(h, {id});
            Orderly(d, clock) && SameOthers(h, d, id) && d.m == h.m && id !in d.tls && id !in d.teap
  {
    var d := DropMethodState(h, {id});
    assert d.tls.Keys <= h.tls.Keys && d.teap.Keys <= h.teap.Keys;
  }

  lemma SwitchOpens(cfg: Config, h: Handler, id: Id, next: Option<EapType>, clock: nat, now: nat)
    requires Open(cfg, h, id, clock) && clock <= now
    ensures var h1 := SwitchTo(h, id, next, now);
            && Open(cfg, h1, id, now) && SameOthers(h, h1, id)
            && h1.m.sessions[id].eapMethod == next && id !in h1.tls && id !in h1.teap
  {
    hide DropMethodState, Orderly, QueueFits;
    var dropped, m := DropMethodState(h, {id}), h.m.Touch(id, now);
    DropKeeps(h, id, clock);
    assert m.sessions[id] == h.m.sessions[id].(lruSeq := h.m.nextSeq, lastActivity := now);
    var s := m.sessions[id].(attemptCount := m.sessions[id].attemptCount + 1, eapMethod := next);
    TouchAndPut(dropped, id, s, clock, now, now);
    assert SwitchTo(h, id, next, now) == dropped.(m := m.Put(id, s));
  }

  lemma NakServes(cfg: Config, h: Handler, id: Id, desired: seq<byte>, env: Env, clock: nat)
    requires Open(cfg, h, id, clock) && clock <= env.clock.touch <= env.clock.issue <= env.clock.stamp
    ensures Served(cfg, h, id, HandleNak(cfg, h, id, desired, env), env.clock.stamp)
  {
    var next := NextMethod(cfg, desired, h.m.sessions[id].eapMethod);
    if h.m.sessions[id].attemptCount > 0 || MethodStarted(h, id) || next.None? {
      RejectServes(cfg, h, id, h, [], clock, env.clock.stamp);
    } else {
      var h1 := SwitchTo(h, id, next, env.clock.touch);
      SwitchOpens(cfg, h, id, next, clock, env.clock.touch);
      StartMethodServes(cfg, h1, id, next, env, env.clock.touch);
      var out := StartMethod(cfg, h1, id, next, env);
      ServedVia(cfg, h, h1, id, out, env.clock.stamp);
      ServedLogged(cfg, h, id, out, [Switched(id, next.value)], env.clock.stamp);
    }
  }

  lemma SendNextServes(cfg: Config, h: Handler, id: Id, server: TlsServer, env: Env, missing: byte, clock: nat)
    requires Open(cfg, h, id, clock) && clock <= env.clock.issue <= env.clock.stamp
    requires id in h.tls && id !in h.teap && h.m.sessions[id].eapMethod == Some(Tls) && QueueFits(cfg, server.outgoing)
    ensures Served(cfg, h, id, SendNext(h, id, server, env, missing), env.clock.stamp)
  {
    var h1 := h.(tls := h.tls[id := server]);
    assert SameOthers(h, h1, id);
    if server.HasPending() {
      var h2 := h.(tls := h.tls[id := server.Advance()]);
      assert SameOthers(h, h2, id);
      AskServes(cfg, h2, id, Tls, EncodeTls(server.outgoing[server.cursor]), env, missing, clock);
    } else {
      RejectServes(cfg, h, id, h1, [], clock, env.clock.stamp);
    }
  }

  /** Ending with a key touches the session and cannot record a Success state. */
  lemma SuccessServes(cfg: Config, h: Handler, id: Id, out: Out, env: Env, clock: nat)
    requires Open(cfg, h, id, clock) && clock <= env.clock.issue <= env.clock.stamp
    requires out.result.Accept?
    requires var m := h.m.Touch(id, env.clock.issue);
             out.h == h.(m := m.Put(id, m.sessions[id].Transition(SuccessState, env.clock.stamp)))
    ensures Served(cfg, h, id, out, env.clock.stamp)
  {
    var s := h.m.sessions[id].(lruSeq := h.m.nextSeq, lastActivity := env.clock.issue);
    TouchAndPut(h, id, s, clock, env.clock.issue, env.clock.stamp);
  }

  lemma FinishTlsServes(cfg: Config, h: Handler, id: Id, user: string, server: TlsServer, identifier: byte, env: Env,
                        clock: nat)
    requires Open(cfg, h, id, clock) && clock <= env.clock.issue <= env.clock.stamp
    ensures Served(cfg, h, id, FinishTls(h, id, user, server, identifier, env), env.clock.stamp)
  {
    var out := FinishTls(h, id, user, server, identifier, env);
    if out.result.Reject? {
      RejectServes(cfg, h, id, h, [], clock, env.clock.stamp);
    } else {
      SuccessServes(cfg, h, id, out, env, clock);
    }
  }

  lemma CompleteTlsServes(cfg: Config, h: Handler, user: string, id: Id, server: TlsServer, identifier: byte,
                          env: Env, clock: nat)
    requires Open(cfg, h, id, clock) && clock <= env.clock.issue <= env.clock.stamp
    requires id in h.tls && id !in h.teap && h.m.sessions[id].eapMethod == Some(Tls)
    ensures Served(cfg, h, id, CompleteTls(cfg, h, user, id, server, identifier, env), env.clock.stamp)
  {
    var out := CompleteTls(cfg, h, user, id, server, identifier, env);
    if server.conn.handshaking || !cfg.Verifies(server.conn, user) ||
       (server.conn.tls13 && (env.commitment.None? || env.commitment.value == [])) {
      RejectServes(cfg, h, id, h, out.log, clock, env.clock.stamp);
    } else if server.conn.tls13 {
      QueuedFits(cfg, env.commitment.value, Always);
      SendNextServes(cfg, h, id, server.(commitmentSent := true).Queue(env.commitment.value, cfg.maxFragment), env,
                     (identifier + 1) % 256, clock);
    } else {
      FinishTlsServes(cfg, h, id, user, server, identifier, env, clock);
    }
  }

  lemma WithServer(cfg: Config, h: Handler, id: Id, server: TlsServer, clock: nat)
    requires Open(cfg, h, id, clock) && id in h.tls && server.outgoing == h.tls[id].outgoing
    ensures var h1 := h.(tls := h.tls[id := server]); Open(cfg, h1, id, clock) && SameOthers(h, h1, id)
  {
    TlsPlaced(h, id, server, clock);
  }

  lemma AnswerTlsServes(cfg: Config, h: Handler, user: string, id: Id, processed: Processed, p: EapTlsPacket,
                        identifier: byte, env: Env, clock: nat)
    requires Open(cfg, h, id, clock) && clock <= env.clock.issue <= env.clock.stamp
    requires id in h.tls && id !in h.teap && h.m.sessions[id].eapMethod == Some(Tls)
    ensures Served(cfg, h, id, AnswerTls(cfg, h, user, id, processed, p, identifier, env), env.clock.stamp)
  {
    var missing := (identifier + 1) % 256;
    match processed.result
    case Failure(_) =>
      RejectServes(cfg, h, id, h, [], clock, env.clock.stamp);
    case Success(Some(output)) =>
      QueuedFits(cfg, output, Always);
      SendNextServes(cfg, h, id, processed.server.Queue(output, cfg.maxFragment), env, missing, clock);
    case Success(None) =>
      if p.flags.more {
        AskServes(cfg, h, id, Tls, EncodeTls(ACK), env, missing, clock);
      } else {
        CompleteTlsServes(cfg, h, user, id, processed.server, identifier, env, clock);
      }
  }

  lemma AdvanceTlsServes(cfg: Config, h: Handler, user: string, id: Id, p: EapTlsPacket, identifier: byte, env: Env,
                         clock: nat)
    requires Open(cfg, h, id, clock) && clock <= env.clock.issue <= env.clock.stamp
    requires id in h.tls && id !in h.teap && h.m.sessions[id].eapMethod == Some(Tls)
    ensures Served(cfg, h, id, AdvanceTls(cfg, h, user, id, h.tls[id], p, identifier, env), env.clock.stamp)
  {
    hide AnswerTls, Served, SameOthers;
    var processed := Process(h.tls[id], p, env);
    var h1 := h.(tls := h.tls[id := processed.server]);
    WithServer(cfg, h, id, processed.server, clock);
    AnswerTlsServes(cfg, h1, user, id, processed, p, identifier, env, clock);
    var out := AnswerTls(cfg, h1, user, id, processed, p, identifier, env);
    ServedVia(cfg, h, h1, id, out, env.clock.stamp);
    ServedLogged(cfg, h, id, out, Told(id, p, processed), env.clock.stamp);
  }

  lemma ContinueTlsServes(cfg: Config, h: Handler, user: string, id: Id, response: EapPacket, env: Env, clock: nat)
    requires Open(cfg, h, id, clock) && clock <= env.clock.issue <= env.clock.stamp
    requires id in h.tls ==> id !in h.teap && h.m.sessions[id].eapMethod == Some(Tls)
    ensures Served(cfg, h, id, ContinueTls(cfg, h, user, id, response, env), env.clock.stamp)
  {
    if id !in h.tls {
      RejectServes(cfg, h, id, h, [], clock, env.clock.stamp);
    } else if h.tls[id].HasPending() {
      SendNextServes(cfg, h, id, h.tls[id], env, (response.identifier + 1) % 256, clock);
    } else if h.tls[id].commitmentSent && !h.tls[id].conn.handshaking {
      FinishTlsServes(cfg, h, id, user, h.tls[id], response.identifier, env, clock);
    } else {
      match DecodeTls(response.data)
      case Failure(_) => RejectServes(cfg, h, id, h, [], clock, env.clock.stamp);
      case Success(p) => AdvanceTlsServes(cfg, h, user, id, p, response.identifier, env, clock);
    }
  }

  lemma SendNextTeapServes(cfg: Config, h: Handler, id: Id, server: TeapServer, env: Env, missing: byte, clock: nat)
    requires Open(cfg, h, id, clock) && clock <= env.clock.issue <= env.clock.stamp
    requires id in h.teap && id !in h.tls && h.m.sessions[id].eapMethod == Some(Teap) && QueueFits(cfg, server.outgoing)
    ensures Served(cfg, h, id, SendNextTeap(h, id, server, env, missing), env.clock.stamp)
  {
    if server.HasPending() {
      var next := server.(cursor := server.cursor + 1);
      TeapPlaced(h, id, next, clock);
      var h1 := h.(teap := h.teap[id := next]);
      AskServes(cfg, h1, id, Teap, TeapTypeData(server.outgoing[server.cursor]), env, missing, clock);
      ServedVia(cfg, h, h1, id, SendNextTeap(h, id, server, env, missing), env.clock.stamp);
    } else {
      TeapPlaced(h, id, server, clock);
      RejectServes(cfg, h, id, h.(teap := h.teap[id := server]), [], clock, env.clock.stamp);
    }
  }

  lemma ContinueTeapServes(cfg: Config, h: Handler, user: string, id: Id, response: EapPacket, env: Env, clock: nat)
    requires Open(cfg, h, id, clock) && clock <= env.clock.issue <= env.clock.stamp
    requires id in h.teap ==> id !in h.tls && h.m.sessions[id].eapMethod == Some(Teap)
    ensures Served(cfg, h, id, ContinueTeap(cfg, h, user, id, response, env), env.clock.stamp)
  {
    var missing := (response.identifier + 1) % 256;
    if id !in h.teap || cfg.readTeap(response.data).None? {
      RejectServes(cfg, h, id, h, [], clock, env.clock.stamp);
    } else {
      var server, p := h.teap[id], cfg.readTeap(response.data).value;
      if server.HasPending() {
        if p.data != [] || p.flags.more {
          RejectServes(cfg, h, id, h, [], clock, env.clock.stamp);
        } else {
          SendNextTeapServes(cfg, h, id, server, env, missing, clock);
        }
      } else if env.teapAnswer.None? {
        RejectServes(cfg, h, id, h, [], clock, env.clock.stamp);
      } else {
        TeapAnswerServes(cfg, h, user, id, response, p, env, clock);
      }
    }
  }

  lemma WithTeap(cfg: Config, h: Handler, id: Id, server: TeapServer, clock: nat)
    requires Open(cfg, h, id, clock) && id in h.teap && server.outgoing == h.teap[id].outgoing
    ensures var h1 := h.(teap := h.teap[id := server]); Open(cfg, h1, id, clock) && SameOthers(h, h1, id)
  {
    TeapPlaced(h, id, server, clock);
  }

  lemma TeapAnswerServes(cfg: Config, h: Handler, user: string, id: Id, response: EapPacket, p: EapTlsPacket,
                         env: Env, clock: nat)
    requires Open(cfg, h, id, clock) && clock <= env.clock.issue <= env.clock.stamp
    requires id in h.teap && id !in h.tls && h.m.sessions[id].eapMethod == Some(Teap)
    requires !h.teap[id].HasPending() && env.teapAnswer.Some? && cfg.readTeap(response.data) == Some(p)
    ensures Served(cfg, h, id, ContinueTeap(cfg, h, user, id, response, env), env.clock.stamp)
  {
    hide AnswerTeap, Served, SameOthers;
    var answer := env.teapAnswer.value;
    var server := h.teap[id].(negotiated := true, complete := answer.complete, msk := answer.msk);
    var h1 := h.(teap := h.teap[id := server]);
    WithTeap(cfg, h, id, server, clock);
    AnswerTeapServes(cfg, h1, user, id, server, answer.output, p, response.identifier, env, clock);
    var out := AnswerTeap(cfg, h1, user, id, server, answer.output, p, response.identifier, env);
    ServedVia(cfg, h, h1, id, out, env.clock.stamp);
    ServedLogged(cfg, h, id, out, [Ran(id, p, answer)], env.clock.stamp);
  }

  lemma AnswerTeapServes(cfg: Config, h: Handler, user: string, id: Id, server: TeapServer,
                         output: Option<seq<byte>>, p: EapTlsPacket, identifier: byte, env: Env, clock: nat)
    requires Open(cfg, h, id, clock) && clock <= env.clock.issue <= env.clock.stamp
    requires id in h.teap && id !in h.tls && h.m.sessions[id].eapMethod == Some(Teap) && h.teap[id] == server
    ensures Served(cfg, h, id, AnswerTeap(cfg, h, user, id, server, output, p, identifier, env), env.clock.stamp)
  {
    var missing := (identifier + 1) % 256;
    if output.Some? {
      QueuedFits(cfg, output.value, FragmentedOnly);
      SendNextTeapServes(cfg, h, id, server.Queue(output.value, cfg.maxFragment), env, missing, clock);
    } else if p.flags.more {
      AskServes(cfg, h, id, Teap, TeapTypeData(ACK), env, missing, clock);
    } else if !server.complete || server.msk.None? {
      RejectServes(cfg, h, id, h, [], clock, env.clock.stamp);
    } else {
      SuccessServes(cfg, h, id, FinishTeap(h, id, user, server, identifier, env), env, clock);
    }
  }
}
