/** What an Access-Request says to the EAP handler, and what becomes of a request that says nothing to it. */
module EapRequests {
  import opened Octets
  import opened EapCodec
  import opened EapFragments
  import opened EapSessions
  import opened Binding
  import opened EapHandler
  import opened EapReports
  import opened EapCalls

  /** The name is the first User-Name (attribute 1), if that is text, and otherwise empty. */
  lemma UserNameExactly(cfg: Config, before: seq<Attribute>, value: seq<byte>, after: seq<Attribute>)
    requires |value| <= 253 && forall i :: 0 <= i < |before| ==> before[i].kind != 1
    ensures UserName(cfg, before + [RawAttribute(1, value)] + after) ==
            match cfg.utf8(value) { case Some(name) => name case None => "" }
    ensures UserName(cfg, before) == ""
  {
    FindFirst(before, RawAttribute(1, value), after);
  }

  /** What kind of request it is, as the log tells: without EAP, or with an Identity Response, it begins a conversation,
      in the latter case with that Response's Identifier; with any other Response it answers; and with octets that are
      not an EAP packet, or one that is no Response, it is rejected and nothing happens. */
  lemma {:induction false} RequestKind(cfg: Config, h: Handler, request: seq<Attribute>, client: Option<Ip>, env: Env)
    ensures var out, octets := Authenticate(cfg, h, request, client, env), EapOctets(request);
            if octets == [] then out.log != [] ==> out.log[0].Began? && out.log[0].seed == None
            else
              match DecodeEap(octets)
              case Failure(_) => out.result == Reject && out.log == []
              case Success(p) =>
                if p.code != Response then out.result == Reject && out.log == []
                else if p.eapType == Some(Identity) then
                  out.log != [] ==> out.log[0].Began? && out.log[0].seed == Some(p.identifier)
                else out.log != [] ==> out.log[0].ResponseClaimed? && out.log[0].identifier == p.identifier
  {
    hide Begin, Continue, Reports;
    AuthenticateReports(cfg, h, request, client, env);
  }

  /** The conversation a State names, unless it was idle past the timeout. */
  ghost predicate Alive(h: Handler, id: Id, now: nat) {
    id in h.m.sessions && now <= h.m.sessions[id].lastActivity + h.m.timeout
  }

  lemma AnswersAll(cfg: Config, h: Handler, request: seq<Attribute>, client: Option<Ip>, env: Env)
    ensures var out := Authenticate(cfg, h, request, client, env); out.log != [] ==> out.result != Discard
  {
    hide Authenticate;
    AuthenticateReports(cfg, h, request, client, env);
  }

  /** A Response is claimed exactly when its State (attribute 24, 16 octets) names a live conversation begun by the same
      peer whose outstanding Request has its Identifier. If only the Identifier is another, it is discarded silently,
      and nothing else ever is; in every other case it is rejected. Unclaimed, it changes nothing beyond eviction. */
  lemma {:induction false} ClaimedExactly(cfg: Config, h: Handler, request: seq<Attribute>, client: Option<Ip>,
                                          env: Env)
    requires Read(request).Answering?
    ensures var out, now := Authenticate(cfg, h, request, client, env), env.clock.idle;
            var p, id := Read(request).response, SessionIdForState(Find(request, 24));
            var mine := id.Some? && Alive(h, id.value, now)
                        && h.m.sessions[id.value].binding == ConversationBinding(request, client);
            var awaited := mine && h.m.sessions[id.value].outstanding == Some(p.identifier);
            && (out.log != [] <==> awaited)
            && (out.result == Discard <==> mine && !awaited)
            && (!mine ==> out.result == Reject)
            && (!awaited ==> out.h == ReapIdle(h, now))
  {
    hide Dispatch, Finish, ConversationBinding, SessionIdForState, Reports;
    var idle := ReapIdle(h, env.clock.idle);
    SweepExactly(h.m, env.clock.idle);
    AnswersAll(cfg, h, request, client, env);
    RouteRefuses(cfg, idle, request, client, env);
  }

  /** A request to begin begins a conversation exactly when the random source gives 16 octets that name none still live
      after eviction; otherwise it is rejected, and changes nothing beyond eviction. */
  lemma {:induction false} BegunExactly(cfg: Config, h: Handler, request: seq<Attribute>, client: Option<Ip>, env: Env)
    requires Read(request).Opening?
    ensures var out, evicted := Authenticate(cfg, h, request, client, env), AfterEviction(h, request, env);
            var begins := env.drawn.Some? && |env.drawn.value| == 16
                          && SessionIdForState(env.drawn).value !in evicted.m.sessions;
            && (out.log != [] <==> begins)
            && (!begins ==> out.result == Reject && out.h == evicted)
  {
    hide HandleIdentity, Finish, Reap, ReapIdle;
    StateLength(env.drawn);
    RouteRefuses(cfg, ReapIdle(h, env.clock.idle), request, client, env);
  }

  /** Nothing but a Response with a wrong Identifier is discarded. */
  lemma {:induction false} OthersAnswered(cfg: Config, h: Handler, request: seq<Attribute>, client: Option<Ip>,
                                          env: Env)
    requires !Read(request).Answering?
    ensures Authenticate(cfg, h, request, client, env).result != Discard
  {
    hide Begin;
    AnswersAll(cfg, h, request, client, env);
    RouteRefuses(cfg, ReapIdle(h, env.clock.idle), request, client, env);
  }

  /** This Type of a Nak is configured here and is not the one declined: 13 is EAP-TLS, 55 is TEAP. */
  ghost predicate Takes(cfg: Config, listed: byte, declined: Option<EapType>) {
    || (listed == 13 && declined != Some(Tls) && "" in cfg.realms)
    || (listed == 55 && declined != Some(Teap) && exists r :: r in cfg.realms && "teap_" <= r)
  }

  /** Of the Types a Nak lists the first that is acceptable is taken. */
  lemma {:induction false} FirstTaken(cfg: Config, desired: seq<byte>, declined: Option<EapType>)
    ensures match NextMethod(cfg, desired, declined)
            case None => forall i :: 0 <= i < |desired| ==> !Takes(cfg, desired[i], declined)
            case Some(next) =>
              exists i ::
                && 0 <= i < |desired| && Takes(cfg, desired[i], declined)
                && desired[i] == (if next == Tls then 13 else 55)
                && forall j :: 0 <= j < i ==> !Takes(cfg, desired[j], declined)
  {
    if desired != [] {
      TypeNumbers(desired[0]);
      if !Takes(cfg, desired[0], declined) {
        FirstTaken(cfg, desired[1..], declined);
        assert forall j :: 1 <= j < |desired| ==> desired[1..][j - 1] == desired[j];
        if NextMethod(cfg, desired, declined).Some? {
          var next := NextMethod(cfg, desired, declined).value;
          var i :| 0 <= i < |desired[1..]| && Takes(cfg, desired[1..][i], declined) &&
                   desired[1..][i] == (if next == Tls then 13 else 55) &&
                   forall j :: 0 <= j < i ==> !Takes(cfg, desired[1..][j], declined);
          assert desired[i + 1] == desired[1..][i];
        }
      }
    }
  }

  // ---------------------------------------------------------------------------------------
  // What a request that does say something is answered with
  // ---------------------------------------------------------------------------------------

  /** The TLS library has completed the handshake on this packet and has nothing to send. */
  predicate HandshakeOver(server: TlsServer, q: EapTlsPacket, env: Env) {
    var added := server.assembler.Add(q).result;
    && !q.flags.start && added.Success? && added.value.Some?
    && env.tlsAnswer.Some? && env.tlsAnswer.value.1 == [] && !env.tlsAnswer.value.0.handshaking
  }

  /** When EAP-TLS accepts: at the first Response after the commitment record, or over TLS 1.2 at once when the
      handshake is over and the peer identified; with keys, and never while fragments are left. */
  predicate TlsAccepts(cfg: Config, user: string, server: TlsServer, data: seq<byte>, env: Env) {
    && !server.HasPending() && env.keys.Some?
    && if server.commitmentSent && !server.conn.handshaking then true
       else
         var q := DecodeTls(data);
         && q.Success? && HandshakeOver(server, q.value, env) && !env.tlsAnswer.value.0.tls13
         && Presents(cfg, env.tlsAnswer.value.0, user)
  }

  /** When it sends a Request: while fragments are left; to acknowledge a fragment; when TLS gives a flight; and over
      TLS 1.3, when the handshake is over, the peer identified and a commitment record written. */
  predicate TlsAsks(cfg: Config, user: string, server: TlsServer, data: seq<byte>, env: Env) {
    || server.HasPending()
    || (!(server.commitmentSent && !server.conn.handshaking) &&
        var q := DecodeTls(data);
        && q.Success? && !q.value.flags.start
        && var added := server.assembler.Add(q.value).result;
           && added.Success?
           && if added.value.None? then true
              else
                && env.tlsAnswer.Some?
                && var (conn, output) := env.tlsAnswer.value;
                   || output != []
                   || (!conn.handshaking && conn.tls13 && Presents(cfg, conn, user)
                       && env.commitment.Some? && env.commitment.value != []))
  }

  lemma {:induction false} TlsKinds(cfg: Config, h: Handler, user: string, id: Id, p: EapPacket, env: Env)
    ensures var result := ContinueTls(cfg, h, user, id, p, env).result;
            && (result.Accept? <==> id in h.tls && TlsAccepts(cfg, user, h.tls[id], p.data, env))
            && (result.Challenge? <==> id in h.tls && TlsAsks(cfg, user, h.tls[id], p.data, env))
  {
    hide DecodeTls, Issue;
  }

  /** When TEAP accepts. */
  predicate TeapAccepts(cfg: Config, server: TeapServer, data: seq<byte>, env: Env) {
    !server.HasPending() && Completed(cfg, data, env)
  }

  /** When it sends a Request: while fragments are left only an acknowledgement brings the next one; otherwise when its
      state machine wants something sent, or has nothing to say to a fragment. */
  predicate TeapAsks(cfg: Config, server: TeapServer, data: seq<byte>, env: Env) {
    && cfg.readTeap(data).Some?
    && var q := cfg.readTeap(data).value;
       if server.HasPending() then q.data == [] && !q.flags.more
       else
         && env.teapAnswer.Some?
         && match env.teapAnswer.value.output
            case Some(output) => output != []
            case None => q.flags.more
  }

  lemma {:induction false} TeapKinds(cfg: Config, h: Handler, user: string, id: Id, p: EapPacket, env: Env)
    ensures var result := ContinueTeap(cfg, h, user, id, p, env).result;
            && (result.Accept? <==> id in h.teap && TeapAccepts(cfg, h.teap[id], p.data, env))
            && (result.Challenge? <==> id in h.teap && TeapAsks(cfg, h.teap[id], p.data, env))
  {
    hide Issue;
  }

  /** When a Nak is honoured: it is the first, the method declined has heard nothing yet, a listed Type is acceptable,
      and the new method gets its connection. */
  ghost predicate NakHeard(cfg: Config, h: Handler, id: Id, desired: seq<byte>, env: Env)
    requires id in h.m.sessions
  {
    var declined := h.m.sessions[id].eapMethod;
    && h.m.sessions[id].attemptCount == 0 && env.connects
    && (declined == Some(Teap) || declined == Some(Tls))
    && (declined == Some(Teap) ==> id in h.teap && !h.teap[id].negotiated)
    && (declined == Some(Tls) ==> id in h.tls && (h.tls[id].phase.NotStarted? || h.tls[id].phase.Started?))
    && exists i :: 0 <= i < |desired| && Takes(cfg, desired[i], declined)
  }

  lemma {:induction false} NakKinds(cfg: Config, h: Handler, id: Id, desired: seq<byte>, env: Env)
    requires id in h.m.sessions
    ensures var result := HandleNak(cfg, h, id, desired, env).result;
            !result.Accept? && (result.Challenge? <==> NakHeard(cfg, h, id, desired, env))
  {
    hide NextMethod, Issue, Takes, SwitchTo;
    var declined := h.m.sessions[id].eapMethod;
    FirstTaken(cfg, desired, declined);
    if NextMethod(cfg, desired, declined).Some? {
      MethodOffered(cfg, desired, declined);
    }
    StillThere(h, id, NextMethod(cfg, desired, declined), env.clock.touch);
  }

  lemma {:induction false} MethodOffered(cfg: Config, desired: seq<byte>, declined: Option<EapType>)
    requires NextMethod(cfg, desired, declined).Some?
    ensures var next := NextMethod(cfg, desired, declined).value;
            (next == Tls && cfg.TlsEnabled()) || (next == Teap && cfg.TeapEnabled())
  {
    if desired != [] && NextMethod(cfg, desired, declined) == NextMethod(cfg, desired[1..], declined) {
      MethodOffered(cfg, desired[1..], declined);
    }
  }

  lemma StillThere(h: Handler, id: Id, next: Option<EapType>, now: nat)
    requires id in h.m.sessions
    ensures id in SwitchTo(h, id, next, now).m.sessions
  {
  }

  /** Exactly which claimed Responses are answered by an Accept and which by a Request; all others are rejected. `h` is
      the handler before the request. */
  lemma {:induction false} AnswerExactly(cfg: Config, h: Handler, request: seq<Attribute>, client: Option<Ip>, env: Env)
    requires Read(request).Answering? && Authenticate(cfg, h, request, client, env).log != []
    ensures SessionIdForState(Find(request, 24)).Some?
    ensures var result, p := Authenticate(cfg, h, request, client, env).result, Read(request).response;
            var id, user := SessionIdForState(Find(request, 24)).value, UserName(cfg, request);
            && id in h.m.sessions && result != Discard
            && (result.Accept? <==>
                || (p.eapType == Some(Tls) && id in h.tls && TlsAccepts(cfg, user, h.tls[id], p.data, env))
                || (p.eapType == Some(Teap) && id in h.teap && TeapAccepts(cfg, h.teap[id], p.data, env)))
            && (result.Challenge? <==>
                || (p.eapType == Some(Tls) && id in h.tls && TlsAsks(cfg, user, h.tls[id], p.data, env))
                || (p.eapType == Some(Teap) && id in h.teap && TeapAsks(cfg, h.teap[id], p.data, env))
                || (p.eapType == Some(Nak) && NakHeard(cfg, h, id, p.data, env)))
  {
    hide SessionIdForState, ConversationBinding, UserName, ContinueTls, ContinueTeap, HandleNak, EndSession;
    hide TlsAccepts, TlsAsks, TeapAccepts, TeapAsks, Takes;
    ClaimedExactly(cfg, h, request, client, env);
    AnswersAll(cfg, h, request, client, env);
    var idle, p, user := ReapIdle(h, env.clock.idle), Read(request).response, UserName(cfg, request);
    var id, binding := SessionIdForState(Find(request, 24)).value, ConversationBinding(request, client);
    SweepExactly(h.m, env.clock.idle);
    var h1 := idle.(m := idle.m.Claim(id, binding, p.identifier));
    ClaimLeaves(h, id, binding, p.identifier, env.clock.idle);
    TlsKinds(cfg, h1, user, id, p, env);
    TeapKinds(cfg, h1, user, id, p, env);
    NakKinds(cfg, h1, id, p.data, env);
  }

  /** The sweep and the claim leave the method state of a live conversation as it was. */
  lemma ClaimLeaves(h: Handler, id: Id, binding: seq<byte>, identifier: byte, now: nat)
    requires Alive(h, id, now)
    ensures var idle := ReapIdle(h, now); var h1 := idle.(m := idle.m.Claim(id, binding, identifier));
            && id in h1.m.sessions && h1.m.sessions[id].eapMethod == h.m.sessions[id].eapMethod
            && h1.m.sessions[id].attemptCount == h.m.sessions[id].attemptCount
            && (id in h1.tls <==> id in h.tls) && (id in h.tls ==> h1.tls[id] == h.tls[id])
            && (id in h1.teap <==> id in h.teap) && (id in h.teap ==> h1.teap[id] == h.teap[id])
  {
    SweepExactly(h.m, now);
    assert id !in h.m.sessions.Keys - h.m.SweepIdle(now).sessions.Keys;
  }

  /** A conversation that began is answered by a Request exactly when a method is configured and gets its connection,
      and is rejected otherwise. */
  lemma {:induction false} OpeningExactly(cfg: Config, h: Handler, request: seq<Attribute>, client: Option<Ip>,
                                          env: Env)
    requires Read(request).Opening? && Authenticate(cfg, h, request, client, env).log != []
    ensures var result := Authenticate(cfg, h, request, client, env).result;
            && (result.Challenge? <==>
                env.connects && ("" in cfg.realms || exists r :: r in cfg.realms && "teap_" <= r))
            && (result.Challenge? || result == Reject)
  {
    hide ConversationBinding, UserName, SessionIdForState, EndSession, Reap;
    var idle, binding := ReapIdle(h, env.clock.idle), ConversationBinding(request, client);
    var (h1, started) := StartSession(idle, binding, env);
    if started.Some? {
      var id, seed := started.value, Read(request).seed;
      var h2 := if seed.Some? then Seed(h1, id, seed.value, env.clock.seed) else h1;
      IdentityKinds(cfg, h2, UserName(cfg, request), id, env);
    }
  }

  lemma IdentityKinds(cfg: Config, h: Handler, user: string, id: Id, env: Env)
    requires id in h.m.sessions
    ensures var result := HandleIdentity(cfg, h, user, id, env).result;
            && (result.Challenge? <==> env.connects && (cfg.TlsEnabled() || cfg.TeapEnabled()))
            && (result.Challenge? || result == Reject)
  {
  }
}
