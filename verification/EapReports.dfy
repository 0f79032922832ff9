/** The log of a call tells what the call returned: an Access-Challenge is its last event's Request, an
    Access-Accept its last event's acceptance of the request's own User-Name, and nothing else is either. */
module EapReports {
  import opened Octets
  import opened EapCodec
  import opened EapFragments
  import opened EapSessions
  import opened Binding
  import opened EapHandler

  /** An event that goes with a Challenge or an Accept. */
  predicate Conclusive(e: Event) { e.Issued? || e.AcceptedTls? || e.AcceptedTeap? }

  predicate Inconclusive(log: seq<Event>) { forall i :: 0 <= i < |log| ==> !Conclusive(log[i]) }

  /** The Access-Challenge for a Request of conversation `id`. */
  function Challenging(id: Id, identifier: byte, eapType: EapType, data: seq<byte>): AuthResult {
    Challenge(StateFor(id), ToAttributes(EapPacket(Request, identifier, Some(eapType), data)))
  }

  /** The Access-Accept that answers a Response with this Identifier. */
  function Accepting(identifier: byte, msk: seq<byte>): AuthResult {
    Accept(ToAttributes(EapPacket(EapSuccess, identifier, None, [])), Some(msk))
  }

  /** If the peer presented certificates, there is at least one and they identify the user. */
  predicate Presents(cfg: Config, conn: Conn, user: string) {
    conn.peerCerts.Some? ==> conn.peerCerts.value != [] && cfg.identifies(conn.peerCerts.value, user)
  }

  /** The TEAP state machine has completed on the packet in this Type-Data, which is no fragment, with a key and
      nothing to send. */
  predicate Completed(cfg: Config, data: seq<byte>, env: Env) {
    && cfg.readTeap(data).Some? && !cfg.readTeap(data).value.flags.more
    && env.teapAnswer.Some? && env.teapAnswer.value.complete && env.teapAnswer.value.msk.Some?
    && env.teapAnswer.value.output.None?
  }

  /** What goes with the last event of a call that answers Response `p` for `user`: the Request sent,
      or the acceptance of that user with the keys that TLS or TEAP holds at that moment. */
  predicate Concludes(cfg: Config, id: Id, user: string, p: EapPacket, env: Env, result: AuthResult, last: Event) {
    match last
    case Issued(x, i, t, d) => x == id && result == Challenging(id, i, t, d)
    case AcceptedTls(x, u, _) =>
      x == id && u == user && env.keys.Some? && result == Accepting(p.identifier, env.keys.value)
    case AcceptedTeap(x, u) =>
      && x == id && u == user && Completed(cfg, p.data, env)
      && result == Accepting(p.identifier, env.teapAnswer.value.msk.value)
    case _ => false
  }

  /** An event tells what Response `p` and the outside world brought: the packet in it, the connection and flight of
      the TLS library, the commitment record, the answer of the TEAP state machine, the name verified. */
  predicate Attested(cfg: Config, user: string, p: EapPacket, env: Env, e: Event) {
    match e
    case Taken(_, packet) => DecodeTls(p.data) == Success(packet)
    case Fed(_, _, conn, output) => env.tlsAnswer == Some((conn, output))
    case Verified(_, u, _) => u == user
    case Committed(_, record) => env.commitment == Some(record)
    case Ran(_, packet, answer) => cfg.readTeap(p.data) == Some(packet) && env.teapAnswer == Some(answer)
    case Switched(_, next) => p.eapType == Some(Nak)
    case _ => true
  }

  predicate AllAttested(cfg: Config, user: string, p: EapPacket, env: Env, log: seq<Event>) {
    forall i :: 0 <= i < |log| ==> Attested(cfg, user, p, env, log[i])
  }

  predicate Reports(cfg: Config, id: Id, user: string, p: EapPacket, env: Env, out: Out) {
    && AllAttested(cfg, user, p, env, out.log)
    && match out.result
       case Discard => false
       case Reject => Inconclusive(out.log)
       case _ =>
         var n := |out.log| - 1;
         out.log != [] && Inconclusive(out.log[..n]) && Concludes(cfg, id, user, p, env, out.result, out.log[n])
  }

  lemma ReportsAfter(cfg: Config, id: Id, user: string, p: EapPacket, env: Env, e: Event, out: Out)
    requires Reports(cfg, id, user, p, env, out) && !Conclusive(e) && Attested(cfg, user, p, env, e)
    ensures Reports(cfg, id, user, p, env, out.(log := [e] + out.log))
  {
    if out.result.Challenge? || out.result.Accept? {
      var n := |out.log| - 1;
      assert ([e] + out.log)[..n + 1] == [e] + out.log[..n];
    }
  }

  // ----- one step of a method -----

  lemma AskReports(cfg: Config, h: Handler, id: Id, user: string, p: EapPacket, eapType: EapType, data: seq<byte>,
                   env: Env, missing: byte)
    ensures Reports(cfg, id, user, p, env, Ask(h, id, eapType, data, env, missing))
  {
  }

  lemma StartMethodReports(cfg: Config, h: Handler, id: Id, user: string, p: EapPacket,
                           eapMethod: Option<EapType>, env: Env)
    ensures Reports(cfg, id, user, p, env, StartMethod(cfg, h, id, eapMethod, env))
  {
    var h1 := h.(tls := h.tls[id := TlsServer(env.newConn, Started, CLEARED, [], 0, false)]);
    AskReports(cfg, h1, id, user, p, Tls, EncodeTls(START), env, 0);
    var h2 := h.(teap := h.teap[id := TeapServer(false, [], 0, false, None)]);
    AskReports(cfg, h2, id, user, p, Teap, TeapTypeData(START), env, 0);
  }

  lemma IdentityReports(cfg: Config, h: Handler, user: string, id: Id, p: EapPacket, env: Env)
    ensures Reports(cfg, id, user, p, env, HandleIdentity(cfg, h, user, id, env))
  {
    var m := h.m.Touch(id, env.clock.touch);
    if id in m.sessions {
      var s := m.sessions[id].(identity := Some(user))
               .Transition(IdentityReceived, env.clock.touch).Transition(MethodRequested, env.clock.touch)
               .(eapMethod := Preferred(cfg));
      StartMethodReports(cfg, h.(m := m.Put(id, s)), id, user, p, Preferred(cfg), env);
    }
  }

  lemma NakReports(cfg: Config, h: Handler, user: string, id: Id, p: EapPacket, env: Env)
    requires p.eapType == Some(Nak)
    ensures Reports(cfg, id, user, p, env, HandleNak(cfg, h, id, p.data, env))
  {
    if id in h.m.sessions {
      var next := NextMethod(cfg, p.data, h.m.sessions[id].eapMethod);
      if next.Some? {
        var h1 := SwitchTo(h, id, next, env.clock.touch);
        StartMethodReports(cfg, h1, id, user, p, next, env);
        ReportsAfter(cfg, id, user, p, env, Switched(id, next.value), StartMethod(cfg, h1, id, next, env));
      }
    }
  }

  lemma SendNextReports(cfg: Config, h: Handler, id: Id, user: string, p: EapPacket, server: TlsServer, env: Env,
                        missing: byte)
    ensures Reports(cfg, id, user, p, env, SendNext(h, id, server, env, missing))
  {
  }

  lemma FinishTlsReports(cfg: Config, h: Handler, id: Id, user: string, server: TlsServer, p: EapPacket, env: Env)
    ensures Reports(cfg, id, user, p, env, FinishTls(h, id, user, server, p.identifier, env))
  {
  }

  lemma CompleteTlsReports(cfg: Config, h: Handler, user: string, id: Id, server: TlsServer, p: EapPacket, env: Env)
    ensures Reports(cfg, id, user, p, env, CompleteTls(cfg, h, user, id, server, p.identifier, env))
  {
    hide FinishTls, SendNext, Reports;
    FinishTlsReports(cfg, h, id, user, server, p, env);
    NothingReported(cfg, h, id, user, p, env);
    if env.commitment.Some? {
      var record := env.commitment.value;
      var queued := server.(commitmentSent := true).Queue(record, cfg.maxFragment);
      SendNextReports(cfg, h, id, user, p, queued, env, (p.identifier + 1) % 256);
      ReportsAfter(cfg, id, user, p, env, Committed(id, record),
                   SendNext(h, id, queued, env, (p.identifier + 1) % 256));
    }
    ReportsAfter(cfg, id, user, p, env, Verified(id, user, server.conn),
                 AfterVerification(cfg, h, user, id, server, p.identifier, env));
  }

  lemma NothingReported(cfg: Config, h: Handler, id: Id, user: string, p: EapPacket, env: Env)
    ensures Reports(cfg, id, user, p, env, Out(h, Reject, []))
  {
  }

  lemma AnswerTlsReports(cfg: Config, h: Handler, user: string, id: Id, processed: Processed, q: EapTlsPacket,
                         p: EapPacket, env: Env)
    ensures Reports(cfg, id, user, p, env, AnswerTls(cfg, h, user, id, processed, q, p.identifier, env))
  {
    hide SendNext, Ask, CompleteTls, Reports;
    match processed.result
    case Failure(_) => NothingReported(cfg, h, id, user, p, env);
    case Success(Some(output)) =>
      SendNextReports(cfg, h, id, user, p, processed.server.Queue(output, cfg.maxFragment), env,
                      (p.identifier + 1) % 256);
    case Success(None) =>
      AskReports(cfg, h, id, user, p, Tls, EncodeTls(ACK), env, (p.identifier + 1) % 256);
      CompleteTlsReports(cfg, h, user, id, processed.server, p, env);
  }

  lemma ContinueTlsReports(cfg: Config, h: Handler, user: string, id: Id, p: EapPacket, env: Env)
    ensures Reports(cfg, id, user, p, env, ContinueTls(cfg, h, user, id, p, env))
  {
    hide SendNext, FinishTls, AdvanceTls, Reports;
    NothingReported(cfg, h, id, user, p, env);
    if id in h.tls {
      var server := h.tls[id];
      SendNextReports(cfg, h, id, user, p, server, env, (p.identifier + 1) % 256);
      FinishTlsReports(cfg, h, id, user, server, p, env);
      if DecodeTls(p.data).Success? {
        AdvanceTlsReports(cfg, h, user, id, server, DecodeTls(p.data).value, p, env);
      }
    }
  }

  lemma AdvanceTlsReports(cfg: Config, h: Handler, user: string, id: Id, server: TlsServer, q: EapTlsPacket,
                          p: EapPacket, env: Env)
    requires DecodeTls(p.data) == Success(q)
    ensures Reports(cfg, id, user, p, env, AdvanceTls(cfg, h, user, id, server, q, p.identifier, env))
  {
    hide AnswerTls, Reports;
    var processed := Process(server, q, env);
    var h1 := h.(tls := h.tls[id := processed.server]);
    var out, told := AnswerTls(cfg, h1, user, id, processed, q, p.identifier, env), Told(id, q, processed);
    AnswerTlsReports(cfg, h1, user, id, processed, q, p, env);
    if processed.fed.Some? {
      ReportsAfter(cfg, id, user, p, env, told[1], out);
      ReportsAfter(cfg, id, user, p, env, told[0], out.(log := [told[1]] + out.log));
      assert told + out.log == [told[0]] + ([told[1]] + out.log);
    } else {
      ReportsAfter(cfg, id, user, p, env, told[0], out);
      assert told == [told[0]];
    }
  }

  lemma AnswerTeapReports(cfg: Config, h: Handler, user: string, id: Id, server: TeapServer,
                          output: Option<seq<byte>>, q: EapTlsPacket, p: EapPacket, env: Env)
    requires env.teapAnswer == Some(TeapAnswer(server.complete, server.msk, output)) && cfg.readTeap(p.data) == Some(q)
    ensures Reports(cfg, id, user, p, env, AnswerTeap(cfg, h, user, id, server, output, q, p.identifier, env))
  {
  }

  lemma ContinueTeapReports(cfg: Config, h: Handler, user: string, id: Id, p: EapPacket, env: Env)
    ensures Reports(cfg, id, user, p, env, ContinueTeap(cfg, h, user, id, p, env))
  {
    hide AnswerTeap;
    var read := cfg.readTeap(p.data);
    if id in h.teap && read.Some? && !h.teap[id].HasPending() && env.teapAnswer.Some? {
      var answer := env.teapAnswer.value;
      var server := h.teap[id].(negotiated := true, complete := answer.complete, msk := answer.msk);
      var h1 := h.(teap := h.teap[id := server]);
      AnswerTeapReports(cfg, h1, user, id, server, answer.output, read.value, p, env);
      ReportsAfter(cfg, id, user, p, env, Ran(id, read.value, answer),
                   AnswerTeap(cfg, h1, user, id, server, answer.output, read.value, p.identifier, env));
    }
  }

  lemma DispatchReports(cfg: Config, h: Handler, user: string, id: Id, p: EapPacket, env: Env)
    ensures Reports(cfg, id, user, p, env, Dispatch(cfg, h, user, id, p, env))
  {
    hide ContinueTls, ContinueTeap, HandleNak, Reports;
    match p.eapType
    case Some(Tls) => ContinueTlsReports(cfg, h, user, id, p, env);
    case Some(Teap) => ContinueTeapReports(cfg, h, user, id, p, env);
    case Some(Nak) => NakReports(cfg, h, user, id, p, env);
    case _ => NothingReported(cfg, h, id, user, p, env);
  }

  // ----- one Access-Request -----

  /** What stands for the Response where a conversation begins. */
  const OPENING: EapPacket := EapPacket(Response, 0, Some(Identity), [])

  /** A call with something to tell begins or continues the conversation of its binding and reports its own
      result: an Accept is for the User-Name of the request, and only a Response is answered by one. */
  predicate CallReports(cfg: Config, request: seq<Attribute>, client: Option<Ip>, env: Env, out: Out) {
    out.log != [] ==>
      var user, binding, first := UserName(cfg, request), ConversationBinding(request, client), out.log[0];
      && match Read(request)
         case Opening(seed) =>
           && SessionIdForState(env.drawn) == Some(first.id) && first == Began(first.id, binding, seed)
           && !out.result.Accept? && Reports(cfg, first.id, user, OPENING, env, out)
         case Answering(p) =>
           && SessionIdForState(Find(request, STATE)) == Some(first.id)
           && first == ResponseClaimed(first.id, binding, p.identifier)
           && Reports(cfg, first.id, user, p, env, out)
         case Unreadable => false
  }

  lemma {:induction false} BeginReports(cfg: Config, h: Handler, user: string, binding: seq<byte>, seed: Option<byte>,
                                        env: Env)
    ensures var out := Begin(cfg, h, user, binding, seed, env);
            out.log != [] ==>
              && SessionIdForState(env.drawn) == Some(out.log[0].id)
              && out.log[0] == Began(out.log[0].id, binding, seed)
              && !out.result.Accept? && Reports(cfg, out.log[0].id, user, OPENING, env, out)
  {
    var (h1, started) := StartSession(h, binding, env);
    if started.Some? {
      var id := started.value;
      var h2 := if seed.Some? then Seed(h1, id, seed.value, env.clock.seed) else h1;
      IdentityReports(cfg, h2, user, id, OPENING, env);
      ReportsAfter(cfg, id, user, OPENING, env, Began(id, binding, seed), HandleIdentity(cfg, h2, user, id, env));
      IdentityNeverAccepts(cfg, h2, user, id, env);
    }
  }

  lemma IdentityNeverAccepts(cfg: Config, h: Handler, user: string, id: Id, env: Env)
    ensures !HandleIdentity(cfg, h, user, id, env).result.Accept?
  {
  }

  lemma {:induction false} ContinueReports(cfg: Config, h: Handler, user: string, binding: seq<byte>,
                                           state: Option<seq<byte>>, p: EapPacket, env: Env)
    ensures var out := Continue(cfg, h, user, binding, state, p, env);
            out.log != [] ==>
              && SessionIdForState(state) == Some(out.log[0].id)
              && out.log[0] == ResponseClaimed(out.log[0].id, binding, p.identifier)
              && Reports(cfg, out.log[0].id, user, p, env, out)
  {
    var named := SessionIdForState(state);
    if named.Some? && h.m.ClaimOf(named.value, binding, p.identifier).Claimed? {
      var id := named.value;
      var h1 := h.(m := h.m.Claim(id, binding, p.identifier));
      DispatchReports(cfg, h1, user, id, p, env);
      ReportsAfter(cfg, id, user, p, env, ResponseClaimed(id, binding, p.identifier),
                   Dispatch(cfg, h1, user, id, p, env));
    }
  }

  /** Every call of the handler, whatever its state, reports its result in its log. */
  lemma {:induction false} AuthenticateReports(cfg: Config, h: Handler, request: seq<Attribute>, client: Option<Ip>,
                                               env: Env)
    ensures CallReports(cfg, request, client, env, Authenticate(cfg, h, request, client, env))
  {
    var h0 := ReapIdle(h, env.clock.idle);
    var user, binding := UserName(cfg, request), ConversationBinding(request, client);
    match Read(request)
    case Opening(seed) => BeginReports(cfg, h0, user, binding, seed, env);
    case Answering(p) => ContinueReports(cfg, h0, user, binding, Find(request, STATE), p, env);
    case Unreadable =>
  }
}
