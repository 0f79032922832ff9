/**
 The EAP authentication handler as a step function on values.

 One call of `Authenticate` is one Access-Request. What the handler cannot decide itself is an
 input of the call: clock readings, the random State, and the answers of the TLS library and of
 the TEAP state machine. Every call also reports what it did as a list of events, so that
 properties of whole runs can be stated on the log of a run.
 */
module EapHandler {
  import opened Octets
  import opened EapCodec
  import opened EapFragments
  import opened EapSessions
  import opened Binding

  // ---------------------------------------------------------------------------------------
  // Method state
  // ---------------------------------------------------------------------------------------

  /** What the TLS library reports about a connection. */
  datatype Conn = Conn(handshaking: bool, tls13: bool, peerCerts: Option<seq<seq<byte>>>)

  datatype HandshakeState = NotStarted | Started | InHandshake | Complete

  /** Fragment size limits are at least 16. */
  type FragmentSize = n: nat | n >= 16 witness 16

  datatype TlsServer = TlsServer(
    conn: Conn,
    phase: HandshakeState,
    assembler: Assembler,
    outgoing: seq<EapTlsPacket>,
    cursor: nat,
    commitmentSent: bool)
  {
    predicate HasPending() { cursor < |outgoing| }

    function Advance(): TlsServer { this.(cursor := cursor + 1) }

    function Queue(message: seq<byte>, max: FragmentSize): TlsServer {
      this.(outgoing := Job(message, max, Always).Packets(), cursor := 0)
    }
  }

  /** The TEAP server as far as the handler looks at it. */
  datatype TeapServer = TeapServer(
    negotiated: bool,
    outgoing: seq<EapTlsPacket>,
    cursor: nat,
    complete: bool,
    msk: Option<seq<byte>>)
  {
    predicate HasPending() { cursor < |outgoing| }

    function Queue(message: seq<byte>, max: FragmentSize): TeapServer {
      this.(outgoing := Job(message, max, FragmentedOnly).Packets(), cursor := 0)
    }
  }

  /** What the TEAP state machine makes of a packet: its status and what it wants sent. */
  datatype TeapAnswer = TeapAnswer(complete: bool, msk: Option<seq<byte>>, output: Option<seq<byte>>)

  /** TEAP Type-Data without outer TLVs: EAP-TLS Type-Data with version 1 in the flags octet. */
  function TeapTypeData(p: EapTlsPacket): (data: seq<byte>)
    ensures |data| == |EncodeTls(p)|
  {
    [FlagByte(p.flags) + 1] + EncodeTls(p)[1..]
  }

  const START: EapTlsPacket := EapTlsPacket(TlsFlags(false, false, true), None, [])
  const ACK: EapTlsPacket := EapTlsPacket(TlsFlags(false, false, false), None, [])

  // ---------------------------------------------------------------------------------------
  // Inputs, results and events of a call
  // ---------------------------------------------------------------------------------------

  datatype Config = Config(
    realms: set<string>,
    maxFragment: FragmentSize,
    utf8: seq<byte> -> Option<string>,
    identifies: (seq<seq<byte>>, string) -> bool,
    readTeap: seq<byte> -> Option<EapTlsPacket>)
  {
    predicate TlsEnabled() { "" in realms }

    predicate TeapEnabled() { exists r :: r in realms && "teap_" <= r }

    /** `verify_peer_identity`, which an empty chain fails. */
    predicate Verifies(conn: Conn, user: string) {
      conn.peerCerts.Some? ==> conn.peerCerts.value != [] && identifies(conn.peerCerts.value, user)
    }
  }

  /** The readings of the clock in the course of one call. */
  datatype Clock = Clock(idle: nat, reap: nat, create: nat, seed: nat, touch: nat, issue: nat, stamp: nat,
                         finish: nat) {
    ghost predicate Monotone(since: nat) {
      since <= idle <= reap <= create <= seed <= touch <= issue <= stamp <= finish
    }
  }

  datatype Env = Env(
    clock: Clock,
    drawn: Option<seq<byte>>,
    connects: bool,
    newConn: Conn,
    tlsAnswer: Option<(Conn, seq<byte>)>,
    commitment: Option<seq<byte>>,
    keys: Option<seq<byte>>,
    teapAnswer: Option<TeapAnswer>)

  datatype AuthResult =
    | Accept(attributes: seq<Attribute>, msk: Option<seq<byte>>)
    | Reject
    | Challenge(state: seq<byte>, attributes: seq<Attribute>)
    | Discard

  datatype Event =
    | Began(id: Id, binding: seq<byte>, seed: Option<byte>)
    | ResponseClaimed(id: Id, binding: seq<byte>, identifier: byte)
    | Switched(id: Id, eapMethod: EapType)
    | Taken(id: Id, packet: EapTlsPacket)
    | Fed(id: Id, message: seq<byte>, conn: Conn, output: seq<byte>)
    | Verified(id: Id, user: string, conn: Conn)
    | Committed(id: Id, record: seq<byte>)
    | Issued(id: Id, identifier: byte, eapType: EapType, data: seq<byte>)
    | Ran(id: Id, packet: EapTlsPacket, answer: TeapAnswer)
    | AcceptedTls(id: Id, user: string, conn: Conn)
    | AcceptedTeap(id: Id, user: string)

  datatype Handler = Handler(m: Manager, tls: map<Id, TlsServer>, teap: map<Id, TeapServer>)

  datatype Out = Out(h: Handler, result: AuthResult, log: seq<Event>)

  // ---------------------------------------------------------------------------------------
  // Session bookkeeping
  // ---------------------------------------------------------------------------------------

  function DropMethodState(h: Handler, ids: set<Id>): Handler {
    h.(tls := h.tls - ids, teap := h.teap - ids)
  }

  /** Continue with store `m`, dropping the method state of the sessions that are gone. */
  function Evicting(h: Handler, m: Manager): Handler {
    DropMethodState(h, h.m.sessions.Keys - m.sessions.Keys).(m := m)
  }

  function ReapIdle(h: Handler, now: nat): Handler { Evicting(h, h.m.SweepIdle(now)) }

  function Reap(h: Handler, now: nat): Handler { Evicting(h, h.m.SweepIdle(now).Trim()) }

  function EndSession(h: Handler, id: Id): Handler {
    DropMethodState(h, {id}).(m := h.m.Remove(id))
  }

  function Finish(out: Out, id: Id, now: nat): Out {
    if out.result.Challenge? then out.(h := out.h.(m := out.h.m.Touch(id, now)))
    else out.(h := EndSession(out.h, id))
  }

  /** `start_session`: no ID if the random source fails or its State names a live conversation. */
  function StartSession(h: Handler, binding: seq<byte>, env: Env): (Handler, Option<Id>) {
    var h1 := Reap(h, env.clock.reap);
    var id := SessionIdForState(env.drawn);
    if id.None? || id.value in h1.m.sessions then (h1, None)
    else
      var m := h1.m.Create(id.value, env.clock.create);
      assert id.value in m.sessions;
      (h1.(m := m.Put(id.value, m.sessions[id.value].(binding := binding))), id)
  }

  function Seed(h: Handler, id: Id, response: byte, now: nat): Handler {
    var m := h.m.Touch(id, now);
    if id !in m.sessions then h.(m := m)
    else h.(m := m.Put(id, m.sessions[id].SeedIdentifierAfter(response)))
  }

  /** Allocate the Identifier of the next Request; `missing` stands in for a vanished session. */
  function Issue(h: Handler, id: Id, clock: Clock, missing: byte): (Handler, byte) {
    var m := h.m.Touch(id, clock.issue);
    if id !in m.sessions then (h.(m := m), missing)
    else (h.(m := m.Put(id, m.sessions[id].NextIdentifier(clock.stamp))), m.sessions[id].currentIdentifier)
  }

  /** Send one EAP-Request of the method with this Type-Data. */
  function Ask(h: Handler, id: Id, eapType: EapType, data: seq<byte>, env: Env, missing: byte): Out {
    var (h1, identifier) := Issue(h, id, env.clock, missing);
    Out(h1,
        Challenge(StateFor(id), ToAttributes(EapPacket(Request, identifier, Some(eapType), data))),
        [Issued(id, identifier, eapType, data)])
  }

  // ---------------------------------------------------------------------------------------
  // Method negotiation
  // ---------------------------------------------------------------------------------------

  function Preferred(cfg: Config): Option<EapType> {
    if cfg.TeapEnabled() then Some(Teap) else if cfg.TlsEnabled() then Some(Tls) else None
  }

  function StartTls(cfg: Config, h: Handler, id: Id, env: Env): Out {
    if cfg.realms == {} || !env.connects then Out(h, Reject, [])
    else
      var server := TlsServer(env.newConn, Started, CLEARED, [], 0, false);
      var h1 := h.(tls := h.tls[id := server]);
      if id !in h1.m.sessions then Out(h1, Reject, [])
      else Ask(h1, id, Tls, EncodeTls(START), env, 0)
  }

  function StartTeap(cfg: Config, h: Handler, id: Id, env: Env): Out {
    if !cfg.TeapEnabled() || !env.connects then Out(h, Reject, [])
    else
      Ask(h.(teap := h.teap[id := TeapServer(false, [], 0, false, None)]), id, Teap, TeapTypeData(START), env, 0)
  }

  function StartMethod(cfg: Config, h: Handler, id: Id, eapMethod: Option<EapType>, env: Env): Out {
    if eapMethod == Some(Teap) then StartTeap(cfg, h, id, env)
    else if eapMethod == Some(Tls) then StartTls(cfg, h, id, env)
    else Out(h, Reject, [])
  }

  function HandleIdentity(cfg: Config, h: Handler, user: string, id: Id, env: Env): Out {
    var m := h.m.Touch(id, env.clock.touch);
    if id !in m.sessions then Out(h.(m := m), Reject, [])
    else
      var s := m.sessions[id].(identity := Some(user))
               .Transition(IdentityReceived, env.clock.touch).Transition(MethodRequested, env.clock.touch)
               .(eapMethod := Preferred(cfg));
      StartMethod(cfg, h.(m := m.Put(id, s)), id, Preferred(cfg), env)
  }

  /** The declined method has processed peer data, or is gone. */
  predicate MethodStarted(h: Handler, id: Id)
    requires id in h.m.sessions
  {
    match h.m.sessions[id].eapMethod
    case Some(Teap) => id !in h.teap || h.teap[id].negotiated
    case Some(Tls) => id !in h.tls || !(h.tls[id].phase.NotStarted? || h.tls[id].phase.Started?)
    case _ => true
  }

  /** The first Type the peer lists that is configured here and was not just declined. */
  function NextMethod(cfg: Config, desired: seq<byte>, declined: Option<EapType>): (next: Option<EapType>)
    ensures next.Some? ==> next != declined && (next.value == Tls || next.value == Teap)
  {
    if desired == [] then None
    else
      var t := TypeFrom(desired[0]);
      if ((t == Some(Tls) && cfg.TlsEnabled()) || (t == Some(Teap) && cfg.TeapEnabled())) && t != declined then t
      else NextMethod(cfg, desired[1..], declined)
  }

  /** Discard the declined method's state and record the next one. */
  function SwitchTo(h: Handler, id: Id, next: Option<EapType>, now: nat): Handler
    requires id in h.m.sessions
  {
    var m := h.m.Touch(id, now);
    assert id in m.sessions;
    var s := m.sessions[id];
    DropMethodState(h, {id}).(m := m.Put(id, s.(attemptCount := s.attemptCount + 1, eapMethod := next)))
  }

  function HandleNak(cfg: Config, h: Handler, id: Id, desired: seq<byte>, env: Env): Out {
    if id !in h.m.sessions || h.m.sessions[id].attemptCount > 0 || MethodStarted(h, id) then Out(h, Reject, [])
    else
      var next := NextMethod(cfg, desired, h.m.sessions[id].eapMethod);
      if next.None? then Out(h, Reject, [])
      else
        var out := StartMethod(cfg, SwitchTo(h, id, next, env.clock.touch), id, next, env);
        out.(log := [Switched(id, next.value)] + out.log)
  }

  // ---------------------------------------------------------------------------------------
  // EAP-TLS
  // ---------------------------------------------------------------------------------------

  /** What processing a packet gave, and the message TLS was fed, if any. */
  datatype Processed = Processed(server: TlsServer, result: Result<Option<seq<byte>>, ()>, fed: Option<seq<byte>>)

  /** `process_client_message`: reassemble, and feed the TLS library a complete message. */
  function Process(server: TlsServer, p: EapTlsPacket, env: Env): Processed {
    if p.flags.start then Processed(server, Failure(()), None)
    else
      var added := server.assembler.Add(p);
      var server1 := server.(assembler := added.next);
      match added.result
      case Failure(_) => Processed(server1, Failure(()), None)
      case Success(None) => Processed(server1, Success(None), None)
      case Success(Some(message)) =>
        match env.tlsAnswer
        case None => Processed(server1, Failure(()), None)
        case Some((conn, output)) =>
          var server2 := server1.(conn := conn, phase := if conn.handshaking then InHandshake else Complete);
          Processed(server2, Success(if output == [] then None else Some(output)), Some(message))
  }

  /** The events of processing a packet. */
  function Told(id: Id, p: EapTlsPacket, processed: Processed): seq<Event> {
    [Taken(id, p)]
    + if processed.fed.Some? && processed.result.Success?
      then [Fed(id, processed.fed.value, processed.server.conn,
                if processed.result.value.Some? then processed.result.value.value else [])]
      else []
  }

  /** Pop the next queued fragment and send it. */
  function SendNext(h: Handler, id: Id, server: TlsServer, env: Env, missing: byte): Out {
    if !server.HasPending() then Out(h.(tls := h.tls[id := server]), Reject, [])
    else Ask(h.(tls := h.tls[id := server.Advance()]), id, Tls, EncodeTls(server.outgoing[server.cursor]), env, missing)
  }

  /** `finish_eap_tls_success`: keys, and an EAP-Success that echoes the Response's Identifier. */
  function FinishTls(h: Handler, id: Id, user: string, server: TlsServer, identifier: byte, env: Env): Out {
    if server.conn.handshaking || env.keys.None? then Out(h, Reject, [])
    else
      var m := h.m.Touch(id, env.clock.issue);
      var m1 := if id in m.sessions then m.Put(id, m.sessions[id].Transition(SuccessState, env.clock.stamp)) else m;
      Out(h.(m := m1),
          Accept(ToAttributes(EapPacket(EapSuccess, identifier, None, [])), env.keys),
          [AcceptedTls(id, user, server.conn)])
  }

  /** Queue the commitment record of section 2.5 of RFC 9190 and send its first fragment. */
  function Commit(cfg: Config, h: Handler, id: Id, server: TlsServer, identifier: byte, env: Env): Out
    requires env.commitment.Some?
  {
    var record := env.commitment.value;
    var out := SendNext(h, id, server.(commitmentSent := true).Queue(record, cfg.maxFragment), env,
                        (identifier + 1) % 256);
    out.(log := [Committed(id, record)] + out.log)
  }

  /** The handshake is over and nothing is left to send: verify the peer, then either commit
      (TLS 1.3) or succeed. */
  function CompleteTls(cfg: Config, h: Handler, user: string, id: Id, server: TlsServer, identifier: byte,
                       env: Env): Out {
    if server.conn.handshaking || !cfg.Verifies(server.conn, user) then Out(h, Reject, [])
    else
      var out := AfterVerification(cfg, h, user, id, server, identifier, env);
      out.(log := [Verified(id, user, server.conn)] + out.log)
  }

  function AfterVerification(cfg: Config, h: Handler, user: string, id: Id, server: TlsServer, identifier: byte,
                             env: Env): Out {
    if !server.conn.tls13 then FinishTls(h, id, user, server, identifier, env)
    else if env.commitment.None? || env.commitment.value == [] then Out(h, Reject, [])
    else Commit(cfg, h, id, server, identifier, env)
  }

  function ContinueTls(cfg: Config, h: Handler, user: string, id: Id, response: EapPacket, env: Env): Out {
    if id !in h.tls then Out(h, Reject, [])
    else
      var server := h.tls[id];
      var missing := (response.identifier + 1) % 256;
      if server.HasPending() then SendNext(h, id, server, env, missing)
      else if server.commitmentSent && !server.conn.handshaking then
        FinishTls(h, id, user, server, response.identifier, env)
      else
        match DecodeTls(response.data)
        case Failure(_) => Out(h, Reject, [])
        case Success(p) => AdvanceTls(cfg, h, user, id, server, p, response.identifier, env)
  }

  /** Answer a packet of the peer according to what processing it gave. */
  function AnswerTls(cfg: Config, h: Handler, user: string, id: Id, processed: Processed, p: EapTlsPacket,
                     identifier: byte, env: Env): Out {
    var missing := (identifier + 1) % 256;
    match processed.result
    case Failure(_) => Out(h, Reject, [])
    case Success(Some(output)) => SendNext(h, id, processed.server.Queue(output, cfg.maxFragment), env, missing)
    case Success(None) =>
      if p.flags.more then Ask(h, id, Tls, EncodeTls(ACK), env, missing)
      else CompleteTls(cfg, h, user, id, processed.server, identifier, env)
  }

  /** Feed one packet of the peer and answer it. */
  function AdvanceTls(cfg: Config, h: Handler, user: string, id: Id, server: TlsServer, p: EapTlsPacket,
                      identifier: byte, env: Env): Out {
    var processed := Process(server, p, env);
    var out := AnswerTls(cfg, h.(tls := h.tls[id := processed.server]), user, id, processed, p, identifier, env);
    out.(log := Told(id, p, processed) + out.log)
  }

  // ---------------------------------------------------------------------------------------
  // EAP-TEAP
  // ---------------------------------------------------------------------------------------

  function SendNextTeap(h: Handler, id: Id, server: TeapServer, env: Env, missing: byte): Out {
    if !server.HasPending() then Out(h.(teap := h.teap[id := server]), Reject, [])
    else
      Ask(h.(teap := h.teap[id := server.(cursor := server.cursor + 1)]), id, Teap,
          TeapTypeData(server.outgoing[server.cursor]), env, missing)
  }

  function ContinueTeap(cfg: Config, h: Handler, user: string, id: Id, response: EapPacket, env: Env): Out {
    var missing := (response.identifier + 1) % 256;
    if id !in h.teap || cfg.readTeap(response.data).None? then Out(h, Reject, [])
    else
      var server, p := h.teap[id], cfg.readTeap(response.data).value;
      if server.HasPending() then
        if p.data != [] || p.flags.more then Out(h, Reject, []) else SendNextTeap(h, id, server, env, missing)
      else
        match env.teapAnswer
        case None => Out(h, Reject, [])
        case Some(answer) =>
          var server1 := server.(negotiated := true, complete := answer.complete, msk := answer.msk);
          var out := AnswerTeap(cfg, h.(teap := h.teap[id := server1]), user, id, server1, answer.output, p,
                                response.identifier, env);
          out.(log := [Ran(id, p, answer)] + out.log)
  }

  /** Send what the TEAP state machine wants sent, if anything. */
  function AnswerTeap(cfg: Config, h: Handler, user: string, id: Id, server: TeapServer, output: Option<seq<byte>>,
                      p: EapTlsPacket, identifier: byte, env: Env): Out {
    if output.Some? then
      SendNextTeap(h, id, server.Queue(output.value, cfg.maxFragment), env, (identifier + 1) % 256)
    else QuietTeap(h, user, id, server, p, identifier, env)
  }

  /** Nothing to send: acknowledge a fragment, fail or succeed. */
  function QuietTeap(h: Handler, user: string, id: Id, server: TeapServer, p: EapTlsPacket, identifier: byte,
                     env: Env): Out {
    if p.flags.more then Ask(h, id, Teap, TeapTypeData(ACK), env, (identifier + 1) % 256)
    else if !server.complete || server.msk.None? then Out(h, Reject, [])
    else FinishTeap(h, id, user, server, identifier, env)
  }

  function FinishTeap(h: Handler, id: Id, user: string, server: TeapServer, identifier: byte, env: Env): Out {
    var m := h.m.Touch(id, env.clock.issue);
    var m1 := if id in m.sessions then m.Put(id, m.sessions[id].Transition(SuccessState, env.clock.stamp)) else m;
    Out(h.(m := m1), Accept(ToAttributes(EapPacket(EapSuccess, identifier, None, [])), server.msk),
        [AcceptedTeap(id, user)])
  }

  // ---------------------------------------------------------------------------------------
  // One Access-Request
  // ---------------------------------------------------------------------------------------

  /** The User-Name as text; a missing or undecodable one is empty. */
  function UserName(cfg: Config, request: seq<Attribute>): string {
    var value := Find(request, USER_NAME);
    if value.Some? && cfg.utf8(value.value).Some? then cfg.utf8(value.value).value else ""
  }

  /** Start a conversation; `seed` is the Identifier of an Identity Response. */
  function Begin(cfg: Config, h: Handler, user: string, binding: seq<byte>, seed: Option<byte>, env: Env): Out {
    var (h1, started) := StartSession(h, binding, env);
    if started.None? then Out(h1, Reject, [])
    else
      var id := started.value;
      var h2 := if seed.Some? then Seed(h1, id, seed.value, env.clock.seed) else h1;
      var out := HandleIdentity(cfg, h2, user, id, env);
      Finish(out.(log := [Began(id, binding, seed)] + out.log), id, env.clock.finish)
  }

  /** Route a claimed Response to its method. */
  function Dispatch(cfg: Config, h: Handler, user: string, id: Id, p: EapPacket, env: Env): Out {
    match p.eapType
    case Some(Tls) => ContinueTls(cfg, h, user, id, p, env)
    case Some(Teap) => ContinueTeap(cfg, h, user, id, p, env)
    case Some(Nak) => HandleNak(cfg, h, id, p.data, env)
    case _ => Out(h, Reject, [])
  }

  /** Any Response but Identity must answer the outstanding Request of the conversation that
      its State names, with the binding that started it. */
  function Continue(cfg: Config, h: Handler, user: string, binding: seq<byte>, state: Option<seq<byte>>, p: EapPacket,
                    env: Env): Out {
    match SessionIdForState(state)
    case None => Out(h, Reject, [])
    case Some(id) =>
      match h.m.ClaimOf(id, binding, p.identifier)
      case Claimed =>
        var out := Dispatch(cfg, h.(m := h.m.Claim(id, binding, p.identifier)), user, id, p, env);
        Finish(out.(log := [ResponseClaimed(id, binding, p.identifier)] + out.log), id, env.clock.finish)
      case IdentifierMismatch => Out(h, Discard, [])
      case _ => Out(h, Reject, [])
  }

  /** What the EAP-Messages of an Access-Request say: an Identity Response, or none at all, opens a
      conversation and may bring an Identifier; any other Response answers one. */
  datatype Message = Opening(seed: Option<byte>) | Answering(response: EapPacket) | Unreadable

  function Read(request: seq<Attribute>): Message {
    if EapOctets(request) == [] then Opening(None)
    else
      match DecodeEap(EapOctets(request))
      case Failure(_) => Unreadable
      case Success(p) =>
        if !p.code.Response? then Unreadable
        else if p.eapType == Some(Identity) then Opening(Some(p.identifier))
        else Answering(p)
  }

  /** What an Access-Request leads to, once idle conversations are gone. */
  function Route(cfg: Config, h: Handler, request: seq<Attribute>, client: Option<Ip>, env: Env): Out {
    var user, binding := UserName(cfg, request), ConversationBinding(request, client);
    match Read(request)
    case Opening(seed) => Begin(cfg, h, user, binding, seed, env)
    case Answering(p) => Continue(cfg, h, user, binding, Find(request, STATE), p, env)
    case Unreadable => Out(h, Reject, [])
  }

  /** `authenticate_eap` */
  function Authenticate(cfg: Config, h: Handler, request: seq<Attribute>, client: Option<Ip>, env: Env): Out {
    Route(cfg, ReapIdle(h, env.clock.idle), request, client, env)
  }
}
