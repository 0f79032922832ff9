/** Progress of EAP-TLS: from any safe state, among any other conversations, a peer that answers promptly is
    accepted. It may first decline TEAP, its handshake may take any number of rounds, and both sides may fragment
    their messages; over TLS 1.3 it acknowledges every fragment of the commitment record. */
module EapProgress {
  import opened Octets
  import opened EapCodec
  import opened EapFragments
  import opened EapSessions
  import opened Binding
  import opened EapHandler
  import opened EapReports
  import opened EapStructure
  import opened EapCalls
  import opened EapTales
  import opened EapRuns
  import opened EapSafety

  // ---------------------------------------------------------------------------------------
  // A cooperative peer
  // ---------------------------------------------------------------------------------------

  /** A peer behind a NAS: the State drawn for it, the binding and user name of its requests, the commitment
      record TLS writes for it and the keys TLS exports. */
  datatype Peer = Peer(drawn: seq<byte>, binding: seq<byte>, user: string, record: seq<byte>, keys: seq<byte>) {
    predicate Named() { |drawn| == STATE_LEN }

    function Id(): string
      requires Named()
    {
      SessionIdForState(Some(drawn)).value
    }
  }

  /** What the peer says in one Response: it declines the method, sends an EAP-TLS packet (which, once a message
      is complete, TLS answers with a connection and a flight), or acknowledges a fragment; or it sends a TEAP packet,
      which the TEAP state machine answers, or acknowledges a fragment of TEAP. */
  datatype Say =
    | Declines(desired: seq<byte>)
    | Sends(packet: EapTlsPacket, answer: Option<(Conn, seq<byte>)>)
    | Acknowledges
    | Talks(data: seq<byte>, reaction: TeapAnswer)
    | AcknowledgesTeap(data: seq<byte>)

  ghost predicate Says(say: Say, p: EapPacket, env: Env) {
    match say
    case Declines(desired) => p.eapType == Some(Nak) && p.data == desired
    case Sends(q, answer) =>
      p.eapType == Some(Tls) && DecodeTls(p.data) == Success(q) && (answer.Some? ==> env.tlsAnswer == answer)
    case Acknowledges => p.eapType == Some(Tls)
    case Talks(data, reaction) => p.eapType == Some(Teap) && p.data == data && env.teapAnswer == Some(reaction)
    case AcknowledgesTeap(data) => p.eapType == Some(Teap) && p.data == data
  }

  ghost predicate FromPeer(cfg: Config, peer: Peer, call: Call) {
    && call.Packet? && peer.Named()
    && ConversationBinding(call.request, call.client) == peer.binding && UserName(cfg, call.request) == peer.user
    && call.env.connects && call.env.commitment == Some(peer.record) && call.env.keys == Some(peer.keys)
  }

  /** The packet arrives within the idle timeout of the previous one. */
  ghost predicate Prompt(w: World, env: Env) {
    env.clock.Monotone(w.clock) && env.clock.idle - w.clock <= w.h.m.timeout
  }

  function Awaited(w: World, id: Id): byte {
    if id in w.h.m.sessions && w.h.m.sessions[id].outstanding.Some? then w.h.m.sessions[id].outstanding.value else 0
  }

  /** The peer promptly says `say` in answer to the outstanding Request. */
  ghost predicate Utters(cfg: Config, peer: Peer, w: World, call: Call, say: Say) {
    && FromPeer(cfg, peer, call) && Prompt(w, call.env)
    && Read(call.request).Answering? && Find(call.request, STATE) == Some(peer.drawn)
    && Read(call.request).response.identifier == Awaited(w, peer.Id())
    && Says(say, Read(call.request).response, call.env)
  }

  lemma Uttered(cfg: Config, peer: Peer, w: World, call: Call, say: Say)
    requires Utters(cfg, peer, w, call, say)
    ensures call.Packet? && peer.Named() && Prompt(w, call.env) && Read(call.request).Answering?
    ensures Says(say, Read(call.request).response, call.env)
    ensures call.env.connects && call.env.commitment == Some(peer.record) && call.env.keys == Some(peer.keys)
  {
  }

  /** A run of the peer's packets, one for each thing it says. */
  ghost predicate Cooperates(cfg: Config, peer: Peer, w: World, calls: seq<Call>, says: seq<Say>) {
    && |calls| == |says|
    && forall i :: 0 <= i < |calls| ==> Utters(cfg, peer, Play(cfg, w, calls[..i]), calls[i], says[i])
  }

  /** What the last of a run of packets gets. */
  function Outcome(cfg: Config, w: World, calls: seq<Call>): AuthResult
    requires calls != [] && calls[|calls| - 1].Packet?
  {
    Answer(cfg, Play(cfg, w, calls[..|calls| - 1]), calls[|calls| - 1]).result
  }

  /** The last packet is answered by an Access-Accept with the peer's keys. */
  ghost predicate EndsAccepted(cfg: Config, peer: Peer, w: World, calls: seq<Call>) {
    && calls != [] && calls[|calls| - 1].Packet? && Outcome(cfg, w, calls).Accept?
    && Outcome(cfg, w, calls).msk == Some(peer.keys)
  }

  // ----- runs -----

  lemma {:induction false} PlaySplit(cfg: Config, w: World, a: seq<Call>, b: seq<Call>)
    ensures Play(cfg, w, a + b) == Play(cfg, Play(cfg, w, a), b)
    decreases |b|
  {
    hide After;
    if b == [] {
      assert a + b == a;
    } else {
      var n := |b| - 1;
      assert (a + b)[..|a + b| - 1] == a + b[..n];
      PlaySplit(cfg, w, a, b[..n]);
    }
  }

  lemma {:induction false} CooperatesSplit(cfg: Config, peer: Peer, w: World, calls: seq<Call>, a: seq<Say>,
                                           b: seq<Say>)
    requires Cooperates(cfg, peer, w, calls, a + b)
    ensures |calls| == |a| + |b|
    ensures var n := |a|;
            && Cooperates(cfg, peer, w, calls[..n], a)
            && Cooperates(cfg, peer, Play(cfg, w, calls[..n]), calls[n..], b)
  {
    hide Utters, Play;
    var n, w1 := |a|, Play(cfg, w, calls[..|a|]);
    forall i | 0 <= i < n ensures Utters(cfg, peer, Play(cfg, w, calls[..n][..i]), calls[..n][i], a[i]) {
      assert calls[..n][..i] == calls[..i] && (a + b)[i] == a[i];
    }
    forall i | 0 <= i < |calls| - n ensures Utters(cfg, peer, Play(cfg, w1, calls[n..][..i]), calls[n..][i], b[i]) {
      PlaySplit(cfg, w, calls[..n], calls[n..][..i]);
      assert calls[..n] + calls[n..][..i] == calls[..n + i] && (a + b)[n + i] == b[i];
    }
  }

  /** How the rest of a run ends is how the run ends. */
  lemma {:induction false} EndsLater(cfg: Config, peer: Peer, w: World, calls: seq<Call>, n: nat)
    requires n < |calls| && EndsAccepted(cfg, peer, Play(cfg, w, calls[..n]), calls[n..])
    ensures EndsAccepted(cfg, peer, w, calls)
  {
    hide Play, Answer;
    var rest := calls[n..];
    PlaySplit(cfg, w, calls[..n], rest[..|rest| - 1]);
    assert calls[..n] + rest[..|rest| - 1] == calls[..|calls| - 1];
  }

  lemma PlayNone(cfg: Config, w: World)
    ensures Play(cfg, w, []) == w
  {
  }

  lemma {:induction false} PlayNext(cfg: Config, w: World, calls: seq<Call>, k: nat)
    requires k < |calls|
    ensures Play(cfg, w, calls[..k + 1]) == After(cfg, Play(cfg, w, calls[..k]), calls[k])
  {
    hide After;
    assert calls[..k + 1][..k] == calls[..k];
  }

  lemma {:induction false} FirstUttered(cfg: Config, peer: Peer, w: World, calls: seq<Call>, says: seq<Say>)
    requires Cooperates(cfg, peer, w, calls, says) && says != []
    ensures calls != [] && Utters(cfg, peer, w, calls[0], says[0])
    ensures Play(cfg, w, calls[..1]) == After(cfg, w, calls[0])
  {
    hide After, Utters;
    assert calls[..0] == [] && calls[..1][..0] == [];
  }

  // ---------------------------------------------------------------------------------------
  // One answer
  // ---------------------------------------------------------------------------------------

  /** The conversation of the peer is live and waits for its answer since the last packet. */
  ghost predicate Live(cfg: Config, peer: Peer, w: World) {
    && Safe(cfg, w) && peer.Named() && peer.Id() in w.h.m.sessions
    && var s := w.h.m.sessions[peer.Id()];
       s.binding == peer.binding && s.outstanding.Some? && s.lastActivity == w.clock
  }

  /** It is over EAP-TLS. */
  ghost predicate Waits(cfg: Config, peer: Peer, w: World, server: TlsServer) {
    Live(cfg, peer, w) && peer.Id() in w.h.tls && w.h.tls[peer.Id()] == server
  }

  /** It has TEAP proposed and nothing heard yet. */
  ghost predicate WaitsTeap(cfg: Config, peer: Peer, w: World) {
    && Live(cfg, peer, w) && peer.Id() in w.h.teap && !w.h.teap[peer.Id()].negotiated
    && w.h.teap[peer.Id()].outgoing == []
    && w.h.m.sessions[peer.Id()].eapMethod == Some(Teap) && w.h.m.sessions[peer.Id()].attemptCount == 0
  }

  /** The handler as it is when the peer's Response reaches its method. */
  function Claiming(peer: Peer, w: World, env: Env): Handler
    requires peer.Named()
  {
    var h := ReapIdle(w.h, env.clock.idle);
    h.(m := h.m.Claim(peer.Id(), peer.binding, Awaited(w, peer.Id())))
  }

  lemma {:induction false} Survives(cfg: Config, peer: Peer, w: World, env: Env)
    requires Live(cfg, peer, w) && Prompt(w, env)
    ensures var h, id := Claiming(peer, w, env), peer.Id();
            && ReapIdle(w.h, env.clock.idle).m.ClaimOf(id, peer.binding, Awaited(w, id)).Claimed?
            && id in h.m.sessions && h.m.sessions[id] == w.h.m.sessions[id].(outstanding := None)
            && (id in h.tls <==> id in w.h.tls) && (id in h.tls ==> h.tls[id] == w.h.tls[id])
            && (id in h.teap <==> id in w.h.teap) && (id in h.teap ==> h.teap[id] == w.h.teap[id])
            && h.m.timeout == w.h.m.timeout
  {
    var id := peer.Id();
    assert !w.h.m.Stale(id, env.clock.idle);
    assert id in w.h.m.SweepIdle(env.clock.idle).sessions;
    assert id !in w.h.m.sessions.Keys - w.h.m.SweepIdle(env.clock.idle).sessions.Keys;
  }

  /** The Response reaches its method, and the call ends with what the method makes of it. */
  lemma {:induction false} Answered(cfg: Config, peer: Peer, w: World, call: Call, say: Say)
    requires Live(cfg, peer, w) && Utters(cfg, peer, w, call, say)
    ensures var p, id, env := Read(call.request).response, peer.Id(), call.env;
            var out := Dispatch(cfg, Claiming(peer, w, env), peer.user, id, p, env);
            Answer(cfg, w, call) ==
            Finish(out.(log := [ResponseClaimed(id, peer.binding, p.identifier)] + out.log), id, env.clock.finish)
    ensures Safe(cfg, After(cfg, w, call))
  {
    Survives(cfg, peer, w, call.env);
    CallSafe(cfg, w, call);
    var h := ReapIdle(w.h, call.env.clock.idle);
    assert Route(cfg, h, call.request, call.client, call.env) ==
           Continue(cfg, h, peer.user, peer.binding, Some(peer.drawn), Read(call.request).response, call.env);
  }

  /** After a Request was sent, the conversation waits for its answer. */
  lemma {:induction false} AskLeaves(h: Handler, id: Id, eapType: EapType, data: seq<byte>, env: Env, missing: byte,
                                     log: seq<Event>)
    requires id in h.m.sessions
    ensures var done := Finish(Ask(h, id, eapType, data, env, missing).(log := log), id, env.clock.finish);
            && id in done.h.m.sessions && done.h.tls == h.tls && done.h.teap == h.teap
            && done.result == Challenging(id, h.m.sessions[id].currentIdentifier, eapType, data) && done.log == log
            && var s, s' := h.m.sessions[id], done.h.m.sessions[id];
               && s'.binding == s.binding && s'.outstanding == Some(s.currentIdentifier)
               && s'.lastActivity == env.clock.finish && s'.eapMethod == s.eapMethod
               && s'.attemptCount == s.attemptCount
  {
  }

  /** The packet is answered by a Request of the method with this Type-Data. */
  ghost predicate Asks(cfg: Config, peer: Peer, w: World, call: Call, eapType: EapType, data: seq<byte>) {
    && call.Packet? && peer.Named()
    && exists identifier :: Answer(cfg, w, call).result == Challenging(peer.Id(), identifier, eapType, data)
  }

  /** The peer's Response leads its method to send a Request and leave `tls` and `teap` behind. */
  lemma {:induction false} AskLives(cfg: Config, peer: Peer, w: World, call: Call, say: Say, tls: map<Id, TlsServer>,
                                    teap: map<Id, TeapServer>, eapType: EapType, data: seq<byte>, missing: byte,
                                    log: seq<Event>)
    requires Live(cfg, peer, w) && Utters(cfg, peer, w, call, say)
    requires var h := Claiming(peer, w, call.env);
             Dispatch(cfg, h, peer.user, peer.Id(), Read(call.request).response, call.env) ==
             Ask(h.(tls := tls, teap := teap), peer.Id(), eapType, data, call.env, missing).(log := log)
    ensures call.Packet?
    ensures var w1 := After(cfg, w, call); Live(cfg, peer, w1) && w1.h.tls == tls && w1.h.teap == teap
    ensures Asks(cfg, peer, w, call, eapType, data)
    ensures Answer(cfg, w, call).log ==
            [ResponseClaimed(peer.Id(), peer.binding, Read(call.request).response.identifier)] + log
  {
    var h, id := Claiming(peer, w, call.env), peer.Id();
    Survives(cfg, peer, w, call.env);
    Answered(cfg, peer, w, call, say);
    var claimed := ResponseClaimed(id, peer.binding, Read(call.request).response.identifier);
    AskLeaves(h.(tls := tls, teap := teap), id, eapType, data, call.env, missing, [claimed] + log);
  }

  /** The peer's Response leads the EAP-TLS method to send a Request and leave `server` behind. */
  lemma {:induction false} AskWaits(cfg: Config, peer: Peer, w: World, call: Call, say: Say, server: TlsServer,
                                    data: seq<byte>, missing: byte, log: seq<Event>)
    requires Live(cfg, peer, w) && Utters(cfg, peer, w, call, say)
    requires var h := Claiming(peer, w, call.env);
             Dispatch(cfg, h, peer.user, peer.Id(), Read(call.request).response, call.env) ==
             Ask(h.(tls := h.tls[peer.Id() := server]), peer.Id(), Tls, data, call.env, missing).(log := log)
    ensures Waits(cfg, peer, After(cfg, w, call), server) && Asks(cfg, peer, w, call, Tls, data)
    ensures Answer(cfg, w, call).log ==
            [ResponseClaimed(peer.Id(), peer.binding, Read(call.request).response.identifier)] + log
  {
    Uttered(cfg, peer, w, call, say);
    hide Live, Utters, Dispatch, Ask, Claiming, After, Answer, Asks;
    var h := Claiming(peer, w, call.env);
    AskLives(cfg, peer, w, call, say, h.tls[peer.Id() := server], h.teap, Tls, data, missing, log);
  }

  /** While fragments are left, any EAP-TLS Response brings the next one. */
  lemma {:induction false} NextFragment(cfg: Config, peer: Peer, w: World, call: Call, server: TlsServer)
    requires Waits(cfg, peer, w, server) && server.HasPending() && Utters(cfg, peer, w, call, Acknowledges)
    ensures Waits(cfg, peer, After(cfg, w, call), server.Advance())
    ensures Asks(cfg, peer, w, call, Tls, EncodeTls(server.outgoing[server.cursor]))
  {
    hide Safe, Utters, Read, ReapIdle, Ask, After, Answer, Asks;
    Uttered(cfg, peer, w, call, Acknowledges);
    Survives(cfg, peer, w, call.env);
    var missing := (Read(call.request).response.identifier + 1) % 256;
    var data := EncodeTls(server.outgoing[server.cursor]);
    var h := Claiming(peer, w, call.env);
    var asked := Ask(h.(tls := h.tls[peer.Id() := server.Advance()]), peer.Id(), Tls, data, call.env, missing);
    AskWaits(cfg, peer, w, call, Acknowledges, server.Advance(), data, missing, asked.log);
  }

  /** With the commitment sent to the end, any EAP-TLS Response is answered by the Accept. */
  lemma {:induction false} LastAcknowledgement(cfg: Config, peer: Peer, w: World, call: Call, server: TlsServer)
    requires Waits(cfg, peer, w, server) && Utters(cfg, peer, w, call, Acknowledges)
    requires !server.HasPending() && server.commitmentSent && !server.conn.handshaking
    ensures Answer(cfg, w, call).result == Accepting(Read(call.request).response.identifier, peer.keys)
  {
    hide Safe, Utters, Read, ReapIdle, Answer, SendNext, AdvanceTls, ContinueTeap, HandleNak, EndSession;
    Uttered(cfg, peer, w, call, Acknowledges);
    Survives(cfg, peer, w, call.env);
    Answered(cfg, peer, w, call, Acknowledges);
  }

  /** EAP-TLS listens: nothing is left to send and no commitment was made. */
  predicate Listens(server: TlsServer) { !server.HasPending() && !server.commitmentSent }

  /** A fragment of the peer that completes no message is acknowledged. */
  lemma {:induction false} FragmentTaken(cfg: Config, peer: Peer, w: World, call: Call, server: TlsServer, say: Say)
    requires Waits(cfg, peer, w, server) && Listens(server) && Utters(cfg, peer, w, call, say)
    requires say.Sends? && !say.packet.flags.start && server.assembler.Add(say.packet).result == Success(None)
    ensures Waits(cfg, peer, After(cfg, w, call), server.(assembler := server.assembler.Add(say.packet).next))
    ensures say.packet.flags.more && Asks(cfg, peer, w, call, Tls, [0])
  {
    hide Safe, Utters, Read, ReapIdle, Ask, After, Answer, Asks;
    Uttered(cfg, peer, w, call, say);
    Survives(cfg, peer, w, call.env);
    var next := server.(assembler := server.assembler.Add(say.packet).next);
    var missing := (Read(call.request).response.identifier + 1) % 256;
    var h := Claiming(peer, w, call.env);
    var asked := Ask(h.(tls := h.tls[peer.Id() := next]), peer.Id(), Tls, EncodeTls(ACK), call.env, missing);
    assert EncodeTls(ACK) == [0];
    AskWaits(cfg, peer, w, call, say, next, EncodeTls(ACK), missing, [Taken(peer.Id(), say.packet)] + asked.log);
  }

  /** In the course of this packet TLS is fed `message`, and gives this answer. */
  ghost predicate Feeds(cfg: Config, peer: Peer, w: World, call: Call, message: seq<byte>, answer: (Conn, seq<byte>)) {
    call.Packet? && peer.Named() && Fed(peer.Id(), message, answer.0, answer.1) in Answer(cfg, w, call).log
  }

  /** The EAP-TLS server once TLS has processed a complete message. */
  function Advanced(server: TlsServer, conn: Conn): TlsServer {
    server.(assembler := CLEARED, conn := conn, phase := if conn.handshaking then InHandshake else Complete)
  }

  /** A complete message that TLS answers is answered with the first fragment of the flight. */
  lemma {:induction false} FlightSent(cfg: Config, peer: Peer, w: World, call: Call, server: TlsServer, say: Say)
    requires Waits(cfg, peer, w, server) && Listens(server) && Utters(cfg, peer, w, call, say)
    requires say.Sends? && !say.packet.flags.start && say.answer.Some? && say.answer.value.1 != []
    requires var r := server.assembler.Add(say.packet).result; r.Success? && r.value.Some?
    ensures var (conn, flight) := say.answer.value;
            var queued := Advanced(server, conn).Queue(flight, cfg.maxFragment);
            queued.HasPending() && Waits(cfg, peer, After(cfg, w, call), queued.Advance())
            && Asks(cfg, peer, w, call, Tls, EncodeTls(queued.outgoing[0]))
    ensures Feeds(cfg, peer, w, call, server.assembler.Add(say.packet).result.value.value, say.answer.value)
  {
    hide Safe, Utters, Read, Ask, After, Answer, Asks, Dispatch, Live;
    Uttered(cfg, peer, w, call, say);
    FlightDispatched(cfg, peer, w, call, server, say);
    var message := server.assembler.Add(say.packet).result.value.value;
    var (conn, flight) := say.answer.value;
    var queued := Advanced(server, conn).Queue(flight, cfg.maxFragment);
    var missing, data := (Read(call.request).response.identifier + 1) % 256, EncodeTls(queued.outgoing[0]);
    var h, id := Claiming(peer, w, call.env), peer.Id();
    var asked := Ask(h.(tls := h.tls[id := queued.Advance()]), id, Tls, data, call.env, missing);
    AskWaits(cfg, peer, w, call, say, queued.Advance(), data, missing,
             [Taken(id, say.packet), Fed(id, message, conn, flight)] + asked.log);
  }

  lemma {:induction false} FlightDispatched(cfg: Config, peer: Peer, w: World, call: Call, server: TlsServer, say: Say)
    requires Waits(cfg, peer, w, server) && Listens(server) && Utters(cfg, peer, w, call, say)
    requires say.Sends? && !say.packet.flags.start && say.answer.Some? && say.answer.value.1 != []
    requires var r := server.assembler.Add(say.packet).result; r.Success? && r.value.Some?
    ensures var message := server.assembler.Add(say.packet).result.value.value;
            var (conn, flight) := say.answer.value;
            var queued := Advanced(server, conn).Queue(flight, cfg.maxFragment);
            && queued.HasPending()
            && var h, id, p := Claiming(peer, w, call.env), peer.Id(), Read(call.request).response;
               var asked := Ask(h.(tls := h.tls[id := queued.Advance()]), id, Tls, EncodeTls(queued.outgoing[0]),
                                call.env, (p.identifier + 1) % 256);
               Dispatch(cfg, h, peer.user, id, p, call.env) ==
               asked.(log := [Taken(id, say.packet), Fed(id, message, conn, flight)] + asked.log)
  {
    hide Safe, Utters, Read, ReapIdle, Ask, EncodeTls, CompleteTls, ContinueTeap, HandleNak, FinishTls;
    Uttered(cfg, peer, w, call, say);
    Survives(cfg, peer, w, call.env);
    var (conn, flight) := say.answer.value;
    var queued := Advanced(server, conn).Queue(flight, cfg.maxFragment);
    assert queued.HasPending();
    var h, id := Claiming(peer, w, call.env), peer.Id();
    assert h.tls[id := Advanced(server, conn)][id := queued.Advance()] == h.tls[id := queued.Advance()];
  }

  function Committing(cfg: Config, peer: Peer, server: TlsServer, conn: Conn): TlsServer {
    Advanced(server, conn).(commitmentSent := true).Queue(peer.record, cfg.maxFragment)
  }

  /** What EAP-TLS makes of a completed handshake. */
  lemma {:induction false} HandshakeCompletes(cfg: Config, peer: Peer, w: World, call: Call, server: TlsServer,
                                              say: Say)
    requires Waits(cfg, peer, w, server) && Listens(server) && Utters(cfg, peer, w, call, say)
    requires say.Sends? && !say.packet.flags.start && say.answer.Some? && say.answer.value.1 == []
    requires var r := server.assembler.Add(say.packet).result; r.Success? && r.value.Some?
    requires var conn := say.answer.value.0; !conn.handshaking && Presents(cfg, conn, peer.user)
    ensures var h, id, conn, p :=
            Claiming(peer, w, call.env), peer.Id(), say.answer.value.0, Read(call.request).response;
            var done := Advanced(server, conn);
            var verified := AfterVerification(cfg, h.(tls := h.tls[id := done]), peer.user, id, done, p.identifier,
                                              call.env);
            Dispatch(cfg, h, peer.user, id, p, call.env) ==
            verified.(log := [Taken(id, say.packet),
                              Fed(id, server.assembler.Add(say.packet).result.value.value, conn, [])]
                             + ([Verified(id, peer.user, conn)] + verified.log))
  {
    hide Safe, Utters, Read, ReapIdle, AfterVerification;
    Uttered(cfg, peer, w, call, say);
    Survives(cfg, peer, w, call.env);
  }

  /** Over TLS 1.2 the Accept follows at once. */
  lemma {:induction false} AcceptedAtOnce(cfg: Config, peer: Peer, w: World, call: Call, server: TlsServer, say: Say)
    requires Waits(cfg, peer, w, server) && Listens(server) && Utters(cfg, peer, w, call, say)
    requires say.Sends? && !say.packet.flags.start && say.answer.Some? && say.answer.value.1 == []
    requires var r := server.assembler.Add(say.packet).result; r.Success? && r.value.Some?
    requires var conn := say.answer.value.0; !conn.handshaking && Presents(cfg, conn, peer.user) && !conn.tls13
    ensures Answer(cfg, w, call).result == Accepting(Read(call.request).response.identifier, peer.keys)
    ensures Feeds(cfg, peer, w, call, server.assembler.Add(say.packet).result.value.value, say.answer.value)
  {
    hide Safe, Utters, Read, ReapIdle, Answer, Dispatch;
    Uttered(cfg, peer, w, call, say);
    HandshakeCompletes(cfg, peer, w, call, server, say);
    Answered(cfg, peer, w, call, say);
  }

  /** Over TLS 1.3 the first fragment of the commitment record follows. */
  lemma {:induction false} CommitmentBegun(cfg: Config, peer: Peer, w: World, call: Call, server: TlsServer, say: Say)
    requires Waits(cfg, peer, w, server) && Listens(server) && Utters(cfg, peer, w, call, say)
    requires say.Sends? && !say.packet.flags.start && say.answer.Some? && say.answer.value.1 == []
    requires var r := server.assembler.Add(say.packet).result; r.Success? && r.value.Some?
    requires var conn := say.answer.value.0; !conn.handshaking && Presents(cfg, conn, peer.user) && conn.tls13
    requires peer.record != []
    ensures var queued := Committing(cfg, peer, server, say.answer.value.0);
            queued.HasPending() && Waits(cfg, peer, After(cfg, w, call), queued.Advance())
            && Asks(cfg, peer, w, call, Tls, EncodeTls(queued.outgoing[0]))
    ensures Feeds(cfg, peer, w, call, server.assembler.Add(say.packet).result.value.value, say.answer.value)
  {
    hide Safe, Utters, Read, ReapIdle, Ask, After, Answer, Dispatch, Asks;
    Uttered(cfg, peer, w, call, say);
    HandshakeCompletes(cfg, peer, w, call, server, say);
    Survives(cfg, peer, w, call.env);
    var conn, p := say.answer.value.0, Read(call.request).response;
    var queued := Committing(cfg, peer, server, conn);
    assert queued.HasPending();
    var missing, data := (p.identifier + 1) % 256, EncodeTls(queued.outgoing[0]);
    var h, id := Claiming(peer, w, call.env), peer.Id();
    var asked := Ask(h.(tls := h.tls[id := queued.Advance()]), id, Tls, data, call.env, missing);
    assert h.tls[id := Advanced(server, conn)][id := queued.Advance()] == h.tls[id := queued.Advance()];
    AskWaits(cfg, peer, w, call, say, queued.Advance(), data, missing,
             [Taken(id, say.packet), Fed(id, server.assembler.Add(say.packet).result.value.value, conn, [])]
             + ([Verified(id, peer.user, conn)] + ([Committed(id, peer.record)] + asked.log)));
  }

  /** A fresh EAP-TLS server on some connection. */
  function Fresh(conn: Conn): TlsServer { TlsServer(conn, Started, CLEARED, [], 0, false) }

  /** What an honoured Nak leads to. */
  lemma {:induction false} NakHonoured(cfg: Config, h: Handler, id: Id, desired: seq<byte>, env: Env)
    requires id in h.m.sessions && h.m.sessions[id].eapMethod == Some(Teap) && h.m.sessions[id].attemptCount == 0
    requires id in h.teap && !h.teap[id].negotiated && cfg.TlsEnabled() && env.connects
    requires NextMethod(cfg, desired, Some(Teap)) == Some(Tls)
    ensures var h1 := SwitchTo(h, id, Some(Tls), env.clock.touch);
            && id in h1.m.sessions && h1.m.sessions[id].binding == h.m.sessions[id].binding
            && var asked := Ask(h1.(tls := h1.tls[id := Fresh(env.newConn)]), id, Tls, EncodeTls(START), env, 0);
               HandleNak(cfg, h, id, desired, env) == asked.(log := [Switched(id, Tls)] + asked.log)
  {
  }

  /** A peer that declines TEAP for EAP-TLS is offered EAP-TLS. */
  lemma {:induction false} OfferedTls(cfg: Config, peer: Peer, w: World, call: Call, say: Say)
    requires WaitsTeap(cfg, peer, w) && Utters(cfg, peer, w, call, say) && cfg.TlsEnabled()
    requires say.Declines? && NextMethod(cfg, say.desired, Some(Teap)) == Some(Tls)
    ensures Waits(cfg, peer, After(cfg, w, call), Fresh(call.env.newConn)) && Asks(cfg, peer, w, call, Tls, [0x20])
  {
    hide Safe, Utters, Read, ReapIdle, Ask, SwitchTo, HandleNak, NextMethod, Finish;
    Uttered(cfg, peer, w, call, say);
    Survives(cfg, peer, w, call.env);
    Answered(cfg, peer, w, call, say);
    var h, id, server := Claiming(peer, w, call.env), peer.Id(), Fresh(call.env.newConn);
    NakHonoured(cfg, h, id, say.desired, call.env);
    var h1 := SwitchTo(h, id, Some(Tls), call.env.clock.touch);
    var h2 := h1.(tls := h1.tls[id := server]);
    var claimed := ResponseClaimed(id, peer.binding, Read(call.request).response.identifier);
    var asked := Ask(h2, id, Tls, EncodeTls(START), call.env, 0);
    AskLeaves(h2, id, Tls, EncodeTls(START), call.env, 0, [claimed] + ([Switched(id, Tls)] + asked.log));
    assert EncodeTls(START) == [0x20];
  }

  /** A request that opens the peer's conversation under a State that names no live one. */
  ghost predicate Opens(cfg: Config, peer: Peer, w: World, call: Call) {
    && FromPeer(cfg, peer, call) && Timely(w, call) && Read(call.request).Opening?
    && call.env.drawn == Some(peer.drawn) && peer.Id() !in w.h.m.sessions
  }

  /** The opening creates a session bound to the peer and hands it to the identity step. */
  lemma {:induction false} SessionCreated(cfg: Config, peer: Peer, w: World, call: Call) returns (h: Handler)
    requires Safe(cfg, w) && Opens(cfg, peer, w, call)
    ensures var id, env, seed := peer.Id(), call.env, Read(call.request).seed;
            && id in h.m.sessions && h.m.sessions[id].binding == peer.binding
            && h.m.sessions[id].attemptCount == 0 && h.m.sessions[id].state.Initialize?
            && var out := HandleIdentity(cfg, h, peer.user, id, env);
               Answer(cfg, w, call) ==
                   Finish(out.(log := [Began(id, peer.binding, seed)] + out.log), id, env.clock.finish)
  {
    var env, id, seed := call.env, peer.Id(), Read(call.request).seed;
    var idle := ReapIdle(w.h, env.clock.idle);
    ReapIdleKeeps(cfg, w.h, w.clock, env.clock.idle);
    ReapKeeps(cfg, idle, w.clock, env.clock.reap);
    assert id !in Reap(idle, env.clock.reap).m.sessions;
    var (h1, started) := StartSession(idle, peer.binding, env);
    assert started == Some(id);
    h := if seed.Some? then Seed(h1, id, seed.value, env.clock.seed) else h1;
  }

  /** The session as the identity step leaves it to the preferred method. */
  function Identified(cfg: Config, h: Handler, user: string, id: Id, now: nat): Handler
    requires id in h.m.sessions
  {
    var m := h.m.Touch(id, now);
    assert id in m.sessions;
    h.(m := m.Put(id, m.sessions[id].(identity := Some(user), eapMethod := Preferred(cfg))))
  }

  /** The identity step sends the Start of the preferred method. */
  lemma {:induction false} IdentityAsks(cfg: Config, h: Handler, user: string, id: Id, env: Env)
    requires id in h.m.sessions && h.m.sessions[id].state.Initialize? && env.connects
    requires cfg.TlsEnabled() || cfg.TeapEnabled()
    ensures var h1 := Identified(cfg, h, user, id, env.clock.touch);
            && id in h1.m.sessions && h1.m.sessions[id].binding == h.m.sessions[id].binding
            && h1.m.sessions[id].attemptCount == h.m.sessions[id].attemptCount
            && h1.m.sessions[id].eapMethod == Preferred(cfg)
            && HandleIdentity(cfg, h, user, id, env) ==
               if cfg.TeapEnabled()
               then Ask(h1.(teap := h1.teap[id := TeapServer(false, [], 0, false, None)]), id, Teap,
                        TeapTypeData(START), env, 0)
               else Ask(h1.(tls := h1.tls[id := Fresh(env.newConn)]), id, Tls, EncodeTls(START), env, 0)
  {
  }

  /** The opening is answered by the preferred method's Start. */
  lemma {:induction false} Opened(cfg: Config, peer: Peer, w: World, call: Call)
    requires Safe(cfg, w) && Opens(cfg, peer, w, call) && (cfg.TlsEnabled() || cfg.TeapEnabled())
    ensures var w1 := After(cfg, w, call);
            if cfg.TeapEnabled() then WaitsTeap(cfg, peer, w1) else Waits(cfg, peer, w1, Fresh(call.env.newConn))
  {
    hide Authenticate, Safe, Read, HandleIdentity, Ask, Finish, Identified, ConversationBinding, UserName;
    var env, id := call.env, peer.Id();
    CallSafe(cfg, w, call);
    var h := SessionCreated(cfg, peer, w, call);
    IdentityAsks(cfg, h, peer.user, id, env);
    var h1, began := Identified(cfg, h, peer.user, id, env.clock.touch),
        Began(id, peer.binding, Read(call.request).seed);
    var asked := HandleIdentity(cfg, h, peer.user, id, env);
    if cfg.TeapEnabled() {
      AskLeaves(h1.(teap := h1.teap[id := TeapServer(false, [], 0, false, None)]), id, Teap, TeapTypeData(START),
                env, 0,
                [began] + asked.log);
    } else {
      AskLeaves(h1.(tls := h1.tls[id := Fresh(env.newConn)]), id, Tls, EncodeTls(START), env, 0, [began] + asked.log);
    }
  }

  // ---------------------------------------------------------------------------------------
  // Whole exchanges
  // ---------------------------------------------------------------------------------------

  function Acks(n: nat): seq<Say> { seq(n, _ => Acknowledges) }

  /** The packets are answered by Requests with this Type-Data, one each. */
  ghost predicate Brings(cfg: Config, peer: Peer, w: World, calls: seq<Call>, eapType: EapType, wire: seq<seq<byte>>) {
    && |calls| == |wire|
    && forall i :: 0 <= i < |calls| ==> Asks(cfg, peer, Play(cfg, w, calls[..i]), calls[i], eapType, wire[i])
  }

  /** Acknowledgements move through the queue one fragment at a time. */
  lemma {:induction false} QueueMoves(cfg: Config, peer: Peer, w: World, server: TlsServer, calls: seq<Call>)
    requires Waits(cfg, peer, w, server) && |calls| <= |server.outgoing| - server.cursor
    requires Cooperates(cfg, peer, w, calls, Acks(|calls|))
    ensures Waits(cfg, peer, Play(cfg, w, calls), server.(cursor := server.cursor + |calls|))
    ensures Brings(cfg, peer, w, calls, Tls, TypeData(server.outgoing[server.cursor..server.cursor + |calls|]))
    decreases |calls|
  {
    hide Waits, Utters, Play, After, Answer, Asks, EncodeTls;
    if calls == [] {
      PlayNone(cfg, w);
    } else {
      var n := |calls| - 1;
      assert Acks(n + 1) == Acks(n) + Acks(1) && Acks(n + 1)[n] == Acknowledges && calls[..n + 1] == calls;
      CooperatesSplit(cfg, peer, w, calls, Acks(n), Acks(1));
      QueueMoves(cfg, peer, w, server, calls[..n]);
      NextFragment(cfg, peer, Play(cfg, w, calls[..n]), calls[n], server.(cursor := server.cursor + n));
      PlayNext(cfg, w, calls, n);
      assert forall i :: 0 <= i < n ==> calls[..n][..i] == calls[..i];
    }
  }

  /** As many acknowledgements as the commitment has fragments left, and one more, and the last of them is
      answered by the Accept. */
  lemma {:induction false} AcknowledgedToTheEnd(cfg: Config, peer: Peer, w: World, server: TlsServer, calls: seq<Call>)
    requires Waits(cfg, peer, w, server) && server.commitmentSent && !server.conn.handshaking
    requires server.cursor <= |server.outgoing|
    requires Cooperates(cfg, peer, w, calls, Acks(|server.outgoing| - server.cursor + 1))
    ensures |calls| == |server.outgoing| - server.cursor + 1 && EndsAccepted(cfg, peer, w, calls)
  {
    hide Waits, Utters, Play, After, Answer;
    var n := |server.outgoing| - server.cursor;
    assert Acks(n + 1) == Acks(n) + Acks(1);
    assert Acks(n + 1)[n] == Acknowledges;
    Uttered(cfg, peer, Play(cfg, w, calls[..n]), calls[n], Acknowledges);
    CooperatesSplit(cfg, peer, w, calls, Acks(n), Acks(1));
    QueueMoves(cfg, peer, w, server, calls[..n]);
    LastAcknowledgement(cfg, peer, Play(cfg, w, calls[..n]), calls[n], server.(cursor := |server.outgoing|));
  }

  /** One round of a handshake: the peer's message in one or more packets, and what TLS makes of it. */
  datatype Round = Round(packets: seq<EapTlsPacket>, message: seq<byte>, conn: Conn, flight: seq<byte>)

  predicate NoStart(packets: seq<EapTlsPacket>) { forall i :: 0 <= i < |packets| ==> !packets[i].flags.start }

  /** The packets reassemble to the message. */
  ghost predicate Sound(r: Round) { Delivers(CLEARED, r.packets, r.message) && NoStart(r.packets) }

  /** The peer sends the packets; TLS answers the last one. */
  function Talk(packets: seq<EapTlsPacket>, answer: (Conn, seq<byte>)): seq<Say> {
    var n := |packets| - 1;
    seq(|packets|, i requires 0 <= i < |packets| => Sends(packets[i], if i == n then Some(answer) else None))
  }

  /** The fragments of a flight. */
  function Flight(cfg: Config, flight: seq<byte>): seq<EapTlsPacket> { Job(flight, cfg.maxFragment, Always).Packets() }

  /** What the peer says in a round: its message, and an acknowledgement of every fragment but the last of the
      flight, which its next message answers. */
  function RoundSays(cfg: Config, r: Round): seq<Say> {
    Talk(r.packets, (r.conn, r.flight)) + Acks(if r.flight == [] then 0 else |Flight(cfg, r.flight)| - 1)
  }

  function Script(cfg: Config, rounds: seq<Round>): seq<Say> {
    if rounds == [] then [] else RoundSays(cfg, rounds[0]) + Script(cfg, rounds[1..])
  }

  lemma TalkSplit(packets: seq<EapTlsPacket>, answer: (Conn, seq<byte>))
    requires |packets| > 1
    ensures Talk(packets, answer) == [Sends(packets[0], None)] + Talk(packets[1..], answer)
  {
  }

  /** Type-Data of acknowledgements. */
  function Empties(n: nat): seq<seq<byte>> { seq(n, _ => [0]) }

  lemma {:induction false} BringsConcat(cfg: Config, peer: Peer, w: World, a: seq<Call>, b: seq<Call>,
                                        eapType: EapType, wireA: seq<seq<byte>>, wireB: seq<seq<byte>>)
    requires Brings(cfg, peer, w, a, eapType, wireA) && Brings(cfg, peer, Play(cfg, w, a), b, eapType, wireB)
    ensures Brings(cfg, peer, w, a + b, eapType, wireA + wireB)
  {
    hide Asks, Play;
    forall i | 0 <= i < |a + b|
      ensures Asks(cfg, peer, Play(cfg, w, (a + b)[..i]), (a + b)[i], eapType, (wireA + wireB)[i])
    {
      TakeConcat(a, b, i);
      if i > |a| {
        PlaySplit(cfg, w, a, b[..i - |a|]);
      } else if i == |a| {
        assert b[..0] == [] && a[..i] == a;
        PlayNone(cfg, Play(cfg, w, a));
      }
    }
  }

  /** All but the last packet of a message are acknowledged, and the assembler ends where the last one completes
      the message. */
  lemma {:induction false} MessageTaken(cfg: Config, peer: Peer, w: World, server: TlsServer,
                                        packets: seq<EapTlsPacket>,
                                        message: seq<byte>, answer: (Conn, seq<byte>), calls: seq<Call>)
      returns (last: TlsServer)
    requires Waits(cfg, peer, w, server) && Listens(server) && NoStart(packets)
    requires Delivers(server.assembler, packets, message) && Cooperates(cfg, peer, w, calls, Talk(packets, answer))
    ensures var n := |packets| - 1;
            && Waits(cfg, peer, Play(cfg, w, calls[..n]), last) && Listens(last)
            && last == server.(assembler := last.assembler)
            && last.assembler.Add(packets[n]).result == Success(Some(message))
            && Utters(cfg, peer, Play(cfg, w, calls[..n]), calls[n], Sends(packets[n], Some(answer)))
            && Brings(cfg, peer, w, calls[..n], Tls, Empties(n))
    decreases |packets|
  {
    hide Waits, Utters, Play, After, Answer, Asks;
    FirstUttered(cfg, peer, w, calls, Talk(packets, answer));
    if |packets| == 1 {
      last := server;
      assert calls[..0] == [];
      PlayNone(cfg, w);
    } else {
      TalkSplit(packets, answer);
      CooperatesSplit(cfg, peer, w, calls, [Sends(packets[0], None)], Talk(packets[1..], answer));
      FragmentTaken(cfg, peer, w, calls[0], server, Sends(packets[0], None));
      var w1, next := Play(cfg, w, calls[..1]), server.(assembler := server.assembler.Add(packets[0]).next);
      last := MessageTaken(cfg, peer, w1, next, packets[1..], message, answer, calls[1..]);
      var n := |packets| - 2;
      PlaySplit(cfg, w, calls[..1], calls[1..][..n]);
      assert calls[..1] + calls[1..][..n] == calls[..n + 1];
      assert Brings(cfg, peer, w, calls[..1], Tls, Empties(1)) by {
        assert calls[..1][..0] == [];
        PlayNone(cfg, w);
      }
      BringsConcat(cfg, peer, w, calls[..1], calls[1..][..n], Tls, Empties(1), Empties(n));
      assert Empties(1) + Empties(n) == Empties(n + 1);
    }
  }

  /** EAP-TLS listens for a new message. */
  predicate Attends(server: TlsServer) { Listens(server) && server.assembler == CLEARED }

  /** The attributes the packets are answered with. */
  function Replies(cfg: Config, w: World, calls: seq<Call>): seq<seq<Attribute>>
    requires forall i :: 0 <= i < |calls| ==> calls[i].Packet?
  {
    seq(|calls|, i requires 0 <= i < |calls| => AttributesOf(Answer(cfg, Play(cfg, w, calls[..i]), calls[i]).result))
  }

  function AttributesOf(result: AuthResult): seq<Attribute> {
    match result
    case Challenge(_, attributes) => attributes
    case Accept(attributes, _) => attributes
    case _ => []
  }

  lemma {:induction false} BroughtIdentifiers(cfg: Config, peer: Peer, w: World, calls: seq<Call>, eapType: EapType,
                                              wire: seq<seq<byte>>)
      returns (ids: seq<byte>)
    requires Brings(cfg, peer, w, calls, eapType, wire)
    ensures |ids| == |calls|
    ensures forall i :: 0 <= i < |calls| ==>
              && calls[i].Packet?
              && Answer(cfg, Play(cfg, w, calls[..i]), calls[i]).result ==
                 Challenging(peer.Id(), ids[i], eapType, wire[i])
    decreases |calls|
  {
    hide Play, Answer, Challenging;
    if calls == [] {
      ids := [];
    } else {
      var n := |calls| - 1;
      assert forall i :: 0 <= i < n ==> calls[..n][..i] == calls[..i];
      var before := BroughtIdentifiers(cfg, peer, w, calls[..n], eapType, wire[..n]);
      assert Asks(cfg, peer, Play(cfg, w, calls[..n]), calls[n], eapType, wire[n]);
      var identifier :| Answer(cfg, Play(cfg, w, calls[..n]), calls[n]).result ==
                        Challenging(peer.Id(), identifier, eapType, wire[n]);
      ids := before + [identifier];
      assert forall i :: 0 <= i < n ==> calls[..n][i] == calls[i];
    }
  }

  /** A peer that reads the EAP-TLS packets in these answers obtains exactly the flight, exactly when the EAP Length
      field can describe its first fragment. */
  ghost predicate Arrives(cfg: Config, w: World, calls: seq<Call>, flight: seq<byte>) {
    && (forall i :: 0 <= i < |calls| ==> calls[i].Packet?)
    && (1 <= |flight| <= MAX_MESSAGE_LENGTH ==>
          (Received(Replies(cfg, w, calls), flight) <==> FitsEap(Job(flight, cfg.maxFragment, Always))))
  }

  lemma {:induction false} FlightArrives(cfg: Config, peer: Peer, w: World, calls: seq<Call>, flight: seq<byte>)
    requires Brings(cfg, peer, w, calls, Tls, TypeData(Flight(cfg, flight)))
    ensures Arrives(cfg, w, calls, flight)
  {
    hide Play, Answer, Asks, Received, EncodeTls, EncodeEap, Split, FitsEap;
    var packets := Flight(cfg, flight);
    var ids := BroughtIdentifiers(cfg, peer, w, calls, Tls, TypeData(packets));
    var wire := Replies(cfg, w, calls);
    forall i | 0 <= i < |wire|
      ensures EapMessages(wire[i]) == ToAttributes(EapPacket(Request, ids[i], Some(Tls), EncodeTls(packets[i])))
    {
      SplitAllEap(EncodeEap(EapPacket(Request, ids[i], Some(Tls), EncodeTls(packets[i]))));
    }
    if 1 <= |flight| <= MAX_MESSAGE_LENGTH {
      EndToEnd(Job(flight, cfg.maxFragment, Always), Request, ids, wire);
    }
  }

  /** What a round with a flight does: every packet of the peer's message but the last is acknowledged, TLS is fed the
      message, and the fragments of the flight come back one after the other and arrive. */
  ghost predicate Exchanged(cfg: Config, peer: Peer, w: World, calls: seq<Call>, r: Round) {
    var k := |r.packets| - 1;
    && 0 <= k < |calls|
    && Brings(cfg, peer, w, calls[..k], Tls, Empties(k))
    && Feeds(cfg, peer, Play(cfg, w, calls[..k]), calls[k], r.message, (r.conn, r.flight))
    && Brings(cfg, peer, Play(cfg, w, calls[..k]), calls[k..], Tls, TypeData(Flight(cfg, r.flight)))
    && Arrives(cfg, Play(cfg, w, calls[..k]), calls[k..], r.flight)
  }

  /** The last packet of a message and the acknowledgements after it bring the flight. */
  lemma {:induction false} FlightPlayed(cfg: Config, peer: Peer, w: World, server: TlsServer, packet: EapTlsPacket,
                                        message: seq<byte>, conn: Conn, flight: seq<byte>, calls: seq<Call>)
      returns (next: TlsServer)
    requires Waits(cfg, peer, w, server) && Listens(server) && flight != [] && !packet.flags.start
    requires server.assembler.Add(packet).result == Success(Some(message))
    requires calls != [] && Utters(cfg, peer, w, calls[0], Sends(packet, Some((conn, flight))))
    requires Cooperates(cfg, peer, After(cfg, w, calls[0]), calls[1..], Acks(|Flight(cfg, flight)| - 1))
    ensures Waits(cfg, peer, Play(cfg, w, calls), next) && Attends(next)
    ensures Feeds(cfg, peer, w, calls[0], message, (conn, flight))
    ensures Brings(cfg, peer, w, calls, Tls, TypeData(Flight(cfg, flight))) && Arrives(cfg, w, calls, flight)
  {
    hide Waits, Utters, Play, After, Answer, Asks, Feeds, EncodeTls, Arrives, TypeData, Brings, Cooperates;
    FlightSent(cfg, peer, w, calls[0], server, Sends(packet, Some((conn, flight))));
    var queued := Advanced(server, conn).Queue(flight, cfg.maxFragment).Advance();
    CooperatesLength(cfg, peer, After(cfg, w, calls[0]), calls[1..], Acks(|Flight(cfg, flight)| - 1));
    QueueMoves(cfg, peer, After(cfg, w, calls[0]), queued, calls[1..]);
    next := queued.(cursor := |queued.outgoing|);
    assert queued.outgoing[1..1 + |calls[1..]|] == Flight(cfg, flight)[1..];
    FlightBrought(cfg, peer, w, calls[0], calls[1..], flight);
    assert [calls[0]] + calls[1..] == calls;
    FlightArrives(cfg, peer, w, calls, flight);
    PlayFirst(cfg, w, calls);
  }

  lemma CooperatesLength(cfg: Config, peer: Peer, w: World, calls: seq<Call>, says: seq<Say>)
    requires Cooperates(cfg, peer, w, calls, says)
    ensures |calls| == |says|
  {
  }

  lemma {:induction false} PlayFirst(cfg: Config, w: World, calls: seq<Call>)
    requires calls != []
    ensures Play(cfg, w, calls) == Play(cfg, After(cfg, w, calls[0]), calls[1..])
  {
    hide After;
    PlaySplit(cfg, w, [calls[0]], calls[1..]);
    assert [calls[0]] + calls[1..] == calls && [calls[0]][..0] == [];
    assert Play(cfg, w, [calls[0]]) == After(cfg, Play(cfg, w, []), calls[0]);
  }

  /** A round with a flight leaves EAP-TLS listening again. */
  lemma {:induction false} RoundPlayed(cfg: Config, peer: Peer, w: World, server: TlsServer, r: Round, calls: seq<Call>)
      returns (next: TlsServer)
    requires Waits(cfg, peer, w, server) && Attends(server) && Sound(r) && r.flight != []
    requires Cooperates(cfg, peer, w, calls, RoundSays(cfg, r))
    ensures Waits(cfg, peer, Play(cfg, w, calls), next) && Attends(next) && Exchanged(cfg, peer, w, calls, r)
  {
    hide Waits, Utters, Play, After, Answer, Asks, Feeds, EncodeTls, Arrives, TypeData, Brings, Cooperates;
    var talk, k := Talk(r.packets, (r.conn, r.flight)), |r.packets|;
    var acks := Acks(|Flight(cfg, r.flight)| - 1);
    CooperatesSplit(cfg, peer, w, calls, talk, acks);
    var last := MessageTaken(cfg, peer, w, server, r.packets, r.message, (r.conn, r.flight), calls[..k]);
    assert calls[..k][..k - 1] == calls[..k - 1];
    PlayNext(cfg, w, calls, k - 1);
    assert calls[k - 1..][0] == calls[k - 1] && calls[k - 1..][1..] == calls[k..];
    next := FlightPlayed(cfg, peer, Play(cfg, w, calls[..k - 1]), last, r.packets[k - 1], r.message, r.conn, r.flight,
                         calls[k - 1..]);
    PlaySplit(cfg, w, calls[..k - 1], calls[k - 1..]);
    assert calls[..k - 1] + calls[k - 1..] == calls;
  }

  /** The first fragment and the others make up the flight. */
  lemma {:induction false} FlightBrought(cfg: Config, peer: Peer, w: World, first: Call, others: seq<Call>,
                                         flight: seq<byte>)
    requires flight != [] && Asks(cfg, peer, w, first, Tls, EncodeTls(Flight(cfg, flight)[0]))
    requires Brings(cfg, peer, After(cfg, w, first), others, Tls, TypeData(Flight(cfg, flight)[1..]))
    ensures Brings(cfg, peer, w, [first] + others, Tls, TypeData(Flight(cfg, flight)))
  {
    hide Asks, After, EncodeTls;
    var packets := Flight(cfg, flight);
    assert [first][..0] == [] && Play(cfg, w, [first]) == After(cfg, Play(cfg, w, []), first);
    assert Brings(cfg, peer, w, [first], Tls, TypeData(packets[..1]));
    BringsConcat(cfg, peer, w, [first], others, Tls, TypeData(packets[..1]), TypeData(packets[1..]));
    assert TypeData(packets[..1]) + TypeData(packets[1..]) == TypeData(packets);
  }

  /** A handshake of any number of rounds: every one but the last brings a flight, the last completes with a
      certificate that identifies the user, or none. */
  ghost predicate Handshake(cfg: Config, peer: Peer, rounds: seq<Round>) {
    && rounds != [] && (forall i :: 0 <= i < |rounds| ==> Sound(rounds[i]))
    && (forall i :: 0 <= i < |rounds| - 1 ==> rounds[i].flight != [])
    && var last := rounds[|rounds| - 1];
       && last.flight == [] && !last.conn.handshaking && Presents(cfg, last.conn, peer.user)
       && (last.conn.tls13 ==> peer.record != [])
  }

  /** Every round of a handshake but the last is exchanged, and TLS is fed the message of the last. */
  ghost predicate AllExchanged(cfg: Config, peer: Peer, w: World, calls: seq<Call>, rounds: seq<Round>)
    decreases |rounds|
  {
    rounds != [] ==>
      var r := rounds[0];
      if |rounds| == 1 then
        var k := |r.packets| - 1;
        0 <= k < |calls| && Feeds(cfg, peer, Play(cfg, w, calls[..k]), calls[k], r.message, (r.conn, r.flight))
      else
        var n := |RoundSays(cfg, r)|;
        && n <= |calls| && Exchanged(cfg, peer, w, calls[..n], r)
        && AllExchanged(cfg, peer, Play(cfg, w, calls[..n]), calls[n..], rounds[1..])
  }

  /** After the handshake: over TLS 1.3 an acknowledgement of every fragment of the commitment record. */
  function Finale(cfg: Config, peer: Peer, conn: Conn): seq<Say> {
    if conn.tls13 then Acks(|Flight(cfg, peer.record)|) else []
  }

  /** The last round and what follows it. */
  lemma {:induction false} LastRound(cfg: Config, peer: Peer, w: World, server: TlsServer, r: Round, calls: seq<Call>)
    requires Waits(cfg, peer, w, server) && Attends(server) && Handshake(cfg, peer, [r])
    requires Cooperates(cfg, peer, w, calls, RoundSays(cfg, r) + Finale(cfg, peer, r.conn))
    ensures EndsAccepted(cfg, peer, w, calls) && AllExchanged(cfg, peer, w, calls, [r])
  {
    hide Waits, Utters, Play, After, Answer, Asks, Feeds, Exchanged;
    assert Sound([r][0]);
    var k, answer := |r.packets|, (r.conn, r.flight);
    assert RoundSays(cfg, r) == Talk(r.packets, answer);
    CooperatesSplit(cfg, peer, w, calls, Talk(r.packets, answer), Finale(cfg, peer, r.conn));
    var last := MessageTaken(cfg, peer, w, server, r.packets, r.message, answer, calls[..k]);
    assert calls[..k][..k - 1] == calls[..k - 1];
    var w1, say := Play(cfg, w, calls[..k - 1]), Sends(r.packets[k - 1], Some(answer));
    if r.conn.tls13 {
      CommitmentBegun(cfg, peer, w1, calls[k - 1], last, say);
      PlayNext(cfg, w, calls, k - 1);
      AcknowledgedToTheEnd(cfg, peer, Play(cfg, w, calls[..k]), Committing(cfg, peer, last, r.conn).Advance(),
                           calls[k..]);
      EndsLater(cfg, peer, w, calls, k);
    } else {
      Uttered(cfg, peer, w1, calls[k - 1], say);
      AcceptedAtOnce(cfg, peer, w1, calls[k - 1], last, say);
    }
  }

  /** From where EAP-TLS listens, the whole handshake and what follows it end in the Accept. */
  lemma {:induction false} HandshakeAccepted(cfg: Config, peer: Peer, w: World, server: TlsServer, rounds: seq<Round>,
                                             calls: seq<Call>)
    requires Waits(cfg, peer, w, server) && Attends(server) && Handshake(cfg, peer, rounds)
    requires Cooperates(cfg, peer, w, calls, Script(cfg, rounds) + Finale(cfg, peer, rounds[|rounds| - 1].conn))
    ensures EndsAccepted(cfg, peer, w, calls) && AllExchanged(cfg, peer, w, calls, rounds)
    decreases |rounds|
  {
    hide Waits, Utters, Play, After, Answer, RoundSays, Finale, Cooperates, Outcome, Exchanged, Feeds;
    var r, rest, finale := rounds[0], rounds[1..], Finale(cfg, peer, rounds[|rounds| - 1].conn);
    if rest == [] {
      assert Script(cfg, rest) == [] && Script(cfg, rounds) == RoundSays(cfg, r) + [];
      assert rounds == [r] && RoundSays(cfg, r) + [] == RoundSays(cfg, r);
      LastRound(cfg, peer, w, server, r, calls);
    } else {
      var n := |RoundSays(cfg, r)|;
      Associative(RoundSays(cfg, r), Script(cfg, rest), finale);
      CooperatesSplit(cfg, peer, w, calls, RoundSays(cfg, r), Script(cfg, rest) + finale);
      var next := RoundPlayed(cfg, peer, w, server, r, calls[..n]);
      HandshakeAccepted(cfg, peer, Play(cfg, w, calls[..n]), next, rest, calls[n..]);
      EndsLater(cfg, peer, w, calls, n);
    }
  }

  /** All that the peer says once its conversation is open: it declines TEAP if that is offered, then shakes hands. */
  function FullScript(cfg: Config, peer: Peer, desired: seq<byte>, rounds: seq<Round>): seq<Say>
    requires rounds != []
  {
    (if cfg.TeapEnabled() then [Declines(desired)] else [])
    + (Script(cfg, rounds) + Finale(cfg, peer, rounds[|rounds| - 1].conn))
  }

  /** In every configuration that offers EAP-TLS, from every safe state and with any other conversations live, a
      peer that opens a conversation, prefers EAP-TLS to TEAP if both are offered, and shakes hands in any number of
      rounds, always answering within the idle timeout, is accepted at the end. */
  lemma {:induction false} CooperationAccepted(cfg: Config, peer: Peer, w: World, opening: Call, desired: seq<byte>,
                                               rounds: seq<Round>, calls: seq<Call>)
    requires Safe(cfg, w) && cfg.TlsEnabled() && Opens(cfg, peer, w, opening) && Handshake(cfg, peer, rounds)
    requires cfg.TeapEnabled() ==> NextMethod(cfg, desired, Some(Teap)) == Some(Tls)
    requires Cooperates(cfg, peer, After(cfg, w, opening), calls, FullScript(cfg, peer, desired, rounds))
    ensures EndsAccepted(cfg, peer, After(cfg, w, opening), calls)
    ensures var w1, n := After(cfg, w, opening), if cfg.TeapEnabled() then 1 else 0;
            n <= |calls| && AllExchanged(cfg, peer, Play(cfg, w1, calls[..n]), calls[n..], rounds)
  {
    hide Waits, WaitsTeap, Utters, Play, Answer, After, Script, Finale, Outcome, Safe, Cooperates;
    var w1 := After(cfg, w, opening);
    Opened(cfg, peer, w, opening);
    var says := Script(cfg, rounds) + Finale(cfg, peer, rounds[|rounds| - 1].conn);
    if cfg.TeapEnabled() {
      CooperatesSplit(cfg, peer, w1, calls, [Declines(desired)], says);
      FirstUttered(cfg, peer, w1, calls, [Declines(desired)] + says);
      Uttered(cfg, peer, w1, calls[0], Declines(desired));
      OfferedTls(cfg, peer, w1, calls[0], Declines(desired));
      HandshakeAccepted(cfg, peer, Play(cfg, w1, calls[..1]), Fresh(calls[0].env.newConn), rounds, calls[1..]);
      EndsLater(cfg, peer, w1, calls, 1);
    } else {
      assert [] + says == says && calls[..0] == [] && calls[0..] == calls;
      PlayNone(cfg, w1);
      HandshakeAccepted(cfg, peer, w1, Fresh(opening.env.newConn), rounds, calls);
    }
  }

  // ---------------------------------------------------------------------------------------
  // Such runs exist
  // ---------------------------------------------------------------------------------------

  /** Attributes a NAS sends along with every request of a peer. */
  predicate Plain(base: seq<Attribute>) { EapOctets(base) == [] && Find(base, STATE).None? }

  /** The request that carries a Response in the conversation of `drawn`. */
  function Reply(base: seq<Attribute>, drawn: seq<byte>, p: EapPacket): seq<Attribute>
    requires |drawn| == STATE_LEN
  {
    base + ([RawAttribute(STATE, drawn)] + ToAttributes(p))
  }

  lemma {:induction false} FindConcat(a: seq<Attribute>, b: seq<Attribute>, kind: byte)
    ensures Find(a + b, kind) == if Find(a, kind).Some? then Find(a, kind) else Find(b, kind)
  {
    if a == [] {
      assert a + b == b;
    } else {
      TailOfConcat(a, b);
      if a[0].kind != kind {
        FindConcat(a[1..], b, kind);
      }
    }
  }

  lemma {:induction false} FindNone(attributes: seq<Attribute>, kind: byte)
    requires forall i :: 0 <= i < |attributes| ==> attributes[i].kind != kind
    ensures Find(attributes, kind).None?
  {
    if attributes != [] {
      FindNone(attributes[1..], kind);
    }
  }

  lemma {:induction false} ReplyFinds(base: seq<Attribute>, drawn: seq<byte>, p: EapPacket, kind: byte)
    requires |drawn| == STATE_LEN && kind != EAP_MESSAGE
    ensures Find(Reply(base, drawn, p), kind) ==
            if Find(base, kind).None? && kind == STATE then Some(drawn) else Find(base, kind)
  {
    hide EncodeEap, Split;
    var state: seq<Attribute> := [RawAttribute(STATE, drawn)];
    var rest := ToAttributes(p);
    SplitShape(EncodeEap(p));
    FindNone(rest, kind);
    FindConcat(base, state + rest, kind);
    FindConcat(state, rest, kind);
    assert state[1..] == [];
  }

  lemma {:induction false} ReplyOctets(base: seq<Attribute>, drawn: seq<byte>, p: EapPacket)
    requires |drawn| == STATE_LEN && EapOctets(base) == []
    ensures EapOctets(Reply(base, drawn, p)) == EncodeEap(p)
  {
    hide EncodeEap, Split;
    var state: seq<Attribute> := [RawAttribute(STATE, drawn)];
    EapOctetsConcat(base, state + ToAttributes(p));
    EapOctetsConcat(state, ToAttributes(p));
    assert EapOctets(state) == [] by {
      assert state[1..] == [];
    }
    SplitOctets(EncodeEap(p));
    assert forall x: seq<byte> :: [] + x == x;
  }

  /** State, EAP-Message, binding and user name of a reply are read back from its attributes, whatever else it
      carries. */
  lemma {:induction false} ReplyReads(cfg: Config, base: seq<Attribute>, client: Option<Ip>, drawn: seq<byte>,
                                      p: EapPacket)
    requires Plain(base) && |drawn| == STATE_LEN && |p.data| <= MAX_TYPE_DATA
    requires p.code.Response? && p.eapType.Some? && p.eapType != Some(Identity)
    ensures var a := Reply(base, drawn, p);
            && Read(a) == Answering(p) && Find(a, STATE) == Some(drawn)
            && ConversationBinding(a, client) == ConversationBinding(base, client)
            && UserName(cfg, a) == UserName(cfg, base)
  {
    hide Reply, Fields, EncodeEap, DecodeEap;
    var a := Reply(base, drawn, p);
    ReplyOctets(base, drawn, p);
    EapRoundTrip(p);
    assert EncodeEap(p) != [] by {
      NotEmpty(p);
    }
    ReplyFinds(base, drawn, p, STATE);
    ReplyFinds(base, drawn, p, USER_NAME);
    ReplyFinds(base, drawn, p, NAS_IP_ADDRESS);
    ReplyFinds(base, drawn, p, NAS_IPV6_ADDRESS);
    ReplyFinds(base, drawn, p, NAS_IDENTIFIER);
    assert BoundValues(a, client) == BoundValues(base, client);
  }

  lemma NotEmpty(p: EapPacket)
    ensures EncodeEap(p) != []
  {
  }

  /** What is said fits a Response. */
  predicate Sayable(say: Say) {
    match say
    case Declines(desired) => |desired| <= MAX_TYPE_DATA
    case Sends(q, _) => q.Consistent() && |EncodeTls(q)| <= MAX_TYPE_DATA
    case Acknowledges => true
    case Talks(data, _) => |data| <= MAX_TYPE_DATA
    case AcknowledgesTeap(data) => |data| <= MAX_TYPE_DATA
  }

  function ResponseTo(say: Say, identifier: byte): EapPacket {
    match say
    case Declines(desired) => EapPacket(Response, identifier, Some(Nak), desired)
    case Sends(q, _) => EapPacket(Response, identifier, Some(Tls), EncodeTls(q))
    case Acknowledges => EapPacket(Response, identifier, Some(Tls), EncodeTls(ACK))
    case Talks(data, _) => EapPacket(Response, identifier, Some(Teap), data)
    case AcknowledgesTeap(data) => EapPacket(Response, identifier, Some(Teap), data)
  }

  /** The outside world of a packet at time `now`. */
  function Around(peer: Peer, now: nat, say: Option<Say>): Env {
    Env(Clock(now, now, now, now, now, now, now, now), Some(peer.drawn), true, Conn(true, false, None),
        if say.Some? && say.value.Sends? then say.value.answer else None, Some(peer.record), Some(peer.keys),
        if say.Some? && say.value.Talks? then Some(say.value.reaction) else None)
  }

  ghost predicate Behind(cfg: Config, peer: Peer, base: seq<Attribute>, client: Option<Ip>) {
    peer.Named() && Plain(base) && peer.binding == ConversationBinding(base, client) && peer.user == UserName(cfg, base)
  }

  lemma {:induction false} CallExists(cfg: Config, peer: Peer, base: seq<Attribute>, client: Option<Ip>, w: World,
                                      say: Say)
      returns (call: Call)
    requires Behind(cfg, peer, base, client) && Sayable(say)
    ensures Utters(cfg, peer, w, call, say) && call.env.clock.finish == w.clock
  {
    hide Read, ConversationBinding, UserName, Reply, DecodeTls;
    var p := ResponseTo(say, Awaited(w, peer.Id()));
    call := Packet(Reply(base, peer.drawn, p), client, Around(peer, w.clock, Some(say)));
    ReplyReads(cfg, base, client, peer.drawn, p);
    if say.Sends? {
      TlsRoundTrip(say.packet);
    }
  }

  lemma {:induction false} ClockKept(cfg: Config, w: World, call: Call)
    requires call.Packet? && call.env.clock.finish == w.clock
    ensures After(cfg, w, call).clock == w.clock
  {
  }

  /** Whatever a peer has to say, there are packets in which it says so. */
  lemma {:induction false} CallsExist(cfg: Config, peer: Peer, base: seq<Attribute>, client: Option<Ip>, w: World,
                                      says: seq<Say>)
      returns (calls: seq<Call>)
    requires Behind(cfg, peer, base, client) && forall i :: 0 <= i < |says| ==> Sayable(says[i])
    ensures Cooperates(cfg, peer, w, calls, says) && Play(cfg, w, calls).clock == w.clock
    decreases |says|
  {
    hide Utters, After, Behind, Sayable;
    if says == [] {
      calls := [];
    } else {
      var n := |says| - 1;
      var before := CallsExist(cfg, peer, base, client, w, says[..n]);
      var call := CallExists(cfg, peer, base, client, Play(cfg, w, before), says[n]);
      Uttered(cfg, peer, Play(cfg, w, before), call, says[n]);
      ClockKept(cfg, Play(cfg, w, before), call);
      calls := before + [call];
      assert calls[..n] == before;
      assert forall i :: 0 <= i < n ==> calls[..i] == before[..i];
    }
  }

  lemma {:induction false} ReachCall(cfg: Config, maxSessions: nat, w: World, call: Call)
    requires Reachable(cfg, maxSessions, w) && Timely(w, call)
    ensures Reachable(cfg, maxSessions, After(cfg, w, call))
  {
    hide After;
    var timeout: nat, calls: seq<Call> :|
      && maxSessions >= 1 && Valid(cfg, Initial(timeout, maxSessions), calls)
      && w == Play(cfg, Initial(timeout, maxSessions), calls);
    var longer := calls + [call];
    assert longer[..|longer| - 1] == calls && longer[|longer| - 1] == call;
    assert Valid(cfg, Initial(timeout, maxSessions), longer);
    assert After(cfg, w, call) == Play(cfg, Initial(timeout, maxSessions), longer);
  }

  lemma {:induction false} ReachCooperation(cfg: Config, maxSessions: nat, peer: Peer, w: World, calls: seq<Call>,
                                            says: seq<Say>)
    requires Reachable(cfg, maxSessions, w) && Cooperates(cfg, peer, w, calls, says)
    ensures Reachable(cfg, maxSessions, Play(cfg, w, calls))
    decreases |calls|
  {
    hide Reachable, Utters, After;
    if calls != [] {
      var n := |calls| - 1;
      assert says == says[..n] + says[n..];
      CooperatesSplit(cfg, peer, w, calls, says[..n], says[n..]);
      ReachCooperation(cfg, maxSessions, peer, w, calls[..n], says[..n]);
      Uttered(cfg, peer, Play(cfg, w, calls[..n]), calls[n], says[n]);
      ReachCall(cfg, maxSessions, Play(cfg, w, calls[..n]), calls[n]);
    }
  }

  /** Such a peer is accepted in some run: from every reachable state there are an opening and answers of its that
      are all prompt and end, in a reachable state, in the Accept. */
  lemma {:induction false} CooperativePeerAccepted(cfg: Config, maxSessions: nat, w: World, peer: Peer,
                                                   base: seq<Attribute>,
                                                   client: Option<Ip>, desired: seq<byte>, rounds: seq<Round>)
      returns (opening: Call, calls: seq<Call>)
    requires Reachable(cfg, maxSessions, w) && cfg.TlsEnabled() && Behind(cfg, peer, base, client)
    requires peer.Id() !in w.h.m.sessions && Handshake(cfg, peer, rounds)
    requires cfg.TeapEnabled() ==> NextMethod(cfg, desired, Some(Teap)) == Some(Tls)
    requires forall say :: say in FullScript(cfg, peer, desired, rounds) ==> Sayable(say)
    ensures var w1 := After(cfg, w, opening);
            && Opens(cfg, peer, w, opening) && Cooperates(cfg, peer, w1, calls, FullScript(cfg, peer, desired, rounds))
            && EndsAccepted(cfg, peer, w1, calls) && Reachable(cfg, maxSessions, Play(cfg, w1, calls))
  {
    hide Reachable, Safe, Play, After, Answer, Outcome, Cooperates, FullScript, NextMethod, Sayable;
    opening := Packet(base, client, Around(peer, w.clock, None));
    ReachableSafe(cfg, maxSessions, w);
    var w1, says := After(cfg, w, opening), FullScript(cfg, peer, desired, rounds);
    assert forall i :: 0 <= i < |says| ==> says[i] in says;
    calls := CallsExist(cfg, peer, base, client, w1, says);
    CooperationAccepted(cfg, peer, w, opening, desired, rounds, calls);
    ReachCall(cfg, maxSessions, w, opening);
    ReachCooperation(cfg, maxSessions, peer, w1, calls, says);
  }
}
