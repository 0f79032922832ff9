/**
 What the log of a run tells about one conversation, and the law every conversation obeys.

 `Tell` folds the events of a conversation into what has happened so far; `Lawful` says which
 event may come next. Everything is stated on the log alone. `MatchesSession` and `MatchesTls`
 tie the handler's state to the log.
 */
module EapTales {
  import opened Octets
  import opened EapCodec
  import opened EapFragments
  import opened EapSessions
  import opened Binding
  import opened EapHandler

  datatype Tale = Tale(
    binding: seq<byte>,             // who started the conversation
    first: byte,                    // Identifier of the first Request
    eapMethod: Option<EapType>,     // the method in use
    pending: Option<byte>,          // Identifier of the Request not yet answered
    claimed: bool,                  // a Response was claimed and nothing done about it yet
    heard: Option<EapTlsPacket>,    // the packet in that Response, once the method has taken it
    issues: nat,                    // Requests sent
    switches: nat,                  // method switches
    taken: seq<EapTlsPacket>,       // EAP-TLS packets taken since TLS was last fed
    fed: Option<Conn>,              // the TLS connection when it last advanced
    verified: Option<(string, Conn)>, // the peer identity check passed since then
    record: Option<seq<byte>>,      // the commitment record written since then
    ran: Option<TeapAnswer>,        // what the TEAP state machine last answered
    message: seq<byte>,             // what the method last wanted sent, if anything
    sent: seq<seq<byte>>,           // Type-Data of the Requests since then, but for a Start
    over: bool)                     // the peer was accepted

  const BLANK: Tale :=
    Tale([], 0, None, None, false, None, 0, 0, [], None, None, None, None, [], [], false)

  function Next(t: Tale, e: Event): Tale {
    match e
    case Began(_, binding, seed) =>
      BLANK.(binding := binding, first := if seed.Some? then (seed.value + 1) % 256 else 0)
    case ResponseClaimed(_, _, _) => t.(pending := None, claimed := true, heard := None)
    case Switched(_, next) =>
      t.(claimed := false, switches := t.switches + 1, eapMethod := Some(next), message := [], sent := [])
    case Taken(_, p) => t.(claimed := false, heard := Some(p), taken := t.taken + [p])
    case Fed(_, _, conn, output) =>
      t.(claimed := false, taken := [], fed := Some(conn), verified := None, record := None, message := output,
         sent := [])
    case Verified(_, user, conn) => t.(claimed := false, verified := Some((user, conn)), record := None)
    case Committed(_, record) => t.(claimed := false, record := Some(record), message := record, sent := [])
    case Issued(_, identifier, eapType, data) =>
      t.(pending := Some(identifier), claimed := false, issues := t.issues + 1, eapMethod := Some(eapType),
         sent := if t.issues <= t.switches then t.sent else t.sent + [data])
    case Ran(_, p, answer) =>
      t.(claimed := false, heard := Some(p), ran := Some(answer), sent := [],
         message := if answer.output.Some? then answer.output.value else [])
    case AcceptedTls(_, _, _) => t.(claimed := false, over := true)
    case AcceptedTeap(_, _) => t.(claimed := false, over := true)
  }

  function Tell(story: seq<Event>): Tale {
    if story == [] then BLANK else Next(Tell(story[..|story| - 1]), story[|story| - 1])
  }

  /** A request of this binding carries this User-Name. */
  ghost predicate NameOf(cfg: Config, binding: seq<byte>, user: string) {
    exists request: seq<Attribute>, client: Option<Ip> ::
      binding == ConversationBinding(request, client) && user == UserName(cfg, request)
  }

  lemma NameUnique(cfg: Config, binding: seq<byte>, user: string, other: string)
    requires NameOf(cfg, binding, user) && NameOf(cfg, binding, other)
    ensures user == other
  {
    var r, c :| binding == ConversationBinding(r, c) && user == UserName(cfg, r);
    var r', c' :| binding == ConversationBinding(r', c') && other == UserName(cfg, r');
    BindingExact(r, c, r', c');
  }

  /** The Type-Data of a sequence of fragments. */
  function TypeData(packets: seq<EapTlsPacket>): seq<seq<byte>> {
    seq(|packets|, i requires 0 <= i < |packets| => EncodeTls(packets[i]))
  }

  /** The Type-Data of a sequence of fragments of TEAP. */
  function TeapData(packets: seq<EapTlsPacket>): seq<seq<byte>> {
    seq(|packets|, i requires 0 <= i < |packets| => TeapTypeData(packets[i]))
  }

  /** The fragments that carry a message of EAP-TLS. */
  function Fragments(cfg: Config, message: seq<byte>): seq<EapTlsPacket> {
    Job(message, cfg.maxFragment, Always).Packets()
  }

  /** The fragments that carry a message of TEAP. */
  function TeapFragments(cfg: Config, message: seq<byte>): seq<EapTlsPacket> {
    Job(message, cfg.maxFragment, FragmentedOnly).Packets()
  }

  /** The Type-Data of the Requests that carry a message of the method. */
  function Wire(cfg: Config, eapType: EapType, message: seq<byte>): seq<seq<byte>> {
    if eapType == Teap then TeapData(TeapFragments(cfg, message)) else TypeData(Fragments(cfg, message))
  }

  /** The Type-Data of a Start: the S bit alone, and for TEAP version 1. */
  function StartData(eapType: EapType): seq<byte> { if eapType == Teap then [0x21] else [0x20] }

  /** The Type-Data of an acknowledgement: no bit and no data, and for TEAP version 1. */
  function AckData(eapType: EapType): seq<byte> { if eapType == Teap then [0x01] else [0x00] }

  /** All fragments of what the method wanted sent were sent. */
  predicate AllSent(cfg: Config, eapType: EapType, t: Tale) { |t.sent| >= |Wire(cfg, eapType, t.message)| }

  /** The Type-Data of the next Request: the Start of the method, then the fragments of what the method wants sent,
      one after the other, and when all were sent an acknowledgement. */
  function Due(cfg: Config, eapType: EapType, t: Tale): seq<byte> {
    if t.issues <= t.switches then StartData(eapType)
    else if !AllSent(cfg, eapType, t) then Wire(cfg, eapType, t.message)[|t.sent|]
    else AckData(eapType)
  }

  /** The Type-Data is due, and if it acknowledges, there is a fragment to acknowledge. */
  ghost predicate Fitting(cfg: Config, t: Tale, eapType: EapType, data: seq<byte>) {
    && data == Due(cfg, eapType, t)
    && (t.issues > t.switches && AllSent(cfg, eapType, t) ==>
          t.heard.Some? && t.heard.value.flags.more && Gather(t.taken).Some?)
  }

  /** The law of a conversation: what may follow `t`. Nothing follows an Accept, and nothing but the
      Response to it follows a Request. */
  ghost predicate Permits(cfg: Config, t: Tale, e: Event) {
    && !t.over && (t.pending.Some? ==> e.ResponseClaimed?)
    && match e
       case Began(_, _, _) => false
       // A Response answers the outstanding Request, for whoever started the conversation.
       case ResponseClaimed(_, binding, identifier) => binding == t.binding && t.pending == Some(identifier)
       // A Request carries the next Identifier and what is due, and is of the method in use, at first the preferred
       // one.
       case Issued(_, identifier, eapType, data) =>
         && identifier == IdentifierAt(t.first, t.issues)
         && Some(eapType) == (if t.eapMethod.None? then Preferred(cfg) else t.eapMethod)
         && Fitting(cfg, t, eapType, data)
       // A switch answers the first Request, before any method data, and leads from TEAP to EAP-TLS.
       case Switched(_, next) =>
         && t.claimed && t.switches == 0 && t.issues == 1 && t.fed.None? && t.eapMethod == Some(Teap)
         && next == Tls
       // EAP-TLS takes one packet from each Response, once its Start and all it had to send were sent, and none after
       // the commitment record. TLS is fed the message its packets carry.
       case Taken(_, _) =>
         t.claimed && t.eapMethod == Some(Tls) && t.issues > t.switches && AllSent(cfg, Tls, t) && t.record.None?
       case Fed(_, message, _, _) =>
         t.eapMethod == Some(Tls) && t.issues > t.switches && t.heard.Some? && Completes(t.taken, message)
       case Verified(_, user, conn) =>
         && t.eapMethod == Some(Tls) && t.fed == Some(conn) && !conn.handshaking && t.heard.Some? && t.taken == []
         && cfg.Verifies(conn, user) && NameOf(cfg, t.binding, user)
       case Committed(_, record) => t.verified.Some? && record != []
       // TEAP runs on one packet of each Response, once its Start and all it had to send were sent.
       case Ran(_, _, _) => t.claimed && t.eapMethod == Some(Teap) && t.issues > 0 && AllSent(cfg, Teap, t)
       // EAP-TLS success: the handshake is complete, the peer is verified for this User-Name, and
       // over TLS 1.3 the whole commitment record was sent and a Response came back after it.
       case AcceptedTls(_, user, conn) =>
         && t.eapMethod == Some(Tls) && t.issues > t.switches && t.fed == Some(conn) && !conn.handshaking
         && t.verified == Some((user, conn)) && NameOf(cfg, t.binding, user)
         && (conn.tls13 ==>
               t.record.Some? && t.record.value != [] && t.sent == TypeData(Fragments(cfg, t.record.value)))
       // TEAP success: its state machine has just completed on a whole packet, with a key and nothing to send.
       case AcceptedTeap(_, user) =>
         && t.eapMethod == Some(Teap) && t.issues > 0 && NameOf(cfg, t.binding, user)
         && t.heard.Some? && !t.heard.value.flags.more
         && t.ran.Some? && t.ran.value.complete && t.ran.value.msk.Some? && t.ran.value.output.None?
  }

  ghost predicate Lawful(cfg: Config, story: seq<Event>) {
    story != [] ==>
      var before, last := story[..|story| - 1], story[|story| - 1];
      && Lawful(cfg, before)
      && if before == [] then last.Began? else Permits(cfg, Tell(before), last)
  }

  lemma Snoc(cfg: Config, story: seq<Event>, e: Event)
    ensures Tell(story + [e]) == Next(Tell(story), e)
    ensures story != [] ==> (Lawful(cfg, story + [e]) <==> Lawful(cfg, story) && Permits(cfg, Tell(story), e))
  {
    assert (story + [e])[..|story|] == story;
  }

  // ---------------------------------------------------------------------------------------
  // State and log
  // ---------------------------------------------------------------------------------------

  ghost predicate MatchesSession(t: Tale, s: Session) {
    && !t.over && s.binding == t.binding && s.outstanding == t.pending && s.attemptCount == t.switches
    && s.currentIdentifier == IdentifierAt(t.first, t.issues)
    && (t.eapMethod.Some? ==> s.eapMethod == t.eapMethod)
  }

  /** The queue holds what the method last wanted sent, and its cursor tells how much of it was sent. */
  ghost predicate InStep(t: Tale, outgoing: seq<EapTlsPacket>, cursor: nat, fragments: seq<EapTlsPacket>) {
    if t.message == [] then cursor >= |outgoing|
    else
      && outgoing == fragments && cursor <= |outgoing| && cursor <= |t.sent|
      && (cursor < |outgoing| ==> |t.sent| == cursor)
  }

  /** The assembler holds the packets taken, and the queue is in step. Once the commitment record is written the
      connection is never fed again, and nothing but the record is sent. */
  ghost predicate MatchesTls(cfg: Config, t: Tale, server: TlsServer) {
    && Gather(t.taken) == Some(server.assembler)
    && InStep(t, server.outgoing, server.cursor, Fragments(cfg, t.message))
    && (t.record.Some? <==> server.commitmentSent)
    && (server.commitmentSent ==>
          && !server.conn.handshaking && t.fed == Some(server.conn)
          && t.verified.Some? && t.verified.value.1 == server.conn && NameOf(cfg, t.binding, t.verified.value.0)
          && t.record.value != [] && t.message == t.record.value && |t.sent| == server.cursor)
  }

  /** Until it negotiated a version TEAP has only sent its Start. */
  ghost predicate MatchesTeap(cfg: Config, t: Tale, server: TeapServer) {
    && (server.outgoing != [] ==> server.negotiated) && (!server.negotiated ==> t.issues == 1)
    && InStep(t, server.outgoing, server.cursor, TeapFragments(cfg, t.message)) && t.taken == []
  }

  ghost predicate MatchesMethod(cfg: Config, t: Tale, h: Handler, id: Id) {
    (id in h.tls ==> MatchesTls(cfg, t, h.tls[id])) && (id in h.teap ==> MatchesTeap(cfg, t, h.teap[id]))
  }

  /** A conversation whose Response is being processed. */
  ghost predicate Underway(cfg: Config, story: seq<Event>, h: Handler, id: Id, user: string) {
    var t := Tell(story);
    && story != [] && Lawful(cfg, story) && t.pending.None? && NameOf(cfg, t.binding, user)
    && id in h.m.sessions && MatchesSession(t, h.m.sessions[id])
  }

  /** The events of `out` continue the story lawfully, and if the conversation goes on the
      state left behind matches it. */
  ghost predicate Recounts(cfg: Config, story: seq<Event>, id: Id, out: Out) {
    var story' := story + out.log;
    && Lawful(cfg, story')
    && (forall e :: e in out.log ==> e.id == id)
    && (out.result.Challenge? ==>
          && id in out.h.m.sessions && MatchesSession(Tell(story'), out.h.m.sessions[id])
          && MatchesMethod(cfg, Tell(story'), out.h, id))
  }

  lemma RecountsReject(cfg: Config, story: seq<Event>, id: Id, h: Handler)
    requires Lawful(cfg, story)
    ensures Recounts(cfg, story, id, Out(h, Reject, []))
  {
    assert story + [] == story;
  }

  lemma RecountsAfter(cfg: Config, story: seq<Event>, e: Event, id: Id, out: Out)
    requires Recounts(cfg, story + [e], id, out) && e.id == id
    ensures Recounts(cfg, story, id, out.(log := [e] + out.log))
  {
    assert story + ([e] + out.log) == (story + [e]) + out.log;
  }

  lemma RequestPermitted(cfg: Config, t: Tale, id: Id, identifier: byte, eapType: EapType, data: seq<byte>)
    requires !t.over && t.pending.None? && identifier == IdentifierAt(t.first, t.issues)
    requires Some(eapType) == (if t.eapMethod.None? then Preferred(cfg) else t.eapMethod)
    requires Fitting(cfg, t, eapType, data)
    ensures Permits(cfg, t, Issued(id, identifier, eapType, data))
  {
  }

  lemma {:induction false} AskRecounts(cfg: Config, story: seq<Event>, h: Handler, id: Id, user: string,
                                       eapType: EapType, data: seq<byte>, env: Env, missing: byte)
    requires Underway(cfg, story, h, id, user) && h.m.sessions[id].eapMethod == Some(eapType)
    requires Tell(story).eapMethod.None? ==> Preferred(cfg) == Some(eapType)
    requires Fitting(cfg, Tell(story), eapType, data)
    requires var issued := Issued(id, h.m.sessions[id].currentIdentifier, eapType, data);
             MatchesMethod(cfg, Next(Tell(story), issued), h, id)
    ensures Recounts(cfg, story, id, Ask(h, id, eapType, data, env, missing))
  {
    hide Lawful, NameOf, Fitting, MatchesTls, MatchesTeap, Permits, Tell;
    var t, s := Tell(story), h.m.sessions[id];
    RequestPermitted(cfg, t, id, s.currentIdentifier, eapType, data);
    Snoc(cfg, story, Issued(id, s.currentIdentifier, eapType, data));
    NextIdentifierAt(t.first, t.issues);
  }

  lemma NextIdentifierAt(first: byte, k: nat)
    ensures (IdentifierAt(first, k) + 1) % 256 == IdentifierAt(first, k + 1)
  {
  }

  // ---------------------------------------------------------------------------------------
  // Negotiation
  // ---------------------------------------------------------------------------------------

  /** A Start is due first, and the method as it starts matches. */
  lemma StartMatches(cfg: Config, story: seq<Event>, id: Id, identifier: byte, conn: Conn)
    requires story != [] && Lawful(cfg, story) && Tell(story).issues == Tell(story).switches
    ensures var t, data := Tell(story), EncodeTls(START);
            && Fitting(cfg, t, Tls, data)
            && MatchesTls(cfg, Next(t, Issued(id, identifier, Tls, data)),
                          TlsServer(conn, Started, CLEARED, [], 0, false))
    ensures var t, data := Tell(story), TeapTypeData(START);
            && Fitting(cfg, t, Teap, data)
            && (t.issues == 0 ==>
                  MatchesTeap(cfg, Next(t, Issued(id, identifier, Teap, data)), TeapServer(false, [], 0, false, None)))
  {
    hide Lawful, NameOf, Tell, Wire;
    MethodOfStory(cfg, story);
  }

  lemma {:induction false} StartMethodRecounts(cfg: Config, story: seq<Event>, h: Handler, id: Id, user: string,
                                               eapMethod: Option<EapType>, env: Env)
    requires Underway(cfg, story, h, id, user) && id !in h.tls && id !in h.teap
    requires h.m.sessions[id].eapMethod == eapMethod && (eapMethod == Some(Teap) ==> Tell(story).issues == 0)
    requires Tell(story).eapMethod.None? ==> Preferred(cfg) == eapMethod
    requires Tell(story).issues == Tell(story).switches
    ensures Recounts(cfg, story, id, StartMethod(cfg, h, id, eapMethod, env))
  {
    hide Lawful, NameOf, Recounts, Fitting, MatchesTls, MatchesTeap, Ask;
    StartMatches(cfg, story, id, h.m.sessions[id].currentIdentifier, env.newConn);
    if eapMethod == Some(Teap) && cfg.TeapEnabled() && env.connects {
      var h1 := h.(teap := h.teap[id := TeapServer(false, [], 0, false, None)]);
      AskRecounts(cfg, story, h1, id, user, Teap, TeapTypeData(START), env, 0);
    } else if eapMethod == Some(Tls) && cfg.realms != {} && env.connects {
      var h1 := h.(tls := h.tls[id := TlsServer(env.newConn, Started, CLEARED, [], 0, false)]);
      AskRecounts(cfg, story, h1, id, user, Tls, EncodeTls(START), env, 0);
    } else {
      RecountsReject(cfg, story, id, h);
    }
  }

  lemma IdentityRecounts(cfg: Config, story: seq<Event>, h: Handler, user: string, id: Id, env: Env)
    requires Underway(cfg, story, h, id, user) && id !in h.tls && id !in h.teap
    requires Tell(story).issues == 0 && Tell(story).eapMethod.None?
    ensures Recounts(cfg, story, id, HandleIdentity(cfg, h, user, id, env))
  {
    MethodOfStory(cfg, story);
    hide Recounts, Lawful, NameOf, StartMethod;
    var m := h.m.Touch(id, env.clock.touch);
    var s := m.sessions[id].(identity := Some(user))
             .Transition(IdentityReceived, env.clock.touch).Transition(MethodRequested, env.clock.touch)
             .(eapMethod := Preferred(cfg));
    StartMethodRecounts(cfg, story, h.(m := m.Put(id, s)), id, user, Preferred(cfg), env);
  }

  /** Without a switch the method is the preferred one; a Request fixed it; TEAP is never fed and never come back to. */
  ghost predicate Methodical(cfg: Config, t: Tale) {
    && t.issues >= t.switches && (t.pending.Some? ==> t.issues > t.switches)
    && (t.issues > 0 ==> t.eapMethod.Some?)
    && (t.eapMethod.Some? && t.switches == 0 ==> t.eapMethod == Preferred(cfg))
    && (t.eapMethod == Some(Teap) ==> t.fed.None? && t.switches == 0)
    && (t.switches > 0 ==> t.eapMethod == Some(Tls))
    && (t.eapMethod.None? ==> t.fed.None? && t.switches == 0) && (t.verified.Some? ==> t.fed.Some?)
    && (t.fed.Some? ==> t.issues > t.switches)
    && (t.issues <= t.switches ==> t.message == [] && t.sent == [])
    && (t.issues == 0 || (t.issues == 1 && t.pending.Some?) ==> t.heard.None? && !t.claimed)
    && (t.claimed ==> t.heard.None? && t.pending.None?)
    && (t.issues <= t.switches || t.eapMethod == Some(Teap) ==> t.taken == [] && t.record.None?)
  }

  lemma MethodicalNext(cfg: Config, t: Tale, e: Event)
    requires Methodical(cfg, t) && Permits(cfg, t, e)
    ensures Methodical(cfg, Next(t, e))
  {
  }

  lemma {:induction false} MethodOfStory(cfg: Config, story: seq<Event>)
    requires Lawful(cfg, story) && story != []
    ensures Methodical(cfg, Tell(story))
  {
    var n := |story| - 1;
    if n > 0 {
      hide Permits, Next, Methodical;
      MethodOfStory(cfg, story[..n]);
      MethodicalNext(cfg, Tell(story[..n]), story[n]);
    }
  }

  /** The method to switch to: from TEAP to EAP-TLS, or none. */
  lemma OnlyToTls(cfg: Config, desired: seq<byte>, declined: Option<EapType>)
    requires declined == Preferred(cfg) && declined.Some?
    ensures NextMethod(cfg, desired, declined).Some? ==>
              declined == Some(Teap) && NextMethod(cfg, desired, declined) == Some(Tls)
    decreases desired
  {
    if desired != [] {
      OnlyToTls(cfg, desired[1..], declined);
    }
  }

  lemma NakRecounts(cfg: Config, story: seq<Event>, h: Handler, user: string, id: Id, desired: seq<byte>, env: Env)
    requires Underway(cfg, story, h, id, user) && Tell(story).issues > 0 && MatchesMethod(cfg, Tell(story), h, id)
    requires Tell(story).claimed
    ensures Recounts(cfg, story, id, HandleNak(cfg, h, id, desired, env))
  {
    var next := NextMethod(cfg, desired, h.m.sessions[id].eapMethod);
    if h.m.sessions[id].attemptCount > 0 || MethodStarted(h, id) || next.None? {
      RecountsReject(cfg, story, id, h);
    } else {
      MethodOfStory(cfg, story);
      OnlyToTls(cfg, desired, h.m.sessions[id].eapMethod);
      var e := Switched(id, next.value);
      var h1 := SwitchTo(h, id, next, env.clock.touch);
      Snoc(cfg, story, e);
      assert Underway(cfg, story + [e], h1, id, user);
      StartMethodRecounts(cfg, story + [e], h1, id, user, next, env);
      RecountsAfter(cfg, story, e, id, StartMethod(cfg, h1, id, next, env));
    }
  }

  // ---------------------------------------------------------------------------------------
  // EAP-TLS
  // ---------------------------------------------------------------------------------------

  /** A Response of the EAP-TLS (or TEAP) conversation `id` is being processed. */
  ghost predicate Using(cfg: Config, story: seq<Event>, h: Handler, id: Id, user: string, eapMethod: EapType) {
    && Underway(cfg, story, h, id, user) && Tell(story).eapMethod == Some(eapMethod)
    && Tell(story).issues > Tell(story).switches
    && (eapMethod == Tls ==> id !in h.teap) && (eapMethod == Teap ==> id !in h.tls)
  }

  /** An event that sends nothing and keeps the method leaves the conversation in use. */
  lemma StillUsing(cfg: Config, story: seq<Event>, e: Event, h: Handler, id: Id, user: string, eapMethod: EapType)
    requires Using(cfg, story, h, id, user, eapMethod) && Permits(cfg, Tell(story), e)
    requires e.Taken? || e.Fed? || e.Verified? || e.Committed? || e.Ran?
    ensures Using(cfg, story + [e], h, id, user, eapMethod) && Tell(story + [e]) == Next(Tell(story), e)
  {
    Snoc(cfg, story, e);
  }

  lemma TypeDataSnoc(packets: seq<EapTlsPacket>, n: nat)
    requires n < |packets|
    ensures TypeData(packets[..n + 1]) == TypeData(packets[..n]) + [EncodeTls(packets[n])]
  {
  }

  /** With the queue in step, what is due is the fragment at the cursor, or an acknowledgement if there is none. */
  lemma DueInStep(cfg: Config, t: Tale, outgoing: seq<EapTlsPacket>, cursor: nat)
    requires t.issues > t.switches
    ensures InStep(t, outgoing, cursor, Fragments(cfg, t.message)) ==>
              if cursor < |outgoing| then !AllSent(cfg, Tls, t) && Due(cfg, Tls, t) == EncodeTls(outgoing[cursor])
              else AllSent(cfg, Tls, t) && Due(cfg, Tls, t) == [0]
    ensures InStep(t, outgoing, cursor, TeapFragments(cfg, t.message)) ==>
              if cursor < |outgoing| then !AllSent(cfg, Teap, t) && Due(cfg, Teap, t) == TeapTypeData(outgoing[cursor])
              else AllSent(cfg, Teap, t) && Due(cfg, Teap, t) == [1]
  {
    if t.message == [] {
      assert Fragments(cfg, t.message) == [] && TeapFragments(cfg, t.message) == [];
    }
  }

  /** Sending the fragment at the cursor keeps the queue in step. */
  lemma NextTlsMatches(cfg: Config, t: Tale, server: TlsServer, id: Id, identifier: byte)
    requires MatchesTls(cfg, t, server) && t.issues > t.switches && server.HasPending()
    ensures var data := EncodeTls(server.outgoing[server.cursor]);
            Fitting(cfg, t, Tls, data) && MatchesTls(cfg, Next(t, Issued(id, identifier, Tls, data)), server.Advance())
  {
    DueInStep(cfg, t, server.outgoing, server.cursor);
  }

  /** So does acknowledging a fragment of the peer. */
  lemma AckTlsMatches(cfg: Config, t: Tale, server: TlsServer, id: Id, identifier: byte)
    requires MatchesTls(cfg, t, server) && t.issues > t.switches && !server.HasPending() && !server.commitmentSent
    requires t.heard.Some? && t.heard.value.flags.more
    ensures var data := EncodeTls(ACK);
            Fitting(cfg, t, Tls, data) && MatchesTls(cfg, Next(t, Issued(id, identifier, Tls, data)), server)
  {
    DueInStep(cfg, t, server.outgoing, server.cursor);
  }

  lemma SendNextRecounts(cfg: Config, story: seq<Event>, h: Handler, id: Id, user: string, server: TlsServer,
                         env: Env, missing: byte)
    requires Using(cfg, story, h, id, user, Tls) && MatchesTls(cfg, Tell(story), server)
    ensures Recounts(cfg, story, id, SendNext(h, id, server, env, missing))
  {
    hide Lawful, NameOf, Recounts, Fitting, MatchesTls, Tell, Next, Ask;
    if !server.HasPending() {
      RecountsReject(cfg, story, id, h.(tls := h.tls[id := server]));
    } else {
      NextTlsMatches(cfg, Tell(story), server, id, h.m.sessions[id].currentIdentifier);
      AskRecounts(cfg, story, h.(tls := h.tls[id := server.Advance()]), id, user, Tls,
                  EncodeTls(server.outgoing[server.cursor]), env, missing);
    }
  }

  /** What was sent since the method last wanted something sent: its fragments in order, then acknowledgements. */
  predicate Carried(cfg: Config, t: Tale) {
    t.sent != [] ==>
      && t.eapMethod.Some?
      && var wire := Wire(cfg, t.eapMethod.value, t.message);
         forall i :: 0 <= i < |t.sent| ==> t.sent[i] == if i < |wire| then wire[i] else AckData(t.eapMethod.value)
  }

  lemma CarriedNext(cfg: Config, t: Tale, e: Event)
    requires Carried(cfg, t) && Permits(cfg, t, e)
    ensures Carried(cfg, Next(t, e))
  {
    hide NameOf, Gather, Completes, Wire, Fragments;
  }

  lemma {:induction false} SentOfStory(cfg: Config, story: seq<Event>)
    requires Lawful(cfg, story)
    ensures Carried(cfg, Tell(story))
  {
    var n := |story| - 1;
    if n > 0 {
      hide Permits, Next, Carried;
      SentOfStory(cfg, story[..n]);
      CarriedNext(cfg, Tell(story[..n]), story[n]);
    }
  }

  lemma AllCarried(cfg: Config, t: Tale, server: TlsServer)
    requires Carried(cfg, t) && t.eapMethod == Some(Tls) && MatchesTls(cfg, t, server)
    requires server.commitmentSent && !server.HasPending()
    ensures t.sent == TypeData(Fragments(cfg, t.record.value))
  {
    hide NameOf, EncodeTls, Gather;
  }

  /** Success after the commitment: everything was sent, and this Response came after it. */
  lemma FinishCommittedRecounts(cfg: Config, story: seq<Event>, h: Handler, id: Id, user: string, server: TlsServer,
                                identifier: byte, env: Env)
    requires Using(cfg, story, h, id, user, Tls)
    requires MatchesTls(cfg, Tell(story), server) && server.commitmentSent && !server.HasPending()
    ensures Recounts(cfg, story, id, FinishTls(h, id, user, server, identifier, env))
  {
    hide Lawful, Recounts, Carried, Gather, Permits, Tell;
    var t := Tell(story);
    if env.keys.None? {
      RecountsReject(cfg, story, id, h);
    } else {
      SentOfStory(cfg, story);
      AcceptDue(cfg, t, server, id, user);
      AcceptRecounts(cfg, story, h, id, user, server, identifier, env);
    }
  }

  lemma AcceptDue(cfg: Config, t: Tale, server: TlsServer, id: Id, user: string)
    requires Carried(cfg, t) && t.eapMethod == Some(Tls) && MatchesTls(cfg, t, server)
    requires server.commitmentSent && !server.HasPending() && NameOf(cfg, t.binding, user)
    requires t.issues > t.switches && !t.over && t.pending.None?
    ensures Permits(cfg, t, AcceptedTls(id, user, server.conn))
  {
    NameUnique(cfg, t.binding, user, t.verified.value.0);
    AllCarried(cfg, t, server);
  }

  lemma AcceptRecounts(cfg: Config, story: seq<Event>, h: Handler, id: Id, user: string, server: TlsServer,
                       identifier: byte, env: Env)
    requires story != [] && Lawful(cfg, story) && env.keys.Some? && !server.conn.handshaking
    requires Permits(cfg, Tell(story), AcceptedTls(id, user, server.conn))
    ensures Recounts(cfg, story, id, FinishTls(h, id, user, server, identifier, env))
  {
    hide Permits;
    Snoc(cfg, story, AcceptedTls(id, user, server.conn));
  }

  lemma CompleteTlsRecounts(cfg: Config, story: seq<Event>, h: Handler, user: string, id: Id, server: TlsServer,
                            identifier: byte, env: Env)
    requires Using(cfg, story, h, id, user, Tls) && Tell(story).fed == Some(server.conn)
    requires Tell(story).heard.Some? && Tell(story).taken == [] && server.assembler == CLEARED
    ensures Recounts(cfg, story, id, CompleteTls(cfg, h, user, id, server, identifier, env))
  {
    if server.conn.handshaking || !cfg.Verifies(server.conn, user) {
      RecountsReject(cfg, story, id, h);
    } else {
      var verified := Verified(id, user, server.conn);
      StillUsing(cfg, story, verified, h, id, user, Tls);
      VerifiedRecounts(cfg, story + [verified], h, user, id, server, identifier, env);
      RecountsAfter(cfg, story, verified, id, AfterVerification(cfg, h, user, id, server, identifier, env));
    }
  }

  lemma VerifiedRecounts(cfg: Config, story: seq<Event>, h: Handler, user: string, id: Id, server: TlsServer,
                         identifier: byte, env: Env)
    requires Using(cfg, story, h, id, user, Tls) && !server.conn.handshaking
    requires Tell(story).taken == [] && server.assembler == CLEARED
    requires Tell(story).fed == Some(server.conn) && Tell(story).verified == Some((user, server.conn))
    ensures Recounts(cfg, story, id, AfterVerification(cfg, h, user, id, server, identifier, env))
  {
    if server.conn.tls13 {
      if env.commitment.None? || env.commitment.value == [] {
        RecountsReject(cfg, story, id, h);
      } else {
        CommitRecounts(cfg, story, h, user, id, server, identifier, env);
      }
    } else if env.keys.None? {
      RecountsReject(cfg, story, id, h);
    } else {
      Snoc(cfg, story, AcceptedTls(id, user, server.conn));
    }
  }

  lemma CommitRecounts(cfg: Config, story: seq<Event>, h: Handler, user: string, id: Id, server: TlsServer,
                       identifier: byte, env: Env)
    requires Using(cfg, story, h, id, user, Tls) && !server.conn.handshaking
    requires env.commitment.Some? && env.commitment.value != []
    requires Tell(story).taken == [] && server.assembler == CLEARED
    requires Tell(story).fed == Some(server.conn) && Tell(story).verified == Some((user, server.conn))
    ensures Recounts(cfg, story, id, Commit(cfg, h, id, server, identifier, env))
  {
    var record := env.commitment.value;
    var e := Committed(id, record);
    var server1 := server.(commitmentSent := true).Queue(record, cfg.maxFragment);
    StillUsing(cfg, story, e, h, id, user, Tls);
    SendNextRecounts(cfg, story + [e], h, id, user, server1, env, (identifier + 1) % 256);
    RecountsAfter(cfg, story, e, id, SendNext(h, id, server1, env, (identifier + 1) % 256));
  }

  lemma {:induction false} AdvanceTlsRecounts(cfg: Config, story: seq<Event>, h: Handler, user: string, id: Id,
                                              p: EapTlsPacket, identifier: byte, env: Env)
    requires Using(cfg, story, h, id, user, Tls) && Tell(story).claimed
    requires id in h.tls && MatchesTls(cfg, Tell(story), h.tls[id])
    requires !h.tls[id].HasPending() && !h.tls[id].commitmentSent
    ensures Recounts(cfg, story, id, AdvanceTls(cfg, h, user, id, h.tls[id], p, identifier, env))
  {
    hide Recounts, AnswerTls, Lawful, Process, MatchesTls, Completes, Gather, NameOf, AllSent;
    var processed := Process(h.tls[id], p, env);
    var h1 := h.(tls := h.tls[id := processed.server]);
    var out := AnswerTls(cfg, h1, user, id, processed, p, identifier, env);
    var taken, told := Taken(id, p), Told(id, p, processed);
    ProcessMatches(cfg, Tell(story), h.tls[id], id, p, env);
    StillUsing(cfg, story, taken, h1, id, user, Tls);
    if processed.fed.Some? {
      var fed := told[1];
      FedRecounts(cfg, story + [taken], h1, user, id, processed, p, fed, identifier, env);
      RecountsAfter(cfg, story, taken, id, out.(log := [fed] + out.log));
      assert told + out.log == [taken] + ([fed] + out.log);
    } else {
      UnfedRecounts(cfg, story + [taken], h1, user, id, processed, p, identifier, env);
      RecountsAfter(cfg, story, taken, id, out);
      assert told == [taken];
    }
  }

  /** What taking a packet does to the assembler and, once a message is complete, to the connection. */
  lemma {:induction false} ProcessMatches(cfg: Config, t: Tale, server: TlsServer, id: Id, p: EapTlsPacket, env: Env)
    requires MatchesTls(cfg, t, server) && !server.HasPending() && !server.commitmentSent && t.issues > t.switches
    ensures AllSent(cfg, Tls, t) && t.record.None?
    ensures var processed, t1 := Process(server, p, env), Next(t, Taken(id, p));
            && !processed.server.HasPending() && !processed.server.commitmentSent
            && (processed.fed.Some? ==>
                  && processed.result.Success? && Completes(t1.taken, processed.fed.value)
                  && processed.server.assembler == CLEARED && !p.flags.more
                  && (processed.result.value.Some? ==> processed.result.value.value != []))
            && (processed.fed.None? && processed.result.Success? ==>
                  MatchesTls(cfg, t1, processed.server) && processed.result == Success(None) && p.flags.more)
  {
    hide Fragments, NameOf;
    DueInStep(cfg, t, server.outgoing, server.cursor);
    assert (t.taken + [p])[..|t.taken|] == t.taken;
  }

  /** The packet completed no message. */
  lemma {:induction false} UnfedRecounts(cfg: Config, story: seq<Event>, h: Handler, user: string, id: Id,
                                         processed: Processed, p: EapTlsPacket, identifier: byte, env: Env)
    requires Using(cfg, story, h, id, user, Tls) && Tell(story).heard == Some(p)
    requires id in h.tls && h.tls[id] == processed.server
    requires processed.result.Success? ==>
               && MatchesTls(cfg, Tell(story), processed.server) && processed.result == Success(None) && p.flags.more
               && !processed.server.HasPending() && !processed.server.commitmentSent
    ensures Recounts(cfg, story, id, AnswerTls(cfg, h, user, id, processed, p, identifier, env))
  {
    if processed.result.Failure? {
      RecountsReject(cfg, story, id, h);
    } else {
      hide Lawful, NameOf, Recounts, Fitting, MatchesTls, Tell, Next, Ask;
      AckTlsMatches(cfg, Tell(story), processed.server, id, h.m.sessions[id].currentIdentifier);
      AskRecounts(cfg, story, h, id, user, Tls, EncodeTls(ACK), env, (identifier + 1) % 256);
    }
  }

  /** The packet completed a message, which TLS was fed. */
  lemma {:induction false} FedRecounts(cfg: Config, story: seq<Event>, h: Handler, user: string, id: Id,
                                       processed: Processed, p: EapTlsPacket, fed: Event, identifier: byte, env: Env)
    requires Using(cfg, story, h, id, user, Tls) && Tell(story).heard == Some(p)
    requires id in h.tls && h.tls[id] == processed.server
    requires processed.fed.Some? && processed.result.Success? && Completes(Tell(story).taken, processed.fed.value)
    requires processed.server.assembler == CLEARED && !processed.server.commitmentSent && !p.flags.more
    requires fed == Fed(id, processed.fed.value, processed.server.conn,
                        if processed.result.value.Some? then processed.result.value.value else [])
    requires processed.result.value.Some? ==> processed.result.value.value != []
    ensures var out := AnswerTls(cfg, h, user, id, processed, p, identifier, env);
            Recounts(cfg, story, id, out.(log := [fed] + out.log))
  {
    hide Recounts, Lawful, CompleteTls, SendNext;
    StillUsing(cfg, story, fed, h, id, user, Tls);
    if processed.result.value.Some? {
      SendNextRecounts(cfg, story + [fed], h, id, user, processed.server.Queue(fed.output, cfg.maxFragment), env,
                       (identifier + 1) % 256);
    } else {
      CompleteTlsRecounts(cfg, story + [fed], h, user, id, processed.server, identifier, env);
    }
    RecountsAfter(cfg, story, fed, id, AnswerTls(cfg, h, user, id, processed, p, identifier, env));
  }

  lemma ContinueTlsRecounts(cfg: Config, story: seq<Event>, h: Handler, user: string, id: Id, response: EapPacket,
                            env: Env)
    requires Underway(cfg, story, h, id, user) && MatchesMethod(cfg, Tell(story), h, id) && Tell(story).claimed
    requires id in h.tls ==> Using(cfg, story, h, id, user, Tls)
    ensures Recounts(cfg, story, id, ContinueTls(cfg, h, user, id, response, env))
  {
    if id !in h.tls {
      RecountsReject(cfg, story, id, h);
    } else if h.tls[id].HasPending() {
      SendNextRecounts(cfg, story, h, id, user, h.tls[id], env, (response.identifier + 1) % 256);
    } else if h.tls[id].commitmentSent {
      FinishCommittedRecounts(cfg, story, h, id, user, h.tls[id], response.identifier, env);
    } else {
      match DecodeTls(response.data)
      case Failure(_) => RecountsReject(cfg, story, id, h);
      case Success(p) => AdvanceTlsRecounts(cfg, story, h, user, id, p, response.identifier, env);
    }
  }

  // ---------------------------------------------------------------------------------------
  // EAP-TEAP and dispatch
  // ---------------------------------------------------------------------------------------

  lemma NextTeapMatches(cfg: Config, t: Tale, server: TeapServer, id: Id, identifier: byte)
    requires MatchesTeap(cfg, t, server) && t.issues > t.switches && server.HasPending() && server.negotiated
    ensures var data := TeapTypeData(server.outgoing[server.cursor]);
            && Fitting(cfg, t, Teap, data)
            && MatchesTeap(cfg, Next(t, Issued(id, identifier, Teap, data)), server.(cursor := server.cursor + 1))
  {
    DueInStep(cfg, t, server.outgoing, server.cursor);
  }

  lemma AckTeapMatches(cfg: Config, t: Tale, server: TeapServer, id: Id, identifier: byte)
    requires MatchesTeap(cfg, t, server) && t.issues > t.switches && !server.HasPending() && server.negotiated
    requires t.heard.Some? && t.heard.value.flags.more
    ensures var data := TeapTypeData(ACK);
            Fitting(cfg, t, Teap, data) && MatchesTeap(cfg, Next(t, Issued(id, identifier, Teap, data)), server)
  {
    DueInStep(cfg, t, server.outgoing, server.cursor);
  }

  lemma SendNextTeapRecounts(cfg: Config, story: seq<Event>, h: Handler, id: Id, user: string, server: TeapServer,
                             env: Env, missing: byte)
    requires Using(cfg, story, h, id, user, Teap) && MatchesTeap(cfg, Tell(story), server) && server.negotiated
    ensures Recounts(cfg, story, id, SendNextTeap(h, id, server, env, missing))
  {
    hide Lawful, NameOf, Recounts, Fitting, MatchesTeap, Tell, Next, Ask;
    if !server.HasPending() {
      RecountsReject(cfg, story, id, h.(teap := h.teap[id := server]));
    } else {
      NextTeapMatches(cfg, Tell(story), server, id, h.m.sessions[id].currentIdentifier);
      AskRecounts(cfg, story, h.(teap := h.teap[id := server.(cursor := server.cursor + 1)]), id, user, Teap,
                  TeapTypeData(server.outgoing[server.cursor]), env, missing);
    }
  }

  /** The TEAP state machine had nothing to send. */
  lemma QuietTeapRecounts(cfg: Config, story: seq<Event>, h: Handler, user: string, id: Id, server: TeapServer,
                          p: EapTlsPacket, identifier: byte, env: Env)
    requires Using(cfg, story, h, id, user, Teap) && id in h.teap && h.teap[id] == server && server.negotiated
    requires MatchesTeap(cfg, Tell(story), server) && !server.HasPending() && Tell(story).heard == Some(p)
    requires Tell(story).ran == Some(TeapAnswer(server.complete, server.msk, None))
    ensures Recounts(cfg, story, id, QuietTeap(h, user, id, server, p, identifier, env))
  {
    hide Lawful, NameOf, Recounts, Fitting, MatchesTeap, Tell, Next, Ask, FinishTeap;
    if p.flags.more {
      AckTeapMatches(cfg, Tell(story), server, id, h.m.sessions[id].currentIdentifier);
      AskRecounts(cfg, story, h, id, user, Teap, TeapTypeData(ACK), env, (identifier + 1) % 256);
    } else if !server.complete || server.msk.None? {
      RecountsReject(cfg, story, id, h);
    } else {
      FinishTeapRecounts(cfg, story, h, user, id, server, p, identifier, env);
    }
  }

  lemma FinishTeapRecounts(cfg: Config, story: seq<Event>, h: Handler, user: string, id: Id, server: TeapServer,
                           p: EapTlsPacket, identifier: byte, env: Env)
    requires Using(cfg, story, h, id, user, Teap) && Tell(story).heard == Some(p) && !p.flags.more
    requires server.complete && server.msk.Some?
    requires Tell(story).ran == Some(TeapAnswer(server.complete, server.msk, None))
    ensures Recounts(cfg, story, id, FinishTeap(h, id, user, server, identifier, env))
  {
    Snoc(cfg, story, AcceptedTeap(id, user));
  }

  lemma ContinueTeapRecounts(cfg: Config, story: seq<Event>, h: Handler, user: string, id: Id, response: EapPacket,
                             env: Env)
    requires Underway(cfg, story, h, id, user) && MatchesMethod(cfg, Tell(story), h, id) && Tell(story).claimed
    requires id in h.teap ==> Using(cfg, story, h, id, user, Teap)
    ensures Recounts(cfg, story, id, ContinueTeap(cfg, h, user, id, response, env))
  {
    var missing, read := (response.identifier + 1) % 256, cfg.readTeap(response.data);
    if id !in h.teap || read.None? {
      RecountsReject(cfg, story, id, h);
    } else if h.teap[id].HasPending() {
      if read.value.data != [] || read.value.flags.more {
        RecountsReject(cfg, story, id, h);
      } else {
        SendNextTeapRecounts(cfg, story, h, id, user, h.teap[id], env, missing);
      }
    } else if env.teapAnswer.None? {
      RecountsReject(cfg, story, id, h);
    } else {
      RanRecounts(cfg, story, h, user, id, read.value, env.teapAnswer.value, response.identifier, env);
    }
  }

  lemma {:induction false} RanMatches(cfg: Config, t: Tale, before: TeapServer, id: Id, p: EapTlsPacket,
                                      answer: TeapAnswer)
    requires MatchesTeap(cfg, t, before) && !before.HasPending() && t.issues > t.switches
    ensures AllSent(cfg, Teap, t)
    ensures var server := before.(negotiated := true, complete := answer.complete, msk := answer.msk);
            var next := Next(t, Ran(id, p, answer));
            if answer.output.Some? then MatchesTeap(cfg, next, server.Queue(answer.output.value, cfg.maxFragment))
            else MatchesTeap(cfg, next, server) && !server.HasPending()
  {
    DueInStep(cfg, t, before.outgoing, before.cursor);
  }

  /** The TEAP state machine has answered. */
  lemma {:induction false} RanRecounts(cfg: Config, story: seq<Event>, h: Handler, user: string, id: Id,
                                       p: EapTlsPacket, answer: TeapAnswer, identifier: byte, env: Env)
    requires Using(cfg, story, h, id, user, Teap) && Tell(story).claimed
    requires id in h.teap && MatchesTeap(cfg, Tell(story), h.teap[id]) && !h.teap[id].HasPending()
    ensures var server := h.teap[id].(negotiated := true, complete := answer.complete, msk := answer.msk);
            var out := AnswerTeap(cfg, h.(teap := h.teap[id := server]), user, id, server, answer.output, p,
                                  identifier, env);
            Recounts(cfg, story, id, out.(log := [Ran(id, p, answer)] + out.log))
  {
    hide Recounts, Lawful, SendNextTeap, QuietTeap, MatchesTeap, NameOf, Tell, AllSent;
    var server := h.teap[id].(negotiated := true, complete := answer.complete, msk := answer.msk);
    var h1, ran := h.(teap := h.teap[id := server]), Ran(id, p, answer);
    RanMatches(cfg, Tell(story), h.teap[id], id, p, answer);
    StillUsing(cfg, story, ran, h1, id, user, Teap);
    if answer.output.Some? {
      SendNextTeapRecounts(cfg, story + [ran], h1, id, user, server.Queue(answer.output.value, cfg.maxFragment), env,
                           (identifier + 1) % 256);
    } else {
      QuietTeapRecounts(cfg, story + [ran], h1, user, id, server, p, identifier, env);
    }
    RecountsAfter(cfg, story, ran, id, AnswerTeap(cfg, h1, user, id, server, answer.output, p, identifier, env));
  }

  lemma {:induction false} DispatchRecounts(cfg: Config, story: seq<Event>, h: Handler, user: string, id: Id,
                                            p: EapPacket, env: Env)
    requires Underway(cfg, story, h, id, user) && MatchesMethod(cfg, Tell(story), h, id)
    requires Tell(story).issues > Tell(story).switches && Tell(story).claimed
    requires id in h.tls ==> id !in h.teap && h.m.sessions[id].eapMethod == Some(Tls)
    requires id in h.teap ==> id !in h.tls && h.m.sessions[id].eapMethod == Some(Teap)
    ensures Recounts(cfg, story, id, Dispatch(cfg, h, user, id, p, env))
  {
    hide ContinueTls, ContinueTeap, HandleNak, Recounts, MatchesMethod, Lawful;
    MethodOfStory(cfg, story);
    match p.eapType
    case Some(Tls) => ContinueTlsRecounts(cfg, story, h, user, id, p, env);
    case Some(Teap) => ContinueTeapRecounts(cfg, story, h, user, id, p, env);
    case Some(Nak) => NakRecounts(cfg, story, h, user, id, p.data, env);
    case _ => RecountsReject(cfg, story, id, h);
  }
}
