/** Progress of TEAP: a peer that answers promptly is accepted as soon as the TEAP state machine completes with a key
    and has nothing left to send. Before that the state machine may react to any number of packets, and what it wants
    sent arrives fragment by fragment. */
module EapTeapProgress {
  import opened Octets
  import opened EapCodec
  import opened EapFragments
  import opened EapSessions
  import opened Binding
  import opened EapHandler
  import opened EapReports
  import opened EapStructure
  import opened EapCalls
  import opened EapTales
  import opened EapRuns
  import opened EapSafety
  import opened EapProgress

  /** The conversation of the peer is live, waits for its answer and is over TEAP. */
  ghost predicate WaitsAt(cfg: Config, peer: Peer, w: World, server: TeapServer) {
    Live(cfg, peer, w) && peer.Id() in w.h.teap && w.h.teap[peer.Id()] == server
  }

  /** The Type-Data acknowledges a fragment. */
  predicate IsAck(cfg: Config, data: seq<byte>) {
    var read := cfg.readTeap(data);
    read.Some? && read.value.data == [] && !read.value.flags.more
  }

  /** The TEAP server once its state machine has reacted. */
  function Reacted(server: TeapServer, reaction: TeapAnswer): TeapServer {
    server.(negotiated := true, complete := reaction.complete, msk := reaction.msk)
  }

  /** The peer's Response leads TEAP to send a Request and leave `server` behind. */
  lemma {:induction false} AskWaitsAt(cfg: Config, peer: Peer, w: World, call: Call, say: Say, server: TeapServer,
                                      data: seq<byte>, missing: byte, log: seq<Event>)
    requires Live(cfg, peer, w) && Utters(cfg, peer, w, call, say)
    requires var h := Claiming(peer, w, call.env);
             Dispatch(cfg, h, peer.user, peer.Id(), Read(call.request).response, call.env) ==
             Ask(h.(teap := h.teap[peer.Id() := server]), peer.Id(), Teap, data, call.env, missing).(log := log)
    ensures WaitsAt(cfg, peer, After(cfg, w, call), server) && Asks(cfg, peer, w, call, Teap, data)
  {
    Uttered(cfg, peer, w, call, say);
    hide Live, Utters, Dispatch, Ask, Claiming, After, Answer, Asks;
    var h := Claiming(peer, w, call.env);
    AskLives(cfg, peer, w, call, say, h.tls, h.teap[peer.Id() := server], Teap, data, missing, log);
  }

  /** While fragments are left, an acknowledgement brings the next one. */
  lemma {:induction false} NextTeapFragment(cfg: Config, peer: Peer, w: World, call: Call, server: TeapServer,
                                            ack: seq<byte>)
    requires WaitsAt(cfg, peer, w, server) && server.HasPending() && IsAck(cfg, ack)
    requires Utters(cfg, peer, w, call, AcknowledgesTeap(ack))
    ensures WaitsAt(cfg, peer, After(cfg, w, call), server.(cursor := server.cursor + 1))
    ensures Asks(cfg, peer, w, call, Teap, TeapTypeData(server.outgoing[server.cursor]))
  {
    hide Safe, Utters, Read, ReapIdle, Ask, After, Answer, Asks, ContinueTls, HandleNak, AnswerTeap;
    Uttered(cfg, peer, w, call, AcknowledgesTeap(ack));
    Survives(cfg, peer, w, call.env);
    var missing, next := (Read(call.request).response.identifier + 1) % 256, server.(cursor := server.cursor + 1);
    var data := TeapTypeData(server.outgoing[server.cursor]);
    var h := Claiming(peer, w, call.env);
    var asked := Ask(h.(teap := h.teap[peer.Id() := next]), peer.Id(), Teap, data, call.env, missing);
    AskWaitsAt(cfg, peer, w, call, AcknowledgesTeap(ack), next, data, missing, asked.log);
  }

  /** What TEAP makes of a packet that reaches its state machine. */
  lemma {:induction false} Reacts(cfg: Config, peer: Peer, w: World, call: Call, server: TeapServer, say: Say)
    requires WaitsAt(cfg, peer, w, server) && !server.HasPending() && Utters(cfg, peer, w, call, say)
    requires say.Talks? && cfg.readTeap(say.data).Some?
    ensures var h, id, p := Claiming(peer, w, call.env), peer.Id(), Read(call.request).response;
            var next := Reacted(server, say.reaction);
            var out := AnswerTeap(cfg, h.(teap := h.teap[id := next]), peer.user, id, next, say.reaction.output,
                                  cfg.readTeap(say.data).value, p.identifier, call.env);
            Dispatch(cfg, h, peer.user, id, p, call.env) ==
            out.(log := [Ran(id, cfg.readTeap(say.data).value, say.reaction)] + out.log)
  {
    hide Safe, Utters, Read, ReapIdle, AnswerTeap, ContinueTls, HandleNak;
    Uttered(cfg, peer, w, call, say);
    Survives(cfg, peer, w, call.env);
  }

  /** The first fragment of what the state machine wants sent follows at once. */
  lemma {:induction false} TeapFlightSent(cfg: Config, peer: Peer, w: World, call: Call, server: TeapServer, say: Say)
    requires WaitsAt(cfg, peer, w, server) && !server.HasPending() && Utters(cfg, peer, w, call, say)
    requires say.Talks? && cfg.readTeap(say.data).Some?
    requires say.reaction.output.Some? && say.reaction.output.value != []
    ensures var queued := Reacted(server, say.reaction).Queue(say.reaction.output.value, cfg.maxFragment);
            && queued.HasPending() && WaitsAt(cfg, peer, After(cfg, w, call), queued.(cursor := 1))
            && Asks(cfg, peer, w, call, Teap, TeapTypeData(queued.outgoing[0]))
  {
    hide Safe, Utters, Read, ReapIdle, Ask, After, Answer, Asks, Dispatch;
    Uttered(cfg, peer, w, call, say);
    Reacts(cfg, peer, w, call, server, say);
    var queued := Reacted(server, say.reaction).Queue(say.reaction.output.value, cfg.maxFragment);
    assert queued.HasPending();
    var missing := (Read(call.request).response.identifier + 1) % 256;
    var data, next := TeapTypeData(queued.outgoing[0]), queued.(cursor := 1);
    var h, id := Claiming(peer, w, call.env), peer.Id();
    var asked := Ask(h.(teap := h.teap[id := next]), id, Teap, data, call.env, missing);
    assert h.teap[id := Reacted(server, say.reaction)][id := next] == h.teap[id := next];
    AskWaitsAt(cfg, peer, w, call, say, next, data, missing,
               [Ran(id, cfg.readTeap(say.data).value, say.reaction)] + asked.log);
  }

  /** A fragment the state machine has nothing to say to is acknowledged. */
  lemma {:induction false} TeapFragmentTaken(cfg: Config, peer: Peer, w: World, call: Call, server: TeapServer,
                                             say: Say)
    requires WaitsAt(cfg, peer, w, server) && !server.HasPending() && Utters(cfg, peer, w, call, say)
    requires say.Talks? && cfg.readTeap(say.data).Some? && cfg.readTeap(say.data).value.flags.more
    requires say.reaction.output.None?
    ensures WaitsAt(cfg, peer, After(cfg, w, call), Reacted(server, say.reaction))
    ensures Asks(cfg, peer, w, call, Teap, [1])
  {
    hide Safe, Utters, Read, ReapIdle, Ask, After, Answer, Asks, Dispatch, FinishTeap;
    Uttered(cfg, peer, w, call, say);
    Reacts(cfg, peer, w, call, server, say);
    var missing, next := (Read(call.request).response.identifier + 1) % 256, Reacted(server, say.reaction);
    var h, id := Claiming(peer, w, call.env), peer.Id();
    var asked := Ask(h.(teap := h.teap[id := next]), id, Teap, TeapTypeData(ACK), call.env, missing);
    assert TeapTypeData(ACK) == [1];
    AskWaitsAt(cfg, peer, w, call, say, next, [1], missing,
               [Ran(id, cfg.readTeap(say.data).value, say.reaction)] + asked.log);
  }

  /** The state machine has completed: a whole packet, a key, nothing to send. */
  predicate Concluding(cfg: Config, say: Say) {
    && say.Talks? && cfg.readTeap(say.data).Some? && !cfg.readTeap(say.data).value.flags.more
    && say.reaction.complete && say.reaction.msk.Some? && say.reaction.output.None?
  }

  /** Then the Accept follows, with that key. */
  lemma {:induction false} TeapAccepted(cfg: Config, peer: Peer, w: World, call: Call, server: TeapServer, say: Say)
    requires WaitsAt(cfg, peer, w, server) && !server.HasPending() && Utters(cfg, peer, w, call, say)
    requires Concluding(cfg, say)
    ensures Answer(cfg, w, call).result ==
            Accepting(Read(call.request).response.identifier, say.reaction.msk.value)
  {
    hide Safe, Utters, Read, ReapIdle, Answer, Dispatch;
    Uttered(cfg, peer, w, call, say);
    Reacts(cfg, peer, w, call, server, say);
    Answered(cfg, peer, w, call, say);
  }

  // ----- whole exchanges -----

  /** One packet of the peer, the reaction of the state machine, and acknowledgements of what that sends. */
  datatype TeapRound = TeapRound(data: seq<byte>, reaction: TeapAnswer, acks: seq<seq<byte>>)

  function TeapPieces(cfg: Config, r: TeapRound): seq<EapTlsPacket> {
    if r.reaction.output.Some? then TeapFragments(cfg, r.reaction.output.value) else []
  }

  /** The exchange goes on: the state machine wants something sent, of which every fragment but the last is
      acknowledged, or the packet was a fragment. */
  predicate GoesOn(cfg: Config, r: TeapRound) {
    && cfg.readTeap(r.data).Some? && (forall i :: 0 <= i < |r.acks| ==> IsAck(cfg, r.acks[i]))
    && if r.reaction.output.Some?
       then r.reaction.output.value != [] && |r.acks| == |TeapPieces(cfg, r)| - 1
       else cfg.readTeap(r.data).value.flags.more && r.acks == []
  }

  function TeapAcks(acks: seq<seq<byte>>): seq<Say> {
    seq(|acks|, i requires 0 <= i < |acks| => AcknowledgesTeap(acks[i]))
  }

  function TeapSays(r: TeapRound): seq<Say> { [Talks(r.data, r.reaction)] + TeapAcks(r.acks) }

  function TeapScript(rounds: seq<TeapRound>): seq<Say> {
    if rounds == [] then [] else TeapSays(rounds[0]) + TeapScript(rounds[1..])
  }

  /** The Type-Data of the Requests a round is answered with: all fragments in order, or an acknowledgement. */
  function TeapWire(cfg: Config, r: TeapRound): seq<seq<byte>> {
    if r.reaction.output.Some? then TeapData(TeapPieces(cfg, r)) else [[1]]
  }

  lemma {:induction false} TeapQueueMoves(cfg: Config, peer: Peer, w: World, server: TeapServer, acks: seq<seq<byte>>,
                                          calls: seq<Call>)
    requires WaitsAt(cfg, peer, w, server) && |acks| <= |server.outgoing| - server.cursor
    requires Cooperates(cfg, peer, w, calls, TeapAcks(acks)) && forall i :: 0 <= i < |acks| ==> IsAck(cfg, acks[i])
    ensures |calls| == |acks| && WaitsAt(cfg, peer, Play(cfg, w, calls), server.(cursor := server.cursor + |acks|))
    ensures Brings(cfg, peer, w, calls, Teap, TeapData(server.outgoing[server.cursor..server.cursor + |acks|]))
    decreases |acks|
  {
    hide WaitsAt, Utters, Play, After, Answer, Asks, TeapTypeData, IsAck;
    if acks == [] {
      PlayNone(cfg, w);
    } else {
      var n := |acks| - 1;
      assert TeapAcks(acks) == TeapAcks(acks[..n]) + TeapAcks(acks[n..]);
      CooperatesSplit(cfg, peer, w, calls, TeapAcks(acks[..n]), TeapAcks(acks[n..]));
      TeapQueueMoves(cfg, peer, w, server, acks[..n], calls[..n]);
      assert TeapAcks(acks)[n] == AcknowledgesTeap(acks[n]) && calls[..n + 1] == calls;
      NextTeapFragment(cfg, peer, Play(cfg, w, calls[..n]), calls[n], server.(cursor := server.cursor + n), acks[n]);
      PlayNext(cfg, w, calls, n);
      assert forall i :: 0 <= i < n ==> calls[..n][..i] == calls[..i];
    }
  }

  /** A round is answered by its Requests, in order, and leaves TEAP waiting with nothing left to send. */
  lemma {:induction false} TeapRoundPlayed(cfg: Config, peer: Peer, w: World, server: TeapServer, r: TeapRound,
                                           calls: seq<Call>)
      returns (next: TeapServer)
    requires WaitsAt(cfg, peer, w, server) && !server.HasPending() && GoesOn(cfg, r)
    requires Cooperates(cfg, peer, w, calls, TeapSays(r))
    ensures WaitsAt(cfg, peer, Play(cfg, w, calls), next) && !next.HasPending()
    ensures Brings(cfg, peer, w, calls, Teap, TeapWire(cfg, r))
  {
    hide WaitsAt, Utters, Play, After, Answer, Asks, TeapTypeData, IsAck, Cooperates;
    var say := Talks(r.data, r.reaction);
    CooperatesSplit(cfg, peer, w, calls, [say], TeapAcks(r.acks));
    FirstUttered(cfg, peer, w, calls, TeapSays(r));
    CooperatesLength(cfg, peer, w, calls, TeapSays(r));
    assert calls[..1] == [calls[0]] && [calls[0]] + calls[1..] == calls;
    PlayFirst(cfg, w, calls);
    if r.reaction.output.Some? {
      var packets := TeapPieces(cfg, r);
      TeapFlightSent(cfg, peer, w, calls[0], server, say);
      var queued := Reacted(server, r.reaction).Queue(r.reaction.output.value, cfg.maxFragment).(cursor := 1);
      TeapQueueMoves(cfg, peer, After(cfg, w, calls[0]), queued, r.acks, calls[1..]);
      next := queued.(cursor := |queued.outgoing|);
      assert packets[1..1 + |r.acks|] == packets[1..];
      FirstBrought(cfg, peer, w, calls[0], calls[1..], TeapTypeData(packets[0]), TeapData(packets[1..]));
      assert [TeapTypeData(packets[0])] + TeapData(packets[1..]) == TeapData(packets);
    } else {
      TeapFragmentTaken(cfg, peer, w, calls[0], server, say);
      next := Reacted(server, r.reaction);
      assert calls[1..] == [];
      PlayNone(cfg, After(cfg, w, calls[0]));
      FirstBrought(cfg, peer, w, calls[0], [], [1], []);
    }
  }

  lemma {:induction false} FirstBrought(cfg: Config, peer: Peer, w: World, first: Call, others: seq<Call>,
                                        data: seq<byte>, wire: seq<seq<byte>>)
    requires Asks(cfg, peer, w, first, Teap, data) && Brings(cfg, peer, After(cfg, w, first), others, Teap, wire)
    ensures Brings(cfg, peer, w, [first] + others, Teap, [data] + wire)
  {
    hide Asks, After;
    assert [first][..0] == [] && Play(cfg, w, [first]) == After(cfg, Play(cfg, w, []), first);
    assert Brings(cfg, peer, w, [first], Teap, [data]);
    BringsConcat(cfg, peer, w, [first], others, Teap, [data], wire);
  }

  /** Every round is answered by its Requests. */
  ghost predicate AllBrought(cfg: Config, peer: Peer, w: World, calls: seq<Call>, rounds: seq<TeapRound>)
    decreases |rounds|
  {
    rounds != [] ==>
      var n := |TeapSays(rounds[0])|;
      && n <= |calls| && Brings(cfg, peer, w, calls[..n], Teap, TeapWire(cfg, rounds[0]))
      && AllBrought(cfg, peer, Play(cfg, w, calls[..n]), calls[n..], rounds[1..])
  }

  /** From where TEAP waits, any number of rounds and then a completed state machine end in the Accept. */
  lemma {:induction false} ExchangeAccepted(cfg: Config, peer: Peer, w: World, server: TeapServer,
                                            rounds: seq<TeapRound>, last: Say, calls: seq<Call>)
    requires WaitsAt(cfg, peer, w, server) && !server.HasPending()
    requires (forall i :: 0 <= i < |rounds| ==> GoesOn(cfg, rounds[i]))
    requires Concluding(cfg, last) && last.reaction.msk == Some(peer.keys)
    requires Cooperates(cfg, peer, w, calls, TeapScript(rounds) + [last])
    ensures EndsAccepted(cfg, peer, w, calls) && AllBrought(cfg, peer, w, calls, rounds)
    decreases |rounds|
  {
    hide WaitsAt, Utters, Play, After, Answer, TeapSays, Cooperates, Outcome, GoesOn, Brings, Asks;
    CooperatesLength(cfg, peer, w, calls, TeapScript(rounds) + [last]);
    if rounds == [] {
      assert TeapScript(rounds) + [last] == [last];
      FirstUttered(cfg, peer, w, calls, [last]);
      Uttered(cfg, peer, w, calls[0], last);
      TeapAccepted(cfg, peer, w, calls[0], server, last);
      OnlyOne(cfg, peer, w, calls);
    } else {
      var says, rest := TeapSays(rounds[0]), TeapScript(rounds[1..]) + [last];
      assert TeapScript(rounds) + [last] == says + rest;
      CooperatesSplit(cfg, peer, w, calls, says, rest);
      var n := |says|;
      var next := TeapRoundPlayed(cfg, peer, w, server, rounds[0], calls[..n]);
      ExchangeAccepted(cfg, peer, Play(cfg, w, calls[..n]), next, rounds[1..], last, calls[n..]);
      EndsLater(cfg, peer, w, calls, n);
    }
  }

  lemma OnlyOne(cfg: Config, peer: Peer, w: World, calls: seq<Call>)
    requires |calls| == 1 && calls[0].Packet?
    ensures Outcome(cfg, w, calls) == Answer(cfg, w, calls[0]).result
  {
    hide Answer;
    assert calls[..0] == [];
  }

  /** In every configuration that offers TEAP, from every safe state and with any other conversations live, a peer that
      opens a conversation and always answers within the idle timeout is accepted, with the key of the TEAP state
      machine, when that completes; and until then gets what the state machine wants sent, in order. */
  lemma {:induction false} TeapCooperationAccepted(cfg: Config, peer: Peer, w: World, opening: Call,
                                                   rounds: seq<TeapRound>, last: Say, calls: seq<Call>)
    requires Safe(cfg, w) && cfg.TeapEnabled() && Opens(cfg, peer, w, opening)
    requires (forall i :: 0 <= i < |rounds| ==> GoesOn(cfg, rounds[i]))
    requires Concluding(cfg, last) && last.reaction.msk == Some(peer.keys)
    requires Cooperates(cfg, peer, After(cfg, w, opening), calls, TeapScript(rounds) + [last])
    ensures EndsAccepted(cfg, peer, After(cfg, w, opening), calls)
    ensures AllBrought(cfg, peer, After(cfg, w, opening), calls, rounds)
  {
    hide Utters, Play, Answer, After, Outcome, Safe, Cooperates, GoesOn;
    var w1 := After(cfg, w, opening);
    Opened(cfg, peer, w, opening);
    ExchangeAccepted(cfg, peer, w1, w1.h.teap[peer.Id()], rounds, last, calls);
  }
}
