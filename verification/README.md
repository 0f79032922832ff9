# usg-radius: a verified model

A Dafny model of the parts of usg-radius, a RADIUS server written in Rust, whose correctness depends on
state, on order and on octet layout, with proofs over every input, every run and every interleaving.
`dafny verify dfyconfig.toml` checks all of it.

The subject is what a NAS and a supplicant rely on:

- **EAP conversations.** An Access-Request names a conversation by its State attribute and is bound to it by
  the addresses and names it carries. Each packet is decoded, the conversation's one outstanding Request is
  claimed, the negotiated method (EAP-TLS or TEAP) takes a step, and the answer is an Access-Challenge, an
  Access-Accept or an Access-Reject. `EapHandler` writes these steps as functions on values that also tell
  what happened (a log of events), and `EapReports` proves that the log tells exactly what was returned.
  `EapStructure` and `EapCalls` prove what one call keeps, `EapTales` and `EapRuns` that the log of every run is
  lawful, and `EapSafety` draws the conclusions: who is accepted, which Responses are claimed, what the Requests
  carry, what TLS is fed. `EapRequests` says what an Access-Request asks for and which ones are refused.
  `EapAuth.EapAuthHandler` is the object that updates its session manager and its two method maps in place; its
  packets are steps of such runs. `EapProgress` and `EapTeapProgress` prove the other half: a cooperative peer does
  get accepted, over EAP-TLS and over TEAP, and the flights of the server reach it.
- **Sessions.** `EapSessions` has the session table with its LRU index, as values and as the object
  `EapSessionManager`; `SessionBound` interleaves the two lock sections of starting a conversation.
- **EAP on the wire.** `EapCodec` and `EapFragments` encode, split, fragment and reassemble, end to end.
- **Retransmissions.** `RequestCache` decides whether a request is new, in progress, to be answered from the
  cache, or a conflict.
- **Keys and passwords.** `Chain` is the XOR chain of hashed blocks behind User-Password, MS-MPPE keys and
  Tunnel-Password; the hash is a parameter, so every theorem holds for MD5 and for any other function.
  `Rekey` is the proxy moving keys and passwords from the home server's secret to the client's.
- **Policy, registry, failover.** `Glob` and `Access` decide policies, `Nas` keeps live RadSec connections,
  `LdapHealth` orders LDAP servers.

Randomness, clocks, TLS and TEAP engines, certificate checks, UTF-8 validity and lower-casing are parameters:
a run fixes their answers, and the theorems hold for all of them.

## Where the code and its documentation part

- The glob matcher compares for equality before it looks for a wildcard. A `*` in the pattern that faces a `*`
  in the text is consumed as a literal, so some texts a pattern should match are refused. It never accepts too
  much, and it decides as documented for every pattern exactly when the text holds no `*`
  (`Glob.ExactTexts`), and for every text exactly when the pattern holds none (`Glob.ExactPatterns`).
- An EAP packet whose Type-Data exceeds 65530 octets gets a truncated Length field. Encoding is undone by
  decoding exactly below that (`EapCodec.EapRoundTrip`); a fragmented message arrives exactly when its first
  fragment stays below it (`EapFragments.EndToEnd`). The fragment size is configurable without such a bound.
- The fragmentation loop makes no progress exactly when the first packet has no room for data; six octets of
  room always suffice (`EapFragments.StuckWithoutRoom`).
- A conversation's recorded EAP state never leaves its initial value: every transition the handler asks for is
  refused by the transition table and the refusal is ignored (`EapSafety.BetweenCalls`).
- A User-Password that ends in NUL comes back without its trailing NULs (`UserPassword.PasswordRoundTrip`).
- Generated salts repeat beyond 32768 (`Mppe.SaltsDistinct`), and registration tokens beyond the range of
  their counter (`Nas.GuaranteeExactly`).

## Model

| member | source | states |
|---|---|---|
| `EapSafety.AcceptSafety` | crates/radius-server/src/eap_auth.rs:838-1266 | In every run, an Access-Accept returned for a request answers the outstanding Request of the conversation its State names, under the binding that began it. If that conversation is over EAP-TLS, it had, in this order and with nothing fed and no method switched to since, a completed handshake, verification of the peer on that connection against the User-Name of this very request, and a claimed Response; if the peer presented certificates there was at least one and they identify that user; over TLS 1.3 also the commitment record, all of whose fragments were sent in EAP-TLS Requests before that Response and reassemble to the record; the keys returned are those TLS exports. If it is over TEAP, the TEAP state machine completed at this packet, which was no fragment, with the returned MSK and nothing to send |
| `EapSafety.AcceptEntitled` | crates/radius-server/src/eap_auth.rs:838-1088 | Any lawful conversation that permits an EAP-TLS Accept has all of these in this order |
| `EapSafety.RequestsInOrder` | crates/radius-server/src/eap_auth.rs:880-933 | In every conversation, the Requests since TLS was fed, the commitment record written or the TEAP state machine run carry, one after the other, exactly the fragments of what that gave to send; after the last of them only empty acknowledgements follow; all are of the same method |
| `EapSafety.NothingSkipped` | crates/radius-server/src/eap_auth.rs:880-906 | No packet of the peer is looked at before all fragments were sent |
| `EapSafety.FlightDelivered` | crates/radius-server/src/eap_auth.rs:880-933 | So a peer that decodes the Requests since a feed, up to its own next packet, reassembles exactly the flight TLS produced |
| `EapSafety.MessagesWhole` | crates/radius-proto/src/eap.rs:1525-1570 | Every message TLS is fed is the concatenated data of the packets taken since it was fed before, all but the last with the M bit, none with the S bit, of the length announced |
| `EapSafety.OnePacketEach` | crates/radius-server/src/eap_auth.rs:838-906 | A method takes at most one packet from a Response, directly after it was claimed |
| `EapSafety.FirstRequest` | crates/radius-server/src/eap_auth.rs:506-552 | Every conversation starts with one Request: a TEAP Start (S bit, version 1) if a realm of that kind is configured, otherwise an EAP-TLS Start (S bit alone), and then the default realm is configured |
| `EapSafety.LogIsWhatWasReturned` | crates/radius-server/src/eap_auth.rs:1411-1578 | The Requests and acceptances in the log of every run are, octet for octet and in order, the Access-Challenges and Access-Accepts returned to the NAS, each acceptance under the User-Name of its request; none is missing and none invented |
| `EapReports.AuthenticateReports` | crates/radius-server/src/eap_auth.rs:1411-1578 | Every call, from any state, reports its own result: a Challenge carries exactly the Request logged last, an Accept goes with an acceptance of the request's User-Name and the keys TLS or TEAP holds, a Reject with neither; the first event names the conversation drawn or named by State, with the request's binding and Identifier; and every other event is what the Response, the TLS library or the TEAP state machine brought to this call |
| `EapSafety.RunLawful` | crates/radius-server/src/eap_auth.rs:1411-1578 | At every point of every run, the events of every conversation form a lawful story: each step was permitted by what happened before it |
| `EapProgress.CooperativePeerAccepted` | crates/radius-server/src/eap_auth.rs:476-1088 | Such packets exist: from every reachable state there are an opening and prompt answers for every peer whose messages fit a Response, and they end, reachably, in the Accept |
| `EapProgress.CooperationAccepted` | crates/radius-server/src/eap_auth.rs:476-1088 | In every configuration that offers EAP-TLS, from every safe state and among any other live conversations: a peer that opens a conversation, declines TEAP for EAP-TLS where TEAP is offered, shakes hands in any number of rounds with both sides' messages in any number of fragments, presents no certificate or a chain that identifies the user, and always answers within the idle timeout, is accepted at the end with the exported keys; TLS is fed each of its messages, and each flight comes back in order and reaches it exactly when the EAP Length field can describe its first fragment |
| `EapProgress.HandshakeAccepted` | crates/radius-server/src/eap_auth.rs:838-1088 | The same from wherever EAP-TLS listens for a message: any rounds of messages and flights, then the Accept over TLS 1.2, or the commitment and the Accept over TLS 1.3 |
| `EapProgress.AcknowledgedToTheEnd` | crates/radius-server/src/eap_auth.rs:880-906 | From any point of the commitment, in any safe state: exactly as many prompt acknowledgements as there are fragments left, and one more, and the last of them is answered by the Accept |
| `EapProgress.RoundPlayed` | crates/radius-server/src/eap_auth.rs:880-947 | A message of the peer in any number of fragments, all but the last of them acknowledged by an empty Request, is fed to TLS; the fragments of the flight TLS answers with come back one after the other and, read as the peer reads them, deliver the flight exactly when the EAP Length field can describe the first; then EAP-TLS listens again |
| `EapProgress.OfferedTls` | crates/radius-server/src/eap_auth.rs:564-659 | A peer that declines TEAP, first thing, for EAP-TLS gets the EAP-TLS Start |
| `EapProgress.ReplyReads` | crates/radius-server/src/eap_auth.rs:1411-1461 | State, EAP-Message, binding and user name of a reply are read back from its attributes whatever else it carries |
| `EapTeapProgress.TeapCooperationAccepted` | crates/radius-server/src/eap_auth.rs:1099-1266 | In every configuration that offers TEAP, from every safe state and among any other live conversations, a peer that opens a conversation and always answers within the idle timeout is accepted, with the key of the TEAP state machine, when that completes with nothing to send; until then, over any number of packets, it gets the fragments of what the state machine wants sent, in order, or an acknowledgement of its own fragment |
| `EapTeapProgress.ExchangeAccepted` | crates/radius-server/src/eap_auth.rs:1099-1266 | The same from wherever TEAP waits with nothing left to send |
| `EapTeapProgress.TeapRoundPlayed` | crates/radius-server/src/eap_auth.rs:1150-1209 | One packet of the peer and its acknowledgements bring exactly the fragments of the reaction, and leave TEAP waiting |
| `EapTeapProgress.TeapAccepted` | crates/radius-server/src/eap_auth.rs:1211-1258 | A whole packet at which the state machine is complete, with a key and nothing to send, is answered by the Accept with that key |
| `EapRequests.RequestKind` | crates/radius-server/src/eap_auth.rs:1436-1477 | Without EAP, or with an Identity Response, a request begins a conversation, in the latter case with that Response's Identifier; with any other Response it answers; with octets that are no EAP packet, or one that is no Response, it is rejected and nothing happens |
| `EapRequests.ClaimedExactly` | crates/radius-server/src/eap_auth.rs:1501-1552 | A Response is claimed exactly when its State names a conversation active within the timeout, begun under the same binding, whose outstanding Request has its Identifier; if only the Identifier is another it is silently discarded, in every other case rejected; unclaimed, it changes nothing beyond the idle sweep |
| `EapRequests.BegunExactly` | crates/radius-server/src/eap_auth.rs:476-496 | A conversation begins exactly when the random source gives 16 octets that name none still live after eviction; otherwise the request is rejected and changes nothing beyond eviction |
| `EapRequests.AnswerExactly` | crates/radius-server/src/eap_auth.rs:564-1266 | Exactly which claimed Responses are answered by an Accept and which by a Request, over EAP-TLS, TEAP and for a Nak, from the method state before the request and what the TLS library and the TEAP state machine answer; every other one is rejected |
| `EapRequests.OpeningExactly` | crates/radius-server/src/eap_auth.rs:506-552 | A conversation that began is answered by a Request exactly when a method is configured and gets its connection, and is rejected otherwise |
| `EapRequests.OthersAnswered` | crates/radius-server/src/eap_auth.rs:1411-1477 | Nothing but a Response is ever silently discarded |
| `EapRequests.UserNameExactly` | crates/radius-server/src/eap_auth.rs:1411-1416 | The user name is the first User-Name attribute if that is text, and otherwise empty |
| `EapRequests.FirstTaken` | crates/radius-server/src/eap_auth.rs:564-640 | Of the Types a Nak lists, the first that is configured here and not the one declined is taken; none if there is none |
| `EapSafety.ClaimSafety` | crates/radius-proto/src/eap.rs:2337-2354 | A claimed Response carries the binding its conversation began with and directly follows, in that conversation, the Request whose Identifier it carries |
| `EapSafety.IdentifierSafety` | crates/radius-proto/src/eap.rs:2120-2126 | Identifiers count the Requests of a conversation modulo 256; two Requests fewer than 256 apart carry different ones |
| `EapSafety.SeedNotReused` | crates/radius-proto/src/eap.rs:2113-2126 | None of the first 255 Requests repeats the Identifier of the Identity Response that began the conversation |
| `EapSafety.SwitchAnswersFirst` | crates/radius-server/src/eap_auth.rs:506-659 | A method is switched only by the answer to the very first Request, before any method data, and only from TEAP to EAP-TLS, hence at most once; the next Request is the EAP-TLS Start |
| `EapSafety.BetweenCalls` | crates/radius-server/src/eap_auth.rs:1411-1578 | After every run at most the configured number of conversations live, the two method maps partition them, and the last event of each is the Request with its outstanding Identifier |
| `EapSafety.ChallengeNamesConversation` | crates/radius-server/src/eap_auth.rs:442-455 | In every run, the State of every Challenge returned names a live conversation and its attributes carry that conversation's outstanding Request, of its method and within the fragment size; they decode to it exactly when its Type-Data has at most 65530 octets |
| `EapRuns.RunSafe` | crates/radius-server/src/eap_auth.rs:1411-1578 | Every timely sequence of packets and reaper calls from an empty handler keeps the structural invariant, the lawfulness of the log, and the agreement of every live session with its story |
| `EapRuns.ReachableSafe` | crates/radius-server/src/eap_auth.rs:1411-1578 | The same for every reachable state |
| `EapRuns.PacketSafe` | crates/radius-server/src/eap_auth.rs:1411-1578 | One Access-Request keeps the invariant and extends exactly one conversation's story, or starts it anew; every other story stays as it was |
| `EapRuns.LawfulLogGrows` | crates/radius-server/src/eap_auth.rs:1411-1578 | Lawful new events of one conversation keep every conversation lawful at every point |
| `EapTales.DispatchRecounts` | crates/radius-server/src/eap_auth.rs:1553-1573 | Whatever a claimed Response leads to continues the conversation's story lawfully, and the session, the reassembly buffer and the queue of fragments still match the story |
| `EapTales.ContinueTlsRecounts` | crates/radius-server/src/eap_auth.rs:838-1026 | The same for a step of EAP-TLS: a Request carries the fragment that is due or acknowledges one, TLS is fed what the packets carry, then commitment and success |
| `EapTales.ContinueTeapRecounts` | crates/radius-server/src/eap_auth.rs:1099-1266 | The same for a step of TEAP |
| `EapTales.NakRecounts` | crates/radius-server/src/eap_auth.rs:564-659 | The same for an EAP-Nak |
| `EapTales.IdentityRecounts` | crates/radius-server/src/eap_auth.rs:506-552 | The same for the identity that begins a conversation |
| `EapTales.NameUnique` | crates/radius-server/src/eap_auth.rs:1378-1406 | A binding determines the user name it was made from |
| `EapCalls.CallKeeps` | crates/radius-server/src/eap_auth.rs:1411-1578 | A request is refused exactly when it is unreadable, opens a conversation under no or a taken State, or answers no outstanding Request under its binding; it is then discarded exactly for a wrong Identifier, rejected otherwise, and changes nothing but evictions. Any other request changes exactly one conversation, which is then either awaiting the answer to the Challenge just returned or forgotten entirely |
| `EapCalls.RouteRefuses` | crates/radius-server/src/eap_auth.rs:1436-1577 | Which requests are refused, and how, from any state |
| `EapCalls.RouteKeeps` | crates/radius-server/src/eap_auth.rs:1436-1577 | The same for the routing after the idle sweep |
| `EapCalls.BeginKeeps` | crates/radius-server/src/eap_auth.rs:476-552 | Starting a conversation displaces only what making room evicts |
| `EapCalls.ContinueKeeps` | crates/radius-server/src/eap_auth.rs:1501-1576 | Continuing one changes the conversation its State names and no other |
| `EapCalls.ReapKeeps` | crates/radius-server/src/eap_auth.rs:189-195 | The reaper leaves only conversations active within the timeout, all of them if one more fits and otherwise as many as leave room for one, more recently used than any it had to remove; method state goes with its session |
| `EapCalls.ReapIdleKeeps` | crates/radius-server/src/eap_auth.rs:203-209 | The idle sweep keeps exactly the conversations active within the timeout, as they were, and forgets the others entirely |
| `EapCalls.FinishKeeps` | crates/radius-server/src/eap_auth.rs:261-281 | Finishing keeps a challenged conversation and forgets any other one entirely |
| `EapStructure.ContinueTlsServes` | crates/radius-server/src/eap_auth.rs:838-1026 | A step of EAP-TLS touches its conversation only, and a Challenge it returns announces the outstanding Request |
| `EapStructure.ContinueTeapServes` | crates/radius-server/src/eap_auth.rs:1099-1266 | The same for TEAP |
| `EapStructure.NakServes` | crates/radius-server/src/eap_auth.rs:564-659 | The same for an EAP-Nak |
| `EapStructure.IdentityServes` | crates/radius-server/src/eap_auth.rs:506-552 | The same for an identity |
| `EapAuth.EapAuthHandler.constructor` | crates/radius-server/src/eap_auth.rs:119-138 | A new handler is the initial state of a run and valid |
| `EapAuth.EapAuthHandler.DropMethodStates` | crates/radius-server/src/eap_auth.rs:241-256 | Exactly the named sessions lose their TLS and TEAP state |
| `EapAuth.EapAuthHandler.ReapIdleAt` | crates/radius-server/src/eap_auth.rs:203-209 | The idle sweep, stopping early and dropping method state in place, is the full sweep of the model and keeps the object valid |
| `EapAuth.EapAuthHandler.ReapAt` | crates/radius-server/src/eap_auth.rs:189-195 | So is the reaper, with the least recently used conversations after the idle ones |
| `EapAuth.EapAuthHandler.AuthenticateEap` | crates/radius-server/src/eap_auth.rs:1411-1578 | The object stays in a state of a safe run; an Accept it returns is justified as in AcceptSafety, a Challenge carries the outstanding Request of the conversation its State names, and a refused request changes nothing beyond eviction |
| `SessionBound.SessionsBounded` | crates/radius-server/src/eap_auth.rs:189-195 | In every interleaving of at most k concurrent starts, live sessions plus room already made stay within the configured bound minus one plus k |
| `SessionBound.SequentialBound` | crates/radius-server/src/eap_auth.rs:476-496 | With one start at a time the configured bound is never exceeded |
| `SessionBound.BoundReached` | crates/radius-server/src/eap_auth.rs:476-496 | The concurrent bound is reached for every k and every configuration |
| `EapSessions.TouchKeeps` | crates/radius-proto/src/eap.rs:2288-2298 | Touching keeps index and table in bijection and activity in index order |
| `EapSessions.CreateKeeps` | crates/radius-proto/src/eap.rs:2304-2312 | So does creating, and only the new session differs |
| `EapSessions.RemoveKeeps` | crates/radius-proto/src/eap.rs:2357-2361 | So does removing |
| `EapSessions.SweepKeeps` | crates/radius-proto/src/eap.rs:2408-2431 | So does the idle sweep |
| `EapSessions.SweepExactly` | crates/radius-proto/src/eap.rs:2408-2431 | The sweep keeps exactly the sessions whose last activity is no longer ago than the timeout, unchanged |
| `EapSessions.OldestMeaning` | crates/radius-proto/src/eap.rs:2376-2396 | The first index entry is the least recently active session |
| `EapSessions.TrimMeaning` | crates/radius-proto/src/eap.rs:2376-2396 | Making room leaves fewer sessions than the bound, no more removed than needed, and everything kept is at least as recent as everything removed |
| `EapSessions.SweptAll` | crates/radius-proto/src/eap.rs:2408-2431 | Stopping at the first fresh index entry removes exactly what a scan of the whole table would |
| `EapSessions.IdentifiersDistinct` | crates/radius-proto/src/eap.rs:2120-2126 | Identifiers fewer than 256 allocations apart differ |
| `EapSessions.EapSessionManager.constructor` | crates/radius-proto/src/eap.rs:2255-2285 | A new manager is empty and holds at least one session |
| `EapSessions.EapSessionManager.Touch` | crates/radius-proto/src/eap.rs:2288-2298 | Refines the model |
| `EapSessions.EapSessionManager.CreateSession` | crates/radius-proto/src/eap.rs:2304-2312 | Refines the model |
| `EapSessions.EapSessionManager.GetSessionMut` | crates/radius-proto/src/eap.rs:2321-2324 | A lookup for writing touches the session it returns |
| `EapSessions.EapSessionManager.ClaimResponse` | crates/radius-proto/src/eap.rs:2337-2354 | Binding first, then Identifier; a claim consumes the outstanding Identifier and a refusal changes nothing |
| `EapSessions.EapSessionManager.RemoveSession` | crates/radius-proto/src/eap.rs:2357-2361 | Refines the model |
| `EapSessions.EapSessionManager.EvictIdleAt` | crates/radius-proto/src/eap.rs:2408-2431 | Reports exactly what it removed, all of it inactive for longer than the timeout; from a well-formed state it equals the full scan |
| `EapSessions.EapSessionManager.EvictAt` | crates/radius-proto/src/eap.rs:2376-2396 | From any state fewer sessions than the bound remain and the report is exact; from a well-formed one exactly the idle and then the least recently used go |
| `Binding.BindingExact` | crates/radius-server/src/eap_auth.rs:1378-1406 | Two requests have the same binding exactly when client address (IPv4-mapped IPv6 taken as IPv4), NAS addresses, NAS identifier and user name agree, absence told from emptiness |
| `Binding.StateMapping` | crates/radius-server/src/eap_auth.rs:442-455 | A State of 16 octets and its session id determine each other |
| `Binding.StateLength` | crates/radius-server/src/eap_auth.rs:442-455 | A State names a session exactly when it has 16 octets |
| `Binding.FindFirst` | crates/radius-proto/src/packet/packet.rs:166-169 | A lookup finds the first attribute of its type, whatever follows |
| `EapCodec.EapRoundTrip` | crates/radius-proto/src/eap.rs:183-260 | A well-formed EAP packet is decoded to itself exactly when its Type-Data has at most 65530 octets |
| `EapCodec.EapCanonical` | crates/radius-proto/src/eap.rs:183-260 | Octets that decode to a packet of known Type begin with that packet's encoding |
| `EapCodec.EapLayout` | crates/radius-proto/src/eap.rs:183-235 | Exactly which octets are read as a given Request or Response: Code 1 or 2, Identifier, the length of all of it, Type, data; what follows is ignored |
| `EapCodec.TypeNumbers` | crates/radius-proto/src/eap.rs:58-109 | Identity, Nak, EAP-TLS and TEAP are Types 1, 3, 13 and 55 |
| `EapCodec.SuccessLayout` | crates/radius-proto/src/eap.rs:236-260 | EAP-Success is four octets |
| `EapCodec.TlsRoundTrip` | crates/radius-proto/src/eap.rs:627-678 | EAP-TLS Type-Data survives encoding and decoding |
| `EapCodec.TlsLayout` | crates/radius-proto/src/eap.rs:627-678 | Exactly which octets are read as a given EAP-TLS packet: the L, M and S bits, four octets of length if L is set, data; reserved bits are ignored when reading and clear when writing |
| `EapCodec.AttributesRoundTrip` | crates/radius-proto/src/eap.rs:2534-2601 | An EAP packet survives its EAP-Message attributes among any other attributes, exactly when its Type-Data has at most 65530 octets |
| `EapCodec.EapToAttributes` | crates/radius-proto/src/eap.rs:2534-2556 | The chunking loop yields non-empty EAP-Messages, all but the last full |
| `EapCodec.EapFromAttributes` | crates/radius-proto/src/eap.rs:2582-2601 | The collecting loop decodes the concatenation of the EAP-Messages |
| `EapFragments.FragmentTlsMessage` | crates/radius-proto/src/eap.rs:876-932 | The fragmentation loop yields the specified packets, none over the limit |
| `EapFragments.StuckWithoutRoom` | crates/radius-proto/src/eap.rs:876-932 | The loop progresses exactly when the first packet has room, which six octets guarantee |
| `EapFragments.PacketFlags` | crates/radius-proto/src/eap.rs:876-932 | L is never set after the first packet; on the first always, or under the TEAP policy exactly when there is more than one; M on all but the last; S never; the announced length is that of the message; only the last packet falls short of the limit |
| `EapFragments.OnePacket` | crates/radius-proto/src/eap.rs:876-932 | A message goes into one packet exactly when it fits with the flags octet and, where it is always announced, its length |
| `EapFragments.TlsFragmentAssembler.AddFragment` | crates/radius-proto/src/eap.rs:757-822 | Refines the assembler of the model, refusals and resets included |
| `EapFragments.TlsFragmentAssembler.Reset` | crates/radius-proto/src/eap.rs:825-828 | Forgets everything |
| `EapFragments.AssemblerSafety` | crates/radius-proto/src/eap.rs:724-829 | Over every sequence of packets the buffer is the concatenation of the accepted fragments and within the announced length; errors and completions leave nothing behind; an accepted fragment brings completion strictly nearer; a completed message has exactly the announced length, be it announced by its first fragment or by the one packet it came in |
| `EapFragments.CompletesMeaning` | crates/radius-proto/src/eap.rs:757-822 | A message completed by packets accepted without error is the concatenation of their data, and of the length the first of several announced |
| `EapFragments.RefusedExactly` | crates/radius-proto/src/eap.rs:724-822 | Exactly which packet is refused after the fragments accepted so far: an empty fragment, a first fragment without a length, a length announced as zero or over 65536, data beyond the announced length or beyond 65536, and a last packet that falls short of it |
| `EapFragments.ReassembledFrom` | crates/radius-proto/src/eap.rs:724-932 | Reassembly undoes fragmentation from every position |
| `EapFragments.EndToEnd` | crates/radius-proto/src/eap.rs:876-932 | Fragmented, wrapped in EAP, split over attributes, collected, decoded and reassembled, a message of up to 65536 octets arrives intact exactly when the EAP Length field can describe its first fragment |
| `RequestCache.RefinesHistory` | crates/radius-server/src/cache.rs:258-325 | The table always agrees with the plain history of the run, up to entries that have expired |
| `RequestCache.DecisionFromHistory` | crates/radius-server/src/cache.rs:258-311 | Every decision is the one computed from that history, whatever the background task removed |
| `RequestCache.DecisionExactly` | crates/radius-server/src/cache.rs:258-311 | Every decision from the steps of the run alone. After the last New of its fingerprint a request is new again exactly when that was more than a TTL ago or was evicted since; otherwise a conflict exactly when its digest differs; answered with a reply exactly when digest and source address are the same, that reply is the last one stored for it and fewer than eight were replayed; and in progress in every other case |
| `RequestCache.KnownHasOrigin` | crates/radius-server/src/cache.rs:258-311 | What is not new was admitted as new before |
| `RequestCache.RoomForAll` | crates/radius-server/src/cache.rs:262-285 | As long as no more fingerprints were admitted than the cache has room for, nothing is evicted |
| `RequestCache.RecordMeaning` | crates/radius-server/src/cache.rs:258-325 | What is remembered under a fingerprint is its last New admission, the last reply stored for that very request and the number of replays since, unless capacity evicted it |
| `RequestCache.ReplaySafety` | crates/radius-server/src/cache.rs:258-311 | A replayed reply is the last one stored for the same request from the same address, admitted at most one TTL earlier, and at most the eighth |
| `RequestCache.ReplaysBounded` | crates/radius-server/src/cache.rs:53 | At most eight replays between two New decisions |
| `RequestCache.NewWithinTtl` | crates/radius-server/src/cache.rs:258-311 | Within one TTL a request is new again exactly when capacity pressure evicted it |
| `RequestCache.NewsAreApart` | crates/radius-server/src/cache.rs:258-311 | Without capacity evictions two New decisions are more than a TTL apart |
| `RequestCache.SizeBounded` | crates/radius-server/src/cache.rs:258-311 | In sequential runs a cache with room for one entry stays within its size |
| `RequestCache.SweepsInvisible` | crates/radius-server/src/cache.rs:186-217 | While the cache is not full, inserting or dropping background removals anywhere changes no decision |
| `RequestCache.Cache.Admit` | crates/radius-server/src/cache.rs:258-311 | The object takes one enabled step of the model: the decision DecisionExactly describes, with an arbitrary victim when it must make room |
| `RequestCache.Cache.StoreReply` | crates/radius-server/src/cache.rs:319-325 | A reply is stored only onto the entry of the same request |
| `RequestCache.Cache.Sweep` | crates/radius-server/src/cache.rs:186-217 | One round removes exactly the expired entries and reports how many |
| `RequestCache.DigestInputInjective` | crates/radius-server/src/cache.rs:123-130 | The hashed octets determine secret and request |
| `Chain.EncryptBlocks` | crates/radius-proto/src/mppe.rs:141-150 | The encryption loop computes the chain, which EncipherExactly describes bit by bit |
| `Chain.DecryptBlocks` | crates/radius-proto/src/mppe.rs:171-178 | The decryption loop inverts it block by block, as DecipherExactly describes |
| `Chain.EncipherExactly` | crates/radius-proto/src/mppe.rs:94-152 | Its result is the one ciphertext of which every bit of every block is the plaintext bit plus, without carry, the bit of the hash of the secret and the previous ciphertext block |
| `Chain.XorExactly` | crates/radius-proto/src/mppe.rs:148 | An octet is the exclusive or of two exactly when each of its bits is their sum without carry |
| `Chain.DecipherExactly` | crates/radius-proto/src/mppe.rs:156-189 | Its result is the one plaintext for which the same relation holds |
| `Chain.Inverse` | crates/radius-proto/src/mppe.rs:94-189 | The two are inverse bijections for every hash, secret and seed |
| `Mppe.EncryptKey` | crates/radius-proto/src/mppe.rs:119-152 | Meets the specification, errors in the source's order |
| `Mppe.DecryptKey` | crates/radius-proto/src/mppe.rs:156-189 | Meets the specification, errors in the source's order |
| `Mppe.KeyRoundTrip` | crates/radius-proto/src/mppe.rs:119-189 | Encryption succeeds exactly on keys up to 239 octets under a salt with its top bit set; the result fits its attribute and decrypts to the key |
| `Mppe.DecryptsExactly` | crates/radius-proto/src/mppe.rs:156-189 | A string decrypts to a key exactly when it is a salt with its top bit set and then the chain over the key's length, the key and any padding |
| `Mppe.EncryptsExactly` | crates/radius-proto/src/mppe.rs:119-152 | A key of at most 239 octets under a salt with its top bit set is encrypted to the one such string with that salt and the least padding, of zeros; nothing else is |
| `Mppe.KeyRefusals` | crates/radius-proto/src/mppe.rs:156-189 | What decryption refuses, and with which error: first the length, then the salt, then the length inside |
| `Mppe.KeysLayout` | crates/radius-proto/src/mppe.rs:261-290 | The pair on the wire, octet by octet: vendor 311, the send key as type 16 and then the receive key as type 17, each in an attribute of its own |
| `Mppe.SaltsDistinct` | crates/radius-proto/src/mppe.rs:207-213 | Generated salts have their top bit set and are pairwise distinct exactly up to 32768 |
| `Mppe.KeysRoundTrip` | crates/radius-proto/src/mppe.rs:261-315 | The pair encodes exactly when both keys fit and the salts are valid and different; the receiver of a packet that carries it decrypts the pair exactly when no earlier MS-MPPE key in the packet says otherwise |
| `Mppe.MskDelivered` | crates/radius-server/src/server.rs:1764-1793 | Every MSK of at least 64 octets, and no other, gives octets 0 to 31 as the receive key and 32 to 63 as the send key, which always encode; the NAS reads them exactly when no MS-MPPE key already among the attributes of the Accept says otherwise |
| `Vendor.CombinedExactly` | crates/radius-proto/src/attributes/vsa.rs:101-159 | An attribute combines sub-attributes exactly when it decodes to them |
| `Vendor.VendorLayout` | crates/radius-proto/src/attributes/vsa.rs:101-124 | Attribute 26: the vendor in four octets, then for each sub-attribute its type, a length that counts both, and its value |
| `Vendor.DecodeValue` | crates/radius-proto/src/attributes/vsa.rs:126-159 | The decoding loop meets the specification, all errors included |
| `Vendor.FindVendorConcat` | crates/radius-proto/src/attributes/vsa.rs:178-186 | Finding vendor sub-attributes distributes over concatenation |
| `TunnelPasswords.Encrypt` | crates/radius-proto/src/tunnel_password.rs:83-120 | Meets the specification, errors in the source's order |
| `TunnelPasswords.Decrypt` | crates/radius-proto/src/tunnel_password.rs:124-165 | Meets the specification, errors in the source's order |
| `TunnelPasswords.TaggedKey` | crates/radius-proto/src/tunnel_password.rs:83-120 | The value is the tag followed by the MS-MPPE string |
| `TunnelPasswords.TaggedDecryption` | crates/radius-proto/src/tunnel_password.rs:124-165 | Decryption reads the tag and then what MS-MPPE decryption makes of the rest |
| `TunnelPasswords.PasswordRoundTrip` | crates/radius-proto/src/tunnel_password.rs:83-165 | Encryption succeeds exactly on a tag up to 0x1F, a password up to 239 octets and a salt with its top bit set; the value fits its attribute and decrypts to the same tag and password |
| `TunnelPasswords.ReadsExactly` | crates/radius-proto/src/tunnel_password.rs:124-229 | Exactly which attributes are read as a Tunnel-Password: type 69, a tag up to 0x1F, then a salted chain over the password's length, the password and any padding |
| `TunnelPasswords.WritesExactly` | crates/radius-proto/src/tunnel_password.rs:83-215 | Exactly what one is written as: the same under the given salt with the least padding, of zeros |
| `TunnelPasswords.ReEncryption` | crates/radius-proto/src/tunnel_password.rs:199-229 | What decrypts under one secret re-encrypts under any other and decrypts there to the same tag and password |
| `Rekey.RelayPreserves` | crates/radius-server/src/proxy/handler.rs:519-523 | A relayed reply says to the client exactly what it said under the home server's secret: if both MS-MPPE keys were there and decrypt, the client finds one of each that carries the same key, and in every other case none; the same Tunnel-Passwords, other vendor sub-attributes and other attributes, malformed Vendor-Specific ones included, each in its place; nothing undecryptable is passed on, and no two salts in the packet are equal |
| `Rekey.MppeRekeyed` | crates/radius-server/src/proxy/handler.rs:539-580 | After the first step the client decrypts the home server's keys, or finds none where they were missing, unpaired or undecryptable; everything else reads the same and in the same place |
| `Rekey.TunnelsRekeyed` | crates/radius-server/src/proxy/handler.rs:625-692 | After the second step the client reads what the home secret read, in order, under salts distinct from each other and from those in use |
| `Rekey.StripFinds` | crates/radius-server/src/proxy/handler.rs:586-618 | Stripping removes every MS-MPPE key and leaves every other vendor sub-attribute in place |
| `Rekey.StripReads` | crates/radius-server/src/proxy/handler.rs:586-618 | Stripping takes nothing from a packet but MS-MPPE keys and leaves everything else in its place |
| `Rekey.RemainderFits` | crates/radius-server/src/proxy/handler.rs:586-618 | Re-encoding what remains of a readable attribute never fails |
| `Rekey.StripMppeAttributes` | crates/radius-server/src/proxy/handler.rs:586-618 | The stripping loop meets its specification |
| `Rekey.RewriteTunnelPasswords` | crates/radius-server/src/proxy/handler.rs:648-691 | The rewriting loop meets its specification |
| `Rekey.FreshSaltsMeaning` | crates/radius-server/src/proxy/handler.rs:697-702 | Exactly as many salts as asked for, distinct and none in use |
| `UserPassword.PasswordRoundTrip` | crates/radius-proto/src/auth.rs:148-216 | The hidden password is as long as the least positive multiple of 16 that holds it; it is shown without trailing NULs, hence unchanged exactly when it does not end in one |
| `UserPassword.HiddenLayout` | crates/radius-proto/src/auth.rs:148-180 | The hidden password is the chain over the password, padded with NULs to a positive multiple of 16 octets and no further |
| `UserPassword.ShownExactly` | crates/radius-proto/src/auth.rs:183-216 | Exactly which octets show a password: its chain, padded with any number of NULs; it is text that does not end in one |
| `UserPassword.EncryptUserPassword` | crates/radius-proto/src/auth.rs:148-180 | Padding and loop meet the specification |
| `UserPassword.DecryptUserPassword` | crates/radius-proto/src/auth.rs:183-216 | Length check, loop, stripping and UTF-8 check meet the specification |
| `UserPassword.ConstantTimeEq` | crates/radius-proto/src/auth.rs:132-141 | The accumulated difference is zero exactly when the two strings are equal |
| `Glob.GlobMatch` | crates/radius-server/src/access.rs:280-306 | The backtracking loop that remembers only the last star decides exactly what trying every run of every star decides |
| `Glob.Sound` | crates/radius-server/src/access.rs:280-306 | It never accepts a text the pattern should refuse |
| `Glob.Complete` | crates/radius-server/src/access.rs:280-306 | Without `*` in the text or in the pattern it accepts every text it should |
| `Glob.RefusesPattern` | crates/radius-server/src/access.rs:280-306 | For every text with `*` some pattern that should match it is refused |
| `Glob.RefusesText` | crates/radius-server/src/access.rs:280-306 | For every pattern with `*` some text it should match is refused |
| `Glob.ExactTexts` | crates/radius-server/src/access.rs:280-306 | A text is decided as documented against every pattern exactly when it holds no `*` |
| `Glob.ExactPatterns` | crates/radius-server/src/access.rs:280-306 | A pattern is decided as documented against every text exactly when it holds no `*` |
| `Access.Evaluate` | crates/radius-server/src/access.rs:193-234 | Grants exactly when some applicable statement allows and none denies, and names the first deciding statement |
| `Access.GrantsAsDocumented` | crates/radius-server/src/access.rs:193-234 | For requests without `*` in their texts, the policy grants exactly when a statement that allows speaks of the request and none that denies does: one of its actions and one of its resources match it as documented, and every condition holds |
| `Access.AppliesAsDocumented` | crates/radius-server/src/access.rs:141-145 | A statement applies exactly to the requests it speaks of |
| `Access.StatementParts` | crates/radius-server/src/access.rs:141-145 | For every request: adding conditions narrows a statement to both, adding actions or resources widens it to either, and without any of the latter it never applies |
| `Access.ConditionParts` | crates/radius-server/src/access.rs:63-107 | A negative operator holds exactly when its positive twin fails, in particular on an absent key; a positive one fails there and holds as soon as one listed value is met |
| `Access.OrderIrrelevant` | crates/radius-server/src/access.rs:193-234 | Permuting the statements does not change the verdict |
| `Access.InsertStatement` | crates/radius-server/src/access.rs:193-234 | Exactly what inserting one statement anywhere does; a Deny never grants |
| `Nas.RegistryCurrent` | crates/radius-server/src/coa.rs:118-126 | In every interleaving of allocation, insertion and drops, up to as many connections as there are tokens, an id is registered exactly when its latest insertion has not been dropped, and its jobs go to that connection |
| `Nas.OlderDropHarmless` | crates/radius-server/src/coa.rs:175-183 | Dropping any other guard changes nothing for the id |
| `Nas.WrapLosesRegistration` | crates/radius-server/src/coa.rs:118-183 | With one connection more than tokens a stale guard removes a newer registration |
| `Nas.GuaranteeExactly` | crates/radius-server/src/coa.rs:118-183 | The guarantee holds for all runs of up to n connections exactly when there are n tokens |
| `Nas.NasRegistry.Register` | crates/radius-server/src/coa.rs:118-126 | Takes the next token and replaces any earlier registration |
| `Nas.NasRegistry.DropGuard` | crates/radius-server/src/coa.rs:175-183 | Removes the entry only if it is the guard's own |
| `LdapHealth.DownExactly` | crates/radius-server/src/ldap_auth.rs:243-274 | A server is down exactly when its history has three consecutive failures not followed by two consecutive successes |
| `LdapHealth.HealthyExactly` | crates/radius-server/src/ldap_auth.rs:243-282 | In every run over many servers, each counts as healthy exactly unless its own attempts take it down |
| `LdapHealth.HealthyFirst` | crates/radius-server/src/ldap_auth.rs:285-301 | Healthy servers first, then the others, is a permutation that keeps the configured order within each |
| `LdapHealth.ServerUrlsMeaning` | crates/radius-server/src/ldap_auth.rs:151-159 | The list of servers counts if there is one, otherwise the single server if there is one |
| `LdapHealth.LdapPool.RecordSuccess` | crates/radius-server/src/ldap_auth.rs:243-257 | Records one success for one server |
| `LdapHealth.LdapPool.RecordFailure` | crates/radius-server/src/ldap_auth.rs:260-274 | Records one failure for one server |
| `LdapHealth.LdapPool.GetPrioritizedServers` | crates/radius-server/src/ldap_auth.rs:285-301 | The partitioning loop returns that permutation |

## Left out

- The TLS and TEAP engines and certificate validation: they answer through parameters of a call, for which nothing is assumed.
- EAP-Key-Name, log messages, eviction counters and the text of error messages: they decide nothing.
- The entry points without a RADIUS request (`authenticate_with_challenge`) and EAP-MD5, which is always refused.
- Concurrent Access-Requests on one handler: calls run one after another with clock readings that do not go back; only the number of sessions is proved for interleaved starts, in `SessionBound`.
- Concurrent admissions to the request cache: making room and inserting are one step, so the size bound is for sequential runs.
- Overflow of the 64-bit LRU sequence, of the clock and of the 32-bit health counters: they are natural numbers here.
- UTF-8 decoding and Unicode lower-casing: predicates and functions given as parameters.
- Response and Message-Authenticators, Proxy-State and the rest of the proxy's rewriting: hashes over fields in a fixed order, with no law beyond that.
- The rest of the Vendor-Specific API, accounting, CoA packets, configuration, metrics, LDAP connections, health endpoints: plumbing around the modelled core.
- SweepsInvisible: stated while the cache is not full, because which entry capacity evicts depends on what was swept; `RequestCache.DecisionFromHistory` holds without that.
- AppliesAsDocumented: for requests whose texts hold no `*`; with one the matcher departs from its documentation, for each such text on some pattern (`Glob.RefusesPattern`). `Access.StatementParts`, `Access.ConditionParts` and `Access.Evaluate` hold for all requests.
- GrantsAsDocumented: the same condition, for the same reason.
- TeapCooperationAccepted: that such packets exist is shown for EAP-TLS only, because the TEAP packet decoder is a parameter here.
- Relay: takes the attributes of a packet of at most 4096 octets, which is what the packet decoder admits.
