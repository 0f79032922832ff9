/** What the run invariant means: who is accepted, what is asked and answered, in every run. */
module EapSafety {
  import opened Octets
  import opened EapCodec
  import opened EapFragments
  import opened EapSessions
  import opened Binding
  import opened EapHandler
  import opened EapReports
  import opened EapStructure
  import opened EapCalls
  import opened EapTales
  import opened EapRuns

  // ---------------------------------------------------------------------------------------
  // From the fold of a story back to its events
  // ---------------------------------------------------------------------------------------

  /** The Type-Data of the Requests in `story[from..]`. */
  function SentFrom(story: seq<Event>, from: nat): seq<seq<byte>> {
    if |story| <= from then []
    else
      var before, last := story[..|story| - 1], story[|story| - 1];
      SentFrom(before, from) + if last.Issued? then [last.data] else []
  }

  /** The number of Requests in a story. */
  function Requests(story: seq<Event>): nat {
    if story == [] then 0
    else Requests(story[..|story| - 1]) + if story[|story| - 1].Issued? then 1 else 0
  }

  lemma {:induction false} FedPosition(cfg: Config, story: seq<Event>) returns (f: nat)
    requires Lawful(cfg, story) && Tell(story).fed.Some?
    ensures 0 < f < |story| && story[f].Fed? && story[f].conn == Tell(story).fed.value
    ensures forall i :: f < i < |story| ==> !story[i].Fed?
  {
    hide Permits, Lawful, Next;
    var n := |story| - 1;
    NothingAtFirst(cfg, story);
    LawfulAt(cfg, story, n);
    FedStands(cfg, Tell(story[..n]), story[n]);
    if story[n].Fed? {
      f := n;
    } else {
      f := FedPosition(cfg, story[..n]);
      assert forall i :: 0 <= i < n ==> story[..n][i] == story[i];
    }
  }

  lemma FedStands(cfg: Config, t: Tale, e: Event)
    requires Permits(cfg, t, e)
    ensures Next(t, e).fed == if e.Fed? then Some(e.conn) else t.fed
  {
  }

  /** A verification is of the connection fed last, and stands only while nothing is fed. */
  lemma VerifiedStands(cfg: Config, t: Tale, e: Event)
    requires Permits(cfg, t, e) && Next(t, e).verified.Some?
    ensures if e.Verified? then Next(t, e).verified == Some((e.user, e.conn)) && t.fed == Some(e.conn)
            else !e.Fed? && Next(t, e).verified == t.verified
  {
  }

  lemma {:induction false} VerifiedPosition(cfg: Config, story: seq<Event>) returns (v: nat)
    requires Lawful(cfg, story) && Tell(story).verified.Some?
    ensures 0 < v < |story| && story[v].Verified?
    ensures (story[v].user, story[v].conn) == Tell(story).verified.value && Tell(story[..v]).fed == Some(story[v].conn)
    ensures forall i :: v < i < |story| ==> !story[i].Fed? && !story[i].Verified?
  {
    hide Permits, Lawful, Next;
    var n := |story| - 1;
    NothingAtFirst(cfg, story);
    LawfulAt(cfg, story, n);
    VerifiedStands(cfg, Tell(story[..n]), story[n]);
    if story[n].Verified? {
      v := n;
    } else {
      v := VerifiedPosition(cfg, story[..n]);
      assert story[..n][..v] == story[..v];
      assert forall i :: 0 <= i < n ==> story[..n][i] == story[i];
    }
  }

  lemma NothingAtFirst(cfg: Config, story: seq<Event>)
    requires Lawful(cfg, story)
    ensures var t := Tell(story);
            t.fed.Some? || t.verified.Some? || t.record.Some? || t.issues > 0 ==> |story| > 1
    ensures story != [] ==> Lawful(cfg, story[..|story| - 1])
  {
    hide Permits;
  }

  /** A commitment stands only while nothing is fed or verified, and all that is sent after it counts. */
  lemma CommitmentStands(cfg: Config, t: Tale, e: Event)
    requires Permits(cfg, t, e) && Methodical(cfg, t) && Next(t, e).record.Some?
    ensures if e.Committed? then t.verified.Some? && Next(t, e).record == Some(e.record) && Next(t, e).sent == []
            else
              && !e.Fed? && !e.Verified? && !e.Ran? && !e.Switched? && Next(t, e).record == t.record
              && Next(t, e).sent == t.sent + if e.Issued? then [e.data] else []
    ensures Next(t, e).verified == t.verified
  {
  }

  lemma {:induction false} CommittedPosition(cfg: Config, story: seq<Event>) returns (q: nat)
    requires Lawful(cfg, story) && Tell(story).record.Some?
    ensures 0 < q < |story| && story[q].Committed? && story[q].record == Tell(story).record.value
    ensures Tell(story[..q]).verified == Tell(story).verified && Tell(story).verified.Some?
    ensures forall i :: q <= i < |story| ==> !story[i].Fed? && !story[i].Verified?
    ensures Tell(story).sent == SentFrom(story, q + 1)
  {
    hide Permits, Lawful, Next, Methodical;
    var n := |story| - 1;
    NothingAtFirst(cfg, story);
    LawfulAt(cfg, story, n);
    MethodOfStory(cfg, story[..n]);
    CommitmentStands(cfg, Tell(story[..n]), story[n]);
    if story[n].Committed? {
      q := n;
    } else {
      q := CommittedPosition(cfg, story[..n]);
      assert story[..n][..q] == story[..q];
      assert forall i :: 0 <= i < n ==> story[..n][i] == story[i];
    }
  }

  /** A Request that is not answered yet is the last event. */
  lemma PendingLast(cfg: Config, story: seq<Event>)
    requires Lawful(cfg, story) && Tell(story).pending.Some?
    ensures story != [] && story[|story| - 1].Issued? && Some(story[|story| - 1].identifier) == Tell(story).pending
  {
    LawfulAt(cfg, story, |story| - 1);
  }

  lemma {:induction false} ClaimPosition(cfg: Config, story: seq<Event>) returns (c: nat)
    requires Lawful(cfg, story) && Tell(story).pending.None? && Tell(story).issues > 0
    ensures 0 < c < |story| && story[c].ResponseClaimed? && story[c].binding == Tell(story).binding
    ensures forall i :: c < i < |story| ==> !story[i].Issued?
  {
    hide Permits, Lawful, Next;
    var n := |story| - 1;
    NothingAtFirst(cfg, story);
    LawfulAt(cfg, story, n);
    ClaimStands(cfg, Tell(story[..n]), story[n]);
    if story[n].ResponseClaimed? {
      c := n;
    } else {
      c := ClaimPosition(cfg, story[..n]);
      assert forall i :: 0 <= i < n ==> story[..n][i] == story[i];
    }
  }

  /** Where no Request is pending, the last Response was claimed after the last Request. */
  lemma ClaimStands(cfg: Config, t: Tale, e: Event)
    requires Permits(cfg, t, e) && Next(t, e).pending.None? && Next(t, e).issues > 0
    ensures Next(t, e).binding == t.binding && !e.Issued?
    ensures if e.ResponseClaimed? then e.binding == t.binding else t.pending.None? && t.issues > 0
  {
  }

  lemma {:induction false} Counts(cfg: Config, story: seq<Event>)
    requires Lawful(cfg, story) && story != []
    ensures story[0].Began? && Tell(story).binding == story[0].binding && Tell(story).issues == Requests(story)
    ensures Tell(story).first == if story[0].seed.Some? then (story[0].seed.value + 1) % 256 else 0
  {
    hide Lawful;
    var n := |story| - 1;
    NothingAtFirst(cfg, story);
    LawfulAt(cfg, story, n);
    if n > 0 {
      hide Permits, Next;
      Counts(cfg, story[..n]);
      CountStands(cfg, Tell(story[..n]), story[n]);
      assert story[..n][0] == story[0];
    }
  }

  lemma CountStands(cfg: Config, t: Tale, e: Event)
    requires Permits(cfg, t, e)
    ensures Next(t, e).binding == t.binding && Next(t, e).first == t.first
    ensures Next(t, e).issues == t.issues + if e.Issued? then 1 else 0
  {
  }

  lemma {:induction false} NothingSentAfter(story: seq<Event>, from: nat, c: nat)
    requires from <= c < |story| && forall i :: c < i < |story| ==> !story[i].Issued?
    requires !story[c].Issued?
    ensures SentFrom(story, from) == SentFrom(story[..c], from)
    decreases |story|
  {
    var n := |story| - 1;
    if c < n {
      NothingSentAfter(story[..n], from, c);
      assert story[..n][..c] == story[..c];
    }
  }

  /** Once EAP-TLS was fed, the method never changes again. */
  lemma {:induction false} AfterFeeding(cfg: Config, story: seq<Event>, f: nat, i: nat)
    requires Lawful(cfg, story) && f < i <= |story| && story[f].Fed?
    ensures Tell(story[..i]).fed.Some? && Tell(story[..i]).eapMethod == Some(Tls)
    ensures i < |story| ==> !story[i].Switched? && (story[i].Issued? ==> story[i].eapType == Tls)
    decreases i
  {
    hide Permits, Lawful, Next;
    LawfulAt(cfg, story, i - 1);
    assert story[..i][..i - 1] == story[..i - 1];
    if f < i - 1 {
      AfterFeeding(cfg, story, f, i - 1);
    }
    StillFed(cfg, Tell(story[..i - 1]), story[i - 1]);
    if i < |story| {
      LawfulAt(cfg, story, i);
      StillFed(cfg, Tell(story[..i]), story[i]);
    }
  }

  lemma StillFed(cfg: Config, t: Tale, e: Event)
    requires e.Fed? || (t.fed.Some? && t.eapMethod == Some(Tls))
    ensures Permits(cfg, t, e) ==>
              && Next(t, e).fed.Some? && Next(t, e).eapMethod == Some(Tls) && !e.Switched?
              && (e.Issued? ==> e.eapType == Tls)
  {
  }

  // ---------------------------------------------------------------------------------------
  // EAP-TLS success
  // ---------------------------------------------------------------------------------------

  /** A conversation `story` entitles to an EAP-TLS Accept for `user` over `conn`: the completed
      handshake was fed at `f`, the peer verified at `v` against the same User-Name, the last
      Response claimed at `c`, and since `f` nothing was fed and no method switched to. Over TLS 1.3 the
      commitment record was written after that, every one of its fragments was sent in an EAP-TLS Request
      before `c`, and a receiver of them obtains the record. */
  ghost predicate Entitled(cfg: Config, story: seq<Event>, user: string, conn: Conn, f: nat, v: nat, c: nat) {
    && 0 < f < v < |story| && 0 < c < |story| && story[0].Began?
    && story[f].Fed? && story[f].conn == conn && !conn.handshaking
    && (forall i :: f < i < |story| ==> !story[i].Fed? && !story[i].Switched?)
    && story[v].Verified? && story[v].user == user && story[v].conn == conn
    && Presents(cfg, conn, user)
    && NameOf(cfg, story[0].binding, user)
    && story[c].ResponseClaimed? && story[c].binding == story[0].binding
    && (conn.tls13 ==> exists q :: CommitmentDelivered(cfg, story, v, q, c))
  }

  ghost predicate CommitmentDelivered(cfg: Config, story: seq<Event>, v: nat, q: nat, c: nat) {
    && v < q < c < |story| && story[q].Committed? && story[q].record != []
    && SentFrom(story[..c], q + 1) == TypeData(Fragments(cfg, story[q].record))
    && (forall i :: q < i < c && story[i].Issued? ==> story[i].eapType == Tls)
    && (|story[q].record| <= MAX_MESSAGE_LENGTH ==> Delivers(CLEARED, Fragments(cfg, story[q].record), story[q].record))
  }

  /** Any lawful conversation that permits an EAP-TLS Accept entitles to it. */
  lemma {:induction false} AcceptEntitled(cfg: Config, story: seq<Event>, id: Id, user: string, conn: Conn)
    requires Lawful(cfg, story) && story != [] && Permits(cfg, Tell(story), AcceptedTls(id, user, conn))
    ensures exists f, v, c :: Entitled(cfg, story, user, conn, f, v, c)
  {
    Counts(cfg, story);
    MethodOfStory(cfg, story);
    var c := ClaimPosition(cfg, story);
    var f, v := VerifiedAndFed(cfg, story);
    forall i | f < i < |story| ensures !story[i].Switched? && (story[i].Issued? ==> story[i].eapType == Tls) {
      AfterFeeding(cfg, story, f, i);
    }
    if conn.tls13 {
      var q := CommittedPosition(cfg, story);
      CommittedAfter(cfg, story, v, q);
      ClaimedAfterCommitment(cfg, story, q, c);
      assert CommitmentDelivered(cfg, story, v, q, c);
    }
    assert Entitled(cfg, story, user, conn, f, v, c);
  }

  /** A commitment that stands was written after the verification that stands. */
  lemma {:induction false} CommittedAfter(cfg: Config, story: seq<Event>, v: nat, q: nat)
    requires Lawful(cfg, story) && 0 < v < |story| && story[v].Verified?
    requires 0 < q < |story| && story[q].Committed? && forall i :: q <= i < |story| ==> !story[i].Verified?
    ensures v < q
  {
  }

  /** The last Fed before a Verified, with nothing fed in between. */
  lemma {:induction false} FedBefore(cfg: Config, story: seq<Event>, v: nat) returns (f: nat)
    requires Lawful(cfg, story) && 0 < v < |story| && story[v].Verified?
    ensures 0 < f < v && story[f].Fed? && story[f].conn == story[v].conn && cfg.Verifies(story[v].conn, story[v].user)
    ensures forall i :: f < i < v ==> !story[i].Fed?
  {
    LawfulPrefix(cfg, story, v);
    LawfulAt(cfg, story, v);
    f := FedPosition(cfg, story[..v]);
    forall i | f < i < v ensures !story[i].Fed? {
      assert story[..v][i] == story[i];
    }
  }

  lemma {:induction false} VerifiedAndFed(cfg: Config, story: seq<Event>) returns (f: nat, v: nat)
    requires Lawful(cfg, story) && Tell(story).verified.Some?
    ensures 0 < f < v < |story| && story[f].Fed? && story[v].Verified? && story[f].conn == story[v].conn
    ensures (story[v].user, story[v].conn) == Tell(story).verified.value && cfg.Verifies(story[v].conn, story[v].user)
    ensures forall i :: f < i < |story| ==> !story[i].Fed?
  {
    v := VerifiedPosition(cfg, story);
    f := FedBefore(cfg, story, v);
  }

  lemma {:induction false} SomethingSent(story: seq<Event>, from: nat) returns (i: nat)
    requires SentFrom(story, from) != []
    ensures from <= i < |story| && story[i].Issued?
  {
    var n := |story| - 1;
    if story[n].Issued? {
      i := n;
    } else {
      i := SomethingSent(story[..n], from);
    }
  }

  lemma ClaimedAfterCommitment(cfg: Config, story: seq<Event>, q: nat, c: nat)
    requires q < |story| && 0 < c < |story| && story[q].Committed? && story[q].record != []
    requires story[c].ResponseClaimed? && forall i :: c < i < |story| ==> !story[i].Issued?
    requires SentFrom(story, q + 1) == TypeData(Fragments(cfg, story[q].record))
    ensures q < c && SentFrom(story[..c], q + 1) == TypeData(Fragments(cfg, story[q].record))
    ensures |story[q].record| <= MAX_MESSAGE_LENGTH ==>
            Delivers(CLEARED, Fragments(cfg, story[q].record), story[q].record)
  {
    var record := story[q].record;
    assert Fragments(cfg, record) != [];
    var i := SomethingSent(story, q + 1);
    NothingSentAfter(story, q + 1, c);
    if |record| <= MAX_MESSAGE_LENGTH {
      ReassembledFrom(Job(record, cfg.maxFragment, Always), 0);
    }
  }

  // ---------------------------------------------------------------------------------------
  // Requests and Responses
  // ---------------------------------------------------------------------------------------

  /** In every run, every conversation at every point of the log is lawful. */
  lemma RunLawful(cfg: Config, maxSessions: nat, w: World, n: nat, id: Id)
    requires Reachable(cfg, maxSessions, w) && n <= |w.log|
    ensures Lawful(cfg, Conversation(w.log[..n], id))
  {
    ReachableSafe(cfg, maxSessions, w);
  }

  /** A claimed Response carries the binding the conversation began with and directly follows the Request
      whose Identifier it carries. */
  lemma {:induction false} ClaimSafety(cfg: Config, story: seq<Event>, j: nat)
    requires Lawful(cfg, story) && j < |story| && story[j].ResponseClaimed?
    ensures story[0].Began? && story[j].binding == story[0].binding
    ensures j > 0 && story[j - 1].Issued? && story[j - 1].identifier == story[j].identifier
  {
    LawfulPrefix(cfg, story, j);
    LawfulAt(cfg, story, j);
    LawfulAt(cfg, story, 0);
    Counts(cfg, story[..j]);
    PendingLast(cfg, story[..j]);
  }

  /** Identifiers count the Requests of a conversation, modulo 256; so two Requests fewer than 256 apart carry different
      ones. */
  lemma IdentifierSafety(cfg: Config, story: seq<Event>, i: nat, j: nat)
    requires Lawful(cfg, story) && i < j < |story| && story[i].Issued? && story[j].Issued?
    ensures var apart := Requests(story[..j]) - Requests(story[..i]);
            && story[j].identifier as int == (story[i].identifier as int + apart) % 256
            && (apart < 256 ==> story[i].identifier != story[j].identifier)
  {
    hide Lawful, Requests;
    IssuedIdentifier(cfg, story, i);
    IssuedIdentifier(cfg, story, j);
    RequestsGrow(story, i, j);
    IdentifiersDistinct(FirstIdentifier(story), Requests(story[..i]), Requests(story[..j]));
    IdentifierAhead(FirstIdentifier(story), Requests(story[..i]), Requests(story[..j]));
  }

  lemma IdentifierAhead(first: byte, i: nat, j: nat)
    requires i <= j
    ensures IdentifierAt(first, j) as int == (IdentifierAt(first, i) as int + (j - i)) % 256
  {
  }

  /** None of the first 255 Requests repeats the Identifier of the Identity Response that began
      the conversation. */
  lemma SeedNotReused(cfg: Config, story: seq<Event>, j: nat)
    requires Lawful(cfg, story) && j < |story| && story[j].Issued? && Requests(story[..j]) < 255
    ensures story[0].Began? && (story[0].seed.Some? ==> story[j].identifier != story[0].seed.value)
  {
    LawfulAt(cfg, story, 0);
    IssuedIdentifier(cfg, story, j);
    if story[0].seed.Some? {
      SeedDistinct(story[0].seed.value, FirstIdentifier(story), Requests(story[..j]));
    }
  }

  function FirstIdentifier(story: seq<Event>): byte {
    if story != [] && story[0].Began? && story[0].seed.Some? then (story[0].seed.value + 1) % 256 else 0
  }

  /** What the law says of a Request. */
  lemma RequestLaw(cfg: Config, t: Tale, e: Event)
    requires Permits(cfg, t, e) && e.Issued?
    ensures e.identifier == IdentifierAt(t.first, t.issues) && Fitting(cfg, t, e.eapType, e.data)
    ensures Some(e.eapType) == if t.eapMethod.None? then Preferred(cfg) else t.eapMethod
  {
  }

  lemma IssuedIdentifier(cfg: Config, story: seq<Event>, j: nat)
    requires Lawful(cfg, story) && j < |story| && story[j].Issued?
    ensures story[j].identifier == IdentifierAt(FirstIdentifier(story), Requests(story[..j]))
  {
    hide Permits, Lawful, Tell;
    LawfulAt(cfg, story, j);
    LawfulPrefix(cfg, story, j);
    LawfulAt(cfg, story, 0);
    RequestLaw(cfg, Tell(story[..j]), story[j]);
    Counts(cfg, story[..j]);
    assert story[..j][0] == story[0];
  }

  lemma {:induction false} RequestsGrow(story: seq<Event>, i: nat, j: nat)
    requires i < j <= |story| && story[i].Issued?
    ensures Requests(story[..i]) < Requests(story[..j])
    decreases j
  {
    assert story[..j][..j - 1] == story[..j - 1];
    if i < j - 1 {
      RequestsGrow(story, i, j - 1);
    }
  }

  /** Before its second Request a conversation is its beginning, the first Request and the claimed answer. */
  lemma {:induction false} FirstExchange(cfg: Config, story: seq<Event>)
    requires Lawful(cfg, story) && story != [] && Tell(story).issues <= 1 && Tell(story).switches == 0
    requires Tell(story).fed.None? && !Tell(story).over && Tell(story).heard.None?
    ensures |story| == 1 + Tell(story).issues + if Tell(story).issues == 1 && Tell(story).pending.None? then 1 else 0
    ensures |story| > 1 ==> story[1].Issued? && Some(story[1].eapType) == Tell(story).eapMethod
    ensures |story| > 2 ==> story[2].ResponseClaimed?
  {
    var n := |story| - 1;
    LawfulAt(cfg, story, n);
    if n > 0 {
      MethodOfStory(cfg, story[..n]);
      FirstExchange(cfg, story[..n]);
    }
  }

  lemma TellNext(story: seq<Event>, i: nat)
    requires i < |story|
    ensures Tell(story[..i + 1]) == Next(Tell(story[..i]), story[i])
  {
    assert story[..i + 1][..i] == story[..i];
  }

  /** After a switch comes the Start of the new method. */
  lemma AfterSwitch(cfg: Config, t: Tale, e: Event, next: Event)
    requires Permits(cfg, t, e) && Methodical(cfg, t) && e.Switched? && Permits(cfg, Next(t, e), next)
    ensures next.Issued? && next.eapType == Tls && next.data == [0x20]
  {
  }

  lemma SwitchLaw(cfg: Config, t: Tale, e: Event)
    requires Permits(cfg, t, e) && Methodical(cfg, t) && e.Switched?
    ensures t.issues == 1 && t.switches == 0 && t.fed.None? && !t.over && t.heard.None? && t.pending.None?
    ensures t.eapMethod == Some(Teap) && e.eapMethod == Tls
  {
  }

  /** A method is switched only by the answer to the very first Request, which proposed TEAP, and only to
      EAP-TLS; hence at most once, and before any method data. */
  lemma {:induction false} SwitchAnswersFirst(cfg: Config, story: seq<Event>, j: nat)
    requires Lawful(cfg, story) && j < |story| && story[j].Switched?
    ensures j == 3 && story[1].Issued? && story[1].eapType == Teap && story[2].ResponseClaimed? &&
            story[3].eapMethod == Tls
    ensures |story| > 4 ==> story[4].Issued? && story[4].eapType == Tls && story[4].data == [0x20]
  {
    hide Permits, Lawful, Next, Methodical, Tell;
    LawfulAt(cfg, story, j);
    LawfulPrefix(cfg, story, j);
    MethodOfStory(cfg, story[..j]);
    SwitchLaw(cfg, Tell(story[..j]), story[j]);
    FirstExchange(cfg, story[..j]);
    if |story| > 4 {
      assert j == 3;
      LawfulAt(cfg, story, 4);
      TellNext(story, j);
      AfterSwitch(cfg, Tell(story[..j]), story[j], story[4]);
    }
    assert forall i :: 0 <= i < j ==> story[..j][i] == story[i];
  }

  // ---------------------------------------------------------------------------------------
  // What is sent, and what TLS is fed
  // ---------------------------------------------------------------------------------------

  /** Every conversation starts with one Request: the Start of TEAP (the S bit and version 1) if a realm of that kind is
      configured, and otherwise that of EAP-TLS (the S bit alone), for which the default realm must be. */
  lemma FirstRequest(cfg: Config, story: seq<Event>)
    requires Lawful(cfg, story) && |story| > 1
    ensures story[1].Issued?
    ensures if exists r :: r in cfg.realms && |r| >= 5 && r[..5] == "teap_"
            then story[1].eapType == Teap && story[1].data == [0x21]
            else "" in cfg.realms && story[1].eapType == Tls && story[1].data == [0x20]
  {
    LawfulAt(cfg, story, 0);
    LawfulAt(cfg, story, 1);
    assert story[..1] == [story[0]] && [story[0]][..0] == [];
    assert Tell(story[..1]) == Next(Tell([]), story[0]);
    OfferedRealms(cfg);
  }

  lemma OfferedRealms(cfg: Config)
    ensures cfg.TeapEnabled() <==> exists r :: r in cfg.realms && |r| >= 5 && r[..5] == "teap_"
  {
    if cfg.TeapEnabled() {
      var r :| r in cfg.realms && "teap_" <= r;
      assert r[..5] == "teap_";
    }
  }

  /** From this event on the method has something else to send, or nothing. */
  predicate Speaks(e: Event) { e.Fed? || e.Committed? || e.Ran? || e.Switched? }

  /** What it has to send. */
  function Wants(e: Event): seq<byte> {
    match e
    case Fed(_, _, _, output) => output
    case Committed(_, record) => record
    case Ran(_, _, answer) => if answer.output.Some? then answer.output.value else []
    case _ => []
  }

  function MethodOf(e: Event): EapType { if e.Ran? then Teap else Tls }

  lemma SpeakingStep(cfg: Config, t: Tale, e: Event)
    requires Permits(cfg, t, e) && Methodical(cfg, t) && Speaks(e) && !e.Switched?
    ensures var n := Next(t, e);
            n.message == Wants(e) && n.sent == [] && n.eapMethod == Some(MethodOf(e)) && n.issues > n.switches
  {
  }

  lemma SilentStep(cfg: Config, t: Tale, e: Event)
    requires Permits(cfg, t, e) && !Speaks(e) && t.issues > t.switches && t.eapMethod.Some?
    ensures var n := Next(t, e);
            && n.message == t.message && n.sent == t.sent + (if e.Issued? then [e.data] else [])
            && n.eapMethod == t.eapMethod && n.issues > n.switches && (e.Issued? ==> Some(e.eapType) == t.eapMethod)
  {
  }

  /** The method spoke at `f` and not since. */
  ghost predicate SpokeLast(story: seq<Event>, f: nat) {
    && f < |story| && Speaks(story[f]) && !story[f].Switched?
    && forall i :: f < i < |story| ==> !Speaks(story[i])
  }

  lemma {:induction false} SentSince(cfg: Config, story: seq<Event>, f: nat)
    requires Lawful(cfg, story) && SpokeLast(story, f)
    ensures var t, e := Tell(story), story[f];
            && t.message == Wants(e) && t.sent == SentFrom(story, f + 1) && t.eapMethod == Some(MethodOf(e))
            && t.issues > t.switches
    ensures forall i :: f < i < |story| && story[i].Issued? ==> story[i].eapType == MethodOf(story[f])
    decreases |story|
  {
    hide Permits, Lawful, Next, Methodical;
    var n := |story| - 1;
    LawfulPrefix(cfg, story, n);
    LawfulAt(cfg, story, n);
    if f == n {
      LawfulAt(cfg, story, 0);
      MethodOfStory(cfg, story[..n]);
      SpeakingStep(cfg, Tell(story[..n]), story[n]);
    } else {
      SentSince(cfg, story[..n], f);
      SilentStep(cfg, Tell(story[..n]), story[n]);
      assert forall i :: 0 <= i < n ==> story[..n][i] == story[i];
    }
  }

  /** The fragments of what the method wants sent. */
  function Pieces(cfg: Config, e: Event): seq<EapTlsPacket> {
    Job(Wants(e), cfg.maxFragment, if e.Ran? then FragmentedOnly else Always).Packets()
  }

  /** In every conversation, the Requests since TLS was fed, the commitment record written or the TEAP state machine run
      carry, one after the other, the fragments of what that gave to send; after the last of them only
      acknowledgements follow, which carry nothing. */
  lemma {:induction false} RequestsInOrder(cfg: Config, story: seq<Event>, f: nat)
    requires Lawful(cfg, story) && SpokeLast(story, f)
    ensures var pieces, sent, teap := Pieces(cfg, story[f]), SentFrom(story, f + 1), story[f].Ran?;
            forall i :: 0 <= i < |sent| ==>
              sent[i] == if i >= |pieces| then [if teap then 1 else 0]
                         else if teap then TeapTypeData(pieces[i]) else EncodeTls(pieces[i])
    ensures forall i :: f < i < |story| && story[i].Issued? ==> story[i].eapType == if story[f].Ran? then Teap else Tls
  {
    SentSince(cfg, story, f);
    SentOfStory(cfg, story);
    hide Lawful, SentFrom, SpokeLast, Tell;
    var t := Tell(story);
    assert Wire(cfg, t.eapMethod.value, t.message) == Wire(cfg, MethodOf(story[f]), Wants(story[f]));
  }

  /** Nothing the peer sends is looked at before all of them were sent. */
  lemma {:induction false} NothingSkipped(cfg: Config, story: seq<Event>, f: nat, g: nat)
    requires Lawful(cfg, story) && g < |story| && SpokeLast(story[..g], f) && (story[g].Taken? || story[g].Ran?)
    ensures |SentFrom(story[..g], f + 1)| >= |Pieces(cfg, story[f])|
  {
    hide Lawful, SentFrom, Tell, Next;
    LawfulPrefix(cfg, story, g);
    LawfulAt(cfg, story, g);
    SentSince(cfg, story[..g], f);
    assert story[..g][f] == story[f];
  }

  /** So a peer that decodes the Requests since a feed, before its own next packet is taken, has the flight. */
  lemma {:induction false} FlightDelivered(cfg: Config, story: seq<Event>, f: nat, g: nat)
    requires Lawful(cfg, story) && g < |story| && SpokeLast(story[..g], f) && story[g].Taken? && story[f].Fed?
    requires 1 <= |story[f].output| <= MAX_MESSAGE_LENGTH
    ensures var sent := SentFrom(story[..g], f + 1);
            exists packets: seq<EapTlsPacket> ::
              && |packets| <= |sent| && Delivers(CLEARED, packets, story[f].output)
              && forall i :: 0 <= i < |packets| ==> DecodeTls(sent[i]) == Success(packets[i])
  {
    hide Lawful, SentFrom, DecodeTls, EncodeTls, Delivers;
    var packets, sent := Pieces(cfg, story[f]), SentFrom(story[..g], f + 1);
    LawfulPrefix(cfg, story, g);
    RequestsInOrder(cfg, story[..g], f);
    NothingSkipped(cfg, story, f, g);
    assert story[..g][f] == story[f];
    var job := Job(story[f].output, cfg.maxFragment, Always);
    ReassembledFrom(job, 0);
    forall i | 0 <= i < |packets| ensures DecodeTls(sent[i]) == Success(packets[i]) {
      PacketAt(job, 0, i);
      TlsRoundTrip(packets[i]);
    }
  }

  /** The packets taken in `story[from..]`. */
  function TakenFrom(story: seq<Event>, from: nat): seq<EapTlsPacket> {
    if |story| <= from then []
    else
      var before, last := story[..|story| - 1], story[|story| - 1];
      TakenFrom(before, from) + if last.Taken? then [last.packet] else []
  }

  lemma TakingStep(cfg: Config, t: Tale, e: Event)
    requires Permits(cfg, t, e)
    ensures Next(t, e).taken == if e.Fed? then [] else t.taken + if e.Taken? then [e.packet] else []
  {
  }

  lemma {:induction false} TakenSince(cfg: Config, story: seq<Event>, g: nat)
    requires Lawful(cfg, story) && g < |story| && (g == 0 || story[g].Fed?)
    requires forall i :: g < i < |story| ==> !story[i].Fed?
    ensures Tell(story).taken == TakenFrom(story, g + 1)
    decreases |story|
  {
    hide Permits, Lawful;
    var n := |story| - 1;
    LawfulPrefix(cfg, story, n);
    LawfulAt(cfg, story, n);
    if g < n {
      hide Next;
      TakenSince(cfg, story[..n], g);
      TakingStep(cfg, Tell(story[..n]), story[n]);
    }
  }

  lemma FeedLaw(cfg: Config, t: Tale, e: Event)
    requires Permits(cfg, t, e)
    ensures e.Fed? ==> Completes(t.taken, e.message)
    ensures e.Taken? || e.Ran? || e.Switched? ==> t.claimed
  {
  }

  /** Every message TLS is fed is the data of the packets taken since it was fed before, or since the conversation
      began: all but the last of them with the M bit set and none with the S bit, and of the length announced. */
  lemma {:induction false} MessagesWhole(cfg: Config, story: seq<Event>, g: nat, f: nat)
    requires Lawful(cfg, story) && g < f < |story| && story[f].Fed? && (g == 0 || story[g].Fed?)
    requires forall i :: g < i < f ==> !story[i].Fed?
    ensures var packets, message := TakenFrom(story[..f], g + 1), story[f].message;
            && packets != [] && message == Flatten(Payloads(packets)) && |message| <= MAX_MESSAGE_LENGTH
            && (forall i :: 0 <= i < |packets| ==>
                  !packets[i].flags.start && (packets[i].flags.more <==> i < |packets| - 1))
            && (|packets| > 1 || packets[0].flags.length ==> packets[0].messageLength == Some(|message|))
  {
    hide Lawful, Permits, Tell, TakenFrom;
    LawfulPrefix(cfg, story, f);
    LawfulAt(cfg, story, f);
    TakenSince(cfg, story[..f], g);
    FeedLaw(cfg, Tell(story[..f]), story[f]);
    CompletesMeaning(Tell(story[..f]).taken, story[f].message);
  }

  /** A method takes at most one packet from a Response, and first of all. */
  lemma {:induction false} OnePacketEach(cfg: Config, story: seq<Event>, i: nat)
    requires Lawful(cfg, story) && i < |story| && (story[i].Taken? || story[i].Ran? || story[i].Switched?)
    ensures i > 0 && story[i - 1].ResponseClaimed?
  {
    hide Permits, Lawful, Next, Tell;
    LawfulAt(cfg, story, i);
    assert i > 0;
    FeedLaw(cfg, Tell(story[..i]), story[i]);
    TellNext(story, i - 1);
    ClaimedBy(Tell(story[..i - 1]), story[i - 1]);
  }

  lemma ClaimedBy(t: Tale, e: Event)
    ensures Next(t, e).claimed ==> e.ResponseClaimed?
  {
  }

  // ---------------------------------------------------------------------------------------
  // Between calls
  // ---------------------------------------------------------------------------------------

  /** After any run: at most `maxSessions` conversations live, each with the state of exactly one
      method, no method state without a conversation, and the outstanding Identifier of each is
      that of the last Request of its conversation in the log. */
  lemma BetweenCalls(cfg: Config, maxSessions: nat, w: World)
    requires Reachable(cfg, maxSessions, w)
    ensures |w.h.m.sessions| <= maxSessions
    ensures w.h.tls.Keys + w.h.teap.Keys == w.h.m.sessions.Keys && w.h.tls.Keys !! w.h.teap.Keys
    ensures forall id :: id in w.h.m.sessions ==> w.h.m.sessions[id].state.Initialize? && AwaitsAnswer(w, id)
  {
    ReachableSafe(cfg, maxSessions, w);
    forall id | id in w.h.m.sessions ensures AwaitsAnswer(w, id) {
      SafeAwaits(cfg, w, id);
    }
    OneMethodEach(cfg, w.h, w.clock);
  }

  lemma SafeAwaits(cfg: Config, w: World, id: Id)
    requires LawfulLog(cfg, w.log) && id in w.h.m.sessions && Matches(cfg, w.h, w.log, id) && Settled(cfg, w.h, id)
    ensures AwaitsAnswer(w, id)
  {
    LawfulNow(cfg, w.log, id);
    PendingLast(cfg, Conversation(w.log, id));
  }

  lemma OneMethodEach(cfg: Config, h: Handler, clock: nat)
    requires Structured(cfg, h, clock)
    ensures h.tls.Keys + h.teap.Keys == h.m.sessions.Keys && h.tls.Keys !! h.teap.Keys
  {
    assert forall id :: id in h.m.sessions ==> Settled(cfg, h, id);
  }

  /** The last event of the conversation is the Request with the outstanding Identifier. */
  ghost predicate AwaitsAnswer(w: World, id: Id)
    requires id in w.h.m.sessions
  {
    var story := Conversation(w.log, id);
    && story != [] && story[|story| - 1].Issued?
    && w.h.m.sessions[id].outstanding == Some(story[|story| - 1].identifier)
  }

  // ---------------------------------------------------------------------------------------
  // What calls return
  // ---------------------------------------------------------------------------------------

  function Answer(cfg: Config, w: World, call: Call): Out
    requires call.Packet?
  {
    Authenticate(cfg, w.h, call.request, call.client, call.env)
  }

  /** TEAP is in use, or was just declined, and nothing was fed. */
  predicate TeapOrDeclined(t: Tale) {
    t.fed.None? && (t.eapMethod == Some(Teap) || (t.eapMethod == Some(Tls) && t.issues <= t.switches))
  }

  lemma TeapOrDeclinedNext(cfg: Config, t: Tale, e: Event)
    requires Methodical(cfg, t) && TeapOrDeclined(t) && Permits(cfg, t, e) && !Conclusive(e)
    ensures TeapOrDeclined(Next(t, e))
  {
  }

  lemma {:induction false} TeapUnfed(cfg: Config, story: seq<Event>, more: seq<Event>)
    requires Lawful(cfg, story + more) && story != [] && Tell(story).eapMethod == Some(Teap) && Inconclusive(more)
    ensures TeapOrDeclined(Tell(story + more))
    decreases |more|
  {
    hide Permits, Next;
    if more == [] {
      assert story + more == story;
      MethodOfStory(cfg, story);
    } else {
      hide Methodical, TeapOrDeclined;
      var n, all := |more| - 1, story + more;
      assert all[..|all| - 1] == story + more[..n] && all[|all| - 1] == more[n];
      TeapUnfed(cfg, story, more[..n]);
      MethodOfStory(cfg, story + more[..n]);
      TeapOrDeclinedNext(cfg, Tell(story + more[..n]), more[n]);
    }
  }

  lemma TlsStaysNext(cfg: Config, t: Tale, e: Event)
    requires t.eapMethod == Some(Tls) && Permits(cfg, t, e)
    ensures Next(t, e).eapMethod == Some(Tls)
  {
  }

  /** While EAP-TLS is in use it stays so. */
  lemma {:induction false} TlsStays(cfg: Config, story: seq<Event>, more: seq<Event>)
    requires Lawful(cfg, story + more) && story != [] && Tell(story).eapMethod == Some(Tls)
    ensures Tell(story + more).eapMethod == Some(Tls)
    decreases |more|
  {
    hide Permits, Next;
    if more == [] {
      assert story + more == story;
    } else {
      var n, all := |more| - 1, story + more;
      assert all[..|all| - 1] == story + more[..n] && all[|all| - 1] == more[n];
      TlsStays(cfg, story, more[..n]);
      TlsStaysNext(cfg, Tell(story + more[..n]), more[n]);
    }
  }

  /** Some connection entitles `user`. */
  ghost predicate EntitledOver(cfg: Config, story: seq<Event>, user: string) {
    exists conn, f, v, c :: Entitled(cfg, story, user, conn, f, v, c)
  }

  /** An Access-Accept for `request`: it answers the outstanding Request of the conversation its State names,
      from who began it. An EAP-TLS conversation entitles its own User-Name to it, with the keys exported by TLS;
      a TEAP conversation has it from the TEAP state machine, complete with an MSK, at this very packet. */
  ghost predicate Justified(cfg: Config, w: World, call: Call)
    requires call.Packet?
  {
    var out, user, named :=
        Answer(cfg, w, call), UserName(cfg, call.request), SessionIdForState(Find(call.request, STATE));
    && Read(call.request).Answering? && named.Some? && named.value in w.h.m.sessions && out.log != []
    && var p, id, story := Read(call.request).response, named.value, Conversation(w.log, named.value);
       && w.h.m.sessions[id].binding == ConversationBinding(call.request, call.client)
       && w.h.m.sessions[id].outstanding == Some(p.identifier)
       && match w.h.m.sessions[id].eapMethod
          case Some(Tls) =>
            && call.env.keys.Some? && out.result == Accepting(p.identifier, call.env.keys.value)
            && EntitledOver(cfg, story + out.log[..|out.log| - 1], user)
          case Some(Teap) =>
            && Completed(cfg, p.data, call.env)
            && out.result == Accepting(p.identifier, call.env.teapAnswer.value.msk.value)
          case _ => false
  }

  /** In every run, every Access-Accept returned is justified. */
  lemma {:induction false} AcceptSafety(cfg: Config, maxSessions: nat, w: World, call: Call)
    requires Reachable(cfg, maxSessions, w) && call.Packet? && Timely(w, call)
    requires Answer(cfg, w, call).result.Accept?
    ensures Justified(cfg, w, call)
  {
    ReachableSafe(cfg, maxSessions, w);
    AcceptJustified(cfg, w, call);
  }

  lemma {:induction false} AcceptLogged(cfg: Config, w: World, call: Call)
    requires Safe(cfg, w) && call.Packet? && Timely(w, call) && Answer(cfg, w, call).result.Accept?
    ensures Answer(cfg, w, call).log != []
  {
    hide Authenticate;
    CallKeeps(cfg, w.h, call.request, call.client, call.env, w.clock);
  }

  lemma {:induction false} AcceptJustified(cfg: Config, w: World, call: Call)
    requires Safe(cfg, w) && call.Packet? && Timely(w, call) && Answer(cfg, w, call).result.Accept?
    ensures Justified(cfg, w, call)
  {
    hide Authenticate, Permits, Next, Lawful, Safe, Entitled, Tell, Conversation, Matches;
    var request, client, env := call.request, call.client, call.env;
    var out := Answer(cfg, w, call);
    AcceptLogged(cfg, w, call);
    AuthenticateReports(cfg, w.h, request, client, env);
    PacketContinues(cfg, w, request, client, env);
    var id := out.log[0].id;
    ClaimedLive(cfg, w, call, id);
    var story, n := Conversation(w.log, id), |out.log| - 1;
    AcceptEvent(cfg, story, out, id, w.h.m.sessions[id].eapMethod);
    if out.log[n].AcceptedTls? {
      AcceptEntitled(cfg, story + out.log[..n], id, out.log[n].user, out.log[n].conn);
    }
  }

  /** A claimed conversation was live, with this binding and outstanding Identifier. */
  lemma {:induction false} ClaimedLive(cfg: Config, w: World, call: Call, id: Id)
    requires Safe(cfg, w) && call.Packet? && Timely(w, call) && Read(call.request).Answering?
    requires SessionIdForState(Find(call.request, STATE)) == Some(id) && Answer(cfg, w, call).log != []
    ensures id in w.h.m.sessions && w.h.m.sessions[id].binding == ConversationBinding(call.request, call.client)
    ensures w.h.m.sessions[id].outstanding == Some(Read(call.request).response.identifier)
    ensures Matches(cfg, w.h, w.log, id)
    ensures w.h.m.sessions[id].eapMethod == Some(Tls) || w.h.m.sessions[id].eapMethod == Some(Teap)
    ensures Tell(Conversation(w.log, id)).eapMethod == w.h.m.sessions[id].eapMethod
  {
    var idle := ReapIdle(w.h, call.env.clock.idle);
    ReapIdleKeeps(cfg, w.h, w.clock, call.env.clock.idle);
    RoutedClaim(cfg, idle, call.request, call.client, call.env, id);
    assert idle.m.sessions[id] == w.h.m.sessions[id];
    assert Settled(cfg, w.h, id) && Matches(cfg, w.h, w.log, id);
    LawfulNow(cfg, w.log, id);
    MethodOfStory(cfg, Conversation(w.log, id));
    PendingLast(cfg, Conversation(w.log, id));
  }

  lemma {:induction false} RoutedClaim(cfg: Config, h: Handler, request: seq<Attribute>, client: Option<Ip>, env: Env,
                                       id: Id)
    requires Read(request).Answering? && SessionIdForState(Find(request, STATE)) == Some(id)
    requires Route(cfg, h, request, client, env).log != []
    ensures h.m.ClaimOf(id, ConversationBinding(request, client), Read(request).response.identifier).Claimed?
  {
    RouteRefuses(cfg, h, request, client, env);
  }

  lemma AcceptOfMethod(cfg: Config, t: Tale, e: Event)
    requires Permits(cfg, t, e) && (e.AcceptedTls? || e.AcceptedTeap?)
    ensures (TeapOrDeclined(t) ==> e.AcceptedTeap?) && (t.eapMethod == Some(Tls) ==> e.AcceptedTls?)
  {
  }

  /** The acceptance that ends a call was permitted, and is of the conversation's method. */
  lemma {:induction false} AcceptEvent(cfg: Config, story: seq<Event>, out: Out, id: Id, eapMethod: Option<EapType>)
    requires story != [] && Recounts(cfg, story, id, out) && out.log != []
    requires Tell(story).eapMethod == eapMethod && (eapMethod == Some(Tls) || eapMethod == Some(Teap))
    requires var n := |out.log| - 1; Inconclusive(out.log[..n]) && (out.log[n].AcceptedTls? || out.log[n].AcceptedTeap?)
    ensures var n := |out.log| - 1;
            && Lawful(cfg, story + out.log[..n]) && Permits(cfg, Tell(story + out.log[..n]), out.log[n])
            && (out.log[n].AcceptedTls? <==> eapMethod == Some(Tls))
  {
    hide Permits, Next, Lawful, TeapOrDeclined;
    var n, all := |out.log| - 1, story + out.log;
    assert all[..|all| - 1] == story + out.log[..n];
    LawfulAt(cfg, all, |all| - 1);
    LawfulPrefix(cfg, all, |all| - 1);
    if eapMethod == Some(Teap) {
      TeapUnfed(cfg, story, out.log[..n]);
    } else {
      TlsStays(cfg, story, out.log[..n]);
    }
    AcceptOfMethod(cfg, Tell(story + out.log[..n]), out.log[n]);
  }

  /** In every run, the State of a Challenge names a live conversation, and its attributes carry that
      conversation's outstanding Request; they decode to it exactly when its Type-Data has at most 65530 octets,
      and it never exceeds the configured fragment size. */
  lemma {:induction false} ChallengeNamesConversation(cfg: Config, maxSessions: nat, w: World, call: Call)
    requires Reachable(cfg, maxSessions, w) && call.Packet? && Timely(w, call) && Answer(cfg, w, call).result.Challenge?
    ensures exists id, p :: CarriesRequest(cfg, Answer(cfg, w, call), id, p)
  {
    ReachableSafe(cfg, maxSessions, w);
    ChallengeCarries(cfg, w, call);
  }

  ghost predicate CarriesRequest(cfg: Config, out: Out, id: Id, p: EapPacket) {
    && out.result.Challenge? && SessionIdForState(Some(out.result.state)) == Some(id) && id in out.h.m.sessions
    && p.code.Request? && p.eapType == out.h.m.sessions[id].eapMethod
    && out.h.m.sessions[id].outstanding == Some(p.identifier)
    && |p.data| <= cfg.maxFragment && out.result.attributes == ToAttributes(p)
    && (FromAttributes(out.result.attributes) == Success(Some(p)) <==> |p.data| <= MAX_TYPE_DATA)
  }

  lemma {:induction false} ChallengeCarries(cfg: Config, w: World, call: Call)
    requires Safe(cfg, w) && call.Packet? && Timely(w, call) && Answer(cfg, w, call).result.Challenge?
    ensures exists id, p :: CarriesRequest(cfg, Answer(cfg, w, call), id, p)
  {
    var out := Answer(cfg, w, call);
    CallKeeps(cfg, w.h, call.request, call.client, call.env, w.clock);
    var id, e := out.log[0].id, out.log[|out.log| - 1];
    assert Settled(cfg, out.h, id);
    var p := EapPacket(Request, e.identifier, Some(e.eapType), e.data);
    SplitAllEap(EncodeEap(p));
    AttributesRoundTrip(p, out.result.attributes);
    assert CarriesRequest(cfg, out, id, p);
  }

  // ---------------------------------------------------------------------------------------
  // The log of a run is what the run returned
  // ---------------------------------------------------------------------------------------

  datatype Utterance = Asked(challenge: AuthResult) | Admitted(user: string)

  function Said(e: Event): seq<Utterance> {
    match e
    case Issued(id, identifier, eapType, data) => [Asked(Challenging(id, identifier, eapType, data))]
    case AcceptedTls(_, user, _) => [Admitted(user)]
    case AcceptedTeap(_, user) => [Admitted(user)]
    case _ => []
  }

  /** The Challenges and acceptances a log tells of. */
  function Spoken(log: seq<Event>): seq<Utterance> {
    if log == [] then [] else Spoken(log[..|log| - 1]) + Said(log[|log| - 1])
  }

  /** What one call returns to the NAS. */
  function Returned(cfg: Config, w: World, call: Call): seq<Utterance> {
    if !call.Packet? then []
    else
      match Answer(cfg, w, call).result
      case Challenge(state, attributes) => [Asked(Challenge(state, attributes))]
      case Accept(_, _) => [Admitted(UserName(cfg, call.request))]
      case _ => []
  }

  /** What the calls of a run return, in order. */
  function Heard(cfg: Config, w: World, calls: seq<Call>): seq<Utterance> {
    if calls == [] then []
    else
      var before := calls[..|calls| - 1];
      Heard(cfg, w, before) + Returned(cfg, Play(cfg, w, before), calls[|calls| - 1])
  }

  lemma {:induction false} SpokenConcat(a: seq<Event>, b: seq<Event>)
    ensures Spoken(a + b) == Spoken(a) + Spoken(b)
    decreases |b|
  {
    if b == [] {
      assert a + b == a;
    } else {
      var n := |b| - 1;
      assert (a + b)[..|a + b| - 1] == a + b[..n];
      SpokenConcat(a, b[..n]);
      Associative(Spoken(a), Spoken(b[..n]), Said(b[n]));
    }
  }

  lemma {:induction false} InconclusiveSilent(log: seq<Event>)
    requires Inconclusive(log)
    ensures Spoken(log) == []
  {
    if log != [] {
      InconclusiveSilent(log[..|log| - 1]);
    }
  }

  lemma {:induction false} CallSpoken(cfg: Config, w: World, call: Call)
    requires call.Packet?
    ensures Spoken(Answer(cfg, w, call).log) == Returned(cfg, w, call)
  {
    var out := Answer(cfg, w, call);
    if out.log == [] {
      RouteRefuses(cfg, ReapIdle(w.h, call.env.clock.idle), call.request, call.client, call.env);
    } else {
      AuthenticateReports(cfg, w.h, call.request, call.client, call.env);
      var read := Read(call.request);
      ReportSpoken(cfg, out.log[0].id, UserName(cfg, call.request), if read.Answering? then read.response else OPENING,
                   call.env, out);
    }
  }

  lemma {:induction false} ReportSpoken(cfg: Config, id: Id, user: string, p: EapPacket, env: Env, out: Out)
    requires Reports(cfg, id, user, p, env, out)
    ensures Spoken(out.log) == match out.result
                               case Challenge(_, _) => [Asked(out.result)]
                               case Accept(_, _) => [Admitted(user)]
                               case _ => []
  {
    if out.result.Reject? {
      InconclusiveSilent(out.log);
    } else {
      InconclusiveSilent(out.log[..|out.log| - 1]);
    }
  }

  /** Every Request and every acceptance in the log of a run was returned to the NAS, as it is logged and in that
      order, and nothing else was: the log neither invents nor omits a Challenge or an Accept. */
  lemma {:induction false} LogIsWhatWasReturned(cfg: Config, w: World, calls: seq<Call>)
    ensures Spoken(Play(cfg, w, calls).log) == Spoken(w.log) + Heard(cfg, w, calls)
  {
    if calls != [] {
      var before, call := calls[..|calls| - 1], calls[|calls| - 1];
      var w1 := Play(cfg, w, before);
      LogIsWhatWasReturned(cfg, w, before);
      if call.Packet? {
        SpokenConcat(w1.log, Answer(cfg, w1, call).log);
        CallSpoken(cfg, w1, call);
      }
      Associative(Spoken(w.log), Heard(cfg, w, before), Returned(cfg, w1, call));
    }
  }
}
