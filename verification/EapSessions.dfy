/**
 The store of live EAP conversations: a session table, an index that orders it by recency, and
 the Identifier bookkeeping of section 4.1 of RFC 3748.

 `Manager` is the store as a value, with one function per operation; `EapSessionManager` is the
 object that performs them in place. Clock readings are parameters.
 */
module EapSessions {
  import opened Octets
  import opened EapCodec

  type Id = string

  datatype EapState =
    | Initialize | IdentityRequested | IdentityReceived | MethodRequested | ChallengeRequested
    | ResponseReceived | SuccessState | FailureState | Timeout

  predicate CanTransition(from: EapState, to: EapState) {
    match from
    case Initialize => to.IdentityRequested?
    case IdentityRequested => to.IdentityReceived? || to.FailureState? || to.Timeout?
    case IdentityReceived => to.MethodRequested? || to.FailureState?
    case MethodRequested => to.ChallengeRequested? || to.FailureState? || to.Timeout?
    case ChallengeRequested => to.ResponseReceived? || to.FailureState? || to.Timeout?
    case ResponseReceived => to.SuccessState? || to.FailureState? || to.ChallengeRequested?
    case _ => false
  }

  datatype Session = Session(
    state: EapState,
    currentIdentifier: byte,
    eapMethod: Option<EapType>,
    identity: Option<string>,
    lastActivity: nat,
    attemptCount: nat,
    lruSeq: nat,
    outstanding: Option<byte>,
    binding: seq<byte>)
  {
    /** `transition`: an illegal move is refused and leaves the session as it was. */
    function Transition(to: EapState, now: nat): Session {
      if CanTransition(state, to) then this.(state := to, lastActivity := now) else this
    }

    function SeedIdentifierAfter(response: byte): Session {
      this.(currentIdentifier := (response + 1) % 256)
    }

    function NextIdentifier(now: nat): Session {
      this.(currentIdentifier := (currentIdentifier + 1) % 256, outstanding := Some(currentIdentifier),
            lastActivity := now)
    }

    predicate TimedOut(now: nat, timeout: nat) {
      now - lastActivity > timeout
    }
  }

  function NewSession(now: nat): Session {
    Session(Initialize, 0, None, None, now, 0, 0, None, [])
  }

  datatype ResponseClaim = Claimed | UnknownSession | BindingMismatch | IdentifierMismatch

  datatype EvictionReason = Idle | Capacity

  datatype Manager = Manager(
    sessions: map<Id, Session>,
    lru: map<nat, Id>,
    nextSeq: nat,
    timeout: nat,
    maxSessions: nat)
  {
    function Touch(id: Id, now: nat): Manager {
      if id !in sessions then this
      else
        var s := sessions[id];
        this.(sessions := sessions[id := s.(lruSeq := nextSeq, lastActivity := now)],
              lru := (lru - {s.lruSeq})[nextSeq := id],
              nextSeq := nextSeq + 1)
    }

    function Remove(id: Id): Manager {
      if id !in sessions then this
      else this.(sessions := sessions - {id}, lru := lru - {sessions[id].lruSeq})
    }

    function Create(id: Id, now: nat): Manager {
      var m := Remove(id);
      m.(sessions := m.sessions[id := NewSession(now)]).Touch(id, now)
    }

    /** Write to a session through a reference into the table. */
    function Put(id: Id, s: Session): Manager {
      this.(sessions := sessions[id := s])
    }

    function ClaimOf(id: Id, binding: seq<byte>, identifier: byte): ResponseClaim {
      if id !in sessions then UnknownSession
      else if sessions[id].binding != binding then BindingMismatch
      else if sessions[id].outstanding != Some(identifier) then IdentifierMismatch
      else Claimed
    }

    /** `claim_response`: a refusal changes nothing. */
    function Claim(id: Id, binding: seq<byte>, identifier: byte): Manager {
      if ClaimOf(id, binding, identifier).Claimed? then Put(id, sessions[id].(outstanding := None)) else this
    }

    predicate Stale(id: Id, now: nat) {
      id in sessions && sessions[id].TimedOut(now, timeout)
    }

    /** A full scan for timed-out sessions. */
    function SweepIdle(now: nat): Manager {
      this.(sessions := map id | id in sessions && !Stale(id, now) :: sessions[id],
            lru := map q | q in lru && !Stale(lru[q], now) :: lru[q])
    }

    /** The least recently used session, if the index has one. */
    function Oldest(): Option<Id> {
      if lru == map[] || lru[Least(lru.Keys)] !in sessions then None else Some(lru[Least(lru.Keys)])
    }

    /** Drop the least recently used sessions until one more fits. */
    function Trim(): Manager
      decreases |sessions|
    {
      if |sessions| < maxSessions || Oldest().None? then this
      else
        assert (sessions - {Oldest().value}).Keys == sessions.Keys - {Oldest().value};
        Remove(Oldest().value).Trim()
    }

    /** Index and table are in bijection, and sequence numbers are spent in order. */
    ghost predicate Indexed() {
      && 0 < nextSeq
      && (forall id :: id in sessions ==> sessions[id].lruSeq in lru && lru[sessions[id].lruSeq] == id)
      && (forall q :: q in lru ==> 0 < q < nextSeq && lru[q] in sessions && sessions[lru[q]].lruSeq == q)
    }

    ghost predicate InOrder(a: Id, b: Id)
      requires a in sessions && b in sessions
    {
      sessions[a].lruSeq < sessions[b].lruSeq ==> sessions[a].lastActivity <= sessions[b].lastActivity
    }

    /** Moreover, activity times follow the index and never pass `clock`. */
    ghost predicate WellFormed(clock: nat) {
      && Indexed()
      && (forall id :: id in sessions ==> sessions[id].lastActivity <= clock)
      && (forall a, b :: a in sessions && b in sessions ==> InOrder(a, b))
    }
  }

  lemma {:induction false} LeastExists(s: set<nat>) returns (x: nat)
    requires s != {}
    ensures x in s && forall y :: y in s ==> x <= y
  {
    var first :| first in s;
    if s == {first} {
      x := first;
    } else {
      var least := LeastExists(s - {first});
      x := if first < least then first else least;
      assert forall y :: y in s ==> y == first || y in s - {first};
    }
  }

  function Least(s: set<nat>): (x: nat)
    ensures s != {} ==> x in s && forall y :: y in s ==> x <= y
  {
    if s == {} then 0
    else
      assert exists x :: x in s && forall y :: y in s ==> x <= y by { var x := LeastExists(s); }
      var x :| x in s && forall y :: y in s ==> x <= y;
      x
  }

  function EmptyManager(timeout: nat, maxSessions: nat): Manager {
    Manager(map[], map[], 1, timeout, maxSessions)
  }

  // ---------------------------------------------------------------------------------------
  // Every operation keeps the store well-formed.
  // ---------------------------------------------------------------------------------------

  lemma TouchKeeps(m: Manager, id: Id, clock: nat, now: nat)
    requires m.WellFormed(clock) && clock <= now
    ensures m.Touch(id, now).WellFormed(now)
    ensures m.Touch(id, now).sessions.Keys == m.sessions.Keys
  {
    if id in m.sessions {
      var t := m.Touch(id, now);
      assert t.Indexed();
      forall a, b | a in t.sessions && b in t.sessions ensures t.InOrder(a, b) {
        assert a != id && b != id ==> m.InOrder(a, b);
        assert b != id ==> m.sessions[b].lruSeq in m.lru;
      }
    }
  }

  lemma RemoveKeeps(m: Manager, id: Id, clock: nat)
    requires m.WellFormed(clock)
    ensures m.Remove(id).WellFormed(clock)
  {
    var r := m.Remove(id);
    forall a, b | a in r.sessions && b in r.sessions ensures r.InOrder(a, b) {
      assert m.InOrder(a, b);
    }
  }

  lemma CreateKeeps(m: Manager, id: Id, clock: nat, now: nat)
    requires m.WellFormed(clock) && clock <= now
    ensures m.Create(id, now).WellFormed(now)
    ensures m.Create(id, now).sessions == m.sessions[id := NewSession(now).(lruSeq := m.nextSeq)]
  {
    RemoveKeeps(m, id, clock);
    var r, c := m.Remove(id), m.Create(id, now);
    assert c.sessions == m.sessions[id := NewSession(now).(lruSeq := m.nextSeq)];
    assert c.lru == r.lru[m.nextSeq := id];
    assert c.Indexed();
    forall a, b | a in c.sessions && b in c.sessions ensures c.InOrder(a, b) {
      assert a != id && b != id ==> r.InOrder(a, b);
      assert b != id ==> r.sessions[b].lruSeq in r.lru;
    }
  }

  /** Writing a session keeps the order if the session is the newest or its activity stays. */
  lemma PutKeeps(m: Manager, id: Id, s: Session, clock: nat, now: nat)
    requires m.WellFormed(clock) && clock <= now && id in m.sessions && s.lruSeq == m.sessions[id].lruSeq
    requires s.lastActivity == m.sessions[id].lastActivity ||
             (s.lruSeq + 1 == m.nextSeq && clock <= s.lastActivity <= now)
    ensures m.Put(id, s).WellFormed(now)
  {
    var p := m.Put(id, s);
    forall a, b | a in p.sessions && b in p.sessions ensures p.InOrder(a, b) {
      assert m.InOrder(a, b);
      assert m.sessions[b].lruSeq in m.lru;
    }
  }

  /** Creating a session and recording who started it. */
  lemma CreateBoundKeeps(m: Manager, id: Id, binding: seq<byte>, clock: nat, now: nat)
    requires m.WellFormed(clock) && clock <= now
    ensures id in m.Create(id, now).sessions
    ensures var s := NewSession(now).(lruSeq := m.nextSeq, binding := binding);
            var c := m.Create(id, now).Put(id, m.Create(id, now).sessions[id].(binding := binding));
            && c.WellFormed(now) && c.sessions == m.sessions[id := s]
            && c.timeout == m.timeout && c.maxSessions == m.maxSessions
  {
    CreateKeeps(m, id, clock, now);
    PutKeeps(m.Create(id, now), id, m.Create(id, now).sessions[id].(binding := binding), now, now);
  }

  lemma SweepKeeps(m: Manager, clock: nat, now: nat)
    requires m.WellFormed(clock)
    ensures m.SweepIdle(now).WellFormed(clock)
  {
    var s := m.SweepIdle(now);
    forall a, b | a in s.sessions && b in s.sessions ensures s.InOrder(a, b) {
      assert m.InOrder(a, b);
    }
  }

  /** `t` is `m` without some of its sessions. */
  ghost predicate Within(t: Manager, m: Manager) {
    && (forall id :: id in t.sessions ==> id in m.sessions && t.sessions[id] == m.sessions[id])
    && t.nextSeq == m.nextSeq && t.timeout == m.timeout && t.maxSessions == m.maxSessions
  }

  /** Every session of `m` that `t` keeps is more recent than every one it drops. */
  ghost predicate KeepsRecent(m: Manager, t: Manager) {
    forall kept, gone :: kept in t.sessions && kept in m.sessions && gone in m.sessions && gone !in t.sessions ==>
      m.sessions[kept].lruSeq > m.sessions[gone].lruSeq
  }

  /** The sweep keeps exactly the sessions active within the timeout, as they are. */
  lemma SweepExactly(m: Manager, now: nat)
    ensures Within(m.SweepIdle(now), m)
    ensures forall id :: id in m.SweepIdle(now).sessions <==>
              id in m.sessions && now <= m.sessions[id].lastActivity + m.timeout
  {
  }

  lemma OldestMeaning(m: Manager, clock: nat)
    requires m.WellFormed(clock) && m.sessions != map[]
    ensures m.Oldest().Some? && m.Oldest().value in m.sessions
    ensures forall id :: id in m.sessions && id != m.Oldest().value ==>
              m.sessions[m.Oldest().value].lruSeq < m.sessions[id].lruSeq
    ensures |m.Remove(m.Oldest().value).sessions| == |m.sessions| - 1
  {
    var id :| id in m.sessions;
    assert m.sessions[id].lruSeq in m.lru.Keys;
    var oldest := m.Oldest().value;
    assert (m.sessions - {oldest}).Keys == m.sessions.Keys - {oldest};
  }

  lemma KeepsRecentStep(m: Manager, oldest: Id, t: Manager)
    requires oldest in m.sessions
    requires forall id :: id in m.sessions && id != oldest ==> m.sessions[oldest].lruSeq < m.sessions[id].lruSeq
    requires KeepsRecent(m.Remove(oldest), t) && oldest !in t.sessions
    ensures KeepsRecent(m, t)
  {
    var rest := m.Remove(oldest);
    forall kept, gone | kept in t.sessions && kept in m.sessions && gone in m.sessions && gone !in t.sessions
      ensures m.sessions[kept].lruSeq > m.sessions[gone].lruSeq
    {
      assert kept in rest.sessions;
      assert gone != oldest ==> gone in rest.sessions;
    }
  }

  lemma {:induction false} TrimMeaning(m: Manager, clock: nat)
    requires m.WellFormed(clock) && m.maxSessions >= 1
    ensures m.Trim().WellFormed(clock) && Within(m.Trim(), m)
    ensures |m.Trim().sessions| == if |m.sessions| < m.maxSessions then |m.sessions| else m.maxSessions - 1
    ensures KeepsRecent(m, m.Trim())
    decreases |m.sessions|
  {
    if |m.sessions| >= m.maxSessions {
      OldestMeaning(m, clock);
      var oldest := m.Oldest().value;
      RemoveKeeps(m, oldest, clock);
      TrimMeaning(m.Remove(oldest), clock);
      KeepsRecentStep(m, oldest, m.Trim());
    }
  }

  // ---------------------------------------------------------------------------------------
  // Identifiers
  // ---------------------------------------------------------------------------------------

  /** The Identifier of the `k`th Request after `first`. */
  function IdentifierAt(first: byte, k: nat): byte { (first + k) % 256 }

  /** Any 256 consecutive Identifiers are pairwise distinct, and the 257th repeats the first. */
  lemma IdentifiersDistinct(first: byte, i: nat, j: nat)
    requires i < j
    ensures j - i < 256 ==> IdentifierAt(first, i) != IdentifierAt(first, j)
    ensures IdentifierAt(first, i) == IdentifierAt(first, j) <==> (j - i) % 256 == 0
  {
    var a, b := first + i, first + j;
    assert a == 256 * (a / 256) + a % 256 && b == 256 * (b / 256) + b % 256;
    if a % 256 == b % 256 {
      assert j - i == 256 * (b / 256 - a / 256);
    }
    if (j - i) % 256 == 0 {
      var n := (j - i) / 256;
      assert b == a + 256 * n;
      assert b == 256 * (a / 256 + n) + a % 256;
    }
  }

  /** The Identifiers after a seed do not come back to it within 255 Requests. */
  lemma SeedDistinct(seed: byte, first: byte, n: nat)
    requires first == NewSession(0).SeedIdentifierAfter(seed).currentIdentifier && n < 255
    ensures IdentifierAt(first, n) != seed
  {
  }

  // ---------------------------------------------------------------------------------------
  // The store as an object
  // ---------------------------------------------------------------------------------------

  function Ids(evicted: seq<(Id, EvictionReason)>): set<Id> {
    set i | 0 <= i < |evicted| :: evicted[i].0
  }

  /** `evicted` lists the sessions that went from `before` to `after`, each once. */
  ghost predicate Reported(before: map<Id, Session>, after: map<Id, Session>, evicted: seq<(Id, EvictionReason)>) {
    && after == before - Ids(evicted) && Ids(evicted) <= before.Keys
    && forall i, j :: 0 <= i < j < |evicted| ==> evicted[i].0 != evicted[j].0
  }

  lemma ReportOne(before: map<Id, Session>, after: map<Id, Session>, evicted: seq<(Id, EvictionReason)>, id: Id,
                  reason: EvictionReason)
    requires Reported(before, after, evicted) && id in after
    ensures Reported(before, after - {id}, evicted + [(id, reason)])
  {
    var all := evicted + [(id, reason)];
    assert all[|evicted|].0 == id;
    assert forall i :: 0 <= i < |evicted| ==> all[i] == evicted[i] && evicted[i].0 in Ids(evicted);
    assert Ids(all) == Ids(evicted) + {id} by {
      forall x | x in Ids(evicted) ensures x in Ids(all) {
        var i :| 0 <= i < |evicted| && evicted[i].0 == x;
        assert all[i].0 == x;
      }
    }
  }

  class EapSessionManager {
    var sessions: map<Id, Session>
    var lru: map<nat, Id>
    var nextSeq: nat
    var timeout: nat
    var maxSessions: nat

    function Model(): Manager
      reads this
    {
      Manager(sessions, lru, nextSeq, timeout, maxSessions)
    }

    constructor (timeout: nat, maxSessions: nat)
      ensures Model() == EmptyManager(timeout, if maxSessions == 0 then 1 else maxSessions)
      ensures Model().WellFormed(0)
    {
      this.sessions, this.lru, this.nextSeq := map[], map[], 1;
      this.timeout := timeout;
      this.maxSessions := if maxSessions == 0 then 1 else maxSessions;
    }

    method Touch(id: Id, now: nat)
      modifies this
      ensures Model() == old(Model()).Touch(id, now)
    {
      if id in sessions {
        var s := sessions[id];
        lru := lru - {s.lruSeq};
        var q := nextSeq;
        nextSeq := nextSeq + 1;
        sessions := sessions[id := s.(lruSeq := q, lastActivity := now)];
        lru := lru[q := id];
      }
    }

    method CreateSession(id: Id, now: nat)
      modifies this
      ensures Model() == old(Model()).Create(id, now)
    {
      if id in sessions {
        var removed := sessions[id];
        sessions := sessions - {id};
        lru := lru - {removed.lruSeq};
      }
      sessions := sessions[id := NewSession(now)];
      Touch(id, now);
    }

    method GetSessionMut(id: Id, now: nat) returns (s: Option<Session>)
      modifies this
      ensures Model() == old(Model()).Touch(id, now)
      ensures s == if id in old(sessions) then Some(Model().sessions[id]) else None
    {
      Touch(id, now);
      s := if id in sessions then Some(sessions[id]) else None;
    }

    /** Write back a session obtained from `GetSessionMut`. */
    method Put(id: Id, s: Session)
      modifies this
      ensures Model() == old(Model()).Put(id, s)
    {
      sessions := sessions[id := s];
    }

    method ClaimResponse(id: Id, binding: seq<byte>, identifier: byte) returns (claim: ResponseClaim)
      modifies this
      ensures claim == old(Model()).ClaimOf(id, binding, identifier)
      ensures Model() == old(Model()).Claim(id, binding, identifier)
      ensures !claim.Claimed? ==> Model() == old(Model())
    {
      if id !in sessions {
        return UnknownSession;
      }
      if sessions[id].binding != binding {
        return BindingMismatch;
      }
      if sessions[id].outstanding != Some(identifier) {
        return IdentifierMismatch;
      }
      sessions := sessions[id := sessions[id].(outstanding := None)];
      return Claimed;
    }

    method RemoveSession(id: Id)
      modifies this
      ensures Model() == old(Model()).Remove(id)
    {
      if id in sessions {
        var s := sessions[id];
        sessions := sessions - {id};
        lru := lru - {s.lruSeq};
      }
    }

    /** The index entries from the old end up to the first live session. */
    method StaleEntries(now: nat, ghost clock: nat) returns (stale: seq<(nat, Id)>)
      ensures forall e :: e in stale ==> e.0 in lru && lru[e.0] == e.1 && (e.1 in sessions ==> Model().Stale(e.1, now))
      ensures Model().WellFormed(clock) ==>
                forall q :: q in lru && (q, lru[q]) !in stale ==> lru[q] in sessions && !Model().Stale(lru[q], now)
    {
      stale := [];
      var rest := lru.Keys;
      while rest != {}
        invariant rest <= lru.Keys
        invariant forall q :: q in lru ==> q in rest || (q, lru[q]) in stale
        invariant forall e :: e in stale ==>
                    e.0 in lru && lru[e.0] == e.1 && (e.1 in sessions ==> Model().Stale(e.1, now))
        decreases rest
      {
        var q := Least(rest);
        var id := lru[q];
        if id in sessions && !sessions[id].TimedOut(now, timeout) {
          assert Model().WellFormed(clock) ==> forall other :: other in rest ==> Model().InOrder(id, lru[other]);
          break;
        }
        stale := stale + [(q, id)];
        rest := rest - {q};
      }
    }

    /** Evict every idle session. In a well-formed store stopping at the first live session
        finds all of them; in any store it evicts only idle ones and reports each once. */
    method EvictIdleAt(now: nat, ghost clock: nat) returns (evicted: seq<(Id, EvictionReason)>)
      modifies this
      ensures old(Model()).WellFormed(clock) ==> Model() == old(Model()).SweepIdle(now)
      ensures Reported(old(sessions), sessions, evicted)
      ensures (forall e :: e in evicted ==> e.1 == Idle) && IdleWereStale(old(Model()), evicted, now)
      ensures nextSeq == old(nextSeq) && timeout == old(timeout) && maxSessions == old(maxSessions)
    {
      var stale := StaleEntries(now, clock);
      evicted := [];
      for n := 0 to |stale|
        invariant lru == old(lru) - (set i | 0 <= i < n :: stale[i].0)
        invariant Reported(old(sessions), sessions, evicted)
        invariant forall i :: 0 <= i < n ==> stale[i].1 !in sessions
        invariant forall e :: e in evicted ==> e.1 == Idle && old(Model()).Stale(e.0, now)
        invariant nextSeq == old(nextSeq) && timeout == old(timeout) && maxSessions == old(maxSessions)
      {
        var (q, id) := stale[n];
        lru := lru - {q};
        if id in sessions {
          ReportOne(old(sessions), sessions, evicted, id, Idle);
          sessions := sessions - {id};
          evicted := evicted + [(id, Idle)];
        }
      }
      if old(Model()).WellFormed(clock) {
        SweptAll(old(Model()), Model(), stale, evicted, now, clock);
      }
    }

    /** One round of capacity eviction: take the oldest index entry and the session it names,
        or any session if the index is empty. */
    method PopOldest(ghost clock: nat) returns (evicted: Option<Id>)
      requires sessions != map[]
      modifies this
      ensures evicted.Some? ==>
                && evicted.value in old(sessions) && sessions == old(sessions) - {evicted.value}
                && |sessions| == |old(sessions)| - 1
      ensures evicted.None? ==> sessions == old(sessions) && |lru| < |old(lru)|
      ensures old(Model()).WellFormed(clock) ==>
                evicted == old(Model()).Oldest() && evicted.Some? && Model() == old(Model()).Remove(evicted.value)
      ensures nextSeq == old(nextSeq) && timeout == old(timeout) && maxSessions == old(maxSessions)
    {
      if Model().WellFormed(clock) {
        OldestMeaning(Model(), clock);
      }
      var id;
      if lru == map[] {
        id :| id in sessions;
      } else {
        assert lru.Keys != {};
        var q := Least(lru.Keys);
        id := lru[q];
        assert (lru - {q}).Keys == lru.Keys - {q};
        lru := lru - {q};
      }
      evicted := None;
      if id in sessions {
        assert (sessions - {id}).Keys == sessions.Keys - {id};
        sessions := sessions - {id};
        evicted := Some(id);
      }
    }

    /** Make room for one more session. From any state fewer than `maxSessions` remain; from a
        well-formed one exactly the idle sessions and then the least recently used ones go. */
    method EvictAt(now: nat, ghost clock: nat) returns (evicted: seq<(Id, EvictionReason)>)
      requires maxSessions >= 1
      modifies this
      ensures |sessions| < maxSessions
      ensures Reported(old(sessions), sessions, evicted)
      ensures old(Model()).WellFormed(clock) ==> Model() == old(Model()).SweepIdle(now).Trim()
      ensures IdleWereStale(old(Model()), evicted, now)
      ensures nextSeq == old(nextSeq) && timeout == old(timeout) && maxSessions == old(maxSessions)
    {
      evicted := EvictIdleAt(now, clock);
      ghost var swept, wellFormed := Model(), old(Model()).WellFormed(clock);
      if wellFormed {
        SweepKeeps(old(Model()), clock, now);
      }
      while |sessions| >= maxSessions
        invariant nextSeq == old(nextSeq) && timeout == old(timeout) && maxSessions == old(maxSessions)
        invariant Reported(old(sessions), sessions, evicted)
        invariant wellFormed ==> Model().WellFormed(clock) && Model().Trim() == swept.Trim()
        invariant IdleWereStale(old(Model()), evicted, now)
        decreases |sessions|, |lru|
      {
        ghost var before := Model();
        var id := PopOldest(clock);
        if id.Some? {
          ReportOne(old(sessions), before.sessions, evicted, id.value, Capacity);
          evicted := evicted + [(id.value, Capacity)];
        }
        if wellFormed {
          RemoveKeeps(before, id.value, clock);
        }
      }
    }
  }

  /** Only sessions idle past the timeout are reported as idle. */
  predicate IdleWereStale(m: Manager, evicted: seq<(Id, EvictionReason)>, now: nat) {
    forall e :: e in evicted && e.1 == Idle ==> e.0 in m.sessions && m.sessions[e.0].lastActivity + m.timeout < now
  }

  /** Removing the stale index entries and the sessions they name amounts to a full scan. */
  lemma SweptAll(m: Manager, after: Manager, stale: seq<(nat, Id)>, evicted: seq<(Id, EvictionReason)>, now: nat,
                 clock: nat)
    requires m.WellFormed(clock)
    requires forall e :: e in stale ==> e.0 in m.lru && m.lru[e.0] == e.1
    requires forall q :: q in m.lru && (q, m.lru[q]) !in stale ==> !m.Stale(m.lru[q], now)
    requires forall e :: e in stale ==> m.Stale(e.1, now)
    requires forall i :: 0 <= i < |stale| ==> stale[i].1 !in after.sessions
    requires Reported(m.sessions, after.sessions, evicted)
    requires forall e :: e in evicted ==> m.Stale(e.0, now)
    requires after.lru == m.lru - (set i | 0 <= i < |stale| :: stale[i].0)
    requires after.nextSeq == m.nextSeq && after.timeout == m.timeout && after.maxSessions == m.maxSessions
    ensures after == m.SweepIdle(now)
  {
    var swept := m.SweepIdle(now);
    forall id | id in m.sessions ensures id in after.sessions <==> !m.Stale(id, now) {
      var q := m.sessions[id].lruSeq;
      if m.Stale(id, now) {
        assert (q, m.lru[q]) in stale;
        var i :| 0 <= i < |stale| && stale[i] == (q, m.lru[q]);
        assert stale[i].1 == id;
      }
    }
    assert after.sessions == swept.sessions;
    forall q | q in m.lru ensures q in after.lru <==> !m.Stale(m.lru[q], now) {
      if m.Stale(m.lru[q], now) {
        assert (q, m.lru[q]) in stale;
        var i :| 0 <= i < |stale| && stale[i] == (q, m.lru[q]);
        assert stale[i].0 == q;
      }
    }
    assert after.lru == swept.lru;
  }
}
