/**
 The duplicate-request reply cache (section 2.2.2 of RFC 5080).

 A run is a sequence of atomic steps against the shared map: admissions, stored replies and
 removals by the background sweep. Times are readings of one monotonic clock.
 */
module RequestCache {
  import opened Octets

  const MAX_REPLAYS_PER_REQUEST: nat := 8

  datatype Fingerprint = Fingerprint(sourceIp: seq<byte>, identifier: byte, authPrefix: seq<byte>)

  datatype Address = Address(ip: seq<byte>, port: nat)

  type Digest = seq<byte>
  type Reply = seq<byte>

  datatype Entry = Entry(insertedAt: nat, digest: Digest, source: Address, reply: Option<Reply>, replays: nat)

  datatype Admission = New | InProgress | Replay(reply: Reply) | Conflict

  datatype Config = Config(ttl: nat, maxEntries: nat)

  type Entries = map<Fingerprint, Entry>

  datatype Step =
    | Admitted(now: nat, fp: Fingerprint, source: Address, digest: Digest,
               evicted: Option<Fingerprint>, outcome: Admission)
    | Stored(fp: Fingerprint, digest: Digest, reply: Reply)
    | Removed(now: nat, fp: Fingerprint)

  predicate Expired(cfg: Config, e: Entry, now: nat) {
    now - e.insertedAt > cfg.ttl
  }

  /** The answer to a request, given what is remembered under its fingerprint. */
  function Decide(cfg: Config, remembered: Option<Entry>, source: Address, digest: Digest, now: nat): Admission {
    match remembered
    case None => New
    case Some(e) =>
      if Expired(cfg, e, now) then New
      else if e.digest != digest then Conflict
      else if e.source != source || e.replays >= MAX_REPLAYS_PER_REQUEST then InProgress
      else if e.reply.Some? then Replay(e.reply.value)
      else InProgress
  }

  function Lookup(entries: Entries, fp: Fingerprint): Option<Entry> {
    if fp in entries then Some(entries[fp]) else None
  }

  /** What an admission with outcome `outcome` leaves under the fingerprint. */
  function Remember(remembered: Option<Entry>, step: Step): Option<Entry>
    requires step.Admitted?
  {
    match step.outcome
    case New => Some(Entry(step.now, step.digest, step.source, None, 0))
    case Replay(_) => if remembered.Some? then Some(remembered.value.(replays := remembered.value.replays + 1))
      else None
    case _ => remembered
  }

  function WithReply(e: Entry, step: Step): Entry
    requires step.Stored?
  {
    if e.digest == step.digest then e.(reply := Some(step.reply)) else e
  }

  predicate MakesRoom(cfg: Config, entries: Entries, fp: Fingerprint) {
    |entries| >= cfg.maxEntries && fp !in entries && |entries| > 0
  }

  /** `step` can happen in `entries`: the victim is arbitrary, everything else is determined. */
  ghost predicate Enabled(cfg: Config, entries: Entries, step: Step) {
    step.Admitted? ==>
      && (step.evicted.Some? <==> MakesRoom(cfg, entries, step.fp))
      && (step.evicted.Some? ==> step.evicted.value in entries)
      && step.outcome == Decide(cfg, Lookup(entries, step.fp), step.source, step.digest, step.now)
  }

  function Update(entries: Entries, fp: Fingerprint, e: Option<Entry>): Entries {
    if e.Some? then entries[fp := e.value] else entries
  }

  function After(cfg: Config, entries: Entries, step: Step): Entries {
    match step
    case Admitted(_, fp, _, _, evicted, _) =>
      var roomy := if evicted.Some? then entries - {evicted.value} else entries;
      Update(roomy, fp, Remember(Lookup(entries, fp), step))
    case Stored(fp, _, _) =>
      if fp in entries then entries[fp := WithReply(entries[fp], step)] else entries
    case Removed(now, fp) =>
      if fp in entries && Expired(cfg, entries[fp], now) then entries - {fp} else entries
  }

  /** The shared map after a run from an empty cache. */
  function State(cfg: Config, run: seq<Step>): Entries {
    if run == [] then map[] else After(cfg, State(cfg, run[..|run| - 1]), run[|run| - 1])
  }

  function Max(a: nat, b: nat): nat { if a < b then b else a }

  /** The latest clock reading of a run. */
  function Clock(run: seq<Step>): nat {
    if run == [] then 0
    else
      var last := run[|run| - 1];
      if last.Stored? then Clock(run[..|run| - 1]) else Max(Clock(run[..|run| - 1]), last.now)
  }

  /** Admissions read the clock in order. A sweep may work with an older reading. */
  ghost predicate Ordered(run: seq<Step>) {
    run != [] ==>
      var before, last := run[..|run| - 1], run[|run| - 1];
      Ordered(before) && (last.Admitted? ==> Clock(before) <= last.now)
  }

  ghost predicate Valid(cfg: Config, run: seq<Step>) {
    run != [] ==>
      var before, last := run[..|run| - 1], run[|run| - 1];
      && Valid(cfg, before)
      && Enabled(cfg, State(cfg, before), last)
      && (last.Admitted? ==> Clock(before) <= last.now)
  }

  // ---------------------------------------------------------------------------------------
  // The plain history: what is remembered when nothing is ever swept.
  // ---------------------------------------------------------------------------------------

  /** The effect of one step on what is remembered under `fp`. */
  function Recall(remembered: Option<Entry>, step: Step, fp: Fingerprint): Option<Entry> {
    match step
    case Admitted(_, at, _, _, evicted, _) =>
      if at == fp then Remember(remembered, step)
      else if evicted == Some(fp) then None
      else remembered
    case Stored(at, _, _) =>
      if at == fp && remembered.Some? then Some(WithReply(remembered.value, step)) else remembered
    case Removed(_, _) => remembered
  }

  function Record(run: seq<Step>, fp: Fingerprint): Option<Entry> {
    if run == [] then None else Recall(Record(run[..|run| - 1], fp), run[|run| - 1], fp)
  }

  /** The map holds exactly the remembered entries, except that some expired ones are gone. */
  ghost predicate Refines(cfg: Config, run: seq<Step>, fp: Fingerprint) {
    var entries, remembered := State(cfg, run), Record(run, fp);
    && (fp in entries ==> remembered == Some(entries[fp]))
    && (fp !in entries && remembered.Some? ==> Expired(cfg, remembered.value, Clock(run)))
  }

  lemma {:induction false} RefinesHistory(cfg: Config, run: seq<Step>, fp: Fingerprint)
    requires Valid(cfg, run)
    ensures Refines(cfg, run, fp)
  {
    if run != [] {
      var before, last := run[..|run| - 1], run[|run| - 1];
      RefinesHistory(cfg, before, fp);
      if last.Admitted? && last.evicted == Some(fp) {
        assert last.fp != fp;
      }
    }
  }

  /** Every decision of every run is the one computed from the plain history of the run: the
      background sweep and replies stored onto entries it already removed never show. */
  lemma DecisionFromHistory(cfg: Config, run: seq<Step>, i: nat)
    requires Valid(cfg, run) && i < |run| && run[i].Admitted?
    ensures run[i].outcome == Decide(cfg, Record(run[..i], run[i].fp), run[i].source, run[i].digest, run[i].now)
  {
    ValidPrefix(cfg, run, i + 1);
    assert run[..i + 1][..i] == run[..i];
    RefinesHistory(cfg, run[..i], run[i].fp);
  }

  lemma {:induction false} ValidPrefix(cfg: Config, run: seq<Step>, n: nat)
    requires Valid(cfg, run) && n <= |run|
    ensures Valid(cfg, run[..n])
    decreases |run|
  {
    if n < |run| {
      ValidPrefix(cfg, run[..|run| - 1], n);
      assert run[..|run| - 1][..n] == run[..n];
    } else {
      assert run[..n] == run;
    }
  }

  lemma {:induction false} ClockGrows(cfg: Config, run: seq<Step>, i: nat, j: nat)
    requires Valid(cfg, run) && i < j < |run| && run[i].Admitted? && run[j].Admitted?
    ensures run[i].now <= Clock(run[..j]) <= run[j].now
    decreases j
  {
    ValidPrefix(cfg, run, j + 1);
    assert run[..j + 1][..j] == run[..j];
    ClockCovers(run[..j], i);
  }

  lemma {:induction false} ClockCovers(run: seq<Step>, i: nat)
    requires i < |run| && !run[i].Stored?
    ensures run[i].now <= Clock(run)
  {
    if i < |run| - 1 {
      ClockCovers(run[..|run| - 1], i);
    }
  }

  // ---------------------------------------------------------------------------------------
  // What the remembered entry means in terms of the steps of the run.
  // ---------------------------------------------------------------------------------------

  ghost predicate IsNew(step: Step, fp: Fingerprint) {
    step.Admitted? && step.fp == fp && step.outcome == New
  }

  ghost predicate Evicts(step: Step, fp: Fingerprint) {
    step.Admitted? && step.evicted == Some(fp)
  }

  /** How often a reply was sent again for `fp` in `run[from..]`. */
  function Replays(run: seq<Step>, from: nat, fp: Fingerprint): nat
  {
    if |run| <= from then 0
    else
      var last := run[|run| - 1];
      Replays(run[..|run| - 1], from, fp) + if last.Admitted? && last.fp == fp && last.outcome.Replay? then 1 else 0
  }

  /** The last reply stored for this very request in `run[from..]`. */
  function LastReply(run: seq<Step>, from: nat, fp: Fingerprint, digest: Digest): Option<Reply>
  {
    if |run| <= from then None
    else
      var last := run[|run| - 1];
      if last.Stored? && last.fp == fp && last.digest == digest then Some(last.reply)
      else LastReply(run[..|run| - 1], from, fp, digest)
  }

  /** `j` is the admission that started the conversation remembered under `fp`. */
  ghost predicate Origin(run: seq<Step>, j: nat, fp: Fingerprint) {
    j < |run| && IsNew(run[j], fp) && forall k :: j < k < |run| ==> !IsNew(run[k], fp)
  }

  lemma {:induction false} RecordMeaning(cfg: Config, run: seq<Step>, j: nat, fp: Fingerprint)
    requires Valid(cfg, run) && Origin(run, j, fp)
    ensures Record(run, fp).None? <==> exists k :: j < k < |run| && Evicts(run[k], fp)
    ensures Record(run, fp).Some? ==>
              Record(run, fp).value == Entry(run[j].now, run[j].digest, run[j].source,
                                             LastReply(run, j + 1, fp, run[j].digest), Replays(run, j + 1, fp))
    ensures Replays(run, j + 1, fp) <= MAX_REPLAYS_PER_REQUEST
    decreases |run|
  {
    hide State;
    var n := |run| - 1;
    var before, last := run[..n], run[n];
    if j < n {
      assert Origin(before, j, fp) by {
        forall k | j < k < n ensures !IsNew(before[k], fp) { assert before[k] == run[k]; }
      }
      assert run[..n][j] == run[j];
      RecordMeaning(cfg, before, j, fp);
      assert forall k :: j < k < n ==> (Evicts(run[k], fp) <==> Evicts(before[k], fp));
      if Record(before, fp).None? {
        var k :| j < k < n && Evicts(before[k], fp);
        assert Evicts(run[k], fp);
      }
      if last.Admitted? && last.fp == fp {
        DecisionFromHistory(cfg, run, n);
        assert !IsNew(last, fp);
        assert last.evicted != Some(fp);
        if Record(before, fp).Some? {
          assert !Evicts(last, fp);
        }
      }
      if Evicts(last, fp) {
        assert Record(run, fp).None?;
      }
    } else {
      assert last.evicted != Some(fp);
    }
  }

  lemma {:induction false} HasOrigin(cfg: Config, run: seq<Step>, fp: Fingerprint) returns (j: nat)
    requires Valid(cfg, run) && Record(run, fp).Some?
    ensures Origin(run, j, fp)
    decreases |run|
  {
    var n := |run| - 1;
    if IsNew(run[n], fp) {
      j := n;
    } else {
      j := HasOrigin(cfg, run[..n], fp);
      forall k | j < k < |run| ensures !IsNew(run[k], fp) {
        if k < n { assert run[k] == run[..n][k]; }
      }
    }
  }

  // ---------------------------------------------------------------------------------------
  // Safety over whole runs.
  // ---------------------------------------------------------------------------------------

  /** A replay repeats the last reply stored for the same request from the same address,
      which was admitted as new at most one TTL earlier, and is at most the eighth. */
  lemma ReplaySafety(cfg: Config, run: seq<Step>, i: nat)
    requires Valid(cfg, run) && i < |run| && run[i].Admitted? && run[i].outcome.Replay?
    ensures exists j ::
              && 0 <= j < i && Origin(run[..i], j, run[i].fp)
              && run[j].source == run[i].source && run[j].digest == run[i].digest
              && run[i].now - run[j].now <= cfg.ttl
              && LastReply(run[..i], j + 1, run[i].fp, run[i].digest) == Some(run[i].outcome.reply)
              && Replays(run[..i], j + 1, run[i].fp) < MAX_REPLAYS_PER_REQUEST
  {
    var fp := run[i].fp;
    DecisionFromHistory(cfg, run, i);
    ValidPrefix(cfg, run, i);
    var j := HasOrigin(cfg, run[..i], fp);
    RecordMeaning(cfg, run[..i], j, fp);
    assert run[..i][j] == run[j];
  }

  /** At most eight replays follow a New before the next one. */
  lemma ReplaysBounded(cfg: Config, run: seq<Step>, j: nat)
    requires Valid(cfg, run) && j < |run| && run[j].Admitted? && Origin(run, j, run[j].fp)
    ensures Replays(run, j + 1, run[j].fp) <= MAX_REPLAYS_PER_REQUEST
  {
    RecordMeaning(cfg, run, j, run[j].fp);
  }

  /** Within one TTL of the last New, a request is new again exactly when capacity pressure
      evicted it in between. */
  lemma NewWithinTtl(cfg: Config, run: seq<Step>, j: nat, i: nat)
    requires Valid(cfg, run) && j < i < |run| && run[i].Admitted? && Origin(run[..i], j, run[i].fp)
    requires run[i].now - run[j].now <= cfg.ttl
    ensures run[i].outcome == New <==> exists k :: j < k < i && Evicts(run[k], run[i].fp)
  {
    var fp := run[i].fp;
    DecisionFromHistory(cfg, run, i);
    ValidPrefix(cfg, run, i);
    RecordMeaning(cfg, run[..i], j, fp);
    assert forall k :: j < k < i ==> (Evicts(run[..i][k], fp) <==> Evicts(run[k], fp));
    if k :| j < k < i && Evicts(run[k], fp) {
      assert Evicts(run[..i][k], fp);
    }
    if Record(run[..i], fp).None? {
      var k :| j < k < i && Evicts(run[..i][k], fp);
      assert Evicts(run[k], fp);
    }
    assert run[..i][j] == run[j];
  }

  /** What is not new was admitted as new before. */
  lemma {:induction false} KnownHasOrigin(cfg: Config, run: seq<Step>, i: nat)
    requires Valid(cfg, run) && i < |run| && run[i].Admitted?
    ensures run[i].outcome == New || exists j :: 0 <= j < i && Origin(run[..i], j, run[i].fp)
  {
    DecisionFromHistory(cfg, run, i);
    ValidPrefix(cfg, run, i);
    if run[i].outcome != New {
      var j := HasOrigin(cfg, run[..i], run[i].fp);
    }
  }

  /** Every decision of every run, from the steps of the run alone. Let `j` be the last admission of this fingerprint
      as new. The request is new again if that was more than a TTL ago or was evicted since. Otherwise it conflicts
      exactly when its digest is another one; it is answered with reply `r` exactly when digest and source address
      are the same, `r` is the last reply stored for it, and fewer than eight were replayed; and it is in progress in
      every other case. */
  lemma {:induction false} DecisionExactly(cfg: Config, run: seq<Step>, j: nat, i: nat)
    requires Valid(cfg, run) && j < i < |run| && run[i].Admitted? && Origin(run[..i], j, run[i].fp)
    ensures var before, fp, outcome := run[..i], run[i].fp, run[i].outcome;
            var gone := run[i].now - run[j].now > cfg.ttl || exists k :: j < k < i && Evicts(run[k], fp);
            var same := run[i].digest == run[j].digest;
            && (outcome == New <==> gone)
            && (outcome == Conflict <==> !gone && !same)
            && forall r :: outcome == Replay(r) <==>
                 && !gone && same && run[i].source == run[j].source
                 && LastReply(before, j + 1, fp, run[i].digest) == Some(r) && Replays(before, j + 1, fp) < 8
  {
    var before, fp := run[..i], run[i].fp;
    DecisionFromHistory(cfg, run, i);
    ValidPrefix(cfg, run, i);
    RecordMeaning(cfg, before, j, fp);
    hide Record, Replays, LastReply, Valid;
    assert before[j] == run[j];
    assert forall k :: j < k < i ==> (Evicts(before[k], fp) <==> Evicts(run[k], fp));
    if k :| j < k < i && Evicts(run[k], fp) {
      assert Evicts(before[k], fp);
    }
    if k :| j < k < |before| && Evicts(before[k], fp) {
      assert Evicts(run[k], fp);
    }
  }

  ghost predicate NeverEvicts(run: seq<Step>) {
    forall i :: 0 <= i < |run| && run[i].Admitted? ==> run[i].evicted == None
  }

  /** Without capacity evictions, two New decisions for a fingerprint are more than a TTL apart. */
  lemma {:induction false} NewsAreApart(cfg: Config, run: seq<Step>, j: nat, i: nat)
    requires Valid(cfg, run) && NeverEvicts(run)
    requires j < i < |run| && run[i].Admitted? && IsNew(run[j], run[i].fp) && IsNew(run[i], run[i].fp)
    ensures run[i].now - run[j].now > cfg.ttl
    decreases i - j
  {
    var fp := run[i].fp;
    if k :| j < k < i && IsNew(run[k], fp) {
      NewsAreApart(cfg, run, k, i);
      ClockGrows(cfg, run, j, k);
    } else {
      assert Origin(run[..i], j, fp) by {
        assert run[..i][j] == run[j];
        forall k | j < k < i ensures !IsNew(run[..i][k], fp) { assert run[..i][k] == run[k]; }
      }
      if run[i].now - run[j].now <= cfg.ttl {
        NewWithinTtl(cfg, run, j, i);
      }
    }
  }

  /** The fingerprints admitted in a run. */
  function Admittees(run: seq<Step>): set<Fingerprint> {
    set i | 0 <= i < |run| && run[i].Admitted? :: run[i].fp
  }

  lemma {:induction false} HoldsAdmittees(cfg: Config, run: seq<Step>)
    ensures State(cfg, run).Keys <= Admittees(run)
  {
    if run != [] {
      var before, last := run[..|run| - 1], run[|run| - 1];
      HoldsAdmittees(cfg, before);
      assert forall i :: 0 <= i < |before| ==> before[i] == run[i];
      assert Admittees(before) <= Admittees(run);
    }
  }

  /** As long as no more fingerprints were admitted than the cache has room for, nothing is evicted. */
  lemma {:induction false} RoomForAll(cfg: Config, run: seq<Step>)
    requires Valid(cfg, run) && |Admittees(run)| <= cfg.maxEntries
    ensures NeverEvicts(run)
  {
    forall i | 0 <= i < |run| && run[i].Admitted? ensures run[i].evicted == None {
      ValidPrefix(cfg, run, i + 1);
      assert run[..i + 1][..i] == run[..i];
      var held := State(cfg, run[..i]);
      HoldsAdmittees(cfg, run[..i]);
      assert forall k :: 0 <= k < i ==> run[..i][k] == run[k];
      assert held.Keys <= Admittees(run) && run[i].fp in Admittees(run);
      if run[i].fp !in held {
        SubsetSize(held.Keys + {run[i].fp}, Admittees(run));
        assert |held.Keys + {run[i].fp}| == |held| + 1;
      }
    }
  }

  /** A cache with room for one entry never holds more than `maxEntries`. */
  lemma {:induction false} SizeBounded(cfg: Config, run: seq<Step>)
    requires Valid(cfg, run) && cfg.maxEntries >= 1
    ensures |State(cfg, run)| <= cfg.maxEntries
  {
    if run != [] {
      var before, last := run[..|run| - 1], run[|run| - 1];
      SizeBounded(cfg, before);
      var entries := State(cfg, before);
      if last.Admitted? {
        var roomy := if last.evicted.Some? then entries - {last.evicted.value} else entries;
        assert last.evicted.Some? ==> roomy.Keys == entries.Keys - {last.evicted.value};
        var e := Remember(Lookup(entries, last.fp), last);
        if e.Some? {
          assert roomy[last.fp := e.value].Keys == roomy.Keys + {last.fp};
        }
      } else if last.Stored? && last.fp in entries {
        assert After(cfg, entries, last).Keys == entries.Keys;
      } else if last.Removed? {
        assert (entries - {last.fp}).Keys <= entries.Keys;
        SubsetSize((entries - {last.fp}).Keys, entries.Keys);
      }
    }
  }

  // ---------------------------------------------------------------------------------------
  // Background sweeps are invisible.
  // ---------------------------------------------------------------------------------------

  function WithoutSweeps(run: seq<Step>): seq<Step> {
    if run == [] then []
    else
      WithoutSweeps(run[..|run| - 1]) + if run[|run| - 1].Removed? then [] else [run[|run| - 1]]
  }

  /** No admission of the run finds the cache full. */
  ghost predicate NeverFull(cfg: Config, run: seq<Step>) {
    run != [] ==>
      var before, last := run[..|run| - 1], run[|run| - 1];
      NeverFull(cfg, before) && (last.Admitted? ==> |State(cfg, before)| < cfg.maxEntries)
  }

  lemma {:induction false} SameRecord(run: seq<Step>, fp: Fingerprint)
    ensures Record(WithoutSweeps(run), fp) == Record(run, fp)
  {
    if run != [] {
      var before, last := run[..|run| - 1], run[|run| - 1];
      var w := WithoutSweeps(before);
      SameRecord(before, fp);
      if last.Removed? {
        assert w + [] == w;
      } else {
        assert (w + [last])[..|w|] == w;
        assert Record(w + [last], fp) == Recall(Record(w, fp), last, fp);
      }
    }
  }

  lemma {:induction false} SweepsOnlyShrink(cfg: Config, run: seq<Step>)
    requires Ordered(run)
    requires Valid(cfg, run) && Valid(cfg, WithoutSweeps(run))
    ensures State(cfg, run).Keys <= State(cfg, WithoutSweeps(run)).Keys
  {
    if run != [] {
      var before, last := run[..|run| - 1], run[|run| - 1];
      var w := WithoutSweeps(before);
      assert (w + [last])[..|w|] == w && w + [] == w;
      SweepsOnlyShrink(cfg, before);
      RefinesHistory(cfg, before, last.fp);
      RefinesHistory(cfg, w, last.fp);
      SameRecord(before, last.fp);
    }
  }

  lemma {:induction false} ClockWithoutSweeps(run: seq<Step>)
    ensures Clock(WithoutSweeps(run)) <= Clock(run)
  {
    if run != [] {
      ClockWithoutSweeps(run[..|run| - 1]);
      var w := WithoutSweeps(run[..|run| - 1]);
      assert (w + [run[|run| - 1]])[..|w|] == w && w + [] == w;
    }
  }

  /** Inserting sweeps into a run, or dropping them, changes no decision: the sequence with
      sweeps is a run exactly when the one without them is. */
  lemma {:induction false} SweepsInvisible(cfg: Config, run: seq<Step>)
    requires Ordered(run) && NeverFull(cfg, WithoutSweeps(run))
    ensures Valid(cfg, run) <==> Valid(cfg, WithoutSweeps(run))
  {
    if run != [] {
      hide Record, State, Clock;
      var before, last := run[..|run| - 1], run[|run| - 1];
      var w := WithoutSweeps(before);
      assert (w + [last])[..|w|] == w && w + [] == w;
      SweepsInvisible(cfg, before);
      if Valid(cfg, before) && last.Admitted? {
        ClockWithoutSweeps(before);
        RefinesHistory(cfg, before, last.fp);
        RefinesHistory(cfg, w, last.fp);
        SameRecord(before, last.fp);
        SweepsOnlyShrink(cfg, before);
        SubsetSize(State(cfg, before).Keys, State(cfg, w).Keys);
      }
    }
  }

  // ---------------------------------------------------------------------------------------
  // The cache object.
  // ---------------------------------------------------------------------------------------

  /** The map after a sequence of steps from `entries`. */
  function Apply(cfg: Config, entries: Entries, steps: seq<Step>): Entries {
    if steps == [] then entries
    else After(cfg, Apply(cfg, entries, steps[..|steps| - 1]), steps[|steps| - 1])
  }

  lemma {:induction false} ApplySnoc(cfg: Config, entries: Entries, steps: seq<Step>, step: Step)
    ensures Apply(cfg, entries, steps + [step]) == After(cfg, Apply(cfg, entries, steps), step)
  {
    assert (steps + [step])[..|steps|] == steps;
  }

  class Cache {
    var entries: Entries
    const cfg: Config

    constructor (ttl: nat, maxEntries: nat)
      ensures entries == map[] && cfg == Config(ttl, maxEntries)
    {
      entries := map[];
      cfg := Config(ttl, maxEntries);
    }

    method Admit(now: nat, fp: Fingerprint, source: Address, digest: Digest)
      returns (outcome: Admission, ghost step: Step)
      modifies this
      ensures step.Admitted? && step == Admitted(now, fp, source, digest, step.evicted, outcome)
      ensures Enabled(cfg, old(entries), step)
      ensures entries == After(cfg, old(entries), step)
    {
      ghost var evicted := None;
      if |entries| >= cfg.maxEntries && fp !in entries {
        if |entries| > 0 {
          assert entries.Keys != {};
          var victim :| victim in entries.Keys;
          entries := entries - {victim};
          evicted := Some(victim);
        }
      }
      var inserted := Entry(now, digest, source, None, 0);
      if fp !in entries {
        entries := entries[fp := inserted];
        outcome := New;
      } else {
        var e := entries[fp];
        if now - e.insertedAt > cfg.ttl {
          entries := entries[fp := inserted];
          outcome := New;
        } else if e.digest != digest {
          outcome := Conflict;
        } else if e.source != source || e.replays >= MAX_REPLAYS_PER_REQUEST {
          outcome := InProgress;
        } else if e.reply.Some? {
          entries := entries[fp := e.(replays := e.replays + 1)];
          outcome := Replay(e.reply.value);
        } else {
          outcome := InProgress;
        }
      }
      step := Admitted(now, fp, source, digest, evicted, outcome);
    }

    method StoreReply(fp: Fingerprint, digest: Digest, reply: Reply)
      modifies this
      ensures entries == After(cfg, old(entries), Stored(fp, digest, reply))
    {
      if fp in entries && entries[fp].digest == digest {
        entries := entries[fp := entries[fp].(reply := Some(reply))];
      }
    }

    /** `remove_if`: the key goes if its entry is still expired. */
    method RemoveExpired(fp: Fingerprint, now: nat) returns (gone: bool)
      modifies this
      ensures entries == After(cfg, old(entries), Removed(now, fp))
      ensures gone <==> fp in old(entries) && Expired(cfg, old(entries)[fp], now)
      ensures |entries| == |old(entries)| - if gone then 1 else 0
    {
      gone := fp in entries && Expired(cfg, entries[fp], now);
      if gone {
        entries := entries - {fp};
        assert entries.Keys == old(entries).Keys - {fp};
      }
    }

    /** One round of the background task: collect the expired keys, then remove each if it is
        still expired. */
    method Sweep(now: nat) returns (removed: nat, ghost steps: seq<Step>)
      modifies this
      ensures entries == map fp | fp in old(entries) && !Expired(cfg, old(entries)[fp], now) :: old(entries)[fp]
      ensures entries == Apply(cfg, old(entries), steps)
      ensures forall i :: 0 <= i < |steps| ==> steps[i].Removed? && steps[i].now == now
      ensures removed == |old(entries)| - |entries|
    {
      var expired := set fp | fp in entries && Expired(cfg, entries[fp], now);
      removed, steps := 0, [];
      while expired != {}
        invariant expired <= set fp | fp in entries && Expired(cfg, entries[fp], now)
        invariant forall fp :: fp in entries && Expired(cfg, entries[fp], now) ==> fp in expired
        invariant forall fp :: fp in entries ==> fp in old(entries) && entries[fp] == old(entries)[fp]
        invariant forall fp :: fp in old(entries) && !Expired(cfg, old(entries)[fp], now) ==> fp in entries
        invariant entries == Apply(cfg, old(entries), steps)
        invariant forall i :: 0 <= i < |steps| ==> steps[i].Removed? && steps[i].now == now
        invariant removed == |old(entries)| - |entries|
        decreases expired
      {
        var fp :| fp in expired;
        expired := expired - {fp};
        ApplySnoc(cfg, old(entries), steps, Removed(now, fp));
        var gone := RemoveExpired(fp, now);
        if gone {
          removed := removed + 1;
        }
        steps := steps + [Removed(now, fp)];
      }
    }
  }

  /** The octets hashed into a request's identity: the length-prefixed secret, then the request. */
  function DigestInput(secret: seq<byte>, request: seq<byte>): seq<byte>
    requires |secret| < U64_RANGE
  {
    U64(|secret|) + secret + request
  }

  /** The hashed octets determine both the shared secret and the request. */
  lemma DigestInputInjective(secret: seq<byte>, request: seq<byte>, secret': seq<byte>, request': seq<byte>)
    requires |secret| < U64_RANGE && |secret'| < U64_RANGE
    requires DigestInput(secret, request) == DigestInput(secret', request')
    ensures secret == secret' && request == request'
  {
    var d, d' := DigestInput(secret, request), DigestInput(secret', request');
    assert d[..8] == U64(|secret|) && d'[..8] == U64(|secret'|);
    U64Injective(|secret|, |secret'|);
    assert d[8..8 + |secret|] == secret && d'[8..8 + |secret|] == secret';
    assert d[8 + |secret|..] == request && d'[8 + |secret|..] == request';
  }
}
