/** How many conversations exist when starting one takes two lock sections, one making room and one
    creating the session, and other threads run in between. */
module SessionBound {
  import opened Octets
  import opened EapSessions

  /** The manager, and the callers that have made room but not yet created their session. */
  datatype World = World(m: Manager, pending: set<nat>)

  /** One lock section. `after` is what it leaves behind. */
  datatype Step =
    | MakeRoom(caller: nat, now: nat, after: Manager)
    | Open(caller: nat, id: Id, at: nat)
    | GiveUp(caller: nat)
    | Serve(after: Manager)

  /** A lock section that creates no session: a claim, a touch, a write, a removal, an idle sweep. */
  predicate Shrinks(m: Manager, after: Manager) {
    after.sessions.Keys <= m.sessions.Keys && after.maxSessions == m.maxSessions
  }

  /** With `k` callers at most. Eviction is only known to leave fewer than `maxSessions`, as it does from
      any state, whatever order the callers read their clocks in. */
  predicate Enabled(k: nat, w: World, step: Step) {
    match step
    case MakeRoom(c, _, after) => c < k && c !in w.pending && Shrinks(w.m, after) &&
      |after.sessions| < after.maxSessions
    case Open(c, id, _) => c in w.pending && id !in w.m.sessions
    case GiveUp(c) => c in w.pending
    case Serve(after) => Shrinks(w.m, after)
  }

  function Take(w: World, step: Step): World {
    match step
    case MakeRoom(c, _, after) => World(after, w.pending + {c})
    case Open(c, id, now) => World(w.m.Create(id, now), w.pending - {c})
    case GiveUp(c) => w.(pending := w.pending - {c})
    case Serve(after) => w.(m := after)
  }

  function Start(timeout: nat, maxSessions: nat): World { World(EmptyManager(timeout, maxSessions), {}) }

  function After(w: World, run: seq<Step>): World {
    if run == [] then w else Take(After(w, run[..|run| - 1]), run[|run| - 1])
  }

  predicate Valid(k: nat, w: World, run: seq<Step>) {
    run == [] || (Valid(k, w, run[..|run| - 1]) && Enabled(k, After(w, run[..|run| - 1]), run[|run| - 1]))
  }

  predicate Bounded(k: nat, w: World) {
    && (forall c :: c in w.pending ==> c < k)
    && |w.m.sessions| + |w.pending| <= w.m.maxSessions - 1 + k
  }

  lemma {:induction false} Below(s: set<nat>, k: nat)
    requires forall c :: c in s ==> c < k
    ensures |s| <= k
  {
    if k > 0 {
      Below(s - {k - 1}, k - 1);
    } else {
      assert s == {};
    }
  }

  lemma FewerKeys(a: map<Id, Session>, b: map<Id, Session>)
    requires a.Keys <= b.Keys
    ensures |a| <= |b|
  {
    SubsetSize(a.Keys, b.Keys);
  }

  lemma CreateAddsOne(m: Manager, id: Id, now: nat)
    requires id !in m.sessions
    ensures m.Create(id, now).sessions.Keys == m.sessions.Keys + {id}
    ensures |m.Create(id, now).sessions| == |m.sessions| + 1
    ensures m.Create(id, now).maxSessions == m.maxSessions
  {
    assert m.Create(id, now).sessions.Keys == m.sessions.Keys + {id};
  }

  lemma StepBounded(k: nat, w: World, step: Step)
    requires Bounded(k, w) && Enabled(k, w, step)
    ensures Bounded(k, Take(w, step)) && Take(w, step).m.maxSessions == w.m.maxSessions
  {
    match step
    case MakeRoom(c, _, after) => Below(w.pending + {c}, k);
    case Open(c, id, now) => CreateAddsOne(w.m, id, now);
    case GiveUp(c) =>
    case Serve(after) => FewerKeys(after.sessions, w.m.sessions);
  }

  /** In every interleaving of at most `k` concurrent starts, sessions and room already made together
      stay within `maxSessions - 1 + k`. */
  lemma {:induction false} SessionsBounded(k: nat, timeout: nat, maxSessions: nat, run: seq<Step>)
    requires maxSessions >= 1 && Valid(k, Start(timeout, maxSessions), run)
    ensures var w := After(Start(timeout, maxSessions), run);
            Bounded(k, w) && w.m.maxSessions == maxSessions
  {
    if run != [] {
      SessionsBounded(k, timeout, maxSessions, run[..|run| - 1]);
      StepBounded(k, After(Start(timeout, maxSessions), run[..|run| - 1]), run[|run| - 1]);
    }
  }

  /** One start at a time never exceeds the configured bound. */
  lemma SequentialBound(timeout: nat, maxSessions: nat, run: seq<Step>)
    requires maxSessions >= 1 && Valid(1, Start(timeout, maxSessions), run)
    ensures |After(Start(timeout, maxSessions), run).m.sessions| <= maxSessions
  {
    SessionsBounded(1, timeout, maxSessions, run);
  }

  // ----- the bound is reached -----

  /** Every eviction in the run is the one a well-formed manager performs. */
  predicate Exact(w: World, run: seq<Step>) {
    run == [] ||
    (&& Exact(w, run[..|run| - 1])
     && (run[|run| - 1].MakeRoom? ==>
           run[|run| - 1].after == After(w, run[..|run| - 1]).m.SweepIdle(run[|run| - 1].now).Trim()))
  }

  ghost predicate Reaches(k: nat, timeout: nat, maxSessions: nat, w: World) {
    exists run :: Valid(k, Start(timeout, maxSessions), run) && Exact(Start(timeout, maxSessions), run) &&
                  After(Start(timeout, maxSessions), run) == w
  }

  lemma ReachStep(k: nat, timeout: nat, maxSessions: nat, w: World, step: Step)
    requires Reaches(k, timeout, maxSessions, w) && Enabled(k, w, step)
    requires step.MakeRoom? ==> step.after == w.m.SweepIdle(step.now).Trim()
    ensures Reaches(k, timeout, maxSessions, Take(w, step))
  {
    var start := Start(timeout, maxSessions);
    var run :| Valid(k, start, run) && Exact(start, run) && After(start, run) == w;
    var longer := run + [step];
    assert longer[..|longer| - 1] == run && longer[|longer| - 1] == step;
    assert Valid(k, start, longer) && Exact(start, longer) && After(start, longer) == Take(w, step);
  }

  function Name(n: nat): Id { seq(n, _ => 'a') }

  function Names(n: nat): set<Id> { set i | 0 <= i < n :: Name(i) }

  function Callers(c: nat): (callers: set<nat>)
    ensures forall i :: i in callers <==> 0 <= i < c
  {
    if c == 0 then {} else Callers(c - 1) + {c - 1}
  }

  /** `n` sessions, all as recent as can be, and the first `c` callers pending. */
  predicate Filled(maxSessions: nat, timeout: nat, n: nat, c: nat, w: World) {
    && w.m.maxSessions == maxSessions && w.m.timeout == timeout
    && w.m.sessions.Keys == Names(n) && |w.m.sessions| == n
    && (forall id :: id in w.m.sessions ==> w.m.sessions[id].lastActivity == 0)
    && w.pending == Callers(c)
  }

  lemma NothingEvicted(m: Manager)
    requires |m.sessions| < m.maxSessions && m.Indexed()
    requires forall id :: id in m.sessions ==> m.sessions[id].lastActivity == 0
    ensures m.SweepIdle(0).Trim() == m
  {
    assert forall id :: id in m.sessions ==> !m.Stale(id, 0);
    assert m.SweepIdle(0).sessions == m.sessions && m.SweepIdle(0).lru == m.lru;
  }

  lemma {:induction false} RoomMade(k: nat, timeout: nat, maxSessions: nat, n: nat, c: nat,
                                    w: World) returns (next: World)
    requires Reaches(k, timeout, maxSessions, w) && Filled(maxSessions, timeout, n, c, w) && w.m.WellFormed(0)
    requires n < maxSessions && c < k
    ensures Reaches(k, timeout, maxSessions, next) && Filled(maxSessions, timeout, n, c + 1, next) && next.m == w.m
  {
    NothingEvicted(w.m);
    assert c !in w.pending;
    var step := MakeRoom(c, 0, w.m);
    ReachStep(k, timeout, maxSessions, w, step);
    next := Take(w, step);
  }

  lemma {:induction false} Opened(k: nat, timeout: nat, maxSessions: nat, n: nat, c: nat,
                                  w: World) returns (next: World)
    requires Reaches(k, timeout, maxSessions, w) && Filled(maxSessions, timeout, n, c + 1, w) && w.m.WellFormed(0)
    ensures Reaches(k, timeout, maxSessions, next) && Filled(maxSessions, timeout, n + 1, c, next) &&
            next.m.WellFormed(0)
  {
    NewName(n);
    var step := Open(c, Name(n), 0);
    ReachStep(k, timeout, maxSessions, w, step);
    CreateAddsOne(w.m, Name(n), 0);
    CreateKeeps(w.m, Name(n), 0, 0);
    next := Take(w, step);
  }

  lemma NewName(n: nat)
    ensures Name(n) !in Names(n) && Names(n + 1) == Names(n) + {Name(n)}
  {
    assert forall i: nat :: |Name(i)| == i;
  }

  /** Fill the table one start at a time. */
  lemma {:induction false} FillOneByOne(k: nat, timeout: nat, maxSessions: nat, n: nat) returns (w: World)
    requires n < maxSessions && k >= 1
    ensures Reaches(k, timeout, maxSessions, w) && Filled(maxSessions, timeout, n, 0, w) && w.m.WellFormed(0)
  {
    if n == 0 {
      w := Start(timeout, maxSessions);
      assert Valid(k, w, []) && Exact(w, []) && After(w, []) == w;
    } else {
      var w0 := FillOneByOne(k, timeout, maxSessions, n - 1);
      var w1 := RoomMade(k, timeout, maxSessions, n - 1, 0, w0);
      w := Opened(k, timeout, maxSessions, n - 1, 0, w1);
    }
  }

  /** All callers make room before any creates. */
  lemma {:induction false} AllMakeRoom(k: nat, timeout: nat, maxSessions: nat, n: nat, c: nat) returns (w: World)
    requires n < maxSessions && 1 <= k && c <= k
    ensures Reaches(k, timeout, maxSessions, w) && Filled(maxSessions, timeout, n, c, w) && w.m.WellFormed(0)
  {
    if c == 0 {
      w := FillOneByOne(k, timeout, maxSessions, n);
    } else {
      var w0 := AllMakeRoom(k, timeout, maxSessions, n, c - 1);
      w := RoomMade(k, timeout, maxSessions, n, c - 1, w0);
    }
  }

  lemma {:induction false} AllOpen(k: nat, timeout: nat, maxSessions: nat, n: nat, c: nat,
                                   w: World) returns (end: World)
    requires Reaches(k, timeout, maxSessions, w) && Filled(maxSessions, timeout, n, c, w) && w.m.WellFormed(0)
    ensures Reaches(k, timeout, maxSessions, end) && Filled(maxSessions, timeout, n + c, 0, end)
    decreases c
  {
    if c == 0 {
      end := w;
    } else {
      var next := Opened(k, timeout, maxSessions, n, c - 1, w);
      end := AllOpen(k, timeout, maxSessions, n + 1, c - 1, next);
    }
  }

  /** The bound is exact: `k` concurrent starts can leave `maxSessions - 1 + k` sessions. */
  lemma BoundReached(k: nat, timeout: nat, maxSessions: nat)
    requires k >= 1 && maxSessions >= 1
    ensures exists w :: Reaches(k, timeout, maxSessions, w) && |w.m.sessions| == maxSessions - 1 + k
  {
    var w := AllMakeRoom(k, timeout, maxSessions, maxSessions - 1, k);
    var end := AllOpen(k, timeout, maxSessions, maxSessions - 1, k, w);
  }
}
