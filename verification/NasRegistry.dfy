/** The registry of live RadSec connections: registrations replace one another, and a connection that
    closes removes its own registration only. Allocating a token, inserting and dropping a guard are
    separate steps of concurrent connections. */
module Nas {
  import opened Octets

  type NasId = string

  /** The channel into a connection's task. */
  type Sender = nat

  datatype ConnGuard = ConnGuard(nasId: NasId, token: nat)

  datatype Registry = Registry(conns: map<NasId, (nat, Sender)>, issued: nat) {
    function Insert(nasId: NasId, token: nat, tx: Sender): Registry {
      this.(conns := conns[nasId := (token, tx)])
    }

    /** `remove_if`: only the entry with the guard's own token goes. */
    function Drop(guard: ConnGuard): Registry {
      if guard.nasId in conns && conns[guard.nasId].0 == guard.token then this.(conns := conns - {guard.nasId})
        else this
    }
  }

  /** The counter after `n` allocations wraps at `range`. */
  function Token(range: nat, n: nat): nat
    requires range > 0
  {
    n % range
  }

  /** One step of some connection; connections are numbered by their allocation. */
  datatype Step =
    | Allocate
    | Insert(conn: nat, nasId: NasId, tx: Sender)
    | Close(conn: nat, nasId: NasId)

  function Take(range: nat, r: Registry, step: Step): Registry
    requires range > 0
  {
    match step
    case Allocate => r.(issued := r.issued + 1)
    case Insert(n, nasId, tx) => r.Insert(nasId, Token(range, n), tx)
    case Close(n, nasId) => r.Drop(ConnGuard(nasId, Token(range, n)))
  }

  const EMPTY: Registry := Registry(map[], 0)

  function After(range: nat, run: seq<Step>): Registry
    requires range > 0
  {
    if run == [] then EMPTY else Take(range, After(range, run[..|run| - 1]), run[|run| - 1])
  }

  function Allocations(run: seq<Step>): nat {
    if run == [] then 0 else Allocations(run[..|run| - 1]) + if run[|run| - 1].Allocate? then 1 else 0
  }

  predicate InsertsFor(step: Step, conn: nat) { step.Insert? && step.conn == conn }

  predicate Inserted(run: seq<Step>, conn: nat) { exists i :: 0 <= i < |run| && InsertsFor(run[i], conn) }

  /** Each connection allocates, then inserts once, then drops the guard it got for that id. */
  ghost predicate Valid(run: seq<Step>) {
    run == [] ||
    var before, step := run[..|run| - 1], run[|run| - 1];
    && Valid(before)
    && (step.Insert? ==> step.conn < Allocations(before) && !Inserted(before, step.conn))
    && (step.Close? ==> exists tx :: Insert(step.conn, step.nasId, tx) in before)
  }

  /** The latest insertion under an id. */
  function Latest(run: seq<Step>, nasId: NasId): Option<Step> {
    if run == [] then None
    else
      var step := run[|run| - 1];
      if step.Insert? && step.nasId == nasId then Some(step) else Latest(run[..|run| - 1], nasId)
  }

  lemma {:induction false} LatestIn(run: seq<Step>, nasId: NasId)
    requires Latest(run, nasId).Some?
    ensures var step := Latest(run, nasId).value; step.Insert? && step.nasId == nasId && step in run
  {
    var step := run[|run| - 1];
    if !(step.Insert? && step.nasId == nasId) {
      LatestIn(run[..|run| - 1], nasId);
    }
  }

  lemma {:induction false} InsertedAllocated(run: seq<Step>, step: Step)
    requires Valid(run) && step in run && step.Insert?
    ensures step.conn < Allocations(run) && Inserted(run, step.conn)
  {
    var i :| 0 <= i < |run| && run[i] == step;
    assert InsertsFor(run[i], step.conn);
    if i < |run| - 1 {
      assert run[..|run| - 1][i] == step;
      InsertedAllocated(run[..|run| - 1], step);
    }
  }

  lemma SmallToken(range: nat, n: nat)
    requires n < range
    ensures Token(range, n) == n
  {
  }

  /** An id's entry is its latest insertion, unless that insertion's guard was dropped. */
  predicate Current(range: nat, run: seq<Step>, nasId: NasId)
    requires range > 0
  {
    var r, latest := After(range, run), Latest(run, nasId);
    if latest.Some? && latest.value.Insert? && Close(latest.value.conn, nasId) !in run
    then nasId in r.conns && r.conns[nasId] == (Token(range, latest.value.conn), latest.value.tx)
    else nasId !in r.conns
  }

  /** No guard is dropped before its insertion. */
  lemma {:induction false} ClosedInserted(run: seq<Step>, conn: nat, nasId: NasId)
    requires Valid(run) && Close(conn, nasId) in run
    ensures Inserted(run, conn)
  {
    var before, last := run[..|run| - 1], run[|run| - 1];
    assert run == before + [last];
    if Close(conn, nasId) in before {
      ClosedInserted(before, conn, nasId);
      var i :| 0 <= i < |before| && InsertsFor(before[i], conn);
      assert InsertsFor(run[i], conn);
    } else {
      var tx :| Insert(conn, nasId, tx) in before;
      InsertedAllocated(run, Insert(conn, nasId, tx));
    }
  }

  lemma InsertCurrent(range: nat, run: seq<Step>, step: Step)
    requires range > 0 && run != [] && run[|run| - 1] == step && step.Insert? && Valid(run)
    ensures Current(range, run, step.nasId)
  {
    var before := run[..|run| - 1];
    if Close(step.conn, step.nasId) in run {
      assert run == before + [step];
      ClosedInserted(before, step.conn, step.nasId);
    }
  }

  lemma {:induction false} CloseCurrent(range: nat, run: seq<Step>, nasId: NasId)
    requires run != [] && Valid(run) && Allocations(run) <= range && range > 0
    requires run[|run| - 1].Close? && run[|run| - 1].nasId == nasId && Current(range, run[..|run| - 1], nasId)
    ensures Current(range, run, nasId)
  {
    var before, step := run[..|run| - 1], run[|run| - 1];
    assert run == before + [step];
    var tx :| Insert(step.conn, nasId, tx) in before;
    InsertedAllocated(before, Insert(step.conn, nasId, tx));
    SmallToken(range, step.conn);
    var latest := Latest(before, nasId);
    if latest.Some? {
      LatestIn(before, nasId);
      InsertedAllocated(before, latest.value);
      SmallToken(range, latest.value.conn);
    }
  }

  /** Up to `range` allocations, in every interleaving, an id is registered exactly when its most recent
      insertion has not been dropped, and jobs for it go to that connection. */
  lemma {:induction false} RegistryCurrent(range: nat, run: seq<Step>, nasId: NasId)
    requires range > 0 && Valid(run) && Allocations(run) <= range
    ensures Current(range, run, nasId)
  {
    if run != [] {
      var before, step := run[..|run| - 1], run[|run| - 1];
      RegistryCurrent(range, before, nasId);
      assert run == before + [step];
      if step.Insert? && step.nasId == nasId {
        InsertCurrent(range, run, step);
      } else if step.Close? && step.nasId == nasId {
        CloseCurrent(range, run, nasId);
      }
    }
  }

  /** Dropping any guard but that of an id's latest insertion changes nothing for the id. */
  lemma OlderDropHarmless(range: nat, run: seq<Step>, conn: nat, nasId: NasId, other: NasId)
    requires range > 0 && Valid(run + [Close(conn, other)]) && Allocations(run) <= range
    requires other == nasId ==>
               Latest(run, nasId).Some? && Latest(run, nasId).value.Insert? && Latest(run, nasId).value.conn != conn
    ensures var before, after := After(range, run).conns, After(range, run + [Close(conn, other)]).conns;
            (nasId in before <==> nasId in after) && (nasId in before ==> before[nasId] == after[nasId])
  {
    var longer := run + [Close(conn, other)];
    assert longer[..|longer| - 1] == run;
    RegistryCurrent(range, run, nasId);
    RegistryCurrent(range, longer, nasId);
  }

  // ----- wrap-around -----

  function Allocates(n: nat): seq<Step> { seq(n, _ => Allocate) }

  /** One connection registers; the counter wraps around; a second registers; the first closes. */
  function WrapRun(range: nat, nasId: NasId): seq<Step> {
    Allocates(range + 1) + [Insert(0, nasId, 0), Insert(range, nasId, 1), Close(0, nasId)]
  }

  lemma {:induction false} AllocatesMeaning(range: nat, n: nat)
    requires range > 0
    ensures Valid(Allocates(n)) && Allocations(Allocates(n)) == n && After(range, Allocates(n)) == Registry(map[], n)
  {
    if n > 0 {
      AllocatesMeaning(range, n - 1);
      assert Allocates(n)[..n - 1] == Allocates(n - 1);
    }
  }

  lemma Extend(range: nat, run: seq<Step>, step: Step)
    requires range > 0 && Valid(run)
    requires step.Insert? ==> step.conn < Allocations(run) && !Inserted(run, step.conn)
    requires step.Close? ==> exists tx :: Insert(step.conn, step.nasId, tx) in run
    ensures var longer := run + [step];
            && Valid(longer) && After(range, longer) == Take(range, After(range, run), step)
            && Allocations(longer) == Allocations(run) + (if step.Allocate? then 1 else 0)
  {
    var longer := run + [step];
    assert longer[..|longer| - 1] == run && longer[|longer| - 1] == step;
  }

  /** Both registered, before the first closes. */
  function WrapPrefix(range: nat, nasId: NasId): seq<Step> {
    Allocates(range + 1) + [Insert(0, nasId, 0)] + [Insert(range, nasId, 1)]
  }

  lemma {:induction false} WrapPrefixMeaning(range: nat, nasId: NasId)
    requires range > 0
    ensures var run := WrapPrefix(range, nasId);
            && Valid(run) && Allocations(run) == range + 1 && After(range, run).conns == map[nasId := (0, 1)]
            && Insert(0, nasId, 0) in run && Latest(run, nasId) == Some(Insert(range, nasId, 1))
  {
    hide Valid, Allocations, After;
    var r0 := Allocates(range + 1);
    AllocatesMeaning(range, range + 1);
    Extend(range, r0, Insert(0, nasId, 0));
    var r1 := r0 + [Insert(0, nasId, 0)];
    assert !Inserted(r1, range);
    Extend(range, r1, Insert(range, nasId, 1));
    var r2 := r1 + [Insert(range, nasId, 1)];
    assert r2[range + 1] == Insert(0, nasId, 0) && r2[|r2| - 1] == Insert(range, nasId, 1);
    assert After(range, r2).conns == map[nasId := (0, 1)];
  }

  /** One allocation more than the counter has values, and the guarantee is lost: closing the first
      connection removes the registration of the second. */
  lemma {:induction false} WrapLosesRegistration(range: nat, nasId: NasId)
    requires range > 0
    ensures var run := WrapRun(range, nasId);
            Valid(run) && Allocations(run) == range + 1 && !Current(range, run, nasId)
  {
    var prefix, close := WrapPrefix(range, nasId), Close(0, nasId);
    WrapPrefixMeaning(range, nasId);
    var run := prefix + [close];
    assert WrapRun(range, nasId) == run;
    Extend(range, prefix, close);
    Unconcat(prefix, [close]);
    assert Latest(run, nasId) == Latest(prefix, nasId);
    assert Close(range, nasId) !in run;
    assert nasId !in After(range, run).conns;
  }

  /** The guarantee holds for every interleaving of up to `bound` connections exactly when the counter
      has that many values. */
  lemma {:induction false} GuaranteeExactly(range: nat, bound: nat, nasId: NasId)
    requires range > 0
    ensures (forall run :: Valid(run) && Allocations(run) <= bound ==> Current(range, run, nasId)) <==> bound <= range
  {
    if bound <= range {
      forall run | Valid(run) && Allocations(run) <= bound ensures Current(range, run, nasId) {
        RegistryCurrent(range, run, nasId);
      }
    } else {
      WrapLosesRegistration(range, nasId);
    }
  }

  /** The registry and its counter. */
  class NasRegistry {
    var conns: map<NasId, (nat, Sender)>
    var issued: nat

    function Model(): Registry
      reads this
    {
      Registry(conns, issued)
    }

    constructor ()
      ensures Model() == EMPTY
    {
      conns, issued := map[], 0;
    }

    /** `register`: allocation and insertion of one connection, with nothing in between. */
    method Register(nasId: NasId, tx: Sender) returns (guard: ConnGuard)
      modifies this
      ensures guard == ConnGuard(nasId, Token(U64_RANGE, old(issued)))
      ensures Model() == Take(U64_RANGE, Take(U64_RANGE, old(Model()), Allocate), Insert(old(issued), nasId, tx))
    {
      var token := issued % U64_RANGE;
      issued := issued + 1;
      conns := conns[nasId := (token, tx)];
      guard := ConnGuard(nasId, token);
    }

    /** Closing a connection. */
    method DropGuard(guard: ConnGuard)
      modifies this
      ensures Model() == old(Model()).Drop(guard)
    {
      if guard.nasId in conns && conns[guard.nasId].0 == guard.token {
        conns := conns - {guard.nasId};
      }
    }
  }
}
