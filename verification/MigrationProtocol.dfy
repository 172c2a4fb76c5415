/** Any number of runners on one database, interleaved step by step. */
module MigrationProtocol {
  // The database outlives every runner; a runner's copy of the ledger and its position do not.  A crash is
  // possible in every phase, the transaction that records a failure is a step of its own, and each run may
  // bring its own catalog, target and gap list.

  import opened Common
  import opened MigrationLedger
  import opened MigrationAdmission

  // ---- Consistency of what survives ----

  function AppliedIds(rows: map<int, Row>): set<int> {
    set identifier | identifier in rows && rows[identifier].entry.status == Applied
  }

  ghost predicate DistinctIds(history: seq<Migration>) {
    forall i, j :: 0 <= i < j < |history| ==> history[i].identifier != history[j].identifier
  }

  /** The ledger tells the truth about the schema: exactly the committed bodies are recorded as applied. */
  ghost predicate Consistent(db: Db) {
    && (!db.ledger ==> db.rows == map[] && db.history == [])
    && DistinctIds(db.history)
    && Identifiers(db.history) == AppliedIds(db.rows)
    && (forall i :: 0 <= i < |db.history| ==>
          && db.history[i].identifier in db.rows
          && db.rows[db.history[i].identifier].entry == EntryOf(db.history[i], Applied))
    && (forall identifier :: identifier in db.rows ==> db.rows[identifier].attempts > 0)
  }

  /** Nothing committed is undone: history only grows, and an applied row is final. */
  ghost predicate Extends(before: Db, after: Db) {
    && before.history <= after.history
    && (forall identifier :: identifier in AppliedIds(before.rows) ==>
          identifier in after.rows && after.rows[identifier] == before.rows[identifier])
  }

  lemma ApplyingKeepsConsistency(db: Db, m: Migration)
    requires Consistent(db) && db.ledger
    requires m.identifier !in AppliedIds(db.rows)
    ensures Consistent(RecordApplied(db, m)) && Extends(db, RecordApplied(db, m))
  {
    var after := RecordApplied(db, m);
    assert after.history == db.history + [m];
    forall i | 0 <= i < |db.history| ensures db.history[i].identifier != m.identifier {
      assert db.history[i] in db.history;
      assert db.history[i].identifier in Identifiers(db.history);
    }
    assert Identifiers(after.history) == Identifiers(db.history) + {m.identifier} by {
      forall x | x in Identifiers(after.history) ensures x in Identifiers(db.history) + {m.identifier} {}
      forall x | x in Identifiers(db.history) ensures x in Identifiers(after.history) {
        var n :| n in db.history && n.identifier == x;
        assert n in after.history;
      }
      assert m in after.history;
    }
    assert AppliedIds(after.rows) == AppliedIds(db.rows) + {m.identifier};
  }

  lemma FailingKeepsConsistency(db: Db, m: Migration)
    requires Consistent(db) && db.ledger
    requires m.identifier !in AppliedIds(db.rows)
    ensures Consistent(RecordFailed(db, m)) && Extends(db, RecordFailed(db, m))
  {
    var after := RecordFailed(db, m);
    assert AppliedIds(after.rows) == AppliedIds(db.rows);
    forall i | 0 <= i < |db.history| ensures db.history[i].identifier != m.identifier {
      assert db.history[i] in db.history;
      assert db.history[i].identifier in Identifiers(db.history);
    }
  }

  // ---- The state machine ----

  datatype Phase =
    | Idle
    | Holding(req: Request)
    | Ready(req: Request)
    | Applying(req: Request, pos: nat, seen: map<int, Entry>)
    | Recording(req: Request, pos: nat)

  datatype World = World(db: Db, lock: Option<nat>, phases: map<nat, Phase>)

  datatype Event =
    | Acquire(runner: nat, req: Request)
    | Prepare(runner: nat)
    | Snapshot(runner: nat)
    | Skip(runner: nat)
    | Commit(runner: nat)
    | Fail(runner: nat)
    | Record(runner: nat)
    | LoseRecord(runner: nat)
    | Finish(runner: nat)
    | Crash(runner: nat)

  function PhaseOf(w: World, r: nat): Phase {
    if r in w.phases then w.phases[r] else Idle
  }

  function Move(w: World, r: nat, phase: Phase): World {
    w.(phases := w.phases[r := phase])
  }

  /** The end of a run, however it ends: the session closes and its advisory lock with it. */
  function Release(w: World, r: nat): World {
    Move(w, r, Idle).(lock := if w.lock == Some(r) then None else w.lock)
  }

  predicate AtWork(phase: Phase) {
    phase.Applying? && phase.pos < |phase.req.catalog|
    && !BeyondTarget(phase.req, phase.req.catalog[phase.pos].identifier)
  }

  predicate AtPending(phase: Phase) {
    AtWork(phase) && !IsApplied(phase.seen, phase.req.catalog[phase.pos].identifier)
  }

  /** `guarded` is whether a runner must obtain the advisory lock before it starts. */
  predicate Enabled(guarded: bool, w: World, e: Event) {
    var phase := PhaseOf(w, e.runner);
    match e
    case Acquire(_, _) => phase.Idle? && (guarded ==> w.lock.None?)
    case Prepare(_) => phase.Holding?
    case Snapshot(_) => phase.Ready?
    case Skip(_) => AtWork(phase) && IsApplied(phase.seen, phase.req.catalog[phase.pos].identifier)
    case Commit(_) => AtPending(phase)
    case Fail(_) => AtPending(phase)
    case Record(_) => phase.Recording? && phase.pos < |phase.req.catalog|
    case LoseRecord(_) => phase.Recording?
    case Finish(_) => phase.Applying? && !AtWork(phase)
    case Crash(_) => !phase.Idle?
  }

  function Next(guarded: bool, w: World, e: Event): World
    requires Enabled(guarded, w, e)
  {
    var r, phase := e.runner, PhaseOf(w, e.runner);
    match e
    case Acquire(_, req) => Move(w, r, Holding(req)).(lock := Some(r))
    case Prepare(_) =>
      if phase.req.target.Some? && phase.req.target.value !in Identifiers(phase.req.catalog) then Release(w, r)
      else if !w.db.ledger && w.db.appSchema then Release(w, r)
      else Move(w, r, Ready(phase.req)).(db := Prepared(w.db))
    case Snapshot(_) =>
      var seen := View(w.db.rows);
      if Admit(phase.req.catalog, seen, phase.req.target, phase.req.gaps).Some? then Release(w, r)
      else Move(w, r, Applying(phase.req, 0, seen))
    case Skip(_) => Move(w, r, Applying(phase.req, phase.pos + 1, phase.seen))
    case Commit(_) =>
      var m := phase.req.catalog[phase.pos];
      var seen := phase.seen[m.identifier := EntryOf(m, Applied)];
      Move(w, r, Applying(phase.req, phase.pos + 1, seen)).(db := RecordApplied(w.db, m))
    case Fail(_) => Move(w, r, Recording(phase.req, phase.pos))
    case Record(_) => Release(w, r).(db := RecordFailed(w.db, phase.req.catalog[phase.pos]))
    case LoseRecord(_) => Release(w, r)
    case Finish(_) => Release(w, r)
    case Crash(_) => Release(w, r)
  }

  /** A schedule every step of which is enabled. */
  predicate Allowed(guarded: bool, w: World, events: seq<Event>)
    decreases |events|
  {
    events == [] || (Enabled(guarded, w, events[0]) && Allowed(guarded, Next(guarded, w, events[0]), events[1..]))
  }

  function Exec(guarded: bool, w: World, events: seq<Event>): World
    requires Allowed(guarded, w, events)
    decreases |events|
  {
    if events == [] then w else Exec(guarded, Next(guarded, w, events[0]), events[1..])
  }

  lemma {:induction false} ExecConcat(guarded: bool, w: World, first: seq<Event>, second: seq<Event>)
    requires Allowed(guarded, w, first) && Allowed(guarded, Exec(guarded, w, first), second)
    ensures Allowed(guarded, w, first + second)
    ensures Exec(guarded, w, first + second) == Exec(guarded, Exec(guarded, w, first), second)
    decreases |first|
  {
    if first == [] {
      assert first + second == second;
    } else {
      ExecConcat(guarded, Next(guarded, w, first[0]), first[1..], second);
      ExecStep(guarded, w, first[0], first[1..] + second);
      assert first + second == [first[0]] + (first[1..] + second);
    }
  }

  /** A fresh installation: no ledger, nothing committed, nobody at work. */
  predicate Init(w: World) {
    !w.db.ledger && w.db.rows == map[] && w.db.history == [] && w.lock.None? && w.phases == map[]
  }

  // ---- Safety over every interleaving ----

  ghost predicate PhaseAgrees(db: Db, phase: Phase) {
    match phase
    case Idle => true
    case Holding(_) => true
    case Ready(_) => db.ledger
    case Applying(req, pos, seen) => db.ledger && pos <= |req.catalog| && seen == View(db.rows)
    case Recording(req, pos) =>
      db.ledger && pos < |req.catalog| && req.catalog[pos].identifier !in AppliedIds(db.rows)
  }

  ghost predicate Inv(w: World) {
    && Consistent(w.db)
    && (forall r: nat :: !PhaseOf(w, r).Idle? ==> w.lock == Some(r))
    && (forall r: nat :: PhaseAgrees(w.db, PhaseOf(w, r)))
  }

  lemma InitInv(w: World)
    requires Init(w)
    ensures Inv(w)
  {
    assert Identifiers(w.db.history) == AppliedIds(w.db.rows);
  }

  /** One step under the lock, seen from the database. */
  lemma StepOnDb(w: World, e: Event)
    requires Inv(w) && Enabled(true, w, e)
    ensures var after := Next(true, w, e).db; Consistent(after) && Extends(w.db, after)
  {
    var phase := PhaseOf(w, e.runner);
    assert PhaseAgrees(w.db, phase);
    if e.Commit? {
      ApplyingKeepsConsistency(w.db, phase.req.catalog[phase.pos]);
    } else if e.Record? {
      FailingKeepsConsistency(w.db, phase.req.catalog[phase.pos]);
    }
  }

  lemma StepKeepsInv(w: World, e: Event)
    requires Inv(w) && Enabled(true, w, e)
    ensures Inv(Next(true, w, e))
  {
    StepOnDb(w, e);
    var after := Next(true, w, e);
    var me := PhaseOf(w, e.runner);
    assert PhaseAgrees(w.db, me);
    forall r: nat ensures !PhaseOf(after, r).Idle? ==> after.lock == Some(r)
      ensures PhaseAgrees(after.db, PhaseOf(after, r))
    {
      if r == e.runner {
        if e.Commit? {
          var m := me.req.catalog[me.pos];
          assert PhaseOf(after, r).seen == View(after.db.rows);
        }
      } else {
        assert PhaseOf(after, r) == PhaseOf(w, r);
        assert PhaseOf(w, r).Idle?;
      }
    }
  }

  lemma ExtendsTransitive(a: Db, b: Db, c: Db)
    requires Extends(a, b) && Extends(b, c)
    ensures Extends(a, c)
  {
    forall identifier | identifier in AppliedIds(a.rows)
      ensures identifier in c.rows && c.rows[identifier] == a.rows[identifier]
    {
      assert identifier in AppliedIds(b.rows);
    }
  }

  lemma {:induction false} Safety(w: World, events: seq<Event>)
    requires Inv(w) && Allowed(true, w, events)
    ensures Inv(Exec(true, w, events)) && Extends(w.db, Exec(true, w, events).db)
    decreases |events|
  {
    if events != [] {
      var w1 := Next(true, w, events[0]);
      StepKeepsInv(w, events[0]);
      StepOnDb(w, events[0]);
      Safety(w1, events[1..]);
      ExtendsTransitive(w.db, w1.db, Exec(true, w, events).db);
    }
  }

  /**
   * Exactly-once, over every interleaving of every number of runners and runs from a fresh installation.
   * At any point no body has committed twice, the committed identifiers are exactly those the ledger calls
   * applied, each applied row carries the filename and checksum of the body that committed, and whatever
   * happens later leaves history and applied rows as they are.
   */
  lemma ExactlyOnce(w: World, events: seq<Event>, later: seq<Event>)
    requires Init(w) && Allowed(true, w, events) && Allowed(true, Exec(true, w, events), later)
    ensures var db := Exec(true, w, events).db;
            && DistinctIds(db.history)
            && Identifiers(db.history) == AppliedIds(db.rows)
            && (forall i :: 0 <= i < |db.history| ==>
                  && db.history[i].identifier in db.rows
                  && db.rows[db.history[i].identifier].entry == EntryOf(db.history[i], Applied))
            && Extends(db, Exec(true, Exec(true, w, events), later).db)
  {
    InitInv(w);
    Safety(w, events);
    Safety(Exec(true, w, events), later);
  }

  /** At no reachable point are two runners past the lock. */
  lemma MutualExclusion(w: World, events: seq<Event>, r: nat, s: nat)
    requires Init(w) && Allowed(true, w, events)
    requires !PhaseOf(Exec(true, w, events), r).Idle? && !PhaseOf(Exec(true, w, events), s).Idle?
    ensures r == s
  {
    InitInv(w);
    Safety(w, events);
  }

  // ---- The lock is what makes it so ----

  /** The three steps from a process start to its first body. */
  function Start(r: nat, req: Request): seq<Event> {
    [Acquire(r, req), Prepare(r), Snapshot(r)]
  }

  lemma ExecStep(guarded: bool, w: World, e: Event, rest: seq<Event>)
    requires Enabled(guarded, w, e) && Allowed(guarded, Next(guarded, w, e), rest)
    ensures Allowed(guarded, w, [e] + rest)
    ensures Exec(guarded, w, [e] + rest) == Exec(guarded, Next(guarded, w, e), rest)
  {
    assert ([e] + rest)[1..] == rest;
  }

  lemma ExecPair(guarded: bool, w: World, e: Event, f: Event)
    requires Enabled(guarded, w, e) && Enabled(guarded, Next(guarded, w, e), f)
    ensures Allowed(guarded, w, [e, f])
    ensures Exec(guarded, w, [e, f]) == Next(guarded, Next(guarded, w, e), f)
  {
    var w1 := Next(guarded, w, e);
    ExecStep(guarded, w1, f, []);
    ExecStep(guarded, w, e, [f]);
    assert [f] + [] == [f] && [e] + [f] == [e, f];
  }

  lemma ExecTriple(guarded: bool, w: World, e: Event, f: Event, g: Event)
    requires Enabled(guarded, w, e) && Enabled(guarded, Next(guarded, w, e), f)
    requires Enabled(guarded, Next(guarded, Next(guarded, w, e), f), g)
    ensures Allowed(guarded, w, [e, f, g])
    ensures Exec(guarded, w, [e, f, g]) == Next(guarded, Next(guarded, Next(guarded, w, e), f), g)
  {
    var w1 := Next(guarded, w, e);
    ExecPair(guarded, w1, f, g);
    ExecStep(guarded, w, e, [f, g]);
    assert [e] + [f, g] == [e, f, g];
  }

  lemma StartIsAllowed(guarded: bool, w: World, r: nat, req: Request)
    requires PhaseOf(w, r).Idle? && (guarded ==> w.lock.None?)
    requires req.target.Some? ==> req.target.value in Identifiers(req.catalog)
    requires w.db.ledger || !w.db.appSchema
    ensures Allowed(guarded, w, Start(r, req))
    ensures var ready := Prepared(w.db);
            var after := Exec(guarded, w, Start(r, req));
            && after.db == ready
            && (forall s: nat :: s != r ==> PhaseOf(after, s) == PhaseOf(w, s))
            && (Admit(req.catalog, View(ready.rows), req.target, req.gaps).None? ==>
                  after.lock == Some(r) && PhaseOf(after, r) == Applying(req, 0, View(ready.rows)))
            && (Admit(req.catalog, View(ready.rows), req.target, req.gaps).Some? ==>
                  after.lock.None? && PhaseOf(after, r).Idle?)
  {
    var w1 := Next(guarded, w, Acquire(r, req));
    var w2 := Next(guarded, w1, Prepare(r));
    AcquiredPhase(guarded, w, r, req);
    PreparedPhase(guarded, w1, r, req);
    SnapshotPhase(guarded, w2, r, req);
    ExecTriple(guarded, w, Acquire(r, req), Prepare(r), Snapshot(r));
  }

  lemma AcquiredPhase(guarded: bool, w: World, r: nat, req: Request)
    requires PhaseOf(w, r).Idle? && (guarded ==> w.lock.None?)
    ensures Enabled(guarded, w, Acquire(r, req))
    ensures var after := Next(guarded, w, Acquire(r, req));
      && after.db == w.db && after.lock == Some(r) && PhaseOf(after, r) == Holding(req)
      && (forall s: nat :: s != r ==> PhaseOf(after, s) == PhaseOf(w, s))
  {}

  lemma PreparedPhase(guarded: bool, w: World, r: nat, req: Request)
    requires PhaseOf(w, r) == Holding(req) && w.lock == Some(r)
    requires req.target.Some? ==> req.target.value in Identifiers(req.catalog)
    requires w.db.ledger || !w.db.appSchema
    ensures var after := Next(guarded, w, Prepare(r));
      && after.db == Prepared(w.db) && after.lock == Some(r) && PhaseOf(after, r) == Ready(req)
      && (forall s: nat :: s != r ==> PhaseOf(after, s) == PhaseOf(w, s))
  {}

  lemma SnapshotPhase(guarded: bool, w: World, r: nat, req: Request)
    requires PhaseOf(w, r) == Ready(req) && w.lock == Some(r)
    ensures var after := Next(guarded, w, Snapshot(r));
            var refusal := Admit(req.catalog, View(w.db.rows), req.target, req.gaps);
      && after.db == w.db && (forall s: nat :: s != r ==> PhaseOf(after, s) == PhaseOf(w, s))
      && (refusal.None? ==> after.lock == Some(r) && PhaseOf(after, r) == Applying(req, 0, View(w.db.rows)))
      && (refusal.Some? ==> after.lock.None? && PhaseOf(after, r).Idle?)
  {}

  const SOLE_MIGRATION := Migration(1, "001_a.sql", "c", "b")
  const SOLE_REQUEST := Request([SOLE_MIGRATION], None, {})
  const FRESH := World(Db(false, false, map[], []), None, map[])

  /** Without the lock two runners can both start from the empty ledger. */
  lemma RaceStarts() returns (w: World)
    ensures Allowed(false, FRESH, Start(0, SOLE_REQUEST) + Start(1, SOLE_REQUEST))
    ensures w == Exec(false, FRESH, Start(0, SOLE_REQUEST) + Start(1, SOLE_REQUEST))
    ensures w.db == Db(false, true, map[], [])
    ensures PhaseOf(w, 0) == PhaseOf(w, 1) == Applying(SOLE_REQUEST, 0, map[])
  {
    var empty: map<int, Row> := map[];
    assert View(empty) == map[];
    AdmissionIff(SOLE_REQUEST.catalog, map[], None, {});
    StartIsAllowed(false, FRESH, 0, SOLE_REQUEST);
    var w1 := Exec(false, FRESH, Start(0, SOLE_REQUEST));
    StartIsAllowed(false, w1, 1, SOLE_REQUEST);
    ExecConcat(false, FRESH, Start(0, SOLE_REQUEST), Start(1, SOLE_REQUEST));
    w := Exec(false, w1, Start(1, SOLE_REQUEST));
  }

  /** Drop the lock, and a body commits twice. */
  lemma WithoutTheLockBodiesRepeat()
    ensures exists events :: Allowed(false, FRESH, events) && !DistinctIds(Exec(false, FRESH, events).db.history)
  {
    var start := Start(0, SOLE_REQUEST) + Start(1, SOLE_REQUEST);
    var w := RaceStarts();
    ExecPair(false, w, Commit(0), Commit(1));
    ExecConcat(false, FRESH, start, [Commit(0), Commit(1)]);
    var db := Exec(false, FRESH, start + [Commit(0), Commit(1)]).db;
    assert db.history[0] == db.history[1];
    assert !DistinctIds(Exec(false, FRESH, start + [Commit(0), Commit(1)]).db.history);
  }

  lemma DemotingSteps(w: World)
    requires PhaseOf(w, 0) == PhaseOf(w, 1) == Applying(SOLE_REQUEST, 0, map[])
    ensures Allowed(false, w, [Commit(0), Fail(1), Record(1)])
    ensures Exec(false, w, [Commit(0), Fail(1), Record(1)]).db
         == RecordFailed(RecordApplied(w.db, SOLE_MIGRATION), SOLE_MIGRATION)
  {
    var w1 := Next(false, w, Commit(0));
    assert PhaseOf(w1, 1) == Applying(SOLE_REQUEST, 0, map[]);
    assert PhaseOf(Next(false, w1, Fail(1)), 1) == Recording(SOLE_REQUEST, 0);
    ExecTriple(false, w, Commit(0), Fail(1), Record(1));
  }

  /** Drop the lock, and the failure record of one runner demotes the row the other has just applied. */
  lemma WithoutTheLockRowsAreDemoted()
    ensures exists events :: Allowed(false, FRESH, events)
              && Exec(false, FRESH, events).db.history == [SOLE_MIGRATION]
              && AppliedIds(Exec(false, FRESH, events).db.rows) == {}
  {
    var start := Start(0, SOLE_REQUEST) + Start(1, SOLE_REQUEST);
    var demote := [Commit(0), Fail(1), Record(1)];
    var w := RaceStarts();
    DemotingSteps(w);
    ExecConcat(false, FRESH, start, demote);
    Demoted(w.db);
    assert Allowed(false, FRESH, start + demote);
  }

  lemma Demoted(db: Db)
    requires db == Db(false, true, map[], [])
    ensures var after := RecordFailed(RecordApplied(db, SOLE_MIGRATION), SOLE_MIGRATION);
      after.history == [SOLE_MIGRATION] && AppliedIds(after.rows) == {}
  {
    var after := RecordFailed(RecordApplied(db, SOLE_MIGRATION), SOLE_MIGRATION);
    assert after.rows.Keys == {1} && after.rows[1].entry.status == Failed;
  }
}
