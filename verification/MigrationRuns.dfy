/** What one run leaves behind, for every outcome of every attempted migration. */
module MigrationRuns {
  import opened Common
  import opened MigrationLedger
  import opened MigrationProtocol

  // ---- A run is one schedule of the protocol ----

  function StepsFrom(db: Db, req: Request, k: nat, outcome: int -> Outcome, r: nat): seq<Event>
    requires k <= |req.catalog|
    decreases |req.catalog| - k
  {
    if k == |req.catalog| || BeyondTarget(req, req.catalog[k].identifier) then [Finish(r)]
    else
      var m := req.catalog[k];
      if IsApplied(View(db.rows), m.identifier) then [Skip(r)] + StepsFrom(db, req, k + 1, outcome, r)
      else
        match outcome(m.identifier)
        case Committed => [Commit(r)] + StepsFrom(RecordApplied(db, m), req, k + 1, outcome, r)
        case CommittedUnseen => [Commit(r), Crash(r)]
        case FailedRecorded => [Fail(r), Record(r)]
        case FailedUnrecorded => [Fail(r), LoseRecord(r)]
        case Crashed => [Crash(r)]
  }

  /** The schedule is allowed, leaves the database given, and ends with the runner idle and the lock free. */
  ghost predicate Follows(w: World, r: nat, events: seq<Event>, db: Db) {
    && Allowed(true, w, events)
    && var after := Exec(true, w, events); after.db == db && after.lock.None? && PhaseOf(after, r).Idle?
  }

  /** An attempt that ends the run: the step itself, and the step after it. */
  lemma FollowEnd(w: World, r: nat, req: Request, k: nat, first: Event, last: Event)
    requires PhaseOf(w, r) == Applying(req, k, View(w.db.rows)) && w.lock == Some(r) && AtPending(PhaseOf(w, r))
    requires (first == Commit(r) && last == Crash(r))
      || (first == Fail(r) && (last == Record(r) || last == LoseRecord(r)))
    ensures Follows(w, r, [first, last],
      if first == Commit(r) then RecordApplied(w.db, req.catalog[k])
      else if last == Record(r) then RecordFailed(w.db, req.catalog[k]) else w.db)
  {
    ExecPair(true, w, first, last);
  }

  lemma FollowLast(w: World, r: nat, e: Event)
    requires Enabled(true, w, e) && w.lock == Some(r) && (e == Finish(r) || e == Crash(r))
    ensures Follows(w, r, [e], w.db)
  {
    ExecStep(true, w, e, []);
    assert [e] + [] == [e];
  }

  lemma CommitPhase(w: World, r: nat, req: Request, k: nat)
    requires PhaseOf(w, r) == Applying(req, k, View(w.db.rows)) && w.lock == Some(r) && AtPending(PhaseOf(w, r))
    ensures var after := Next(true, w, Commit(r));
      && after.db == RecordApplied(w.db, req.catalog[k]) && after.lock == Some(r)
      && PhaseOf(after, r) == Applying(req, k + 1, View(after.db.rows))
  {
    var m := req.catalog[k];
    assert View(w.db.rows)[m.identifier := EntryOf(m, Applied)] == View(RecordApplied(w.db, m).rows);
  }

  lemma {:induction false} StepsFollowTheRun(w: World, r: nat, req: Request, k: nat, outcome: int -> Outcome,
                                             contract: seq<Migration> -> bool, applied: seq<int>, skipped: seq<int>)
    requires k <= |req.catalog| && PhaseOf(w, r) == Applying(req, k, View(w.db.rows)) && w.lock == Some(r)
    ensures Follows(w, r, StepsFrom(w.db, req, k, outcome, r),
        ApplyFrom(w.db, req, k, outcome, contract, applied, skipped).0)
    decreases |req.catalog| - k
  {
    var db := ApplyFrom(w.db, req, k, outcome, contract, applied, skipped).0;
    if !AtWork(PhaseOf(w, r)) {
      FollowLast(w, r, Finish(r));
    } else {
      var m := req.catalog[k];
      if IsApplied(View(w.db.rows), m.identifier) {
        StepsFollowTheRun(Next(true, w, Skip(r)), r, req, k + 1, outcome, contract, applied, skipped + [m.identifier]);
      } else {
        match outcome(m.identifier)
        case Committed =>
          CommitPhase(w, r, req, k);
          StepsFollowTheRun(Next(true, w, Commit(r)), r, req, k + 1, outcome, contract,
                            applied + [m.identifier], skipped);
        case CommittedUnseen => FollowEnd(w, r, req, k, Commit(r), Crash(r));
        case FailedRecorded => FollowEnd(w, r, req, k, Fail(r), Record(r));
        case FailedUnrecorded => FollowEnd(w, r, req, k, Fail(r), LoseRecord(r));
        case Crashed => FollowLast(w, r, Crash(r));
      }
    }
  }

  /** Every run that takes the lock is a schedule of the protocol, so what every schedule keeps, every run keeps. */
  lemma RunIsASchedule(w: World, r: nat, req: Request, outcome: int -> Outcome, contract: seq<Migration> -> bool)
    requires PhaseOf(w, r).Idle? && w.lock.None?
    ensures exists events :: Allowed(true, w, events) && Exec(true, w, events).db == Run(w.db, req, outcome, contract).0
              && PhaseOf(Exec(true, w, events), r).Idle? && Exec(true, w, events).lock.None?
  {
    if (req.target.Some? && req.target.value !in Identifiers(req.catalog)) || (!w.db.ledger && w.db.appSchema) {
      ExecPair(true, w, Acquire(r, req), Prepare(r));
      assert Allowed(true, w, [Acquire(r, req), Prepare(r)]);
    } else {
      var ready := Prepared(w.db);
      StartIsAllowed(true, w, r, req);
      if Admit(req.catalog, View(ready.rows), req.target, req.gaps).Some? {
        assert Allowed(true, w, Start(r, req));
      } else {
        var w1 := Exec(true, w, Start(r, req));
        var steps := StepsFrom(ready, req, 0, outcome, r);
        StepsFollowTheRun(w1, r, req, 0, outcome, contract, [], []);
        ExecConcat(true, w, Start(r, req), steps);
        assert Allowed(true, w, Start(r, req) + steps);
      }
    }
  }

  lemma RunIsSafe(db: Db, req: Request, outcome: int -> Outcome, contract: seq<Migration> -> bool)
    requires Consistent(db)
    ensures Consistent(Run(db, req, outcome, contract).0) && Extends(db, Run(db, req, outcome, contract).0)
  {
    var w := World(db, None, map[]);
    RunIsASchedule(w, 0, req, outcome, contract);
    var events :| Allowed(true, w, events) && Exec(true, w, events).db == Run(w.db, req, outcome, contract).0;
    Safety(w, events);
  }

  // ---- What the loop does to the rows ----

  /** The identifiers of from..upto that are not applied yet. */
  function Unapplied(entries: map<int, Entry>, from: int, upto: int): seq<int>
    decreases upto - from
  {
    if from > upto then []
    else if IsApplied(entries, from) then Unapplied(entries, from + 1, upto)
    else [from] + Unapplied(entries, from + 1, upto)
  }

  /** The identifiers of from..upto that are applied already. */
  function AlreadyApplied(entries: map<int, Entry>, from: int, upto: int): seq<int>
    decreases upto - from
  {
    if from > upto then []
    else if IsApplied(entries, from) then [from] + AlreadyApplied(entries, from + 1, upto)
    else AlreadyApplied(entries, from + 1, upto)
  }

  /** The migrations from..upto of a catalog 1..n that are not applied yet. */
  function UnappliedBodies(catalog: seq<Migration>, entries: map<int, Entry>, from: int, upto: int): seq<Migration>
    requires 1 <= from && upto <= |catalog|
    decreases upto - from
  {
    if from > upto then []
    else if IsApplied(entries, from) then UnappliedBodies(catalog, entries, from + 1, upto)
    else [catalog[from - 1]] + UnappliedBodies(catalog, entries, from + 1, upto)
  }

  lemma {:induction false} UnappliedIs(entries: map<int, Entry>, from: int, upto: int)
    ensures StrictlyAscending(Unapplied(entries, from, upto))
    ensures forall x :: x in Unapplied(entries, from, upto) <==> from <= x <= upto && !IsApplied(entries, x)
    decreases upto - from
  {
    if from <= upto {
      UnappliedIs(entries, from + 1, upto);
      var rest := Unapplied(entries, from + 1, upto);
      assert forall j :: 0 <= j < |rest| ==> rest[j] in rest;
    }
  }

  lemma {:induction false} AlreadyAppliedIs(entries: map<int, Entry>, from: int, upto: int)
    ensures StrictlyAscending(AlreadyApplied(entries, from, upto))
    ensures forall x :: x in AlreadyApplied(entries, from, upto) <==> from <= x <= upto && IsApplied(entries, x)
    decreases upto - from
  {
    if from <= upto {
      AlreadyAppliedIs(entries, from + 1, upto);
      var rest := AlreadyApplied(entries, from + 1, upto);
      assert forall j :: 0 <= j < |rest| ==> rest[j] in rest;
    }
  }

  lemma {:induction false} SameTail(catalog: seq<Migration>, a: map<int, Entry>, b: map<int, Entry>, from: int,
                                    upto: int)
    requires 1 <= from && upto <= |catalog|
    requires forall x :: from <= x <= upto ==> (IsApplied(a, x) <==> IsApplied(b, x))
    ensures Unapplied(a, from, upto) == Unapplied(b, from, upto)
    ensures AlreadyApplied(a, from, upto) == AlreadyApplied(b, from, upto)
    ensures UnappliedBodies(catalog, a, from, upto) == UnappliedBodies(catalog, b, from, upto)
    decreases upto - from
  {
    if from <= upto {
      SameTail(catalog, a, b, from + 1, upto);
    }
  }

  /** The last identifier a run may touch. */
  function Goal(req: Request): int {
    if req.target.Some? then req.target.value else |req.catalog|
  }

  ghost predicate GoalInCatalog(req: Request) {
    Numbered(req.catalog) && 0 <= Goal(req) <= |req.catalog|
  }

  predicate AllApplied(entries: map<int, Entry>, upto: int) {
    forall i :: 1 <= i <= upto ==> IsApplied(entries, i)
  }

  ghost predicate SameAbove(a: map<int, Row>, b: map<int, Row>, identifier: int) {
    forall i :: i > identifier ==> (i in a <==> i in b) && (i in a ==> a[i] == b[i])
  }

  lemma CommitOnEntries(db: Db, m: Migration)
    ensures forall x ::
      IsApplied(View(RecordApplied(db, m).rows), x) <==> x == m.identifier || IsApplied(View(db.rows), x)
    ensures forall x ::
      IsApplied(View(RecordFailed(db, m).rows), x) <==> x != m.identifier && IsApplied(View(db.rows), x)
  {}

  predicate Ended(result: Result) {
    result.Done? || result.ContractBroken?
  }

  /** A loop that reaches its end has applied every identifier up to the goal and added no other row. */
  lemma {:induction false} LoopRows(db: Db, req: Request, k: nat, outcome: int -> Outcome,
                                    contract: seq<Migration> -> bool, applied: seq<int>, skipped: seq<int>)
    requires GoalInCatalog(req) && k <= Goal(req) && AllApplied(View(db.rows), k)
    ensures var (after, result) := ApplyFrom(db, req, k, outcome, contract, applied, skipped);
            Ended(result) ==>
              && AllApplied(View(after.rows), Goal(req))
              && (forall x :: x in after.rows ==> x in db.rows || k < x <= Goal(req))
              && after.ledger == db.ledger
    decreases |req.catalog| - k
  {
    if k < Goal(req) {
      var m := req.catalog[k];
      if IsApplied(View(db.rows), m.identifier) {
        LoopRows(db, req, k + 1, outcome, contract, applied, skipped + [m.identifier]);
      } else if outcome(m.identifier).Committed? {
        CommitOnEntries(db, m);
        LoopRows(RecordApplied(db, m), req, k + 1, outcome, contract, applied + [m.identifier], skipped);
      }
    }
  }

  /** What a loop that ends from position k on reports and commits, for the rows and the history it starts from. */
  ghost predicate Lists(entries: map<int, Entry>, history: seq<Migration>, req: Request, k: nat,
                        contract: seq<Migration> -> bool, applied: seq<int>, skipped: seq<int>, after: Db,
                        result: Result)
    requires GoalInCatalog(req)
  {
    Ended(result) ==>
      && after.history == history + UnappliedBodies(req.catalog, entries, k + 1, Goal(req))
      && result == Conclude(after, req, contract, applied + Unapplied(entries, k + 1, Goal(req)),
                            skipped + AlreadyApplied(entries, k + 1, Goal(req)))
  }

  lemma ListsCommitted(entries: map<int, Entry>, db: Db, req: Request, k: nat, contract: seq<Migration> -> bool,
                       applied: seq<int>, skipped: seq<int>, after: Db, result: Result)
    requires GoalInCatalog(req) && k < Goal(req) && entries == View(db.rows) && !IsApplied(entries, k + 1)
    requires var db1 := RecordApplied(db, req.catalog[k]);
      Lists(View(db1.rows), db1.history, req, k + 1, contract, applied + [k + 1], skipped, after, result)
    ensures Lists(entries, db.history, req, k, contract, applied, skipped, after, result)
  {
    var m := req.catalog[k];
    var rest := Unapplied(entries, k + 2, Goal(req));
    var bodies := UnappliedBodies(req.catalog, entries, k + 2, Goal(req));
    CommitOnEntries(db, m);
    SameTail(req.catalog, entries, View(RecordApplied(db, m).rows), k + 2, Goal(req));
    assert applied + [k + 1] + rest == applied + ([k + 1] + rest);
    assert db.history + [m] + bodies == db.history + ([m] + bodies);
  }

  lemma ListsEnd(entries: map<int, Entry>, db: Db, req: Request, contract: seq<Migration> -> bool, applied: seq<int>,
                 skipped: seq<int>)
    requires GoalInCatalog(req)
    ensures Lists(entries, db.history, req, Goal(req), contract, applied, skipped, db,
        Conclude(db, req, contract, applied, skipped))
  {
    assert applied + [] == applied && skipped + [] == skipped && db.history + [] == db.history;
  }

  /** A loop that reaches its end reports, and commits, the unapplied identifiers in ascending order. */
  lemma {:induction false} LoopLists(db: Db, req: Request, k: nat, outcome: int -> Outcome,
                                     contract: seq<Migration> -> bool, applied: seq<int>, skipped: seq<int>)
    requires GoalInCatalog(req) && k <= Goal(req)
    ensures var (after, result) := ApplyFrom(db, req, k, outcome, contract, applied, skipped);
            Lists(View(db.rows), db.history, req, k, contract, applied, skipped, after, result)
    decreases |req.catalog| - k
  {
    var entries := View(db.rows);
    var (after, result) := ApplyFrom(db, req, k, outcome, contract, applied, skipped);
    if k == Goal(req) {
      ListsEnd(entries, db, req, contract, applied, skipped);
    } else {
      var m := req.catalog[k];
      if IsApplied(entries, m.identifier) {
        LoopLists(db, req, k + 1, outcome, contract, applied, skipped + [m.identifier]);
      } else if outcome(m.identifier).Committed? {
        LoopLists(RecordApplied(db, m), req, k + 1, outcome, contract, applied + [m.identifier], skipped);
        ListsCommitted(entries, db, req, k, contract, applied, skipped, after, result);
      }
    }
  }

  /** A loop that stops on a recorded failure leaves everything below it applied and everything above it untouched. */
  lemma {:induction false} LoopFails(db: Db, req: Request, k: nat, outcome: int -> Outcome,
                                     contract: seq<Migration> -> bool, applied: seq<int>, skipped: seq<int>)
    requires GoalInCatalog(req) && k <= Goal(req) && AllApplied(View(db.rows), k)
    ensures var (after, result) := ApplyFrom(db, req, k, outcome, contract, applied, skipped);
            result.BodyFailed? ==>
              StoppedAt(db.rows, after.rows, k, result.identifier) && result.identifier <= Goal(req)
    decreases |req.catalog| - k
  {
    if k < Goal(req) {
      var m := req.catalog[k];
      var (after, result) := ApplyFrom(db, req, k, outcome, contract, applied, skipped);
      CommitOnEntries(db, m);
      if IsApplied(View(db.rows), m.identifier) {
        LoopFails(db, req, k + 1, outcome, contract, applied, skipped + [m.identifier]);
      } else if outcome(m.identifier).Committed? {
        LoopFails(RecordApplied(db, m), req, k + 1, outcome, contract, applied + [m.identifier], skipped);
        if result.BodyFailed? {
          StoppedLater(db, m, after.rows, k, result.identifier);
        }
      } else if outcome(m.identifier).FailedRecorded? {
        StoppedHere(db, m, k);
      }
    }
  }

  /** Past position k, `id` is the first pending identifier that does not commit, and its failure is recorded. */
  ghost predicate FailsFirst(entries: map<int, Entry>, k: nat, goal: int, outcome: int -> Outcome, id: int) {
    && k < id <= goal && !IsApplied(entries, id) && outcome(id).FailedRecorded?
    && forall x :: k < x < id && !IsApplied(entries, x) ==> outcome(x).Committed?
  }

  /** Which recorded failure a loop stops on is settled by the rows and the outcomes it starts with. */
  lemma {:induction false} StopsOn(db: Db, req: Request, k: nat, outcome: int -> Outcome,
                                   contract: seq<Migration> -> bool, applied: seq<int>, skipped: seq<int>, id: int)
    requires GoalInCatalog(req) && k <= Goal(req)
    ensures ApplyFrom(db, req, k, outcome, contract, applied, skipped).1 == BodyFailed(id)
       <==> FailsFirst(View(db.rows), k, Goal(req), outcome, id)
    decreases |req.catalog| - k
  {
    if k < Goal(req) {
      var m := req.catalog[k];
      if IsApplied(View(db.rows), m.identifier) {
        StopsOn(db, req, k + 1, outcome, contract, applied, skipped + [m.identifier], id);
      } else if outcome(m.identifier).Committed? {
        CommitOnEntries(db, m);
        StopsOn(RecordApplied(db, m), req, k + 1, outcome, contract, applied + [m.identifier], skipped, id);
      }
    }
  }

  /** A run past position k stopped on the recorded failure of `id`: all below applied, all above as it was. */
  ghost predicate StoppedAt(before: map<int, Row>, after: map<int, Row>, k: nat, id: int) {
    && k < id && !IsApplied(View(before), id)
    && AllApplied(View(after), id - 1)
    && id in after && after[id].entry.status == Failed
    && SameAbove(before, after, id)
    && (forall x :: x in after ==> x in before || k < x <= id)
  }

  lemma StoppedHere(db: Db, m: Migration, k: nat)
    requires m.identifier == k + 1 && AllApplied(View(db.rows), k) && !IsApplied(View(db.rows), k + 1)
    ensures StoppedAt(db.rows, RecordFailed(db, m).rows, k, k + 1)
  {
    CommitOnEntries(db, m);
  }

  lemma StoppedLater(db: Db, m: Migration, after: map<int, Row>, k: nat, id: int)
    requires m.identifier == k + 1 && StoppedAt(RecordApplied(db, m).rows, after, k + 1, id)
    ensures StoppedAt(db.rows, after, k, id)
  {
    CommitOnEntries(db, m);
  }
}
