/** Which ledgers a run can still complete, and what makes one that cannot. */
module MigrationRecovery {
  import opened Common
  import opened MigrationLedger
  import opened MigrationAdmission
  import opened MigrationProtocol
  import opened MigrationOrder
  import opened MigrationRuns
  import opened MigrationOutcomes

  function AlwaysCommit(identifier: int): Outcome {
    Committed
  }

  function AnySchema(history: seq<Migration>): bool {
    true
  }

  lemma {:induction false} CommittingLoopEnds(db: Db, req: Request, k: nat, applied: seq<int>, skipped: seq<int>)
    requires k <= |req.catalog|
    ensures ApplyFrom(db, req, k, AlwaysCommit, AnySchema, applied, skipped).1.Done?
    decreases |req.catalog| - k
  {
    if k < |req.catalog| && !BeyondTarget(req, req.catalog[k].identifier) {
      var m := req.catalog[k];
      if IsApplied(View(db.rows), m.identifier) {
        CommittingLoopEnds(db, req, k + 1, applied, skipped + [m.identifier]);
      } else {
        CommittingLoopEnds(RecordApplied(db, m), req, k + 1, applied + [m.identifier], skipped);
      }
    }
  }

  /** Nothing stands between this database and a complete ledger but the bodies themselves. */
  ghost predicate Recoverable(db: Db, catalog: seq<Migration>) {
    && (db.ledger || !db.appSchema)
    && RowsMatch(catalog, StartEntries(db))
    && FailedOnlyAtHead(StartEntries(db))
  }

  lemma HolesAreInTheCatalog(catalog: seq<Migration>, entries: map<int, Entry>)
    requires Numbered(catalog) && RowsMatch(catalog, entries)
    ensures GapsAreHoles(Identifiers(catalog), entries, Holes(entries))
  {
    IdentifiersOfNumbered(catalog);
    if entries != map[] {
      assert Head(entries) in entries;
      assert RowMatches(catalog, entries, Head(entries));
    }
  }

  lemma RecoverableIsAdmitted(db: Db, catalog: seq<Migration>)
    requires Consistent(db) && Numbered(catalog) && Recoverable(db, catalog)
    ensures Admit(catalog, StartEntries(db), None, Holes(StartEntries(db))).None?
  {
    HolesAreInTheCatalog(catalog, StartEntries(db));
    AdmissionIff(catalog, StartEntries(db), None, Holes(StartEntries(db)));
  }

  /**
   * The exact set of databases from which some run completes a catalog 1..n: some choice of target, gap list
   * and luck ends with every migration applied if and only if the database has a ledger or no schema, every
   * row is the catalog's, and no failed row lies below the head.
   */
  lemma RecoverableIff(db: Db, catalog: seq<Migration>)
    requires Consistent(db) && Numbered(catalog)
    ensures Recoverable(db, catalog)
       <==> exists req: Request, outcome :: req.catalog == catalog && CompletesWith(db, req, outcome)
  {
    if Recoverable(db, catalog) {
      var req := Request(catalog, None, Holes(StartEntries(db)));
      RecoverableIsAdmitted(db, catalog);
      CommittingRunCompletes(db, req);
      assert CompletesWith(db, req, AlwaysCommit);
    }
    forall req: Request, outcome | req.catalog == catalog && CompletesWith(db, req, outcome)
      ensures Recoverable(db, catalog)
    {
      StartedFrom(db, req, outcome, AnySchema);
    }
  }

  ghost predicate WorksOn(catalog: seq<Migration>, w: World) {
    && NobodyApplying(w)
    && (forall r: nat :: PhaseOf(w, r).Ready? ==> w.db.ledger)
    && forall r: nat :: !PhaseOf(w, r).Idle? ==> PhaseOf(w, r).req.catalog == catalog
  }

  lemma UnrecoverableStep(guarded: bool, w: World, catalog: seq<Migration>, e: Event)
    requires Consistent(w.db) && !Recoverable(w.db, catalog) && WorksOn(catalog, w)
    requires Enabled(guarded, w, e) && (e.Acquire? ==> e.req.catalog == catalog)
    ensures var after := Next(guarded, w, e); var phase := PhaseOf(after, e.runner);
      && after.db == w.db && !phase.Applying? && !phase.Recording? && (phase.Ready? ==> w.db.ledger)
      && (!phase.Idle? ==> phase.req.catalog == catalog)
  {
    var phase := PhaseOf(w, e.runner);
    assert !phase.Applying? && !phase.Recording?;
    if e.Snapshot? {
      SnapshotIsRefused(w.db, catalog, phase.req);
    }
  }

  lemma StepOnUnrecoverable(guarded: bool, w: World, catalog: seq<Migration>, e: Event)
    requires Consistent(w.db) && !Recoverable(w.db, catalog) && WorksOn(catalog, w)
    requires Enabled(guarded, w, e) && (e.Acquire? ==> e.req.catalog == catalog)
    ensures Next(guarded, w, e).db == w.db && WorksOn(catalog, Next(guarded, w, e))
  {
    UnrecoverableStep(guarded, w, catalog, e);
    var after := Next(guarded, w, e);
    forall r: nat ensures !PhaseOf(after, r).Applying? && !PhaseOf(after, r).Recording?
      ensures PhaseOf(after, r).Ready? ==> after.db.ledger
      ensures !PhaseOf(after, r).Idle? ==> PhaseOf(after, r).req.catalog == catalog
    {
      if r != e.runner {
        assert PhaseOf(after, r) == PhaseOf(w, r);
      }
    }
  }

  lemma SnapshotIsRefused(db: Db, catalog: seq<Migration>, req: Request)
    requires Consistent(db) && !Recoverable(db, catalog) && req.catalog == catalog && (db.ledger || !db.appSchema)
    ensures Admit(catalog, View(db.rows), req.target, req.gaps).Some?
  {
    AdmissionIff(catalog, View(db.rows), req.target, req.gaps);
    assert View(db.rows) == StartEntries(db);
  }

  /**
   * From a database that no single run completes, no schedule of runs of that catalog does either: whatever the
   * targets, gap lists and outcomes, with or without the lock, the database never changes.
   */
  lemma {:induction false} UnrecoverableIsFinal(guarded: bool, w: World, catalog: seq<Migration>, events: seq<Event>)
    requires Consistent(w.db) && Numbered(catalog) && !Recoverable(w.db, catalog) && WorksOn(catalog, w)
    requires Allowed(guarded, w, events) && RequestsUse(catalog, events)
    ensures Exec(guarded, w, events).db == w.db
    ensures !Complete(Exec(guarded, w, events).db, catalog, |catalog|)
    decreases |events|
  {
    if events != [] {
      StepOnUnrecoverable(guarded, w, catalog, events[0]);
      assert forall i :: 0 <= i < |events[1..]| ==> events[1..][i] == events[i + 1];
      UnrecoverableIsFinal(guarded, Next(guarded, w, events[0]), catalog, events[1..]);
    } else if Complete(w.db, catalog, |catalog|) {
      CompleteMatches(w.db, catalog, |catalog|);
    }
  }

  /**
   * However a schedule of runs of one catalog 1..n was interrupted, one more run whose bodies commit completes the
   * catalog without a gap list, unless an application schema appeared before the ledger did.
   */
  lemma InterruptedRunsComplete(catalog: seq<Migration>, w: World, events: seq<Event>)
    requires Init(w) && Allowed(true, w, events) && Numbered(catalog) && RequestsUse(catalog, events)
    ensures var db := Exec(true, w, events).db;
            CompletesWith(db, Request(catalog, None, {}), AlwaysCommit) <==> db.ledger || !db.appSchema
  {
    var db := Exec(true, w, events).db;
    var req := Request(catalog, None, {});
    InitInv(w);
    Safety(w, events);
    if db.ledger || !db.appSchema {
      Resumable(catalog, w, events, None);
      CommittingRunCompletes(db, req);
    }
  }

  lemma CommittingRunCompletes(db: Db, req: Request)
    requires Consistent(db) && Numbered(req.catalog) && req.target.None? && (db.ledger || !db.appSchema)
    requires Admit(req.catalog, StartEntries(db), req.target, req.gaps).None?
    ensures CompletesWith(db, req, AlwaysCommit)
  {
    CommittingLoopEnds(Prepared(db), req, 0, [], []);
    assert Run(db, req, AlwaysCommit, AnySchema).1.Done?;
    NormalReturn(db, req, AlwaysCommit, AnySchema);
  }

  ghost predicate CompletesWith(db: Db, req: Request, outcome: int -> Outcome) {
    var (after, result) := Run(db, req, outcome, AnySchema);
    result.Done? && Complete(after, req.catalog, |req.catalog|)
  }

  /** A failed row below the head: every run is refused and changes nothing, whatever its arguments. */
  lemma FailedBelowHeadRefusesEveryRun(db: Db, req: Request, outcome: int -> Outcome, contract: seq<Migration> -> bool)
    requires db.ledger && !FailedOnlyAtHead(View(db.rows))
    ensures Run(db, req, outcome, contract).0 == db && Run(db, req, outcome, contract).1.Refused?
  {
    AdmissionIff(req.catalog, View(db.rows), req.target, req.gaps);
  }

  /**
   * The boundary of "a recorded failure is a retry": of all recorded failures of an admitted run, those of a
   * named gap, and only those, leave a ledger no later run is admitted to.
   */
  lemma OnlyGapFailuresAreFatal(db: Db, req: Request, outcome: int -> Outcome, contract: seq<Migration> -> bool)
    requires Consistent(db) && Numbered(req.catalog) && (forall g :: g in req.gaps ==> g > 0)
    requires Run(db, req, outcome, contract).1.BodyFailed?
    ensures var (after, result) := Run(db, req, outcome, contract);
            result.identifier in req.gaps <==> !FailedOnlyAtHead(View(after.rows))
  {
    StartedFrom(db, req, outcome, contract);
    var (after, result) := Run(db, req, outcome, contract);
    LoopFails(Prepared(db), req, 0, outcome, contract, [], []);
    GapIsBelowHead(StartEntries(db), req.gaps, result.identifier);
    forall x | x in Prepared(db).rows ensures 1 <= x <= Head(StartEntries(db)) {
      assert x in StartEntries(db);
    }
    FailureAtOrBelowHead(Prepared(db).rows, after.rows, result.identifier);
  }

  /** Every attempt fails and the failure is recorded. */
  function AlwaysFail(identifier: int): Outcome {
    FailedRecorded
  }

  /** The run ends on a recorded failure and leaves a ledger no later run is admitted to. */
  ghost predicate EndsFinal(db: Db, req: Request, outcome: int -> Outcome, contract: seq<Migration> -> bool) {
    var (after, result) := Run(db, req, outcome, contract);
    result.BodyFailed? && !FailedOnlyAtHead(View(after.rows))
  }

  /** Some named gap fails for the record, and every smaller one commits. */
  ghost predicate SomeGapFails(gaps: set<int>, outcome: int -> Outcome) {
    exists g :: g in gaps && GapFails(gaps, outcome, g)
  }

  ghost predicate GapFails(gaps: set<int>, outcome: int -> Outcome, g: int) {
    outcome(g).FailedRecorded? && forall x :: x in gaps && x < g ==> outcome(x).Committed?
  }

  ghost predicate IsAdmitted(db: Db, req: Request) {
    && (db.ledger || !db.appSchema)
    && (req.target.Some? ==> req.target.value in Identifiers(req.catalog))
    && Admit(req.catalog, StartEntries(db), req.target, req.gaps).None?
  }

  lemma {:induction false} LoopStarts(db: Db, req: Request, k: nat, outcome: int -> Outcome,
                                      contract: seq<Migration> -> bool, applied: seq<int>, skipped: seq<int>)
    requires k <= |req.catalog|
    ensures Started(ApplyFrom(db, req, k, outcome, contract, applied, skipped).1)
    decreases |req.catalog| - k
  {
    if k < |req.catalog| && !BeyondTarget(req, req.catalog[k].identifier) {
      var m := req.catalog[k];
      if IsApplied(View(db.rows), m.identifier) {
        LoopStarts(db, req, k + 1, outcome, contract, applied, skipped + [m.identifier]);
      } else if outcome(m.identifier).Committed? {
        LoopStarts(RecordApplied(db, m), req, k + 1, outcome, contract, applied + [m.identifier], skipped);
      }
    }
  }

  /** For an admitted run the pending identifiers below a named gap are the smaller gaps. */
  lemma GapFailsFirst(entries: map<int, Entry>, gaps: set<int>, goal: int, outcome: int -> Outcome, g: int)
    requires FailedOnlyAtHead(entries) && gaps == Holes(entries) && g in gaps && g <= goal
    ensures FailsFirst(entries, 0, goal, outcome, g) <==> GapFails(gaps, outcome, g)
  {
    forall x | 0 < x < g ensures !IsApplied(entries, x) <==> x in gaps {
      assert x in entries && entries[x].status == Failed ==> x == Head(entries);
    }
  }

  lemma StopsOnGap(db: Db, req: Request, outcome: int -> Outcome, contract: seq<Migration> -> bool, g: int)
    requires Consistent(db) && Numbered(req.catalog) && (forall x :: x in req.gaps ==> x > 0) && IsAdmitted(db, req)
    requires g in req.gaps
    ensures Run(db, req, outcome, contract).1 == BodyFailed(g) <==> GapFails(req.gaps, outcome, g)
  {
    LoopStarts(Prepared(db), req, 0, outcome, contract, [], []);
    StartedFrom(db, req, outcome, contract);
    AdmittedGapsAreTheHoles(req.catalog, StartEntries(db), req.target, req.gaps);
    StopsOn(Prepared(db), req, 0, outcome, contract, [], [], g);
    GapFailsFirst(StartEntries(db), req.gaps, Goal(req), outcome, g);
  }

  /**
   * The same boundary before the run: an admitted run ends final exactly when, of the gaps it names, one fails for
   * the record after the smaller ones committed.
   */
  lemma EndsFinalIff(db: Db, req: Request, outcome: int -> Outcome, contract: seq<Migration> -> bool)
    requires Consistent(db) && Numbered(req.catalog) && (forall g :: g in req.gaps ==> g > 0) && IsAdmitted(db, req)
    ensures EndsFinal(db, req, outcome, contract) <==> SomeGapFails(req.gaps, outcome)
  {
    var result := Run(db, req, outcome, contract).1;
    forall g | g in req.gaps ensures result == BodyFailed(g) <==> GapFails(req.gaps, outcome, g) {
      StopsOnGap(db, req, outcome, contract, g);
    }
    if result.BodyFailed? {
      OnlyGapFailuresAreFatal(db, req, outcome, contract);
    }
  }

  /** So a run that names no gap never ends final, and one that names any does when every attempt fails. */
  lemma NamingAGapIsTheRisk(db: Db, req: Request, contract: seq<Migration> -> bool)
    requires Consistent(db) && Numbered(req.catalog) && (forall g :: g in req.gaps ==> g > 0) && IsAdmitted(db, req)
    ensures EndsFinal(db, req, AlwaysFail, contract) <==> req.gaps != {}
    ensures req.gaps == {} ==> forall outcome :: !EndsFinal(db, req, outcome, contract)
  {
    EndsFinalIff(db, req, AlwaysFail, contract);
    if req.gaps != {} {
      IntOrder();
      var g := LeastExists(req.gaps, IntLeq);
      assert GapFails(req.gaps, AlwaysFail, g);
    } else {
      forall outcome ensures !EndsFinal(db, req, outcome, contract) {
        EndsFinalIff(db, req, outcome, contract);
      }
    }
  }

  const ONE := Migration(1, "001_a.sql", "c1", "b1")
  const TWO := Migration(2, "002_b.sql", "c2", "b2")
  const THREE := Migration(3, "003_c.sql", "c3", "b3")

  /** The smallest case: 1 and 3 are applied, 2 is named as a gap, and its body fails. */
  lemma GapFailureIsFatal(contract: seq<Migration> -> bool) returns (db: Db, req: Request)
    ensures Consistent(db) && Numbered(req.catalog) && req.gaps == {2}
    ensures Run(db, req, AlwaysFail, contract).1 == BodyFailed(2)
    ensures !FailedOnlyAtHead(View(Run(db, req, AlwaysFail, contract).0.rows))
  {
    db, req := HoleAtTwo();
    HoleIsAdmitted(db, req);
    StopsOnGap(db, req, AlwaysFail, contract, 2);
    OnlyGapFailuresAreFatal(db, req, AlwaysFail, contract);
  }

  lemma HoleAtTwo() returns (db: Db, req: Request)
    ensures db
      == Db(true, true, map[1 := Row(EntryOf(ONE, Applied), 1), 3 := Row(EntryOf(THREE, Applied), 1)], [ONE, THREE])
    ensures req == Request([ONE, TWO, THREE], None, {2})
    ensures Consistent(db) && Numbered(req.catalog)
  {
    db := Db(true, true, map[1 := Row(EntryOf(ONE, Applied), 1), 3 := Row(EntryOf(THREE, Applied), 1)], [ONE, THREE]);
    req := Request([ONE, TWO, THREE], None, {2});
    assert ONE in db.history && THREE in db.history;
    assert Identifiers(db.history) == {1, 3};
    assert AppliedIds(db.rows) == {1, 3};
  }

  lemma HoleIsAdmitted(db: Db, req: Request)
    requires db.ledger && View(db.rows) == map[1 := EntryOf(ONE, Applied), 3 := EntryOf(THREE, Applied)]
    requires req == Request([ONE, TWO, THREE], None, {2})
    ensures Admit(req.catalog, View(db.rows), req.target, req.gaps).None?
  {
    HoleIsAdmissible(View(db.rows));
    AdmissibleIsAdmitted(req.catalog, View(db.rows), req.target, req.gaps);
  }

  lemma AdmissibleIsAdmitted(catalog: seq<Migration>, entries: map<int, Entry>, target: Option<int>, gaps: set<int>)
    requires Admissible(catalog, entries, target, gaps)
    ensures Admit(catalog, entries, target, gaps).None?
  {
    AdmissionIff(catalog, entries, target, gaps);
  }

  lemma HoleIsAdmissible(entries: map<int, Entry>)
    requires entries == map[1 := EntryOf(ONE, Applied), 3 := EntryOf(THREE, Applied)]
    ensures Admissible([ONE, TWO, THREE], entries, None, {2})
  {
    HoleShape(entries);
  }

  lemma HoleShape(entries: map<int, Entry>)
    requires entries == map[1 := EntryOf(ONE, Applied), 3 := EntryOf(THREE, Applied)]
    ensures Head(entries) == 3 && Holes(entries) == {2} && FailedOnlyAtHead(entries)
  {
    assert 3 in entries && Head(entries) in entries;
  }

  lemma GapIsBelowHead(entries: map<int, Entry>, gaps: set<int>, id: int)
    requires forall g :: g in gaps ==> 0 < g <= Head(entries) && g !in entries
    requires Holes(entries) <= gaps && FailedOnlyAtHead(entries)
    requires 1 <= id && !IsApplied(entries, id)
    ensures id in gaps <==> id < Head(entries)
  {
    HolesAreExact(entries, gaps);
    assert id in entries ==> entries[id].status == Failed;
  }

  lemma FailureAtOrBelowHead(before: map<int, Row>, after: map<int, Row>, id: int)
    requires 1 <= id && id in after && after[id].entry.status == Failed
    requires AllApplied(View(after), id - 1) && SameAbove(before, after, id)
    requires forall x :: x in after ==> x in before || 0 < x <= id
    requires forall x :: x in before ==> 1 <= x <= Head(View(before))
    ensures id < Head(View(before)) <==> !FailedOnlyAtHead(View(after))
  {
    var head := Head(View(after));
    assert id in View(after) && head in View(after);
    assert View(before) != map[] ==> Head(View(before)) in View(before);
    if id < Head(View(before)) {
      assert Head(View(before)) in View(after);
    } else {
      assert head == id by {
        assert head in before || head <= id;
      }
      forall x | x in View(after) && View(after)[x].status == Failed ensures x == head {
        assert 1 <= x < id ==> IsApplied(View(after), x);
      }
    }
  }
}
