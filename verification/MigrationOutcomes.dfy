/** Main results about single runs, reruns and staged runs of a catalog 1..n. */
module MigrationOutcomes {
  import opened Common
  import opened MigrationLedger
  import opened MigrationAdmission
  import opened MigrationProtocol
  import opened MigrationRuns

  /** The rows a run starts from. */
  function StartEntries(db: Db): map<int, Entry> {
    View(Prepared(db).rows)
  }

  predicate Started(result: Result) {
    !result.Refused?
  }

  /** What a run that got past its checks started from. */
  lemma StartedFrom(db: Db, req: Request, outcome: int -> Outcome, contract: seq<Migration> -> bool)
    requires Consistent(db) && Numbered(req.catalog)
    requires Started(Run(db, req, outcome, contract).1)
    ensures Run(db, req, outcome, contract) == ApplyFrom(Prepared(db), req, 0, outcome, contract, [], [])
    ensures db.ledger || !db.appSchema
    ensures Admissible(req.catalog, StartEntries(db), req.target, req.gaps)
    ensures GoalInCatalog(req)
    ensures forall id :: id in StartEntries(db) ==> 1 <= id <= Head(StartEntries(db)) <= Goal(req)
  {
    var entries := StartEntries(db);
    AdmissionIff(req.catalog, entries, req.target, req.gaps);
    IdentifiersOfNumbered(req.catalog);
    forall id | id in entries ensures 1 <= id <= Head(entries) <= Goal(req) {
      assert RowMatches(req.catalog, entries, id);
      assert Head(entries) in entries && RowMatches(req.catalog, entries, Head(entries));
    }
  }

  lemma IdentifiersOfNumbered(catalog: seq<Migration>)
    requires Numbered(catalog)
    ensures Ascending(catalog)
    ensures forall id :: id in Identifiers(catalog) <==> 1 <= id <= |catalog|
    ensures forall id :: 1 <= id <= |catalog| ==> Find(catalog, id) == Some(catalog[id - 1])
  {
    forall id ensures id in Identifiers(catalog) <==> 1 <= id <= |catalog| {
      NumberedId(catalog, id);
    }
    forall id | 1 <= id <= |catalog| ensures Find(catalog, id) == Some(catalog[id - 1]) {
      FindInNumbered(catalog, id);
    }
  }

  lemma NumberedId(catalog: seq<Migration>, id: int)
    requires Numbered(catalog)
    ensures id in Identifiers(catalog) <==> 1 <= id <= |catalog|
  {
    if 1 <= id <= |catalog| {
      assert catalog[id - 1] in catalog;
    }
  }

  lemma {:induction false} NewBodies(catalog: seq<Migration>, entries: map<int, Entry>, from: int, upto: int, x: int)
    requires Numbered(catalog) && 1 <= from <= x <= upto <= |catalog| && !IsApplied(entries, x)
    ensures catalog[x - 1] in UnappliedBodies(catalog, entries, from, upto)
    decreases upto - from
  {
    if from < x {
      NewBodies(catalog, entries, from + 1, upto, x);
    }
  }

  /** The ledger is exactly 1..t, every row applied and byte for byte the catalog's. */
  ghost predicate Complete(db: Db, catalog: seq<Migration>, t: int)
    requires t <= |catalog|
  {
    && db.ledger
    && (forall i :: i in db.rows <==> 1 <= i <= t)
    && (forall i :: 1 <= i <= t ==> db.rows[i].entry == EntryOf(catalog[i - 1], Applied))
  }

  /** `applied` and `skipped` are ascending and split 1..t; `skipped` is what the rows had as applied. */
  ghost predicate Reports(rows: map<int, Row>, t: int, applied: seq<int>, skipped: seq<int>) {
    && StrictlyAscending(applied) && StrictlyAscending(skipped)
    && (forall x :: x in skipped <==> 1 <= x <= t && x in AppliedIds(rows))
    && (forall x :: x in applied <==> 1 <= x <= t && x !in skipped)
  }

  lemma SplitReports(rows: map<int, Row>, t: int)
    ensures Reports(rows, t, Unapplied(View(rows), 1, t), AlreadyApplied(View(rows), 1, t))
  {
    UnappliedIs(View(rows), 1, t);
    AlreadyAppliedIs(View(rows), 1, t);
  }

  lemma LoopReturns(db: Db, req: Request, outcome: int -> Outcome, contract: seq<Migration> -> bool, after: Db,
                    result: Result)
    requires GoalInCatalog(req) && db.ledger && RowsMatch(req.catalog, View(db.rows))
    requires forall id :: id in db.rows ==> 1 <= id <= Goal(req)
    requires (after, result) == ApplyFrom(db, req, 0, outcome, contract, [], []) && result.Done?
    requires Consistent(after) && Extends(db, after)
    ensures Complete(after, req.catalog, Goal(req))
    ensures after.history == db.history + UnappliedBodies(req.catalog, View(db.rows), 1, Goal(req))
    ensures result.applied == Unapplied(View(db.rows), 1, Goal(req))
    ensures result.skipped == AlreadyApplied(View(db.rows), 1, Goal(req))
  {
    var t := Goal(req);
    LoopRows(db, req, 0, outcome, contract, [], []);
    LoopLists(db, req, 0, outcome, contract, [], []);
    var u, s := Unapplied(View(db.rows), 1, t), AlreadyApplied(View(db.rows), 1, t);
    assert [] + u == u && [] + s == s;
    forall x ensures x in after.rows <==> 1 <= x <= t {
      if 1 <= x <= t {
        assert IsApplied(View(after.rows), x);
      }
    }
    forall i | 1 <= i <= t ensures after.rows[i].entry == EntryOf(req.catalog[i - 1], Applied) {
      RowIsTheCatalogs(db, after, req, i);
    }
  }

  /**
   * A run that returns normally for target t leaves exactly 1..t, all applied as the catalog has them.  The
   * bodies it added to history are those of `applied`, in order; `applied` and `skipped` are ascending and
   * split 1..t, and `skipped` is what was applied before.
   */
  lemma NormalReturn(db: Db, req: Request, outcome: int -> Outcome, contract: seq<Migration> -> bool)
    requires Consistent(db) && Numbered(req.catalog)
    requires Run(db, req, outcome, contract).1.Done?
    ensures 0 <= Goal(req) <= |req.catalog|
    ensures var (after, result) := Run(db, req, outcome, contract);
            && Complete(after, req.catalog, Goal(req))
            && after.history == db.history + UnappliedBodies(req.catalog, View(db.rows), 1, Goal(req))
            && result.applied == Unapplied(View(db.rows), 1, Goal(req))
            && Reports(db.rows, Goal(req), result.applied, result.skipped)
  {
    StartedFrom(db, req, outcome, contract);
    RunIsSafe(db, req, outcome, contract);
    forall id | id in Prepared(db).rows ensures 1 <= id <= Goal(req) {
      assert id in StartEntries(db);
    }
    var (after, result) := Run(db, req, outcome, contract);
    LoopReturns(Prepared(db), req, outcome, contract, after, result);
    SplitReports(db.rows, Goal(req));
  }

  lemma RowIsTheCatalogs(db: Db, after: Db, req: Request, i: int)
    requires Consistent(after) && Extends(db, after) && GoalInCatalog(req) && 1 <= i <= Goal(req)
    requires RowsMatch(req.catalog, View(db.rows))
    requires after.history == db.history + UnappliedBodies(req.catalog, View(db.rows), 1, Goal(req))
    ensures i in after.rows && after.rows[i].entry == EntryOf(req.catalog[i - 1], Applied)
  {
    if IsApplied(View(db.rows), i) {
      assert i in AppliedIds(db.rows);
      assert RowMatches(req.catalog, View(db.rows), i);
      IdentifiersOfNumbered(req.catalog);
    } else {
      NewBodies(req.catalog, View(db.rows), 1, Goal(req), i);
      assert req.catalog[i - 1] in after.history;
      var j :| 0 <= j < |after.history| && after.history[j] == req.catalog[i - 1];
    }
  }

  // ---- Reruns and staged runs ----

  lemma HeadOfInterval(entries: map<int, Entry>, t: nat)
    requires forall i :: i in entries <==> 1 <= i <= t
    ensures Head(entries) == t && Holes(entries) == {}
  {
    if t == 0 {
      assert entries == map[];
    } else {
      assert t in entries && Head(entries) in entries;
    }
  }

  lemma CompleteMatches(db: Db, catalog: seq<Migration>, t: int)
    requires Numbered(catalog) && 0 <= t <= |catalog| && Complete(db, catalog, t)
    ensures RowsMatch(catalog, View(db.rows)) && FailedOnlyAtHead(View(db.rows))
  {
    var entries := View(db.rows);
    forall i | i in entries ensures RowMatches(catalog, entries, i) && entries[i].status == Applied {
      FindInNumbered(catalog, i);
    }
  }

  lemma FindInNumbered(catalog: seq<Migration>, i: int)
    requires Numbered(catalog) && 1 <= i <= |catalog|
    ensures Find(catalog, i) == Some(catalog[i - 1])
  {
    FindAt(catalog, i - 1);
  }

  lemma CompleteIsAdmitted(db: Db, catalog: seq<Migration>, t: int, target: Option<int>)
    requires Numbered(catalog) && 0 <= t <= |catalog| && Complete(db, catalog, t)
    requires target.Some? ==> t <= target.value
    ensures Admit(catalog, View(db.rows), target, {}).None?
    ensures ValidateLedger(catalog, View(db.rows), {}).None?
  {
    CompleteMatches(db, catalog, t);
    HeadOfInterval(View(db.rows), t);
    WholeLedgerIsAdmitted(catalog, View(db.rows), target);
  }

  lemma CompleteIsApplied(db: Db, catalog: seq<Migration>, t: int)
    requires t <= |catalog| && Complete(db, catalog, t)
    ensures AllApplied(View(db.rows), t)
  {}

  /** A loop over applied rows skips them all, whatever would have happened to an attempt. */
  lemma {:induction false} LoopSkips(db: Db, req: Request, k: nat, upto: nat, outcome: int -> Outcome,
                                     contract: seq<Migration> -> bool, applied: seq<int>, skipped: seq<int>)
    requires GoalInCatalog(req) && k <= upto <= Goal(req) && AllApplied(View(db.rows), upto)
    ensures ApplyFrom(db, req, k, outcome, contract, applied, skipped)
         == ApplyFrom(db, req, upto, outcome, contract, applied, skipped + AlreadyApplied(View(db.rows), k + 1, upto))
    decreases upto - k
  {
    if k == upto {
      assert skipped + [] == skipped;
    } else {
      var rest := AlreadyApplied(View(db.rows), k + 2, upto);
      LoopSkips(db, req, k + 1, upto, outcome, contract, applied, skipped + [k + 1]);
      assert skipped + [k + 1] + rest == skipped + ([k + 1] + rest);
    }
  }

  /** A run whose checks pass is the loop. */
  lemma AdmittedRun(db: Db, req: Request, outcome: int -> Outcome, contract: seq<Migration> -> bool)
    requires db.ledger && Admit(req.catalog, View(db.rows), req.target, req.gaps).None?
    requires req.target.Some? ==> req.target.value in Identifiers(req.catalog)
    ensures Run(db, req, outcome, contract) == ApplyFrom(db, req, 0, outcome, contract, [], [])
  {}

  /** A run over a complete ledger is admitted without gaps and goes straight past what is applied. */
  lemma RunFromComplete(db: Db, t: nat, req: Request, outcome: int -> Outcome, contract: seq<Migration> -> bool)
    requires GoalInCatalog(req) && t <= Goal(req) && Complete(db, req.catalog, t) && req.gaps == {}
    requires req.target.Some? ==> req.target.value in Identifiers(req.catalog)
    ensures Run(db, req, outcome, contract)
         == ApplyFrom(db, req, t, outcome, contract, [], AlreadyApplied(View(db.rows), 1, t))
  {
    CompleteIsAdmitted(db, req.catalog, t, req.target);
    AdmittedRun(db, req, outcome, contract);
    CompleteIsApplied(db, req.catalog, t);
    LoopStartsAt(db, req, t, outcome, contract);
  }

  lemma LoopStartsAt(db: Db, req: Request, t: nat, outcome: int -> Outcome, contract: seq<Migration> -> bool)
    requires GoalInCatalog(req) && t <= Goal(req) && AllApplied(View(db.rows), t)
    ensures ApplyFrom(db, req, 0, outcome, contract, [], [])
         == ApplyFrom(db, req, t, outcome, contract, [], AlreadyApplied(View(db.rows), 1, t))
  {
    LoopSkips(db, req, 0, t, outcome, contract, [], []);
    var seen := AlreadyApplied(View(db.rows), 1, t);
    assert [] + seen == seen;
  }

  lemma LoopConclusion(db: Db, req: Request, outcome: int -> Outcome, contract: seq<Migration> -> bool)
    requires GoalInCatalog(req)
    requires ApplyFrom(db, req, 0, outcome, contract, [], []).1.Done?
    ensures ContractIsChecked(req) ==> contract(ApplyFrom(db, req, 0, outcome, contract, [], []).0.history)
  {
    LoopLists(db, req, 0, outcome, contract, [], []);
  }

  /** Running again is a no-op: nothing is attempted, so no outcome can change anything. */
  lemma RerunIsNoop(db: Db, req: Request, outcome: int -> Outcome, contract: seq<Migration> -> bool,
                    again: int -> Outcome)
    requires Consistent(db) && Numbered(req.catalog)
    requires Run(db, req, outcome, contract).1.Done?
    ensures var after := Run(db, req, outcome, contract).0;
            Run(after, req.(gaps := {}), again, contract)
            == (after, Done([], AlreadyApplied(View(after.rows), 1, Goal(req))))
  {
    NormalReturn(db, req, outcome, contract);
    StartedFrom(db, req, outcome, contract);
    LoopConclusion(Prepared(db), req, outcome, contract);
    var after := Run(db, req, outcome, contract).0;
    RunFromComplete(after, Goal(req), req.(gaps := {}), again, contract);
  }

  /** A gap named again is recorded by now. */
  lemma NamedGapsAreRecorded(db: Db, req: Request, outcome: int -> Outcome, contract: seq<Migration> -> bool)
    requires Consistent(db) && Numbered(req.catalog)
    requires Run(db, req, outcome, contract).1.Done?
    ensures forall g :: g in req.gaps ==> g in Run(db, req, outcome, contract).0.rows
  {
    NormalReturn(db, req, outcome, contract);
    StartedFrom(db, req, outcome, contract);
    IdentifiersOfNumbered(req.catalog);
  }

  lemma RefusedChangesNothing(db: Db, req: Request, outcome: int -> Outcome, contract: seq<Migration> -> bool, g: int)
    requires db.ledger && g in req.gaps && g in db.rows
    ensures Run(db, req, outcome, contract).0 == db && Run(db, req, outcome, contract).1.Refused?
  {
    assert g in View(db.rows);
    AdmissionIff(req.catalog, View(db.rows), req.target, req.gaps);
  }

  /** The identical request again: it leaves the database as it is, and is refused exactly when it names a gap. */
  lemma RepeatedRequest(db: Db, req: Request, outcome: int -> Outcome, contract: seq<Migration> -> bool,
                        again: int -> Outcome)
    requires Consistent(db) && Numbered(req.catalog)
    requires Run(db, req, outcome, contract).1.Done?
    ensures var after := Run(db, req, outcome, contract).0;
            && Run(after, req, again, contract).0 == after
            && (Run(after, req, again, contract).1.Refused? <==> req.gaps != {})
  {
    NormalReturn(db, req, outcome, contract);
    var after := Run(db, req, outcome, contract).0;
    if req.gaps == {} {
      assert req.(gaps := {}) == req;
      RerunIsNoop(db, req, outcome, contract, again);
    } else {
      var g :| g in req.gaps;
      NamedGapsAreRecorded(db, req, outcome, contract);
      RefusedChangesNothing(after, req, again, contract, g);
    }
  }

  /** The loop towards a later target passes through the loop towards an earlier one. */
  lemma {:induction false} LoopPasses(db: Db, near: Request, far: Request, k: nat, outcome: int -> Outcome,
                                      contract: seq<Migration> -> bool, applied: seq<int>, skipped: seq<int>)
    requires GoalInCatalog(near) && GoalInCatalog(far) && near.catalog == far.catalog
    requires k <= Goal(near) <= Goal(far)
    requires ApplyFrom(db, near, k, outcome, contract, applied, skipped).1.Done?
    ensures var mid := ApplyFrom(db, near, k, outcome, contract, applied, skipped);
            ApplyFrom(db, far, k, outcome, contract, applied, skipped)
            == ApplyFrom(mid.0, far, Goal(near), outcome, contract, mid.1.applied, mid.1.skipped)
    decreases |near.catalog| - k
  {
    if k < Goal(near) {
      var m := near.catalog[k];
      if IsApplied(View(db.rows), m.identifier) {
        LoopPasses(db, near, far, k + 1, outcome, contract, applied, skipped + [m.identifier]);
      } else {
        LoopPasses(RecordApplied(db, m), near, far, k + 1, outcome, contract, applied + [m.identifier], skipped);
      }
    }
  }

  /** What was already reported does not influence what the loop does. */
  lemma {:induction false} ReportsAreInert(db: Db, req: Request, k: nat, outcome: int -> Outcome,
                                           contract: seq<Migration> -> bool, a: seq<int>, s: seq<int>, b: seq<int>,
                                           u: seq<int>)
    requires k <= |req.catalog|
    ensures var (first, one) := ApplyFrom(db, req, k, outcome, contract, a, s);
            var (second, two) := ApplyFrom(db, req, k, outcome, contract, b, u);
            first == second && (one.Done? <==> two.Done?) && (!one.Done? ==> one == two)
    decreases |req.catalog| - k
  {
    if k < |req.catalog| && !BeyondTarget(req, req.catalog[k].identifier) {
      var m := req.catalog[k];
      if IsApplied(View(db.rows), m.identifier) {
        ReportsAreInert(db, req, k + 1, outcome, contract, a, s + [m.identifier], b, u + [m.identifier]);
      } else if outcome(m.identifier).Committed? {
        ReportsAreInert(RecordApplied(db, m), req, k + 1, outcome, contract, a + [m.identifier], s,
                        b + [m.identifier], u);
      }
    }
  }

  /**
   * Stopping at t1 and going on to t2 leaves the same database, history and attempt counts included, as going to
   * t2 at once, even when the second leg fails; and both ways end the same.
   */
  lemma StagedRun(db: Db, near: Request, far: Request, outcome: int -> Outcome, contract: seq<Migration> -> bool)
    requires Consistent(db) && Numbered(near.catalog) && near.catalog == far.catalog && near.gaps == far.gaps
    requires far.target.Some? ==> far.target.value in Identifiers(far.catalog)
    requires Goal(near) <= Goal(far)
    requires Run(db, near, outcome, contract).1.Done?
    ensures var (direct, one) := Run(db, far, outcome, contract);
            var (staged, two) := Run(Run(db, near, outcome, contract).0, far.(gaps := {}), outcome, contract);
            direct == staged && (one.Done? <==> two.Done?) && (!one.Done? ==> one == two)
  {
    var (mid, result) := Run(db, near, outcome, contract);
    var seen := AlreadyApplied(View(mid.rows), 1, Goal(near));
    StartedFrom(db, near, outcome, contract);
    NormalReturn(db, near, outcome, contract);
    FartherRun(db, near, far, outcome, contract);
    LoopPasses(Prepared(db), near, far, 0, outcome, contract, [], []);
    RunFromComplete(mid, Goal(near), far.(gaps := {}), outcome, contract);
    GapsAreInert(mid, far, Goal(near), outcome, contract, [], seen);
    ReportsAreInert(mid, far, Goal(near), outcome, contract, result.applied, result.skipped, [], seen);
  }

  lemma FartherRun(db: Db, near: Request, far: Request, outcome: int -> Outcome, contract: seq<Migration> -> bool)
    requires Consistent(db) && Numbered(near.catalog) && near.catalog == far.catalog && near.gaps == far.gaps
    requires far.target.Some? ==> far.target.value in Identifiers(far.catalog)
    requires Goal(near) <= Goal(far)
    requires Started(Run(db, near, outcome, contract).1)
    ensures GoalInCatalog(far)
    ensures Run(db, far, outcome, contract) == ApplyFrom(Prepared(db), far, 0, outcome, contract, [], [])
  {
    StartedFrom(db, near, outcome, contract);
    IdentifiersOfNumbered(near.catalog);
    assert StartEntries(db) != map[] ==> Head(StartEntries(db)) in StartEntries(db);
    AdmissionIff(far.catalog, StartEntries(db), far.target, far.gaps);
  }

  lemma {:induction false} GapsAreInert(db: Db, req: Request, k: nat, outcome: int -> Outcome,
                                        contract: seq<Migration> -> bool, applied: seq<int>, skipped: seq<int>)
    requires k <= |req.catalog|
    ensures ApplyFrom(db, req, k, outcome, contract, applied, skipped)
         == ApplyFrom(db, req.(gaps := {}), k, outcome, contract, applied, skipped)
    decreases |req.catalog| - k
  {
    if k < |req.catalog| && !BeyondTarget(req, req.catalog[k].identifier) {
      var m := req.catalog[k];
      if IsApplied(View(db.rows), m.identifier) {
        GapsAreInert(db, req, k + 1, outcome, contract, applied, skipped + [m.identifier]);
      } else if outcome(m.identifier).Committed? {
        GapsAreInert(RecordApplied(db, m), req, k + 1, outcome, contract, applied + [m.identifier], skipped);
      }
    }
  }

  /** An untargeted success is what `--verify-complete` looks for. */
  lemma SuccessVerifies(db: Db, catalog: seq<Migration>, gaps: set<int>, outcome: int -> Outcome,
                        contract: seq<Migration> -> bool)
    requires Consistent(db) && Numbered(catalog)
    requires Run(db, Request(catalog, None, gaps), outcome, contract).1.Done?
    ensures Verify(Run(db, Request(catalog, None, gaps), outcome, contract).0, catalog, contract).Done?
  {
    var req := Request(catalog, None, gaps);
    var after := Run(db, req, outcome, contract).0;
    NormalReturn(db, req, outcome, contract);
    StartedFrom(db, req, outcome, contract);
    LoopConclusion(Prepared(db), req, outcome, contract);
    CompleteVerifies(after, catalog, contract);
  }

  lemma CompleteVerifies(db: Db, catalog: seq<Migration>, contract: seq<Migration> -> bool)
    requires Numbered(catalog) && Complete(db, catalog, |catalog|) && contract(db.history)
    ensures Verify(db, catalog, contract).Done?
  {
    CompleteIsAdmitted(db, catalog, |catalog|, None);
    CompleteIsApplied(db, catalog, |catalog|);
    NothingPending(View(db.rows), catalog);
  }

  lemma {:induction false} NothingPending(entries: map<int, Entry>, catalog: seq<Migration>)
    requires forall i :: 0 <= i < |catalog| ==> IsApplied(entries, catalog[i].identifier)
    ensures Pending(entries, catalog) == []
  {
    if catalog != [] {
      NothingPending(entries, catalog[1..]);
    }
  }
}
