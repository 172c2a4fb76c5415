/** What a call answers, in terms of its arguments. */
module MigrationVerdicts {
  import opened Common
  import opened MigrationLedger
  import opened MigrationAdmission
  import opened MigrationProtocol
  import opened MigrationRuns
  import opened MigrationOutcomes
  import opened MigrationRecovery

  // ---- How a run ends ----

  /** The last identifier the run is asked for. */
  ghost predicate LastIs(req: Request, t: int) {
    (req.target == None && t == |req.catalog|) || req.target == Some(t)
  }

  ghost predicate PendingIn(entries: map<int, Entry>, t: int, id: int) {
    1 <= id <= t && !(id in entries && entries[id].status == Applied)
  }

  /** Past k, the first pending identifier up to t whose attempt does not commit for the runner to see. */
  ghost predicate StopsAt(entries: map<int, Entry>, k: nat, t: int, outcome: int -> Outcome, id: int) {
    && k < id && PendingIn(entries, t, id) && outcome(id) != Committed
    && forall x :: k < x < id && PendingIn(entries, t, x) ==> outcome(x) == Committed
  }

  ghost predicate AllCommit(entries: map<int, Entry>, t: int, outcome: int -> Outcome) {
    forall x :: PendingIn(entries, t, x) ==> outcome(x) == Committed
  }

  /** What a run reports that stops at `id`. */
  ghost predicate StopResult(outcome: Outcome, id: int, result: Result) {
    match outcome
    case Committed => false
    case CommittedUnseen => result == Killed
    case FailedRecorded => result == BodyFailed(id)
    case FailedUnrecorded => result == RecordLost(id)
    case Crashed => result == Killed
  }

  /** The row of `id` after a run that stopped at it. */
  ghost predicate StopRow(outcome: Outcome, m: Migration, before: map<int, Row>, after: map<int, Row>) {
    var id := m.identifier;
    match outcome
    case Committed => false
    case CommittedUnseen => id in after && after[id].entry == Entry(m.filename, m.checksum, Applied)
    case FailedRecorded => id in after && after[id].entry == Entry(m.filename, m.checksum, Failed)
    case FailedUnrecorded => SameRow(before, after, id)
    case Crashed => SameRow(before, after, id)
  }

  ghost predicate SameRow(a: map<int, Row>, b: map<int, Row>, id: int) {
    (id in a <==> id in b) && (id in a ==> a[id] == b[id])
  }

  lemma {:induction false} LoopStops(db: Db, req: Request, k: nat, outcome: int -> Outcome,
                                     contract: seq<Migration> -> bool, applied: seq<int>, skipped: seq<int>, id: int)
    requires GoalInCatalog(req) && k <= Goal(req) && StopsAt(View(db.rows), k, Goal(req), outcome, id)
    ensures StopResult(outcome(id), id, ApplyFrom(db, req, k, outcome, contract, applied, skipped).1)
    decreases |req.catalog| - k
  {
    var m := req.catalog[k];
    if IsApplied(View(db.rows), m.identifier) {
      LoopStops(db, req, k + 1, outcome, contract, applied, skipped + [m.identifier], id);
    } else if outcome(m.identifier).Committed? {
      CommitOnEntries(db, m);
      LoopStops(RecordApplied(db, m), req, k + 1, outcome, contract, applied + [m.identifier], skipped, id);
    }
  }

  /** An identifier the run got past: its row is new if it was pending, else as it was. */
  ghost predicate PassedRow(catalog: seq<Migration>, id: int, before: map<int, Row>, after: map<int, Row>)
    requires 1 <= id <= |catalog|
  {
    var m := catalog[id - 1];
    if IsApplied(View(before), id) then SameRow(before, after, id)
    else id in after && after[id].entry == Entry(m.filename, m.checksum, Applied)
  }

  /** The rows and the history of a run that stopped at `id`, from position k on. */
  ghost predicate StopLeaves(db: Db, catalog: seq<Migration>, k: nat, outcome: int -> Outcome, id: int, after: Db)
    requires k < id <= |catalog|
  {
    && StopRow(outcome(id), catalog[id - 1], db.rows, after.rows)
    && (forall x :: x <= k || x > id ==> SameRow(db.rows, after.rows, x))
    && (forall x :: k < x < id ==> PassedRow(catalog, x, db.rows, after.rows))
    && after.history == db.history + UnappliedBodies(catalog, View(db.rows), k + 1, id - 1)
                        + if outcome(id).CommittedUnseen? then [catalog[id - 1]] else []
  }

  lemma StopHere(db: Db, catalog: seq<Migration>, k: nat, outcome: int -> Outcome, after: Db)
    requires Numbered(catalog) && k < |catalog|
    requires var m := catalog[k];
      match outcome(k + 1)
      case Committed => false
      case CommittedUnseen => after == RecordApplied(db, m)
      case FailedRecorded => after == RecordFailed(db, m)
      case FailedUnrecorded => after == db
      case Crashed => after == db
    ensures StopLeaves(db, catalog, k, outcome, k + 1, after)
  {
    assert db.history + [] == db.history;
  }

  lemma StopSkipped(db: Db, catalog: seq<Migration>, k: nat, outcome: int -> Outcome, id: int, after: Db)
    requires Numbered(catalog) && k + 1 < id <= |catalog| && IsApplied(View(db.rows), k + 1)
    requires StopLeaves(db, catalog, k + 1, outcome, id, after)
    ensures StopLeaves(db, catalog, k, outcome, id, after)
  {
    forall x | x <= k || x > id ensures SameRow(db.rows, after.rows, x) {}
    forall x | k < x < id ensures PassedRow(catalog, x, db.rows, after.rows) {
      assert x == k + 1 ==> SameRow(db.rows, after.rows, x);
    }
  }

  lemma StopLater(db: Db, catalog: seq<Migration>, k: nat, outcome: int -> Outcome, id: int, after: Db)
    requires Numbered(catalog) && k + 1 < id <= |catalog| && !IsApplied(View(db.rows), k + 1)
    requires StopLeaves(RecordApplied(db, catalog[k]), catalog, k + 1, outcome, id, after)
    ensures StopLeaves(db, catalog, k, outcome, id, after)
  {
    var m, db1 := catalog[k], RecordApplied(db, catalog[k]);
    var bodies := UnappliedBodies(catalog, View(db.rows), k + 2, id - 1);
    CommitOnEntries(db, m);
    SameTail(catalog, View(db.rows), View(db1.rows), k + 2, id - 1);
    forall x | x != k + 1 ensures SameRow(db.rows, db1.rows, x) {}
    forall x | x <= k || x > id ensures SameRow(db.rows, after.rows, x) {
      assert SameRow(db1.rows, after.rows, x);
    }
    forall x | k < x < id ensures PassedRow(catalog, x, db.rows, after.rows) {
      if x == k + 1 {
        assert SameRow(db1.rows, after.rows, x);
      } else {
        assert PassedRow(catalog, x, db1.rows, after.rows);
      }
    }
    assert db.history + [m] + bodies == db.history + ([m] + bodies);
  }

  lemma {:induction false} LoopLeaves(db: Db, req: Request, k: nat, outcome: int -> Outcome,
                                      contract: seq<Migration> -> bool, applied: seq<int>, skipped: seq<int>, id: int)
    requires GoalInCatalog(req) && k <= Goal(req) && StopsAt(View(db.rows), k, Goal(req), outcome, id)
    ensures StopLeaves(db, req.catalog, k, outcome, id,
                       ApplyFrom(db, req, k, outcome, contract, applied, skipped).0)
    decreases |req.catalog| - k
  {
    var m := req.catalog[k];
    var after := ApplyFrom(db, req, k, outcome, contract, applied, skipped).0;
    if IsApplied(View(db.rows), m.identifier) {
      LoopLeaves(db, req, k + 1, outcome, contract, applied, skipped + [m.identifier], id);
      StopSkipped(db, req.catalog, k, outcome, id, after);
    } else if outcome(m.identifier).Committed? {
      CommitOnEntries(db, m);
      LoopLeaves(RecordApplied(db, m), req, k + 1, outcome, contract, applied + [m.identifier], skipped, id);
      StopLater(db, req.catalog, k, outcome, id, after);
    } else {
      StopHere(db, req.catalog, k, outcome, after);
    }
  }

  /** Where an admitted run stops, what it reports and what it leaves, for every first attempt that does not commit. */
  lemma RunStops(db: Db, req: Request, t: int, outcome: int -> Outcome, contract: seq<Migration> -> bool, id: int)
    requires Consistent(db) && Numbered(req.catalog) && IsAdmitted(db, req) && LastIs(req, t)
    requires StopsAt(StartEntries(db), 0, t, outcome, id)
    ensures 1 <= id <= |req.catalog|
    ensures var (after, result) := Run(db, req, outcome, contract);
      StopResult(outcome(id), id, result) && StopLeaves(Prepared(db), req.catalog, 0, outcome, id, after)
  {
    LoopStarts(Prepared(db), req, 0, outcome, contract, [], []);
    StartedFrom(db, req, outcome, contract);
    LoopStops(Prepared(db), req, 0, outcome, contract, [], [], id);
    LoopLeaves(Prepared(db), req, 0, outcome, contract, [], [], id);
  }

  lemma {:induction false} LoopEnds(db: Db, req: Request, k: nat, outcome: int -> Outcome,
                                    contract: seq<Migration> -> bool, applied: seq<int>, skipped: seq<int>)
    requires GoalInCatalog(req) && k <= Goal(req)
    requires forall x :: k < x && PendingIn(View(db.rows), Goal(req), x) ==> outcome(x) == Committed
    ensures var (after, result) := ApplyFrom(db, req, k, outcome, contract, applied, skipped);
      && (result.Done? || result == ContractBroken)
      && (result.Done? <==> !ContractIsChecked(req) || contract(after.history))
    decreases |req.catalog| - k
  {
    if k < Goal(req) {
      var m := req.catalog[k];
      if IsApplied(View(db.rows), m.identifier) {
        LoopEnds(db, req, k + 1, outcome, contract, applied, skipped + [m.identifier]);
      } else {
        CommitOnEntries(db, m);
        LoopEnds(RecordApplied(db, m), req, k + 1, outcome, contract, applied + [m.identifier], skipped);
      }
    }
  }

  /**
   * A run all of whose attempts commit reaches its end.  A run to the last migration, named or not, then answers for
   * the schema contract; a run to an earlier target returns whatever the contract says.
   */
  lemma RunEnds(db: Db, req: Request, t: int, outcome: int -> Outcome, contract: seq<Migration> -> bool)
    requires Consistent(db) && Numbered(req.catalog) && IsAdmitted(db, req) && LastIs(req, t)
    requires AllCommit(StartEntries(db), t, outcome)
    ensures var (after, result) := Run(db, req, outcome, contract);
      && (t == |req.catalog| && contract(after.history) ==> result.Done?)
      && (t == |req.catalog| && !contract(after.history) ==> result == ContractBroken)
      && (t < |req.catalog| ==> result.Done?)
      && t <= |req.catalog|
  {
    LoopStarts(Prepared(db), req, 0, outcome, contract, [], []);
    StartedFrom(db, req, outcome, contract);
    LoopEnds(Prepared(db), req, 0, outcome, contract, [], []);
  }

  // ---- The completeness check ----

  /** The catalog's migration of that number has the row's filename, and its checksum if the row is applied. */
  ghost predicate Matched(catalog: seq<Migration>, entries: map<int, Entry>, id: int)
    requires id in entries
  {
    exists m :: m in catalog && m.identifier == id && m.filename == entries[id].filename
             && (entries[id].status == Applied ==> m.checksum == entries[id].checksum)
  }

  ghost predicate SoundRows(catalog: seq<Migration>, entries: map<int, Entry>) {
    && (forall id :: id in entries ==> Matched(catalog, entries, id))
    && (forall i, head :: 1 <= i < head && head in entries ==> i in entries)
  }

  ghost predicate HasApplied(entries: map<int, Entry>, id: int) {
    id in entries && entries[id].status == Applied
  }

  lemma MatchedIff(catalog: seq<Migration>, entries: map<int, Entry>, id: int)
    requires Ascending(catalog) && id in entries
    ensures RowMatches(catalog, entries, id) <==> Matched(catalog, entries, id)
  {
    forall m | m in catalog && m.identifier == id ensures Find(catalog, id) == Some(m) {
      var i :| 0 <= i < |catalog| && catalog[i] == m;
      FindAt(catalog, i);
    }
  }

  lemma SoundIff(catalog: seq<Migration>, entries: map<int, Entry>)
    requires Ascending(catalog)
    ensures SoundRows(catalog, entries) <==> RowsMatch(catalog, entries) && Holes(entries) == {}
  {
    forall id | id in entries ensures RowMatches(catalog, entries, id) <==> Matched(catalog, entries, id) {
      MatchedIff(catalog, entries, id);
    }
    if entries != map[] {
      assert Head(entries) in entries;
    }
    if Holes(entries) == {} {
      forall i, head | 1 <= i < head && head in entries ensures i in entries {
        assert i !in Holes(entries);
      }
    }
  }

  lemma {:induction false} PendingIs(entries: map<int, Entry>, catalog: seq<Migration>)
    requires Ascending(catalog)
    ensures var q := Pending(entries, catalog);
      && StrictlyAscending(q)
      && forall id :: id in q <==> exists m :: m in catalog && m.identifier == id && !HasApplied(entries, id)
  {
    if catalog != [] {
      var rest := catalog[1..];
      PendingIs(entries, rest);
      assert forall m :: m in catalog <==> m == catalog[0] || m in rest;
      assert forall i :: 0 <= i < |Pending(entries, rest)| ==> Pending(entries, rest)[i] in Pending(entries, rest);
    }
  }

  /** A failed row has no row above it. */
  ghost predicate FailedLast(entries: map<int, Entry>) {
    forall id, other :: id in entries && other in entries && entries[id].status == Failed ==> other <= id
  }

  lemma FailedLastIff(entries: map<int, Entry>)
    ensures FailedLast(entries) <==> FailedOnlyAtHead(entries)
  {
    if entries != map[] {
      assert Head(entries) in entries;
    }
  }

  lemma LedgerPassesIff(catalog: seq<Migration>, entries: map<int, Entry>)
    requires Ascending(catalog)
    ensures ValidateLedger(catalog, entries, {}).None? <==> SoundRows(catalog, entries) && FailedLast(entries)
  {
    LedgerIff(catalog, entries, {});
    SoundIff(catalog, entries);
    FailedLastIff(entries);
  }

  ghost predicate AllHaveApplied(catalog: seq<Migration>, entries: map<int, Entry>) {
    forall m :: m in catalog ==> HasApplied(entries, m.identifier)
  }

  lemma NothingPendingIff(catalog: seq<Migration>, entries: map<int, Entry>)
    requires Ascending(catalog)
    ensures Pending(entries, catalog) == [] <==> AllHaveApplied(catalog, entries)
  {
    PendingIs(entries, catalog);
    var q := Pending(entries, catalog);
    if q != [] {
      assert q[0] in q;
    }
    forall m | m in catalog && q == [] ensures HasApplied(entries, m.identifier) {
      assert m.identifier !in q;
    }
  }

  lemma AppliedIsNotFailed(catalog: seq<Migration>, entries: map<int, Entry>)
    requires SoundRows(catalog, entries) && AllHaveApplied(catalog, entries)
    ensures FailedLast(entries)
  {
    forall id | id in entries ensures entries[id].status == Applied {
      assert Matched(catalog, entries, id);
    }
  }

  /**
   * The completeness check succeeds exactly on a ledger whose rows are the catalog's without a hole, with an applied
   * row for every migration, over a schema that keeps the contract; it then lists the whole catalog.
   */
  lemma VerifyIff(db: Db, catalog: seq<Migration>, contract: seq<Migration> -> bool)
    requires Ascending(catalog)
    ensures var entries := View(db.rows);
      Verify(db, catalog, contract).Done? <==>
        && db.ledger && SoundRows(catalog, entries) && AllHaveApplied(catalog, entries) && contract(db.history)
    ensures var result := Verify(db, catalog, contract);
      result.Done? ==>
        && result.applied == [] && |result.skipped| == |catalog|
        && forall i :: 0 <= i < |catalog| ==> result.skipped[i] == catalog[i].identifier
  {
    var entries := View(db.rows);
    LedgerPassesIff(catalog, entries);
    NothingPendingIff(catalog, entries);
    if SoundRows(catalog, entries) && AllHaveApplied(catalog, entries) {
      AppliedIsNotFailed(catalog, entries);
    }
  }

  /** It names exactly the migrations without an applied row, in catalog order, when nothing before that is wrong. */
  lemma VerifyNamesPending(db: Db, catalog: seq<Migration>, contract: seq<Migration> -> bool)
    requires Ascending(catalog)
    ensures var entries, result := View(db.rows), Verify(db, catalog, contract);
      && (result.Refused? && result.why.StillPending? <==>
            db.ledger && SoundRows(catalog, entries) && FailedLast(entries) && !AllHaveApplied(catalog, entries))
      && (result.Refused? && result.why.StillPending? ==> NamesPending(catalog, entries, result.why.pending))
  {
    LedgerPassesIff(catalog, View(db.rows));
    NothingPendingIff(catalog, View(db.rows));
    PendingIs(View(db.rows), catalog);
    LedgerNeverPends(catalog, View(db.rows));
  }

  ghost predicate NamesPending(catalog: seq<Migration>, entries: map<int, Entry>, q: seq<int>) {
    && StrictlyAscending(q)
    && forall id :: id in q <==> exists m :: m in catalog && m.identifier == id && !HasApplied(entries, id)
  }

  lemma {:induction false} RowsNeverPend(catalog: seq<Migration>, entries: map<int, Entry>, order: seq<int>)
    requires forall id :: id in order ==> id in entries
    ensures var e := FirstRowError(catalog, entries, order); e.Some? ==> !e.value.StillPending?
  {
    if order != [] {
      RowsNeverPend(catalog, entries, order[1..]);
    }
  }

  lemma ShapeNeverPends(catalog: seq<Migration>, entries: map<int, Entry>)
    requires FirstRowError(catalog, entries, InOrder(entries.Keys)).None? && entries != map[]
    ensures var e := ValidateLedger(catalog, entries, {}); e.Some? ==> !e.value.StillPending?
  {
    var head := Highest(entries.Keys);
    var unauthorized, failed := Missing(entries, 1, head, {}), FailedIds(entries);
    if unauthorized != [] {
      assert ValidateLedger(catalog, entries, {}) == Some(NotContinuous(unauthorized));
    } else if failed != {} && failed != {head} {
      assert ValidateLedger(catalog, entries, {}) == Some(AppliedAfterFailed);
    } else {
      assert ValidateLedger(catalog, entries, {}).None?;
    }
  }

  lemma LedgerNeverPends(catalog: seq<Migration>, entries: map<int, Entry>)
    ensures var e := ValidateLedger(catalog, entries, {}); e.Some? ==> !e.value.StillPending?
  {
    var e := FirstRowError(catalog, entries, InOrder(entries.Keys));
    RowsNeverPend(catalog, entries, InOrder(entries.Keys));
    if e.Some? {
      assert ValidateLedger(catalog, entries, {}) == e;
    } else if entries != map[] {
      ShapeNeverPends(catalog, entries);
    }
  }

  // ---- Which refusal ----

  /** What is wrong with the row of `id`, of a catalog 1..n. */
  ghost predicate WrongRow(catalog: seq<Migration>, entries: map<int, Entry>, id: int, why: Refusal)
    requires id in entries
  {
    if !(1 <= id <= |catalog|) then why == UnknownMigration(id)
    else if catalog[id - 1].filename != entries[id].filename then why == FilenameDrift(id)
    else
      entries[id].status == Applied && catalog[id - 1].checksum != entries[id].checksum && why == ChecksumDrift(id)
  }

  ghost predicate RightRow(catalog: seq<Migration>, entries: map<int, Entry>, id: int)
    requires id in entries
  {
    && 1 <= id <= |catalog| && catalog[id - 1].filename == entries[id].filename
    && (entries[id].status == Applied ==> catalog[id - 1].checksum == entries[id].checksum)
  }

  lemma RowErrorIs(catalog: seq<Migration>, entries: map<int, Entry>, id: int)
    requires Numbered(catalog) && id in entries
    ensures var e := RowError(catalog, id, entries[id]);
      (e.None? <==> RightRow(catalog, entries, id)) && (e.Some? ==> WrongRow(catalog, entries, id, e.value))
  {
    IdentifiersOfNumbered(catalog);
  }

  ghost predicate RightUpTo(catalog: seq<Migration>, entries: map<int, Entry>, order: seq<int>, n: nat) {
    n <= |order| && forall j :: 0 <= j < n ==> order[j] in entries && RightRow(catalog, entries, order[j])
  }

  ghost predicate FirstWrong(catalog: seq<Migration>, entries: map<int, Entry>, order: seq<int>, k: nat, why: Refusal) {
    && k < |order| && order[k] in entries && WrongRow(catalog, entries, order[k], why)
    && RightUpTo(catalog, entries, order, k)
  }

  lemma OneMoreRow(catalog: seq<Migration>, entries: map<int, Entry>, order: seq<int>, n: nat)
    requires order != [] && order[0] in entries && RightRow(catalog, entries, order[0])
    requires RightUpTo(catalog, entries, order[1..], n)
    ensures RightUpTo(catalog, entries, order, n + 1)
  {
    forall j | 0 <= j < n + 1 ensures order[j] in entries && RightRow(catalog, entries, order[j]) {
      assert j > 0 ==> order[j] == order[1..][j - 1];
    }
  }

  lemma {:induction false} RowsInOrder(catalog: seq<Migration>, entries: map<int, Entry>, order: seq<int>)
    returns (k: nat)
    requires Numbered(catalog) && forall id :: id in order ==> id in entries
    ensures var e := FirstRowError(catalog, entries, order);
      if e.None? then RightUpTo(catalog, entries, order, |order|)
      else FirstWrong(catalog, entries, order, k, e.value)
  {
    k := 0;
    if order != [] {
      RowErrorIs(catalog, entries, order[0]);
      if RightRow(catalog, entries, order[0]) {
        var n := RowsInOrder(catalog, entries, order[1..]);
        var e := FirstRowError(catalog, entries, order[1..]);
        OneMoreRow(catalog, entries, order, if e.None? then |order| - 1 else n);
        k := n + 1;
      }
    }
  }

  /** The smallest recorded identifier with a wrong row. */
  ghost predicate SmallestWrong(catalog: seq<Migration>, entries: map<int, Entry>, id: int, why: Refusal) {
    && id in entries && WrongRow(catalog, entries, id, why)
    && forall x :: x in entries && x < id ==> RightRow(catalog, entries, x)
  }

  /** 1..head without a row, ascending, except those named. */
  ghost predicate NamesHoles(entries: map<int, Entry>, gaps: set<int>, q: seq<int>) {
    && StrictlyAscending(q)
    && forall i :: i in q <==>
      1 <= i && i !in entries && i !in gaps && exists head :: head in entries && i < head
  }

  lemma {:induction false} MissingAscends(entries: map<int, Entry>, from: int, head: int, gaps: set<int>)
    ensures StrictlyAscending(Missing(entries, from, head, gaps))
    decreases head - from
  {
    if from <= head {
      MissingAscends(entries, from + 1, head, gaps);
      var rest := Missing(entries, from + 1, head, gaps);
      assert forall i :: 0 <= i < |rest| ==> rest[i] in rest;
    }
  }

  ghost predicate RightRows(catalog: seq<Migration>, entries: map<int, Entry>) {
    forall id :: id in entries ==> RightRow(catalog, entries, id)
  }

  ghost predicate SomeSmallestWrong(catalog: seq<Migration>, entries: map<int, Entry>, why: Refusal) {
    exists id :: SmallestWrong(catalog, entries, id, why)
  }

  /** What each answer of the ledger validator means. */
  ghost predicate Explains(catalog: seq<Migration>, entries: map<int, Entry>, gaps: set<int>, answer: Option<Refusal>) {
    match answer
    case None => RightRows(catalog, entries) && NamesHoles(entries, gaps, []) && FailedLast(entries)
    case Some(NotContinuous(q)) => RightRows(catalog, entries) && q != [] && NamesHoles(entries, gaps, q)
    case Some(AppliedAfterFailed) =>
      RightRows(catalog, entries) && NamesHoles(entries, gaps, []) && !FailedLast(entries)
    case Some(why) => SomeSmallestWrong(catalog, entries, why)
  }

  /**
   * Why a ledger is refused: the smallest wrong row decides what is said about it; with every row right, the holes
   * nobody named are listed; with none of those, a failed row has a row above it.
   */
  lemma LedgerRefusal(catalog: seq<Migration>, entries: map<int, Entry>, gaps: set<int>)
    requires Numbered(catalog)
    ensures Explains(catalog, entries, gaps, ValidateLedger(catalog, entries, gaps))
  {
    RowRefusal(catalog, entries);
    var e := FirstRowError(catalog, entries, InOrder(entries.Keys));
    if e.None? {
      ShapeRefusal(catalog, entries, gaps);
    } else {
      assert ValidateLedger(catalog, entries, gaps) == e;
      WrongIsOfARow(catalog, entries, e.value);
    }
  }

  lemma WrongIsOfARow(catalog: seq<Migration>, entries: map<int, Entry>, why: Refusal)
    requires SomeSmallestWrong(catalog, entries, why)
    ensures !why.NotContinuous? && !why.AppliedAfterFailed?
  {
    var id :| SmallestWrong(catalog, entries, id, why);
    assert WrongRow(catalog, entries, id, why);
  }

  lemma ShapeRefusal(catalog: seq<Migration>, entries: map<int, Entry>, gaps: set<int>)
    requires RightRows(catalog, entries) && FirstRowError(catalog, entries, InOrder(entries.Keys)).None?
    ensures Explains(catalog, entries, gaps, ValidateLedger(catalog, entries, gaps))
  {
    if entries != map[] {
      var unauthorized := Missing(entries, 1, Highest(entries.Keys), gaps);
      HolesNamed(entries, gaps);
      if unauthorized != [] {
        assert ValidateLedger(catalog, entries, gaps) == Some(NotContinuous(unauthorized));
      } else {
        FailedAnswer(entries);
      }
    }
  }

  lemma FailedAnswer(entries: map<int, Entry>)
    requires entries != map[]
    ensures FailedIds(entries) != {} && FailedIds(entries) != {Highest(entries.Keys)} <==> !FailedLast(entries)
  {
    FailedIff(entries);
    FailedLastIff(entries);
  }

  lemma RowRefusal(catalog: seq<Migration>, entries: map<int, Entry>)
    requires Numbered(catalog)
    ensures var e := FirstRowError(catalog, entries, InOrder(entries.Keys));
      && (e.None? ==> RightRows(catalog, entries))
      && (e.Some? ==> SomeSmallestWrong(catalog, entries, e.value))
  {
    var order := InOrder(entries.Keys);
    var k := RowsInOrder(catalog, entries, order);
    var e := FirstRowError(catalog, entries, order);
    if e.Some? {
      SmallestInOrder(catalog, entries, k, e.value);
    } else {
      forall id | id in entries ensures RightRow(catalog, entries, id) {
        assert id in order;
      }
    }
  }

  lemma SmallestInOrder(catalog: seq<Migration>, entries: map<int, Entry>, k: nat, why: Refusal)
    requires FirstWrong(catalog, entries, InOrder(entries.Keys), k, why)
    ensures SomeSmallestWrong(catalog, entries, why)
  {
    var order := InOrder(entries.Keys);
    forall x | x in entries && x < order[k] ensures RightRow(catalog, entries, x) {
      assert x in order;
      var j :| 0 <= j < |order| && order[j] == x;
    }
    assert SmallestWrong(catalog, entries, order[k], why);
  }

  lemma HolesNamed(entries: map<int, Entry>, gaps: set<int>)
    requires entries != map[]
    ensures NamesHoles(entries, gaps, Missing(entries, 1, Highest(entries.Keys), gaps))
  {
    var head := Highest(entries.Keys);
    MissingAscends(entries, 1, head, gaps);
    assert head in entries;
  }

  /** What is wrong with a named gap: the catalog has no such number, it is recorded, or nothing above it is. */
  ghost predicate WrongGap(catalog: seq<Migration>, entries: map<int, Entry>, g: int, why: Refusal) {
    if !(1 <= g <= |catalog|) then why == GapNotInCatalog(g)
    else if g in entries then why == GapIsRecorded(g, entries[g].status)
    else why.GapAheadOfHead? && why.identifier == g && why.head < g && IsTop(entries, why.head)
  }

  /** The largest recorded identifier, 0 if there is none. */
  ghost predicate IsTop(entries: map<int, Entry>, head: int) {
    if entries == map[] then head == 0 else head in entries && forall id :: id in entries ==> id <= head
  }

  ghost predicate RightGap(catalog: seq<Migration>, entries: map<int, Entry>, g: int) {
    1 <= g <= |catalog| && g !in entries && exists id :: id in entries && g < id
  }

  lemma GapErrorIs(catalog: seq<Migration>, entries: map<int, Entry>, g: int)
    requires Numbered(catalog)
    ensures var e := GapError(Identifiers(catalog), entries, g);
      (e.None? <==> RightGap(catalog, entries, g)) && (e.Some? ==> WrongGap(catalog, entries, g, e.value))
  {
    IdentifiersOfNumbered(catalog);
    if entries != map[] {
      assert Head(entries) in entries;
    }
  }

  ghost predicate RightGaps(catalog: seq<Migration>, entries: map<int, Entry>, order: seq<int>, n: nat) {
    n <= |order| && forall j :: 0 <= j < n ==> RightGap(catalog, entries, order[j])
  }

  ghost predicate FirstWrongGap(catalog: seq<Migration>, entries: map<int, Entry>, order: seq<int>, k: nat,
                                why: Refusal) {
    k < |order| && WrongGap(catalog, entries, order[k], why) && RightGaps(catalog, entries, order, k)
  }

  lemma OneMoreGap(catalog: seq<Migration>, entries: map<int, Entry>, order: seq<int>, n: nat)
    requires order != [] && RightGap(catalog, entries, order[0]) && RightGaps(catalog, entries, order[1..], n)
    ensures RightGaps(catalog, entries, order, n + 1)
  {
    forall j | 0 <= j < n + 1 ensures RightGap(catalog, entries, order[j]) {
      assert j > 0 ==> order[j] == order[1..][j - 1];
    }
  }

  lemma {:induction false} GapsInOrder(catalog: seq<Migration>, entries: map<int, Entry>, order: seq<int>)
    returns (k: nat)
    requires Numbered(catalog)
    ensures var e := FirstGapError(Identifiers(catalog), entries, order);
      if e.None? then RightGaps(catalog, entries, order, |order|)
      else FirstWrongGap(catalog, entries, order, k, e.value)
  {
    k := 0;
    if order != [] {
      GapErrorIs(catalog, entries, order[0]);
      if RightGap(catalog, entries, order[0]) {
        var n := GapsInOrder(catalog, entries, order[1..]);
        var e := FirstGapError(Identifiers(catalog), entries, order[1..]);
        OneMoreGap(catalog, entries, order, if e.None? then |order| - 1 else n);
        k := n + 1;
      }
    }
  }

  /** The smallest named gap that is none. */
  ghost predicate SmallestWrongGap(catalog: seq<Migration>, entries: map<int, Entry>, gaps: set<int>, g: int,
                                   why: Refusal) {
    && g in gaps && WrongGap(catalog, entries, g, why)
    && forall x :: x in gaps && x < g ==> RightGap(catalog, entries, x)
  }

  lemma GapRefusal(catalog: seq<Migration>, entries: map<int, Entry>, gaps: set<int>)
    requires Numbered(catalog)
    ensures var e := ValidateGaps(Identifiers(catalog), entries, gaps);
      if e.None? then forall g :: g in gaps ==> RightGap(catalog, entries, g)
      else exists g :: SmallestWrongGap(catalog, entries, gaps, g, e.value)
  {
    var order := InOrder(gaps);
    var k := GapsInOrder(catalog, entries, order);
    var e := FirstGapError(Identifiers(catalog), entries, order);
    if e.None? {
      forall g | g in gaps ensures RightGap(catalog, entries, g) {
        assert g in order;
      }
    } else {
      FirstIsSmallest(catalog, entries, gaps, k, e.value);
    }
  }

  lemma FirstIsSmallest(catalog: seq<Migration>, entries: map<int, Entry>, gaps: set<int>, k: nat, why: Refusal)
    requires FirstWrongGap(catalog, entries, InOrder(gaps), k, why)
    ensures SmallestWrongGap(catalog, entries, gaps, InOrder(gaps)[k], why)
  {
    var order := InOrder(gaps);
    assert order[k] in order;
    forall x | x in gaps && x < order[k] ensures RightGap(catalog, entries, x) {
      assert x in order;
      var j :| 0 <= j < |order| && order[j] == x;
    }
  }

  // ---- What a refused run says ----

  ghost predicate AllGapsRight(catalog: seq<Migration>, entries: map<int, Entry>, gaps: set<int>) {
    forall g :: g in gaps ==> RightGap(catalog, entries, g)
  }

  ghost predicate LedgerIsRight(catalog: seq<Migration>, entries: map<int, Entry>, gaps: set<int>) {
    RightRows(catalog, entries) && NamesHoles(entries, gaps, []) && FailedLast(entries)
  }

  /** The answer to a request whose target exists, over a ledger that could be read: gaps, then rows, then target. */
  ghost predicate Answers(req: Request, entries: map<int, Entry>, why: Refusal) {
    if !AllGapsRight(req.catalog, entries, req.gaps) then
      exists g :: SmallestWrongGap(req.catalog, entries, req.gaps, g, why)
    else if !LedgerIsRight(req.catalog, entries, req.gaps) then
      Explains(req.catalog, entries, req.gaps, Some(why))
    else
      && why.TargetPrecedesHead? && req.target == Some(why.identifier)
      && entries != map[] && IsTop(entries, why.head) && why.identifier < why.head
  }

  lemma AnswerOfChecks(req: Request, entries: map<int, Entry>)
    requires Numbered(req.catalog)
    ensures var e := Admit(req.catalog, entries, req.target, req.gaps); e.Some? ==> Answers(req, entries, e.value)
  {
    GapRefusal(req.catalog, entries, req.gaps);
    LedgerRefusal(req.catalog, entries, req.gaps);
    WrongGapIsNotRight(req.catalog, entries, req.gaps);
    OneAnswer(req.catalog, entries, req.gaps);
  }

  lemma WrongGapIsNotRight(catalog: seq<Migration>, entries: map<int, Entry>, gaps: set<int>)
    ensures forall g, why :: SmallestWrongGap(catalog, entries, gaps, g, why) ==> !AllGapsRight(catalog, entries, gaps)
  {
    forall g, why | SmallestWrongGap(catalog, entries, gaps, g, why) ensures !AllGapsRight(catalog, entries, gaps) {
      assert !RightGap(catalog, entries, g);
    }
  }

  /** A ledger that is right is not refused, and one that is refused is not right. */
  lemma OneAnswer(catalog: seq<Migration>, entries: map<int, Entry>, gaps: set<int>)
    ensures Explains(catalog, entries, gaps, None) <==> LedgerIsRight(catalog, entries, gaps)
    ensures forall why :: Explains(catalog, entries, gaps, Some(why)) ==> !LedgerIsRight(catalog, entries, gaps)
  {
    forall why | Explains(catalog, entries, gaps, Some(why)) ensures !LedgerIsRight(catalog, entries, gaps) {
      match why
      case NotContinuous(q) => assert q[0] in q && q[0] !in [];
      case AppliedAfterFailed =>
      case _ =>
        var id :| SmallestWrong(catalog, entries, id, why);
        assert !RightRow(catalog, entries, id);
    }
  }

  /** What a refused run says and leaves: a missing target or ledger nothing, any other refusal a prepared ledger. */
  lemma RunRefused(db: Db, req: Request, outcome: int -> Outcome, contract: seq<Migration> -> bool)
    requires Numbered(req.catalog) && Run(db, req, outcome, contract).1.Refused?
    ensures var (after, result) := Run(db, req, outcome, contract);
      if req.target.Some? && !(1 <= req.target.value <= |req.catalog|) then
        after == db && result.why == UnknownTarget(req.target.value)
      else if !db.ledger && db.appSchema then after == db && result.why == AdoptionRequired
      else
        && after == (if db.ledger then db else Db(db.appSchema, true, map[], db.history))
        && Answers(req, if db.ledger then View(db.rows) else map[], result.why)
  {
    IdentifiersOfNumbered(req.catalog);
    var ready := Prepared(db);
    LoopStarts(ready, req, 0, outcome, contract, [], []);
    AnswerOfChecks(req, View(ready.rows));
  }
}
