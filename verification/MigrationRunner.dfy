/** The runner itself: a database object, the validators' loops and the apply loop. */
module MigrationRunner {
  import opened Common
  import opened MigrationLedger

  class Database {
    var appSchema: bool
    var ledger: bool
    var rows: map<int, Row>
    var history: seq<Migration>

    constructor (appSchema: bool)
      ensures Value() == Db(appSchema, false, map[], [])
    {
      this.appSchema := appSchema;
      ledger, rows, history := false, map[], [];
    }

    function Value(): Db
      reads this
    {
      Db(appSchema, ledger, rows, history)
    }

    /** Create the ledger unless it exists; an application schema without one needs a controlled adoption. */
    method Prepare() returns (refusal: Option<Refusal>)
      modifies this
      ensures refusal == if !old(ledger) && old(appSchema) then Some(AdoptionRequired) else None
      ensures Value() == if refusal.Some? then old(Value()) else Prepared(old(Value()))
    {
      if ledger {
        return None;
      }
      if appSchema {
        return Some(AdoptionRequired);
      }
      ledger, rows := true, map[];
      return None;
    }

    method ReadLedger() returns (entries: map<int, Entry>)
      ensures entries == View(rows)
    {
      entries := View(rows);
    }

    /** One transaction: the body and its `applied` row. */
    method CommitMigration(m: Migration)
      modifies this
      ensures Value() == RecordApplied(old(Value()), m)
    {
      history := history + [m];
      var attempts := 1;
      if m.identifier in rows {
        attempts := rows[m.identifier].attempts + 1;
      }
      rows := rows[m.identifier := Row(Entry(m.filename, m.checksum, Applied), attempts)];
    }

    /** The second transaction of a failed attempt: the `failed` row alone. */
    method RecordFailure(m: Migration)
      modifies this
      ensures Value() == RecordFailed(old(Value()), m)
    {
      var attempts := 1;
      if m.identifier in rows {
        attempts := rows[m.identifier].attempts + 1;
      }
      rows := rows[m.identifier := Row(Entry(m.filename, m.checksum, Failed), attempts)];
    }
  }

  method FindRowError(catalog: seq<Migration>, entries: map<int, Entry>, order: seq<int>)
    returns (refusal: Option<Refusal>)
    requires forall identifier :: identifier in order ==> identifier in entries
    ensures refusal == FirstRowError(catalog, entries, order)
  {
    for i := 0 to |order|
      invariant FirstRowError(catalog, entries, order) == FirstRowError(catalog, entries, order[i..])
    {
      assert order[i..][1..] == order[i + 1..];
      var e := RowError(catalog, order[i], entries[order[i]]);
      if e.Some? {
        return e;
      }
    }
    return None;
  }

  method CheckLedger(catalog: seq<Migration>, entries: map<int, Entry>, gaps: set<int>)
    returns (refusal: Option<Refusal>)
    ensures refusal == ValidateLedger(catalog, entries, gaps)
  {
    refusal := FindRowError(catalog, entries, InOrder(entries.Keys));
    if refusal.None? && entries != map[] {
      var highest := Highest(entries.Keys);
      var unauthorized := Missing(entries, 1, highest, gaps);
      if unauthorized != [] {
        return Some(NotContinuous(unauthorized));
      }
      var failed := FailedIds(entries);
      if failed != {} && failed != {highest} {
        return Some(AppliedAfterFailed);
      }
    }
  }

  method CheckGaps(known: set<int>, entries: map<int, Entry>, gaps: set<int>) returns (refusal: Option<Refusal>)
    ensures refusal == ValidateGaps(known, entries, gaps)
  {
    var order := InOrder(gaps);
    for i := 0 to |order|
      invariant FirstGapError(known, entries, order) == FirstGapError(known, entries, order[i..])
    {
      assert order[i..][1..] == order[i + 1..];
      var e := GapError(known, entries, order[i]);
      if e.Some? {
        return e;
      }
    }
    return None;
  }

  /**
   * One call of the runner.  `rows` is the copy of the ledger read at the start and updated along the way; the
   * database is not read again.
   */
  method ApplyMigrations(db: Database, req: Request, outcome: int -> Outcome, contract: seq<Migration> -> bool)
    returns (result: Result)
    modifies db
    ensures (db.Value(), result) == Run(old(db.Value()), req, outcome, contract)
  {
    var known := Identifiers(req.catalog);
    if req.target.Some? && req.target.value !in known {
      return Refused(UnknownTarget(req.target.value));
    }
    var refusal := db.Prepare();
    if refusal.Some? {
      return Refused(refusal.value);
    }
    var rows := db.ReadLedger();
    refusal := CheckGaps(known, rows, req.gaps);
    if refusal.Some? {
      return Refused(refusal.value);
    }
    refusal := CheckLedger(req.catalog, rows, req.gaps);
    if refusal.Some? {
      return Refused(refusal.value);
    }
    if req.target.Some? && rows != map[] && req.target.value < Highest(rows.Keys) {
      return Refused(TargetPrecedesHead(req.target.value, Highest(rows.Keys)));
    }
    result := ApplyPending(db, req, rows, outcome, contract);
  }

  /** The loop over the catalog: it consults and updates only its own copy of the ledger. */
  method ApplyPending(db: Database, req: Request, entries: map<int, Entry>, outcome: int -> Outcome,
                      contract: seq<Migration> -> bool)
    returns (result: Result)
    requires entries == View(db.rows)
    modifies db
    ensures (db.Value(), result) == ApplyFrom(old(db.Value()), req, 0, outcome, contract, [], [])
  {
    var rows := entries;
    var applied, skipped := [], [];
    var k := 0;
    while k < |req.catalog| && !BeyondTarget(req, req.catalog[k].identifier)
      invariant 0 <= k <= |req.catalog|
      invariant rows == View(db.rows)
      invariant ApplyFrom(old(db.Value()), req, 0, outcome, contract, [], [])
             == ApplyFrom(db.Value(), req, k, outcome, contract, applied, skipped)
    {
      var m := req.catalog[k];
      if IsApplied(rows, m.identifier) {
        skipped := skipped + [m.identifier];
      } else {
        match outcome(m.identifier) {
          case Committed =>
            db.CommitMigration(m);
          case CommittedUnseen =>
            db.CommitMigration(m);
            return Killed;
          case FailedRecorded =>
            db.RecordFailure(m);
            return BodyFailed(m.identifier);
          case FailedUnrecorded =>
            return RecordLost(m.identifier);
          case Crashed =>
            return Killed;
        }
        applied := applied + [m.identifier];
        rows := rows[m.identifier := Entry(m.filename, m.checksum, Applied)];
      }
      k := k + 1;
    }
    if ContractIsChecked(req) && !contract(db.history) {
      return ContractBroken;
    }
    return Done(applied, skipped);
  }

  lemma PendingStep(rows: map<int, Entry>, catalog: seq<Migration>, i: nat, pending: seq<int>)
    requires i < |catalog|
    ensures var id := catalog[i].identifier;
      pending + Pending(rows, catalog[i..])
      == (if IsApplied(rows, id) then pending else pending + [id]) + Pending(rows, catalog[i + 1..])
  {
    assert catalog[i..][1..] == catalog[i + 1..];
  }

  method FindPending(rows: map<int, Entry>, catalog: seq<Migration>) returns (pending: seq<int>)
    ensures pending == Pending(rows, catalog)
  {
    pending := [];
    assert catalog[0..] == catalog;
    for i := 0 to |catalog|
      invariant Pending(rows, catalog) == pending + Pending(rows, catalog[i..])
    {
      PendingStep(rows, catalog, i, pending);
      if !IsApplied(rows, catalog[i].identifier) {
        pending := pending + [catalog[i].identifier];
      }
    }
    assert pending + [] == pending;
  }

  method VerifyComplete(db: Database, catalog: seq<Migration>, contract: seq<Migration> -> bool)
    returns (result: Result)
    ensures result == Verify(db.Value(), catalog, contract)
  {
    if !db.ledger {
      return Refused(LedgerMissing);
    }
    var rows := db.ReadLedger();
    var refusal := CheckLedger(catalog, rows, {});
    if refusal.Some? {
      return Refused(refusal.value);
    }
    var pending := FindPending(rows, catalog);
    if pending != [] {
      return Refused(StillPending(pending));
    }
    if !contract(db.history) {
      return ContractBroken;
    }
    return Done([], IdentifierList(catalog));
  }
}
