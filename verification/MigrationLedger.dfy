/**
 * The migration ledger and one run over it, as values.
 *
 * A `Db` is what survives a process: the ledger rows and the bodies whose transaction committed, in
 * commit order.  `Run` is one call of the runner.  What the database or the operating system does to
 * each attempted migration is the `outcome` argument, so a lemma about `Run` for every `outcome` is a
 * lemma about every pattern of failures, lost failure records and crashes.
 */
module MigrationLedger {
  import opened Common

  datatype Status = Applied | Failed

  /** What a ledger read returns for one identifier. */
  datatype Entry = Entry(filename: string, checksum: string, status: Status)

  /** What the ledger table stores for one identifier. */
  datatype Row = Row(entry: Entry, attempts: nat)

  datatype Migration = Migration(identifier: int, filename: string, checksum: string, body: string)

  datatype Db = Db(appSchema: bool, ledger: bool, rows: map<int, Row>, history: seq<Migration>)

  /** What happens to one attempted migration. */
  datatype Outcome =
    | Committed        // body and row commit, the runner learns it
    | CommittedUnseen  // body and row commit, the runner dies before it learns it
    | FailedRecorded   // the body rolls back and the failure row commits
    | FailedUnrecorded // the body rolls back and the failure row is lost
    | Crashed          // the runner dies before anything commits

  datatype Refusal =
    | UnknownTarget(identifier: int)
    | AdoptionRequired
    | GapNotInCatalog(identifier: int)
    | GapIsRecorded(identifier: int, status: Status)
    | GapAheadOfHead(identifier: int, head: int)
    | UnknownMigration(identifier: int)
    | FilenameDrift(identifier: int)
    | ChecksumDrift(identifier: int)
    | NotContinuous(missing: seq<int>)
    | AppliedAfterFailed
    | TargetPrecedesHead(identifier: int, head: int)
    | LedgerMissing
    | StillPending(pending: seq<int>)

  datatype Result =
    | Done(applied: seq<int>, skipped: seq<int>)
    | Refused(why: Refusal)
    | BodyFailed(identifier: int)
    | RecordLost(identifier: int)
    | Killed
    | ContractBroken

  // ---- Catalog ----

  function Identifiers(catalog: seq<Migration>): set<int> {
    set m | m in catalog :: m.identifier
  }

  function IdentifierList(catalog: seq<Migration>): seq<int> {
    seq(|catalog|, i requires 0 <= i < |catalog| => catalog[i].identifier)
  }

  ghost predicate Ascending(catalog: seq<Migration>) {
    forall i, j :: 0 <= i < j < |catalog| ==> catalog[i].identifier < catalog[j].identifier
  }

  /** Identifiers 1, 2, ..., n: the catalog the runner is written for. */
  ghost predicate Numbered(catalog: seq<Migration>) {
    forall i :: 0 <= i < |catalog| ==> catalog[i].identifier == i + 1
  }

  /** The `identifier -> migration` dictionary. */
  function Find(catalog: seq<Migration>, identifier: int): (r: Option<Migration>)
    ensures r.Some? <==> identifier in Identifiers(catalog)
    ensures r.Some? ==> r.value in catalog && r.value.identifier == identifier
  {
    if catalog == [] then None
    else
      var last := catalog[|catalog| - 1];
      assert catalog == catalog[..|catalog| - 1] + [last];
      if last.identifier == identifier then Some(last) else Find(catalog[..|catalog| - 1], identifier)
  }

  lemma FindAt(catalog: seq<Migration>, i: nat)
    requires Ascending(catalog) && i < |catalog|
    ensures Find(catalog, catalog[i].identifier) == Some(catalog[i])
  {
    var m := Find(catalog, catalog[i].identifier).value;
    var j :| 0 <= j < |catalog| && catalog[j] == m;
    assert i == j;
  }

  // ---- Ledger writes ----

  function EntryOf(m: Migration, status: Status): Entry {
    Entry(m.filename, m.checksum, status)
  }

  function Upsert(rows: map<int, Row>, m: Migration, status: Status): map<int, Row> {
    var attempts := if m.identifier in rows then rows[m.identifier].attempts + 1 else 1;
    rows[m.identifier := Row(EntryOf(m, status), attempts)]
  }

  /** Body and `applied` row, one transaction. */
  function RecordApplied(db: Db, m: Migration): Db {
    db.(rows := Upsert(db.rows, m, Applied), history := db.history + [m])
  }

  /** The `failed` row alone: the body was rolled back. */
  function RecordFailed(db: Db, m: Migration): Db {
    db.(rows := Upsert(db.rows, m, Failed))
  }

  function View(rows: map<int, Row>): map<int, Entry> {
    map identifier | identifier in rows :: rows[identifier].entry
  }

  predicate IsApplied(entries: map<int, Entry>, identifier: int) {
    identifier in entries && entries[identifier].status == Applied
  }

  // ---- Validation ----

  lemma IntOrder()
    ensures TotalOrder(IntLeq)
  {}

  /** The identifiers of a set in the order the ledger query and `sorted` give them. */
  function InOrder(s: set<int>): (q: seq<int>)
    ensures forall x :: x in q <==> x in s
    ensures |q| == |s|
    ensures forall i, j :: 0 <= i < j < |q| ==> q[i] < q[j]
  {
    IntOrder();
    Sorted(s, IntLeq)
  }

  function Highest(s: set<int>): (m: int)
    requires s != {}
    ensures m in s && forall x :: x in s ==> x <= m
  {
    var q := InOrder(s);
    var m := q[|q| - 1];
    assert forall x :: x in s ==> x in q;
    m
  }

  function Head(entries: map<int, Entry>): int {
    if entries == map[] then 0 else Highest(entries.Keys)
  }

  function RowError(catalog: seq<Migration>, identifier: int, entry: Entry): Option<Refusal> {
    var m := Find(catalog, identifier);
    if m.None? then Some(UnknownMigration(identifier))
    else if m.value.filename != entry.filename then Some(FilenameDrift(identifier))
    else if entry.status == Applied && m.value.checksum != entry.checksum then Some(ChecksumDrift(identifier))
    else None
  }

  /** The error of the first offending row, rows read in the given order. */
  function FirstRowError(catalog: seq<Migration>, entries: map<int, Entry>, order: seq<int>): Option<Refusal>
    requires forall identifier :: identifier in order ==> identifier in entries
  {
    if order == [] then None
    else
      var e := RowError(catalog, order[0], entries[order[0]]);
      if e.Some? then e else FirstRowError(catalog, entries, order[1..])
  }

  /** The identifiers of 1..head the ledger has no row for, those in `except` left out. */
  function Missing(entries: map<int, Entry>, from: int, head: int, except: set<int>): (q: seq<int>)
    ensures forall i :: i in q <==> from <= i <= head && i !in entries && i !in except
    decreases head - from
  {
    if from > head then []
    else if from in entries || from in except then Missing(entries, from + 1, head, except)
    else [from] + Missing(entries, from + 1, head, except)
  }

  function FailedIds(entries: map<int, Entry>): set<int> {
    set identifier | identifier in entries && entries[identifier].status == Failed
  }

  function ValidateLedger(catalog: seq<Migration>, entries: map<int, Entry>, gaps: set<int>): Option<Refusal> {
    var e := FirstRowError(catalog, entries, InOrder(entries.Keys));
    if e.Some? then e
    else if entries == map[] then None
    else
      var head := Highest(entries.Keys);
      var unauthorized := Missing(entries, 1, head, gaps);
      var failed := FailedIds(entries);
      if unauthorized != [] then Some(NotContinuous(unauthorized))
      else if failed != {} && failed != {head} then Some(AppliedAfterFailed)
      else None
  }

  function GapError(known: set<int>, entries: map<int, Entry>, gap: int): Option<Refusal> {
    if gap !in known then Some(GapNotInCatalog(gap))
    else if gap in entries then Some(GapIsRecorded(gap, entries[gap].status))
    else if gap > Head(entries) then Some(GapAheadOfHead(gap, Head(entries)))
    else None
  }

  function FirstGapError(known: set<int>, entries: map<int, Entry>, order: seq<int>): Option<Refusal> {
    if order == [] then None
    else
      var e := GapError(known, entries, order[0]);
      if e.Some? then e else FirstGapError(known, entries, order[1..])
  }

  function ValidateGaps(known: set<int>, entries: map<int, Entry>, gaps: set<int>): Option<Refusal> {
    FirstGapError(known, entries, InOrder(gaps))
  }

  /** Everything a run checks between reading the ledger and applying the first body. */
  function Admit(catalog: seq<Migration>, entries: map<int, Entry>, target: Option<int>,
                 gaps: set<int>): Option<Refusal> {
    var g := ValidateGaps(Identifiers(catalog), entries, gaps);
    if g.Some? then g
    else
      var e := ValidateLedger(catalog, entries, gaps);
      if e.Some? then e
      else if target.Some? && entries != map[] && target.value < Head(entries) then
        Some(TargetPrecedesHead(target.value, Head(entries)))
      else None
  }

  // ---- One run ----

  datatype Request = Request(catalog: seq<Migration>, target: Option<int>, gaps: set<int>)

  predicate BeyondTarget(req: Request, identifier: int) {
    req.target.Some? && identifier > req.target.value
  }

  predicate ContractIsChecked(req: Request) {
    req.target.None? || (req.catalog != [] && req.target.value == req.catalog[|req.catalog| - 1].identifier)
  }

  function Conclude(db: Db, req: Request, contract: seq<Migration> -> bool, applied: seq<int>,
                    skipped: seq<int>): Result {
    if ContractIsChecked(req) && !contract(db.history) then ContractBroken else Done(applied, skipped)
  }

  function ApplyFrom(db: Db, req: Request, k: nat, outcome: int -> Outcome, contract: seq<Migration> -> bool,
                     applied: seq<int>, skipped: seq<int>): (Db, Result)
    requires k <= |req.catalog|
    decreases |req.catalog| - k
  {
    if k == |req.catalog| || BeyondTarget(req, req.catalog[k].identifier) then
      (db, Conclude(db, req, contract, applied, skipped))
    else
      var m := req.catalog[k];
      if IsApplied(View(db.rows), m.identifier) then
        ApplyFrom(db, req, k + 1, outcome, contract, applied, skipped + [m.identifier])
      else
        match outcome(m.identifier)
        case Committed =>
          ApplyFrom(RecordApplied(db, m), req, k + 1, outcome, contract, applied + [m.identifier], skipped)
        case CommittedUnseen => (RecordApplied(db, m), Killed)
        case FailedRecorded => (RecordFailed(db, m), BodyFailed(m.identifier))
        case FailedUnrecorded => (db, RecordLost(m.identifier))
        case Crashed => (db, Killed)
  }

  function Prepared(db: Db): Db {
    if db.ledger then db else db.(ledger := true, rows := map[])
  }

  function Run(db: Db, req: Request, outcome: int -> Outcome, contract: seq<Migration> -> bool): (Db, Result) {
    if req.target.Some? && req.target.value !in Identifiers(req.catalog) then
      (db, Refused(UnknownTarget(req.target.value)))
    else if !db.ledger && db.appSchema then
      (db, Refused(AdoptionRequired))
    else
      var ready := Prepared(db);
      match Admit(req.catalog, View(ready.rows), req.target, req.gaps)
      case Some(why) => (ready, Refused(why))
      case None => ApplyFrom(ready, req, 0, outcome, contract, [], [])
  }

  function Pending(entries: map<int, Entry>, catalog: seq<Migration>): seq<int> {
    if catalog == [] then []
    else
      (if IsApplied(entries, catalog[0].identifier) then [] else [catalog[0].identifier])
      + Pending(entries, catalog[1..])
  }

  /** `verify_complete`: a read-only check of the ledger. */
  function Verify(db: Db, catalog: seq<Migration>, contract: seq<Migration> -> bool): Result {
    if !db.ledger then Refused(LedgerMissing)
    else
      var e := ValidateLedger(catalog, View(db.rows), {});
      if e.Some? then Refused(e.value)
      else
        var pending := Pending(View(db.rows), catalog);
        if pending != [] then Refused(StillPending(pending))
        else if !contract(db.history) then ContractBroken
        else Done([], IdentifierList(catalog))
  }
}
