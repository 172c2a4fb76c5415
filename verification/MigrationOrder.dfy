/** What every schedule keeps of the ledger's shape. */
module MigrationOrder {
  import opened Common
  import opened MigrationLedger
  import opened MigrationAdmission
  import opened MigrationProtocol

  // ---- Prefix order ----

  /** Bodies committed in the order 1, 2, ..., h; the ledger is 1..h, plus at most a failed h + 1. */
  ghost predicate Prefix(db: Db) {
    && (forall i :: 0 <= i < |db.history| ==> db.history[i].identifier == i + 1)
    && (forall identifier :: identifier in db.rows ==> 1 <= identifier <= |db.history| + 1)
    && (|db.history| + 1 in db.rows ==> db.rows[|db.history| + 1].entry.status == Failed)
  }

  ghost predicate NumberedRequests(events: seq<Event>) {
    forall i :: 0 <= i < |events| && events[i].Acquire? ==> Numbered(events[i].req.catalog)
  }

  ghost predicate PrefixPhase(db: Db, phase: Phase) {
    match phase
    case Idle => true
    case Holding(req) => Numbered(req.catalog)
    case Ready(req) => Numbered(req.catalog)
    case Applying(req, pos, _) => Numbered(req.catalog) && pos <= |db.history|
    case Recording(req, pos) => Numbered(req.catalog) && pos == |db.history|
  }

  ghost predicate PrefixInv(w: World) {
    && Inv(w)
    && Prefix(w.db)
    && (forall r: nat :: PrefixPhase(w.db, PhaseOf(w, r)))
  }

  lemma AppliedInPrefix(db: Db, identifier: int)
    requires Consistent(db) && Prefix(db)
    ensures identifier in AppliedIds(db.rows) <==> 1 <= identifier <= |db.history|
  {
    if 1 <= identifier <= |db.history| {
      assert db.history[identifier - 1] in db.history;
      assert identifier in Identifiers(db.history);
    }
    if identifier in AppliedIds(db.rows) {
      assert identifier in Identifiers(db.history);
    }
  }

  lemma StepKeepsPrefix(w: World, e: Event)
    requires PrefixInv(w) && Enabled(true, w, e)
    requires e.Acquire? ==> Numbered(e.req.catalog)
    ensures PrefixInv(Next(true, w, e))
  {
    StepKeepsInv(w, e);
    var me := PhaseOf(w, e.runner);
    assert PhaseAgrees(w.db, me) && PrefixPhase(w.db, me);
    if AtWork(me) {
      AppliedInPrefix(w.db, me.req.catalog[me.pos].identifier);
    }
    var after := Next(true, w, e);
    forall r: nat ensures PrefixPhase(after.db, PhaseOf(after, r)) {
      if r != e.runner {
        assert PhaseOf(after, r) == PhaseOf(w, r) && PhaseOf(w, r).Idle?;
      }
    }
  }

  lemma {:induction false} PrefixKept(w: World, events: seq<Event>)
    requires PrefixInv(w) && Allowed(true, w, events) && NumberedRequests(events)
    ensures PrefixInv(Exec(true, w, events))
    decreases |events|
  {
    if events != [] {
      StepKeepsPrefix(w, events[0]);
      PrefixKept(Next(true, w, events[0]), events[1..]);
    }
  }

  /**
   * With catalogs numbered 1..n, whatever the targets, gap lists, failures and crashes: bodies commit in the
   * order 1, 2, 3, ..., the applied rows are exactly 1..h and the only other row there can be is a failed
   * h + 1.  In particular no schedule of the runner makes a hole.
   */
  lemma PrefixOrder(w: World, events: seq<Event>)
    requires Init(w) && Allowed(true, w, events) && NumberedRequests(events)
    ensures var db := Exec(true, w, events).db; var h := |db.history|;
            && (forall i :: 0 <= i < h ==> db.history[i].identifier == i + 1)
            && (forall identifier :: identifier in AppliedIds(db.rows) <==> 1 <= identifier <= h)
            && (forall identifier :: identifier in db.rows ==> 1 <= identifier <= h + 1)
            && Holes(View(db.rows)) == {}
  {
    InitInv(w);
    PrefixKept(w, events);
    var db := Exec(true, w, events).db;
    forall identifier ensures identifier in AppliedIds(db.rows) <==> 1 <= identifier <= |db.history| {
      AppliedInPrefix(db, identifier);
    }
    PrefixShape(db);
  }

  lemma PrefixShape(db: Db)
    requires Consistent(db) && Prefix(db)
    ensures Holes(View(db.rows)) == {}
    ensures FailedOnlyAtHead(View(db.rows))
  {
    var entries := View(db.rows);
    forall identifier ensures identifier in AppliedIds(db.rows) <==> 1 <= identifier <= |db.history| {
      AppliedInPrefix(db, identifier);
    }
    if entries != map[] {
      assert Head(entries) in entries;
      forall i | 1 <= i < Head(entries) ensures i in entries {
        assert i in AppliedIds(db.rows);
      }
      forall i | i in entries && entries[i].status == Failed ensures i == Head(entries) {
        assert i !in AppliedIds(db.rows);
      }
    }
  }

  // ---- Resumption ----

  ghost predicate RequestsUse(catalog: seq<Migration>, events: seq<Event>) {
    forall i :: 0 <= i < |events| && events[i].Acquire? ==> events[i].req.catalog == catalog
  }

  ghost predicate RowsFrom(catalog: seq<Migration>, rows: map<int, Row>) {
    forall identifier :: identifier in rows ==>
      exists i :: 0 <= i < |catalog| && catalog[i].identifier == identifier
               && rows[identifier].entry == EntryOf(catalog[i], rows[identifier].entry.status)
  }

  ghost predicate PhasesUse(catalog: seq<Migration>, w: World) {
    forall r: nat :: !PhaseOf(w, r).Idle? ==> PhaseOf(w, r).req.catalog == catalog
  }

  lemma StepKeepsSource(catalog: seq<Migration>, w: World, e: Event)
    requires RowsFrom(catalog, w.db.rows) && PhasesUse(catalog, w) && Enabled(true, w, e)
    requires e.Acquire? ==> e.req.catalog == catalog
    ensures RowsFrom(catalog, Next(true, w, e).db.rows) && PhasesUse(catalog, Next(true, w, e))
  {
    var after := Next(true, w, e);
    forall r: nat | !PhaseOf(after, r).Idle? ensures PhaseOf(after, r).req.catalog == catalog {
      if r != e.runner {
        assert PhaseOf(after, r) == PhaseOf(w, r);
      }
    }
  }

  lemma {:induction false} SourceKept(catalog: seq<Migration>, w: World, events: seq<Event>)
    requires RowsFrom(catalog, w.db.rows) && PhasesUse(catalog, w)
    requires Allowed(true, w, events) && RequestsUse(catalog, events)
    ensures RowsFrom(catalog, Exec(true, w, events).db.rows)
    decreases |events|
  {
    if events != [] {
      StepKeepsSource(catalog, w, events[0]);
      SourceKept(catalog, Next(true, w, events[0]), events[1..]);
    }
  }

  lemma RowsFromMatch(catalog: seq<Migration>, rows: map<int, Row>)
    requires Numbered(catalog) && RowsFrom(catalog, rows)
    ensures RowsMatch(catalog, View(rows))
  {
    forall identifier | identifier in View(rows) ensures RowMatches(catalog, View(rows), identifier) {
      var i :| 0 <= i < |catalog| && catalog[i].identifier == identifier
            && rows[identifier].entry == EntryOf(catalog[i], rows[identifier].entry.status);
      FindAt(catalog, i);
    }
  }

  lemma PrefixIsAdmitted(catalog: seq<Migration>, db: Db, target: Option<int>)
    requires Consistent(db) && Prefix(db) && Numbered(catalog) && RowsFrom(catalog, db.rows)
    requires target.Some? ==> Head(View(db.rows)) <= target.value
    ensures Admit(catalog, View(db.rows), target, {}).None?
  {
    PrefixShape(db);
    RowsFromMatch(catalog, db.rows);
    WholeLedgerIsAdmitted(catalog, View(db.rows), target);
  }

  /**
   * However a schedule of runs of one catalog 1..n was interrupted, the next run of that catalog passes every
   * check without a gap list, for the whole catalog and for every target at or past the head.
   */
  lemma Resumable(catalog: seq<Migration>, w: World, events: seq<Event>, target: Option<int>)
    requires Init(w) && Allowed(true, w, events)
    requires Numbered(catalog) && RequestsUse(catalog, events)
    requires target.Some? ==> Head(View(Exec(true, w, events).db.rows)) <= target.value
    ensures Admit(catalog, View(Exec(true, w, events).db.rows), target, {}).None?
  {
    InitInv(w);
    assert NumberedRequests(events);
    PrefixKept(w, events);
    SourceKept(catalog, w, events);
    PrefixIsAdmitted(catalog, Exec(true, w, events).db, target);
  }

  // ---- The ledgers nothing leaves ----

  ghost predicate NobodyApplying(w: World) {
    forall r: nat :: !PhaseOf(w, r).Applying? && !PhaseOf(w, r).Recording?
  }

  lemma NoSnapshotPasses(db: Db, req: Request)
    requires !FailedOnlyAtHead(View(db.rows))
    ensures Admit(req.catalog, View(db.rows), req.target, req.gaps).Some?
  {
    AdmissionIff(req.catalog, View(db.rows), req.target, req.gaps);
  }

  lemma StepOnFailedBelowHead(guarded: bool, w: World, e: Event)
    requires w.db.ledger && !FailedOnlyAtHead(View(w.db.rows)) && NobodyApplying(w) && Enabled(guarded, w, e)
    ensures Next(guarded, w, e).db == w.db && NobodyApplying(Next(guarded, w, e))
  {
    var after := Next(guarded, w, e);
    assert !PhaseOf(w, e.runner).Applying? && !PhaseOf(w, e.runner).Recording?;
    if e.Snapshot? {
      NoSnapshotPasses(w.db, PhaseOf(w, e.runner).req);
    }
    forall r: nat ensures !PhaseOf(after, r).Applying? && !PhaseOf(after, r).Recording? {
      if r != e.runner {
        assert PhaseOf(after, r) == PhaseOf(w, r);
      }
    }
  }

  /**
   * Once a failed row lies below the head, every later step of every runner leaves the database exactly as it
   * is, with or without the lock and whatever the requests: each run is refused at its snapshot.
   */
  lemma {:induction false} FailedBelowHeadIsFinal(guarded: bool, w: World, events: seq<Event>)
    requires w.db.ledger && !FailedOnlyAtHead(View(w.db.rows)) && NobodyApplying(w)
    requires Allowed(guarded, w, events)
    ensures Exec(guarded, w, events).db == w.db
    decreases |events|
  {
    if events != [] {
      StepOnFailedBelowHead(guarded, w, events[0]);
      FailedBelowHeadIsFinal(guarded, Next(guarded, w, events[0]), events[1..]);
    }
  }
}
