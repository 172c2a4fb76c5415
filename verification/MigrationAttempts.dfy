/** What the `attempts` column of the ledger counts, over every schedule. */
module MigrationAttempts {
  import opened MigrationLedger
  import opened MigrationProtocol

  /** The attempts of a row that did not end in its being applied. */
  function FailedAttempts(rows: map<int, Row>, identifier: int): int {
    if identifier !in rows then 0
    else rows[identifier].attempts - if rows[identifier].entry.status == Applied then 1 else 0
  }

  /** Whether a step records a failure of the identifier. */
  predicate RecordsFailureOf(w: World, e: Event, identifier: int)
    requires Enabled(true, w, e)
  {
    e.Record? && PhaseOf(w, e.runner).req.catalog[PhaseOf(w, e.runner).pos].identifier == identifier
  }

  /** How many steps of a schedule record a failure of the identifier. */
  function RecordedFailures(w: World, events: seq<Event>, identifier: int): nat
    requires Allowed(true, w, events)
    decreases |events|
  {
    if events == [] then 0
    else
      (if RecordsFailureOf(w, events[0], identifier) then 1 else 0)
      + RecordedFailures(Next(true, w, events[0]), events[1..], identifier)
  }

  lemma {:induction false} ScheduleCounts(w: World, events: seq<Event>, identifier: int)
    requires Inv(w) && Allowed(true, w, events)
    ensures FailedAttempts(Exec(true, w, events).db.rows, identifier)
         == FailedAttempts(w.db.rows, identifier) + RecordedFailures(w, events, identifier)
    decreases |events|
  {
    if events != [] {
      StepKeepsInv(w, events[0]);
      ScheduleCounts(Next(true, w, events[0]), events[1..], identifier);
    }
  }

  /**
   * Over every interleaving from a fresh installation the column counts what happened: an applied row's attempts
   * are its recorded failures and the one commit, a failed row's attempts are its recorded failures, and an
   * identifier without a row has none.
   */
  lemma AttemptsCountWhatHappened(w: World, events: seq<Event>, identifier: int)
    requires Init(w) && Allowed(true, w, events)
    ensures var rows := Exec(true, w, events).db.rows; var failures := RecordedFailures(w, events, identifier);
            if identifier !in rows then failures == 0
            else if rows[identifier].entry.status == Applied then rows[identifier].attempts == failures + 1
            else rows[identifier].attempts == failures
  {
    InitInv(w);
    ScheduleCounts(w, events, identifier);
  }
}
