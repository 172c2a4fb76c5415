/** Which ledgers a run accepts, stated without the order of the checks. */
module MigrationAdmission {
  import opened Common
  import opened MigrationLedger

  ghost predicate RowMatches(catalog: seq<Migration>, entries: map<int, Entry>, identifier: int)
    requires identifier in entries
  {
    var m := Find(catalog, identifier);
    && m.Some?
    && m.value.filename == entries[identifier].filename
    && (entries[identifier].status == Applied ==> m.value.checksum == entries[identifier].checksum)
  }

  /** Every row is a catalog migration, and every applied row is byte for byte the catalog's. */
  ghost predicate RowsMatch(catalog: seq<Migration>, entries: map<int, Entry>) {
    forall identifier :: identifier in entries ==> RowMatches(catalog, entries, identifier)
  }

  function Holes(entries: map<int, Entry>): set<int> {
    set i | 1 <= i < Head(entries) && i !in entries
  }

  ghost predicate FailedOnlyAtHead(entries: map<int, Entry>) {
    forall identifier :: identifier in entries && entries[identifier].status == Failed ==> identifier == Head(entries)
  }

  ghost predicate GapsAreHoles(known: set<int>, entries: map<int, Entry>, gaps: set<int>) {
    forall g :: g in gaps ==> g in known && g !in entries && g <= Head(entries)
  }

  lemma {:induction false} FirstRowErrorIff(catalog: seq<Migration>, entries: map<int, Entry>, order: seq<int>)
    requires forall identifier :: identifier in order ==> identifier in entries
    ensures FirstRowError(catalog, entries, order).None?
       <==> forall identifier :: identifier in order ==> RowMatches(catalog, entries, identifier)
  {
    if order != [] {
      FirstRowErrorIff(catalog, entries, order[1..]);
      assert RowMatches(catalog, entries, order[0]) <==> RowError(catalog, order[0], entries[order[0]]).None?;
      assert forall x :: x in order <==> x == order[0] || x in order[1..];
    }
  }

  lemma {:induction false} FirstGapErrorIff(known: set<int>, entries: map<int, Entry>, order: seq<int>)
    ensures FirstGapError(known, entries, order).None?
       <==> forall g :: g in order ==> g in known && g !in entries && g <= Head(entries)
  {
    if order != [] {
      FirstGapErrorIff(known, entries, order[1..]);
      assert forall x :: x in order <==> x == order[0] || x in order[1..];
    }
  }

  lemma GapsIff(known: set<int>, entries: map<int, Entry>, gaps: set<int>)
    ensures ValidateGaps(known, entries, gaps).None? <==> GapsAreHoles(known, entries, gaps)
  {
    FirstGapErrorIff(known, entries, InOrder(gaps));
  }

  lemma MissingIff(entries: map<int, Entry>, gaps: set<int>)
    requires entries != map[]
    ensures Missing(entries, 1, Highest(entries.Keys), gaps) == [] <==> Holes(entries) <= gaps
  {
    var unauthorized := Missing(entries, 1, Highest(entries.Keys), gaps);
    if unauthorized == [] {
      forall i | i in Holes(entries) ensures i in gaps {
        assert i !in unauthorized;
      }
    } else {
      var i := unauthorized[0];
      assert i in unauthorized;
      assert i in Holes(entries) && i !in gaps;
    }
  }

  lemma FailedIff(entries: map<int, Entry>)
    requires entries != map[]
    ensures FailedIds(entries) == {} || FailedIds(entries) == {Head(entries)} <==> FailedOnlyAtHead(entries)
  {
    var failed := FailedIds(entries);
    forall i ensures i in failed <==> i in entries && entries[i].status == Failed {}
    if FailedOnlyAtHead(entries) && Head(entries) in failed {
      assert failed == {Head(entries)};
    } else if FailedOnlyAtHead(entries) {
      assert failed == {};
    }
  }

  lemma LedgerIff(catalog: seq<Migration>, entries: map<int, Entry>, gaps: set<int>)
    ensures ValidateLedger(catalog, entries, gaps).None?
       <==> RowsMatch(catalog, entries) && Holes(entries) <= gaps && FailedOnlyAtHead(entries)
  {
    FirstRowErrorIff(catalog, entries, InOrder(entries.Keys));
    if entries != map[] {
      MissingIff(entries, gaps);
      FailedIff(entries);
    }
  }

  ghost predicate Admissible(catalog: seq<Migration>, entries: map<int, Entry>, target: Option<int>, gaps: set<int>) {
    && RowsMatch(catalog, entries)
    && FailedOnlyAtHead(entries)
    && Holes(entries) <= gaps
    && GapsAreHoles(Identifiers(catalog), entries, gaps)
    && (target.Some? && entries != map[] ==> Head(entries) <= target.value)
  }

  /** The whole admission test of a run, both directions. */
  lemma AdmissionIff(catalog: seq<Migration>, entries: map<int, Entry>, target: Option<int>, gaps: set<int>)
    ensures Admit(catalog, entries, target, gaps).None? <==> Admissible(catalog, entries, target, gaps)
  {
    GapsIff(Identifiers(catalog), entries, gaps);
    LedgerIff(catalog, entries, gaps);
  }

  /** A ledger without holes needs no gap list. */
  lemma WholeLedgerIsAdmitted(catalog: seq<Migration>, entries: map<int, Entry>, target: Option<int>)
    requires RowsMatch(catalog, entries) && FailedOnlyAtHead(entries) && Holes(entries) == {}
    requires target.Some? ==> Head(entries) <= target.value
    ensures Admit(catalog, entries, target, {}).None?
    ensures ValidateLedger(catalog, entries, {}).None?
  {
    AdmissionIff(catalog, entries, target, {});
    LedgerIff(catalog, entries, {});
  }

  lemma HolesAreExact(entries: map<int, Entry>, gaps: set<int>)
    requires forall g :: g in gaps ==> 0 < g <= Head(entries) && g !in entries
    requires Holes(entries) <= gaps
    ensures gaps == Holes(entries)
  {
    assert entries != map[] ==> Head(entries) in entries;
    forall g | g in gaps ensures g in Holes(entries) {}
  }

  /**
   * With the positive identifiers the command line accepts, an admitted run named exactly the holes of
   * 1..head: the gap validator gives one inclusion, the continuity guard the other.
   */
  lemma AdmittedGapsAreTheHoles(catalog: seq<Migration>, entries: map<int, Entry>, target: Option<int>, gaps: set<int>)
    requires Admit(catalog, entries, target, gaps).None?
    requires forall g :: g in gaps ==> g > 0
    ensures gaps == Holes(entries)
  {
    AdmissionIff(catalog, entries, target, gaps);
    HolesAreExact(entries, gaps);
  }
}
