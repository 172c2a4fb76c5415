/** The migration directory: its numbering, its manifest, and what an accepted directory gives the runner. */
module MigrationCatalog {
  import opened Common
  import opened MigrationLedger
  import opened MigrationAdmission
  import opened MigrationOutcomes
  import opened MigrationRecovery

  /** A file of the directory, with the number its name starts with when the name has the required shape. */
  datatype SqlFile = SqlFile(name: string, number: Option<nat>)

  datatype ManifestEntry = ManifestEntry(filename: string, sha256: string)

  datatype ManifestCheck = NotVerified | ManifestMissing | ManifestUnreadable | Listed(entries: seq<ManifestEntry>)

  datatype CatalogError =
    | InvalidFilename(name: string)
    | Duplicate(identifier: int, files: seq<SqlFile>)
    | PinnedElsewhere(identifier: int, found: string)
    | MissingIdentifiers(missing: seq<int>)
    | NoMigrations
    | NoManifest
    | InvalidManifest
    | ManifestDrift

  const PINNED_IDENTIFIER: int := 109
  const PINNED_NAME := "109_entry_invitation_without_org.sql"

  // ---- Validation ----

  predicate HasNumber(f: SqlFile, id: int) {
    f.number.Some? && f.number.value == id
  }

  function InvalidNames(files: seq<SqlFile>): seq<CatalogError> {
    if files == [] then []
    else
      var last := files[|files| - 1];
      InvalidNames(files[..|files| - 1]) + if last.number.Some? then [] else [InvalidFilename(last.name)]
  }

  function Numbers(files: seq<SqlFile>): set<int> {
    set f | f in files && f.number.Some? :: f.number.value
  }

  function WithNumber(files: seq<SqlFile>, id: int): seq<SqlFile> {
    if files == [] then []
    else
      var rest, last := files[..|files| - 1], files[|files| - 1];
      if HasNumber(last, id) then WithNumber(rest, id) + [last] else WithNumber(rest, id)
  }

  /** `by_identifier`: the files of each number, in directory order. */
  function Grouped(files: seq<SqlFile>): map<int, seq<SqlFile>> {
    map id | id in Numbers(files) :: WithNumber(files, id)
  }

  function Duplicates(files: seq<SqlFile>, order: seq<int>): seq<CatalogError> {
    if order == [] then []
    else
      var group := WithNumber(files, order[0]);
      (if |group| > 1 then [Duplicate(order[0], group)] else []) + Duplicates(files, order[1..])
  }

  function PinErrors(files: seq<SqlFile>): seq<CatalogError> {
    var group := WithNumber(files, PINNED_IDENTIFIER);
    if |group| == 1 && group[0].name != PINNED_NAME then [PinnedElsewhere(PINNED_IDENTIFIER, group[0].name)] else []
  }

  function AbsentNumbers(present: set<int>, from: int, highest: int): (q: seq<int>)
    ensures q == [] <==> forall i :: from <= i <= highest ==> i in present
    decreases highest - from
  {
    if from > highest then []
    else
      var rest := AbsentNumbers(present, from + 1, highest);
      if from in present then rest else [from] + rest
  }

  function ContinuityErrors(present: set<int>): seq<CatalogError> {
    if present == {} then [NoMigrations]
    else
      var absent := AbsentNumbers(present, 1, Highest(present));
      if absent == [] then [] else [MissingIdentifiers(absent)]
  }

  /** One file for each number of `order`. */
  function FirstOfEach(files: seq<SqlFile>, order: seq<int>): (q: seq<SqlFile>)
    ensures forall i :: 0 <= i < |q| ==> q[i].number.Some?
  {
    if order == [] then []
    else
      var group := WithNumber(files, order[0]);
      GroupMembers(files, order[0]);
      assert forall i :: 0 <= i < |group| ==> group[i] in group;
      (if group == [] then [] else [group[0]]) + FirstOfEach(files, order[1..])
  }

  function Expected(ordered: seq<SqlFile>, checksum: string -> string): seq<ManifestEntry> {
    seq(|ordered|, i requires 0 <= i < |ordered| => ManifestEntry(ordered[i].name, checksum(ordered[i].name)))
  }

  function ManifestErrors(ordered: seq<SqlFile>, manifest: ManifestCheck,
                          checksum: string -> string): seq<CatalogError> {
    match manifest
    case NotVerified => []
    case ManifestMissing => [NoManifest]
    case ManifestUnreadable => [InvalidManifest]
    case Listed(entries) => if entries == Expected(ordered, checksum) then [] else [ManifestDrift]
  }

  function Ordered(files: seq<SqlFile>): seq<SqlFile> {
    FirstOfEach(files, InOrder(Numbers(files)))
  }

  function CatalogErrors(files: seq<SqlFile>, manifest: ManifestCheck, checksum: string -> string): seq<CatalogError> {
    InvalidNames(files) + Duplicates(files, InOrder(Numbers(files))) + PinErrors(files)
    + ContinuityErrors(Numbers(files)) + ManifestErrors(Ordered(files), manifest, checksum)
  }

  datatype CatalogResult = Catalog(ordered: seq<SqlFile>) | Invalid(errors: seq<CatalogError>)

  lemma {:induction false} GroupMembers(files: seq<SqlFile>, id: int)
    ensures forall f :: f in WithNumber(files, id) <==> f in files && HasNumber(f, id)
    ensures WithNumber(files, id) != [] <==> id in Numbers(files)
  {
    if files != [] {
      var rest, last := files[..|files| - 1], files[|files| - 1];
      assert files == rest + [last];
      GroupMembers(rest, id);
    }
  }

  /** `setdefault(identifier, []).append(file)` */
  function AddToGroup(g: map<int, seq<SqlFile>>, id: int, file: SqlFile): map<int, seq<SqlFile>> {
    g[id := (if id in g then g[id] else []) + [file]]
  }

  /** Grouping one more file. */
  lemma GroupedStep(rest: seq<SqlFile>, file: SqlFile)
    ensures file.number.None? ==> Grouped(rest + [file]) == Grouped(rest)
    ensures file.number.Some? ==> Grouped(rest + [file]) == AddToGroup(Grouped(rest), file.number.value, file)
  {
    if file.number.Some? {
      GroupMembers(rest, file.number.value);
    }
  }

  /** The first pass: collect the files of each number, report the names that have none. */
  method GroupFiles(files: seq<SqlFile>) returns (byIdentifier: map<int, seq<SqlFile>>, errors: seq<CatalogError>)
    ensures byIdentifier == Grouped(files)
    ensures errors == InvalidNames(files)
  {
    errors := [];
    byIdentifier := map[];
    for i := 0 to |files|
      invariant errors == InvalidNames(files[..i])
      invariant byIdentifier == Grouped(files[..i])
    {
      var file := files[i];
      GroupedStep(files[..i], file);
      assert files[..i + 1] == files[..i] + [file];
      if file.number.None? {
        errors := errors + [InvalidFilename(file.name)];
      } else {
        byIdentifier := AddToGroup(byIdentifier, file.number.value, file);
      }
    }
    assert files[..|files|] == files;
  }

  method FindDuplicates(files: seq<SqlFile>, byIdentifier: map<int, seq<SqlFile>>, order: seq<int>)
    returns (errors: seq<CatalogError>)
    requires byIdentifier == Grouped(files) && forall id :: id in order ==> id in byIdentifier
    ensures errors == Duplicates(files, order)
  {
    errors := [];
    for i := 0 to |order|
      invariant Duplicates(files, order) == errors + Duplicates(files, order[i..])
    {
      assert order[i] in order;
      var group := byIdentifier[order[i]];
      assert group == WithNumber(files, order[i]);
      assert order[i..][0] == order[i] && order[i..][1..] == order[i + 1..];
      if |group| > 1 {
        ghost var rest := Duplicates(files, order[i + 1..]);
        assert errors + ([Duplicate(order[i], group)] + rest) == errors + [Duplicate(order[i], group)] + rest;
        errors := errors + [Duplicate(order[i], group)];
      }
    }
    assert errors + [] == errors;
  }

  method ValidateCatalog(files: seq<SqlFile>, manifest: ManifestCheck, checksum: string -> string)
    returns (result: CatalogResult)
    ensures var errors := CatalogErrors(files, manifest, checksum);
            result == if errors == [] then Catalog(Ordered(files)) else Invalid(errors)
  {
    var byIdentifier, errors := GroupFiles(files);
    assert byIdentifier.Keys == Numbers(files);
    var order := InOrder(byIdentifier.Keys);
    var duplicates := FindDuplicates(files, byIdentifier, order);
    var ordered := FirstOfEach(files, order);
    errors := errors + duplicates;
    errors := errors + PinErrors(files);
    errors := errors + ContinuityErrors(byIdentifier.Keys);
    errors := errors + ManifestErrors(ordered, manifest, checksum);
    if errors != [] {
      return Invalid(errors);
    }
    return Catalog(ordered);
  }

  // ---- What an accepted directory is ----

  ghost predicate AllNamed(files: seq<SqlFile>) {
    forall i :: 0 <= i < |files| ==> files[i].number.Some?
  }

  ghost predicate DistinctNumbers(files: seq<SqlFile>) {
    forall i, j :: 0 <= i < j < |files| ==> files[i].number != files[j].number
  }

  /** Every name well formed, no number twice, none missing from 1 to the highest, and 109 where it is pinned. */
  ghost predicate WellNumbered(files: seq<SqlFile>) {
    && files != [] && AllNamed(files) && DistinctNumbers(files)
    && (forall f :: f in files && f.number == Some(109) ==> f.name == "109_entry_invitation_without_org.sql")
    && (forall i, n :: n in Numbers(files) && 1 <= i <= n ==> i in Numbers(files))
  }

  lemma {:induction false} InvalidNamesIff(files: seq<SqlFile>)
    ensures InvalidNames(files) == [] <==> AllNamed(files)
  {
    if files != [] {
      InvalidNamesIff(files[..|files| - 1]);
    }
  }

  lemma {:induction false} AtMostOne(files: seq<SqlFile>, id: int)
    requires AllNamed(files) && DistinctNumbers(files)
    ensures |WithNumber(files, id)| <= 1
  {
    if files != [] {
      var rest, last := files[..|files| - 1], files[|files| - 1];
      AtMostOne(rest, id);
      GroupMembers(rest, id);
      forall f | f in rest ensures f.number != last.number {
        var i :| 0 <= i < |rest| && rest[i] == f;
        assert files[i] == f;
      }
    }
  }

  lemma {:induction false} AtLeastTwo(files: seq<SqlFile>, i: nat, j: nat, id: int)
    requires i < j < |files| && HasNumber(files[i], id) && HasNumber(files[j], id)
    ensures |WithNumber(files, id)| >= 2
  {
    var rest := files[..|files| - 1];
    if j < |rest| {
      AtLeastTwo(rest, i, j, id);
    } else {
      GroupMembers(rest, id);
      assert rest[i] in rest;
    }
  }

  lemma {:induction false} DuplicatesIff(files: seq<SqlFile>, order: seq<int>)
    ensures Duplicates(files, order) == [] <==> forall id :: id in order ==> |WithNumber(files, id)| <= 1
  {
    if order != [] {
      DuplicatesIff(files, order[1..]);
      assert forall id :: id in order <==> id == order[0] || id in order[1..];
      if |WithNumber(files, order[0])| > 1 {
        assert Duplicates(files, order)[0].Duplicate? && order[0] in order;
      } else {
        assert Duplicates(files, order) == Duplicates(files, order[1..]);
      }
    }
  }

  lemma SingletonGroups(files: seq<SqlFile>)
    requires AllNamed(files)
    ensures Duplicates(files, InOrder(Numbers(files))) == [] <==> DistinctNumbers(files)
  {
    DuplicatesIff(files, InOrder(Numbers(files)));
    if DistinctNumbers(files) {
      forall id ensures |WithNumber(files, id)| <= 1 {
        AtMostOne(files, id);
      }
    } else {
      var i, j :| 0 <= i < j < |files| && files[i].number == files[j].number;
      AtLeastTwo(files, i, j, files[i].number.value);
      assert files[i] in files;
    }
  }

  lemma ContinuityIff(files: seq<SqlFile>)
    requires AllNamed(files)
    ensures ContinuityErrors(Numbers(files)) == []
       <==> files != [] && forall i, n :: n in Numbers(files) && 1 <= i <= n ==> i in Numbers(files)
  {
    if files != [] {
      assert files[0] in files && files[0].number.value in Numbers(files);
      assert Highest(Numbers(files)) in Numbers(files);
    }
  }

  lemma PinIff(files: seq<SqlFile>)
    requires AllNamed(files) && DistinctNumbers(files)
    ensures PinErrors(files) == []
       <==> forall f :: f in files && HasNumber(f, PINNED_IDENTIFIER) ==> f.name == PINNED_NAME
  {
    var group := WithNumber(files, PINNED_IDENTIFIER);
    AtMostOne(files, PINNED_IDENTIFIER);
    GroupMembers(files, PINNED_IDENTIFIER);
    assert forall f :: f in group ==> f == group[0];
  }

  /** The directory is accepted exactly when it is well numbered and its manifest, if checked, lists it. */
  lemma AcceptedIff(files: seq<SqlFile>, manifest: ManifestCheck, checksum: string -> string)
    ensures CatalogErrors(files, manifest, checksum) == []
       <==> WellNumbered(files) && (manifest.NotVerified? || manifest == Listed(Expected(Ordered(files), checksum)))
  {
    NothingReported(InvalidNames(files), Duplicates(files, InOrder(Numbers(files))), PinErrors(files),
      ContinuityErrors(Numbers(files)), ManifestErrors(Ordered(files), manifest, checksum));
    NumberingIff(files);
  }

  lemma NothingReported(a: seq<CatalogError>, b: seq<CatalogError>, c: seq<CatalogError>, d: seq<CatalogError>,
                        e: seq<CatalogError>)
    ensures a + b + c + d + e == [] <==> a == [] && b == [] && c == [] && d == [] && e == []
  {
    assert |a + b + c + d + e| == |a| + |b| + |c| + |d| + |e|;
  }

  lemma NumberingIff(files: seq<SqlFile>)
    ensures WellNumbered(files) <==>
      && InvalidNames(files) == [] && Duplicates(files, InOrder(Numbers(files))) == []
      && PinErrors(files) == [] && ContinuityErrors(Numbers(files)) == []
  {
    InvalidNamesIff(files);
    if AllNamed(files) {
      SingletonGroups(files);
      ContinuityIff(files);
      if DistinctNumbers(files) {
        PinIff(files);
      }
    }
  }

  /** Ascending without a hole, from 0 or from 1. */
  ghost predicate Continuous(ordered: seq<SqlFile>) {
    && ordered != [] && AllNamed(ordered)
    && ordered[0].number.value <= 1
    && (forall i :: 0 <= i < |ordered| ==> ordered[i].number.value == ordered[0].number.value + i)
  }

  lemma {:induction false} IntervalInOrder(q: seq<int>, i: nat)
    requires forall a, b :: 0 <= a < b < |q| ==> q[a] < q[b]
    requires i < |q| && forall x :: q[0] < x <= q[|q| - 1] ==> x in q
    ensures q[i] == q[0] + i
    decreases i
  {
    if i > 0 {
      IntervalInOrder(q, i - 1);
      assert q[i - 1] < q[i] <= q[|q| - 1];
      assert q[0] + i in q;
      var j :| 0 <= j < |q| && q[j] == q[0] + i;
      assert j >= i;
    }
  }

  lemma {:induction false} FirstOfEachIs(files: seq<SqlFile>, order: seq<int>)
    requires forall id :: id in order ==> id in Numbers(files)
    ensures var q := FirstOfEach(files, order);
            |q| == |order| && forall i :: 0 <= i < |q| ==> q[i] in files && HasNumber(q[i], order[i])
  {
    if order != [] {
      FirstOfEachIs(files, order[1..]);
      assert order[0] in order;
      GroupMembers(files, order[0]);
      var group := WithNumber(files, order[0]);
      assert group[0] in group;
    }
  }

  lemma OrderedNumbers(files: seq<SqlFile>)
    requires WellNumbered(files)
    ensures var order := InOrder(Numbers(files));
            order != [] && order[0] <= 1 && forall i :: 0 <= i < |order| ==> order[i] == order[0] + i
  {
    var order := InOrder(Numbers(files));
    assert files[0] in files && files[0].number.value in Numbers(files) && files[0].number.value in order;
    var top := order[|order| - 1];
    assert order[0] in order && top in order && top in Numbers(files) && order[0] in Numbers(files);
    assert 1 <= order[0] ==> 1 in order;
    forall x | order[0] < x <= top ensures x in order {
      assert x in Numbers(files);
    }
    forall i | 0 <= i < |order| ensures order[i] == order[0] + i {
      IntervalInOrder(order, i);
    }
  }

  lemma SameNumberSameFile(files: seq<SqlFile>, f: SqlFile, g: SqlFile)
    requires DistinctNumbers(files) && f in files && g in files && f.number == g.number
    ensures f == g
  {
    var i :| 0 <= i < |files| && files[i] == f;
    var j :| 0 <= j < |files| && files[j] == g;
  }

  /**
   * An accepted directory comes back whole, ascending without a hole from 0 or 1; it starts at 0 exactly when
   * there is a 000_ file, which nothing rejects.
   */
  lemma AcceptedIsContinuous(files: seq<SqlFile>, manifest: ManifestCheck, checksum: string -> string)
    requires CatalogErrors(files, manifest, checksum) == []
    ensures Continuous(Ordered(files))
    ensures forall f :: f in Ordered(files) <==> f in files
    ensures Ordered(files)[0].number.value == 0 <==> 0 in Numbers(files)
  {
    AcceptedIff(files, manifest, checksum);
    OrderedIsContinuous(files);
    OrderedIsWhole(files);
  }

  lemma OrderedIsContinuous(files: seq<SqlFile>)
    requires WellNumbered(files)
    ensures Continuous(Ordered(files)) && (Ordered(files)[0].number.value == 0 <==> 0 in Numbers(files))
  {
    var order, ordered := InOrder(Numbers(files)), Ordered(files);
    FirstOfEachIs(files, order);
    OrderedNumbers(files);
    assert forall i :: 0 <= i < |ordered| ==> HasNumber(ordered[i], order[i]);
    assert 0 in Numbers(files) <==> 0 in order;
    assert order[0] in order && order[0] in Numbers(files);
  }

  lemma OrderedIsWhole(files: seq<SqlFile>)
    requires WellNumbered(files)
    ensures forall f :: f in Ordered(files) <==> f in files
  {
    var order, ordered := InOrder(Numbers(files)), Ordered(files);
    FirstOfEachIs(files, order);
    forall f | f in files ensures f in ordered {
      var id := f.number.value;
      assert id in Numbers(files) && id in order;
      var i :| 0 <= i < |order| && order[i] == id;
      SameNumberSameFile(files, f, ordered[i]);
    }
  }

  /** The catalog the runner is given. */
  function Load(ordered: seq<SqlFile>, checksum: string -> string, body: string -> string): seq<Migration>
    requires forall i :: 0 <= i < |ordered| ==> ordered[i].number.Some?
  {
    seq(|ordered|, i requires 0 <= i < |ordered| =>
      Migration(ordered[i].number.value, ordered[i].name, checksum(ordered[i].name), body(ordered[i].name)))
  }

  /** An accepted directory is a catalog 1..n, which the ordering results ask for, unless it has a 000_ file. */
  lemma AcceptedIsNumbered(files: seq<SqlFile>, manifest: ManifestCheck, checksum: string -> string,
                           body: string -> string)
    requires CatalogErrors(files, manifest, checksum) == []
    ensures Continuous(Ordered(files))
    ensures Ascending(Load(Ordered(files), checksum, body))
    ensures Numbered(Load(Ordered(files), checksum, body)) <==> 0 !in Numbers(files)
  {
    AcceptedIsContinuous(files, manifest, checksum);
    LoadIsNumbered(Ordered(files), checksum, body);
  }

  lemma LoadIsNumbered(ordered: seq<SqlFile>, checksum: string -> string, body: string -> string)
    requires Continuous(ordered)
    ensures Ascending(Load(ordered, checksum, body))
    ensures Numbered(Load(ordered, checksum, body)) <==> ordered[0].number.value != 0
  {
    var catalog := Load(ordered, checksum, body);
    assert catalog[0].identifier == ordered[0].number.value;
  }

  /** 0, then 1..n: what a directory with a 000_ file is loaded as. */
  ghost predicate ZeroFirst(catalog: seq<Migration>) {
    catalog != [] && catalog[0].identifier == 0 && Numbered(catalog[1..])
  }

  lemma LoadStartsAtZero(ordered: seq<SqlFile>, checksum: string -> string, body: string -> string)
    requires Continuous(ordered) && ordered[0].number.value == 0
    ensures ZeroFirst(Load(ordered, checksum, body))
  {
    var catalog := Load(ordered, checksum, body);
    assert forall i :: 0 <= i < |catalog| ==> catalog[i].identifier == ordered[i].number.value;
  }

  /** The checks of a run do not see that 0 was never applied. */
  lemma ZeroIsOverlooked(db: Db, catalog: seq<Migration>, h: nat, target: Option<int>)
    requires ZeroFirst(catalog) && h < |catalog| && Complete(db, catalog[1..], h)
    requires target.Some? ==> h <= target.value
    ensures Admit(catalog, View(db.rows), target, {}).None?
  {
    var entries := View(db.rows);
    assert forall i :: 1 <= i < |catalog| ==> catalog[i] == catalog[1..][i - 1];
    forall id | id in entries ensures RowMatches(catalog, entries, id) && entries[id].status == Applied {
      FindAt(catalog, id);
    }
    HeadOfInterval(entries, h);
    WholeLedgerIsAdmitted(catalog, entries, target);
  }

  lemma ZeroFails(db: Db, req: Request, outcome: int -> Outcome, contract: seq<Migration> -> bool)
    requires ZeroFirst(req.catalog) && db.ledger && 0 !in db.rows && outcome(0).FailedRecorded?
    requires Admit(req.catalog, View(db.rows), req.target, req.gaps).None?
    requires req.target.Some? ==> 0 <= req.target.value && req.target.value in Identifiers(req.catalog)
    ensures Run(db, req, outcome, contract) == (RecordFailed(db, req.catalog[0]), BodyFailed(0))
  {
    AdmittedRun(db, req, outcome, contract);
    assert !BeyondTarget(req, 0) && !IsApplied(View(db.rows), 0);
  }

  /** The failed 0 lies below the head of every ledger that is not empty. */
  lemma FailedZeroShape(db: Db, zero: Migration, h: nat)
    requires zero.identifier == 0 && forall i :: i in db.rows <==> 1 <= i <= h
    ensures FailedOnlyAtHead(View(RecordFailed(db, zero).rows)) <==> h == 0
  {
    var rows := Upsert(db.rows, zero, Failed);
    assert forall i :: i in rows <==> 0 <= i <= h;
    var entries := View(rows);
    assert entries[0].status == Failed;
    assert h in entries && Head(entries) in entries;
  }

  /** Once 1..h are applied, a run that names no gap attempts 0 after h; its recorded failure is final when h > 0. */
  lemma ZeroRun(db: Db, h: nat, req: Request, outcome: int -> Outcome, contract: seq<Migration> -> bool)
    requires ZeroFirst(req.catalog) && req.gaps == {} && h < |req.catalog| && Complete(db, req.catalog[1..], h)
    requires req.target.Some? ==> h <= req.target.value && req.target.value in Identifiers(req.catalog)
    requires outcome(0).FailedRecorded?
    ensures var (after, result) := Run(db, req, outcome, contract);
      result == BodyFailed(0) && after.ledger && (FailedOnlyAtHead(View(after.rows)) <==> h == 0)
  {
    ZeroIsOverlooked(db, req.catalog, h, req.target);
    ZeroFails(db, req, outcome, contract);
    FailedZeroShape(db, req.catalog[0], h);
  }

  /**
   * Why: once 1..h are applied, a 000_ file added to the directory passes both the validator and a run that names
   * no gap.  That run attempts 0 after h, and if the body fails for the record the ledger is final exactly when h
   * is positive: every later run is refused and changes nothing.
   */
  lemma ZeroFileBreaksTheOrder(files: seq<SqlFile>, manifest: ManifestCheck, checksum: string -> string,
                               body: string -> string, db: Db, h: nat, req: Request, outcome: int -> Outcome,
                               contract: seq<Migration> -> bool)
    requires CatalogErrors(files, manifest, checksum) == [] && 0 in Numbers(files)
    requires req.catalog == Load(Ordered(files), checksum, body) && req.gaps == {}
    requires h < |req.catalog| && Complete(db, req.catalog[1..], h)
    requires req.target.Some? ==> h <= req.target.value && req.target.value in Identifiers(req.catalog)
    requires outcome(0).FailedRecorded?
    ensures Run(db, req, outcome, contract).1 == BodyFailed(0)
    ensures FailedOnlyAtHead(View(Run(db, req, outcome, contract).0.rows)) <==> h == 0
    ensures h > 0 ==> RefusesEveryRun(Run(db, req, outcome, contract).0, contract)
  {
    AcceptedIsContinuous(files, manifest, checksum);
    LoadStartsAtZero(Ordered(files), checksum, body);
    ZeroRun(db, h, req, outcome, contract);
    var after := Run(db, req, outcome, contract).0;
    forall later, again | h > 0 ensures Run(after, later, again, contract).0 == after
      ensures Run(after, later, again, contract).1.Refused?
    {
      FailedBelowHeadRefusesEveryRun(after, later, again, contract);
    }
  }

  ghost predicate RefusesEveryRun(db: Db, contract: seq<Migration> -> bool) {
    forall req, outcome :: Run(db, req, outcome, contract).0 == db && Run(db, req, outcome, contract).1.Refused?
  }
}
