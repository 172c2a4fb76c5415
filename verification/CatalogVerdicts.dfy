/** What each error of the catalog validator says of the directory, and that no other error is reported. */
module CatalogVerdicts {
  import opened Common
  import opened MigrationLedger
  import opened MigrationCatalog

  ghost predicate Positions(files: seq<SqlFile>, id: int, at: seq<nat>) {
    StrictlyAscending(at)
    && (forall i: nat :: i in at <==> i < |files| && HasNumber(files[i], id))
  }

  /** The files of that number, each where it stands in the directory. */
  ghost predicate IsGroup(files: seq<SqlFile>, id: int, group: seq<SqlFile>) {
    exists at :: Positions(files, id, at) && AtPlaces(files, group, at)
  }

  ghost predicate AtPlaces(files: seq<SqlFile>, group: seq<SqlFile>, at: seq<nat>) {
    |at| == |group| && forall k :: 0 <= k < |at| ==> at[k] < |files| && group[k] == files[at[k]]
  }

  lemma PositionsGrow(files: seq<SqlFile>, id: int, before: seq<nat>)
    requires files != [] && Positions(files[..|files| - 1], id, before)
    ensures Positions(files, id, if HasNumber(files[|files| - 1], id) then before + [|files| - 1] else before)
  {
    var n := |files| - 1;
    if HasNumber(files[n], id) {
      AscendingSnoc(before, n);
      forall i: nat ensures i in before + [n] <==> i < |files| && HasNumber(files[i], id) {
        assert i in before + [n] <==> i in before || i == n;
      }
    }
  }

  lemma {:induction false} GroupIs(files: seq<SqlFile>, id: int) returns (at: seq<nat>)
    ensures Positions(files, id, at) && AtPlaces(files, WithNumber(files, id), at)
  {
    at := [];
    if files != [] {
      var n := |files| - 1;
      var before := GroupIs(files[..n], id);
      PositionsGrow(files, id, before);
      at := if HasNumber(files[n], id) then before + [n] else before;
    }
  }

  /** A group is determined by its positions. */
  lemma OneGroup(files: seq<SqlFile>, id: int, group: seq<SqlFile>)
    ensures IsGroup(files, id, group) <==> group == WithNumber(files, id)
  {
    var at := GroupIs(files, id);
    if IsGroup(files, id, group) {
      var other: seq<nat> :| Positions(files, id, other) && AtPlaces(files, group, other);
      forall i ensures i in at <==> i in other {}
      SameAscending(at, other);
    }
  }

  lemma {:induction false} SameAscending(a: seq<int>, b: seq<int>)
    requires StrictlyAscending(a) && StrictlyAscending(b) && forall i :: i in a <==> i in b
    ensures a == b
    decreases |a|
  {
    BothEmptyOrNot(a, b);
    if a != [] {
      var x, y := a[|a| - 1], b[|b| - 1];
      assert x in b && y in a && x == y;
      ButLast(a, x);
      ButLast(b, x);
      var c, d := a[..|a| - 1], b[..|b| - 1];
      forall i ensures i in c <==> i in d {
        assert i in c <==> i in a && i != x;
      }
      SameAscending(c, d);
      assert a == c + [x] && b == d + [x];
    }
  }

  lemma BothEmptyOrNot(a: seq<int>, b: seq<int>)
    requires forall i :: i in a <==> i in b
    ensures a == [] <==> b == []
  {
    if a != [] {
      var x := a[0];
      assert x in a;
    }
    if b != [] {
      var y := b[0];
      assert y in b;
    }
  }

  lemma ButLast(a: seq<int>, x: int)
    requires a != [] && StrictlyAscending(a) && a[|a| - 1] == x
    ensures StrictlyAscending(a[..|a| - 1]) && forall i :: i in a[..|a| - 1] <==> i in a && i != x
  {
    assert a == a[..|a| - 1] + [x];
  }

  ghost predicate Has(files: seq<SqlFile>, i: int) {
    exists f :: f in files && HasNumber(f, i)
  }

  /** What each error says of the files. */
  ghost predicate WrongFiles(files: seq<SqlFile>, x: CatalogError) {
    match x
    case InvalidFilename(name) => exists f :: f in files && f.number == None && f.name == name
    case Duplicate(id, group) => |group| > 1 && IsGroup(files, id, group)
    case PinnedElsewhere(id, found) =>
      id == 109 && found != "109_entry_invitation_without_org.sql"
      && exists f :: IsGroup(files, 109, [f]) && f.name == found
    case MissingIdentifiers(q) =>
      q != [] && StrictlyAscending(q)
      && forall i :: i in q <==> 1 <= i && !Has(files, i) && exists n :: Has(files, n) && i <= n
    case NoMigrations => forall i :: !Has(files, i)
    case _ => false
  }

  /** What each error says of the files or of the manifest. */
  ghost predicate Wrong(files: seq<SqlFile>, manifest: ManifestCheck, checksum: string -> string, x: CatalogError) {
    match x
    case NoManifest => manifest == ManifestMissing
    case InvalidManifest => manifest == ManifestUnreadable
    case ManifestDrift => manifest.Listed? && manifest.entries != Expected(Ordered(files), checksum)
    case _ => WrongFiles(files, x)
  }

  lemma {:induction false} InvalidReports(files: seq<SqlFile>, x: CatalogError)
    ensures x in InvalidNames(files) <==>
      x.InvalidFilename? && exists f :: f in files && f.number == None && f.name == x.name
  {
    if files != [] {
      var before, last := files[..|files| - 1], files[|files| - 1];
      InvalidReports(before, x);
      assert files == before + [last];
    }
  }

  lemma {:induction false} DuplicateReports(files: seq<SqlFile>, order: seq<int>, x: CatalogError)
    ensures x in Duplicates(files, order) <==>
      x.Duplicate? && x.identifier in order && x.files == WithNumber(files, x.identifier) && |x.files| > 1
  {
    if order != [] {
      DuplicateReports(files, order[1..], x);
      assert forall y :: y in order <==> y == order[0] || y in order[1..];
    }
  }

  lemma PinReports(files: seq<SqlFile>, x: CatalogError)
    ensures x in PinErrors(files) <==> x.PinnedElsewhere? && WrongFiles(files, x)
  {
    var group := WithNumber(files, 109);
    OneGroup(files, 109, group);
    if |group| == 1 {
      assert group == [group[0]];
    }
    if x.PinnedElsewhere? && WrongFiles(files, x) {
      var f :| IsGroup(files, 109, [f]) && f.name == x.found;
      OneGroup(files, 109, [f]);
    }
  }

  lemma {:induction false} AbsentAre(present: set<int>, from: int, highest: int)
    ensures StrictlyAscending(AbsentNumbers(present, from, highest))
    ensures forall i :: i in AbsentNumbers(present, from, highest) <==> from <= i <= highest && i !in present
    decreases highest - from
  {
    if from <= highest {
      AbsentAre(present, from + 1, highest);
      var rest := AbsentNumbers(present, from + 1, highest);
      assert forall i :: 0 <= i < |rest| ==> rest[i] in rest;
    }
  }

  lemma NumbersAre(files: seq<SqlFile>)
    ensures forall i :: i in Numbers(files) <==> Has(files, i)
  {}

  lemma ContinuityReports(files: seq<SqlFile>, x: CatalogError)
    ensures x in ContinuityErrors(Numbers(files)) <==>
      (x.MissingIdentifiers? || x.NoMigrations?) && WrongFiles(files, x)
  {
    if Numbers(files) != {} {
      SomeNumbers(files, x);
    } else {
      NoNumbers(files, x);
    }
  }

  lemma NoNumbers(files: seq<SqlFile>, x: CatalogError)
    requires Numbers(files) == {}
    ensures forall n :: !Has(files, n)
    ensures x.MissingIdentifiers? ==> !WrongFiles(files, x)
  {
    NumbersAre(files);
    forall n ensures !Has(files, n) {
      assert n !in Numbers(files);
    }
    if x.MissingIdentifiers? && x.missing != [] {
      assert x.missing[0] in x.missing;
    }
  }

  lemma SomeNumbers(files: seq<SqlFile>, x: CatalogError)
    requires Numbers(files) != {}
    ensures x in ContinuityErrors(Numbers(files)) <==> x.MissingIdentifiers? && WrongFiles(files, x)
    ensures exists n :: Has(files, n)
  {
    var absent := AbsentNumbers(Numbers(files), 1, Highest(Numbers(files)));
    InContinuity(Numbers(files), absent, x);
    MissingIs(files, absent);
    if x.MissingIdentifiers? {
      OnlyMissing(files, x.missing, absent);
    }
  }

  lemma InContinuity(present: set<int>, absent: seq<int>, x: CatalogError)
    requires present != {} && absent == AbsentNumbers(present, 1, Highest(present))
    ensures x in ContinuityErrors(present) <==> x.MissingIdentifiers? && x.missing != [] && x.missing == absent
  {}

  lemma OnlyMissing(files: seq<SqlFile>, q: seq<int>, absent: seq<int>)
    requires StrictlyAscending(absent)
    requires forall i :: i in absent <==> 1 <= i && !Has(files, i) && exists n :: Has(files, n) && i <= n
    ensures WrongFiles(files, MissingIdentifiers(q)) <==> q != [] && q == absent
  {
    if WrongFiles(files, MissingIdentifiers(q)) {
      forall i ensures i in q <==> i in absent {}
      SameAscending(q, absent);
    }
  }

  lemma MissingIs(files: seq<SqlFile>, absent: seq<int>)
    requires Numbers(files) != {} && absent == AbsentNumbers(Numbers(files), 1, Highest(Numbers(files)))
    ensures forall i :: i in absent <==> 1 <= i && !Has(files, i) && exists n :: Has(files, n) && i <= n
    ensures StrictlyAscending(absent) && exists n :: Has(files, n)
  {
    NumbersAre(files);
    AbsentAre(Numbers(files), 1, Highest(Numbers(files)));
    assert Has(files, Highest(Numbers(files)));
  }

  lemma InParts(a: seq<CatalogError>, b: seq<CatalogError>, c: seq<CatalogError>, d: seq<CatalogError>,
                e: seq<CatalogError>, x: CatalogError)
    ensures x in a + b + c + d + e <==> x in a || x in b || x in c || x in d || x in e
  {}

  lemma GroupReports(files: seq<SqlFile>, x: CatalogError)
    ensures x in Duplicates(files, InOrder(Numbers(files))) <==>
      x.Duplicate? && |x.files| > 1 && IsGroup(files, x.identifier, x.files)
  {
    DuplicateReports(files, InOrder(Numbers(files)), x);
    if x.Duplicate? {
      OneGroup(files, x.identifier, x.files);
      GroupMembers(files, x.identifier);
    }
  }

  lemma ManifestReports(ordered: seq<SqlFile>, manifest: ManifestCheck, checksum: string -> string, x: CatalogError)
    ensures x in ManifestErrors(ordered, manifest, checksum) <==>
      || (x.NoManifest? && manifest == ManifestMissing)
      || (x.InvalidManifest? && manifest == ManifestUnreadable)
      || (x.ManifestDrift? && manifest.Listed? && manifest.entries != Expected(ordered, checksum))
  {}

  lemma FileReports(files: seq<SqlFile>, x: CatalogError)
    ensures WrongFiles(files, x) <==>
      || x in InvalidNames(files) || x in Duplicates(files, InOrder(Numbers(files))) || x in PinErrors(files)
      || x in ContinuityErrors(Numbers(files))
  {
    InvalidReports(files, x);
    GroupReports(files, x);
    PinReports(files, x);
    ContinuityReports(files, x);
  }

  /** The validator reports exactly the errors the directory and the manifest have. */
  lemma ReportIff(files: seq<SqlFile>, manifest: ManifestCheck, checksum: string -> string, x: CatalogError)
    ensures x in CatalogErrors(files, manifest, checksum) <==> Wrong(files, manifest, checksum, x)
  {
    FileReports(files, x);
    ManifestReports(Ordered(files), manifest, checksum, x);
    InParts(InvalidNames(files), Duplicates(files, InOrder(Numbers(files))), PinErrors(files),
            ContinuityErrors(Numbers(files)), ManifestErrors(Ordered(files), manifest, checksum), x);
  }
}
