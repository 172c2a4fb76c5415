/** The readiness summary of a legacy inventory. */
module LegacySummary {
  import opened Common
  import opened LegacyInventory

  datatype Summary = Summary(
    total: nat, migrated: nat, retained: nat, blocked: nat,
    removed: nat, delegated: nat, kept: nat, ready: bool)

  predicate Any(e: Entry) { true }

  predicate IsMigrated(e: Entry) { e.disposition.Migrated? }

  predicate IsRetained(e: Entry) { e.disposition.Retained? }

  predicate IsBlocked(e: Entry) { e.disposition.Blocked? }

  predicate IsRemoved(e: Entry) { e.mode.Removed? }

  predicate IsDelegated(e: Entry) { e.mode.Delegated? }

  predicate IsKept(e: Entry) { e.mode.RetainedMode? }

  /** The locators of the entries of one sort, counted. */
  function Weigh(entries: seq<Entry>, sort: Entry -> bool): nat {
    if entries == [] then 0
    else
      var last := entries[|entries| - 1];
      Weigh(entries[..|entries| - 1], sort) + if sort(last) then |last.locators| else 0
  }

  function Summarized(entries: seq<Entry>, qualified: bool): Summary {
    var total, migrated := Weigh(entries, Any), Weigh(entries, IsMigrated);
    var retained, blocked := Weigh(entries, IsRetained), Weigh(entries, IsBlocked);
    Summary(total, migrated, retained, blocked,
            Weigh(entries, IsRemoved), Weigh(entries, IsDelegated), Weigh(entries, IsKept),
            total > 0 && blocked == 0 && migrated + retained == total && qualified)
  }

  method InventorySummary(entries: seq<Entry>, qualified: bool) returns (s: Summary)
    ensures s == Summarized(entries, qualified)
  {
    var total, migrated, retained, blocked, removed, delegated, kept := 0, 0, 0, 0, 0, 0, 0;
    for i := 0 to |entries|
      invariant total == Weigh(entries[..i], Any)
      invariant migrated == Weigh(entries[..i], IsMigrated) && retained == Weigh(entries[..i], IsRetained)
      invariant blocked == Weigh(entries[..i], IsBlocked)
      invariant removed == Weigh(entries[..i], IsRemoved) && delegated == Weigh(entries[..i], IsDelegated)
      invariant kept == Weigh(entries[..i], IsKept)
    {
      var e := entries[i];
      assert entries[..i + 1][..i] == entries[..i];
      var count := |e.locators|;
      total := total + count;
      match e.disposition {
        case Migrated => migrated := migrated + count;
        case Retained => retained := retained + count;
        case Blocked => blocked := blocked + count;
        case NoDisposition =>
      }
      match e.mode {
        case Removed => removed := removed + count;
        case Delegated => delegated := delegated + count;
        case RetainedMode => kept := kept + count;
        case NoMode =>
      }
    }
    assert entries[..|entries|] == entries;
    var ready := total > 0 && blocked == 0 && migrated + retained == total && qualified;
    s := Summary(total, migrated, retained, blocked, removed, delegated, kept, ready);
  }

  // ---- Conservation ----

  function CensusSize(discovered: Census, kinds: seq<Kind>): nat
    requires forall i :: 0 <= i < |kinds| ==> kinds[i] in discovered
  {
    if kinds == [] then 0 else |discovered[kinds[0]]| + CensusSize(discovered, kinds[1..])
  }

  function ListedSize(entries: seq<Entry>, kinds: seq<Kind>): nat {
    if kinds == [] then 0 else |Listed(entries, kinds[0])| + ListedSize(entries, kinds[1..])
  }

  ghost predicate DistinctKinds(kinds: seq<Kind>) {
    forall i, j :: 0 <= i < j < |kinds| ==> kinds[i] != kinds[j]
  }

  lemma {:induction false} DistinctSize(q: seq<string>)
    requires forall i, j :: 0 <= i < j < |q| ==> q[i] != q[j]
    ensures |SetOf(q)| == |q|
  {
    if q != [] {
      var before, last := q[..|q| - 1], q[|q| - 1];
      DistinctSize(before);
      assert q == before + [last];
      assert SetOf(q) == SetOf(before) + {last};
      assert last !in SetOf(before);
    }
  }

  lemma {:induction false} ListedSizeEmpty(kinds: seq<Kind>)
    ensures ListedSize([], kinds) == 0
  {
    if kinds != [] {
      ListedSizeEmpty(kinds[1..]);
    }
  }

  /** One more entry, disjoint from its class so far, adds its locators to one class. */
  lemma {:induction false} ListedSizeSnoc(before: seq<Entry>, last: Entry, kinds: seq<Kind>)
    requires DistinctKinds(kinds) && StrictlySorted(last.locators)
    requires Listed(before, last.kind) !! SetOf(last.locators)
    ensures ListedSize(before + [last], kinds)
         == ListedSize(before, kinds) + if last.kind in kinds then |last.locators| else 0
  {
    if kinds != [] {
      ListedSizeSnoc(before, last, kinds[1..]);
      DistinctSize(last.locators);
      assert forall k :: k in kinds <==> k == kinds[0] || k in kinds[1..];
      assert kinds[0] !in kinds[1..];
    }
  }

  lemma LastEntry(entries: seq<Entry>, qualified: bool)
    requires entries != [] && AllWellFormed(entries, qualified) && Disjoint(entries)
    ensures var before, last := entries[..|entries| - 1], entries[|entries| - 1];
            && entries == before + [last]
            && AllWellFormed(before, qualified) && Disjoint(before)
            && StrictlySorted(last.locators) && Closed(last.kind)
            && Listed(before, last.kind) !! SetOf(last.locators)
  {
    var before, last := entries[..|entries| - 1], entries[|entries| - 1];
    assert entries == before + [last];
    DisjointSnoc(before, last);
    assert WellFormed(last, qualified);
  }

  lemma {:induction false} TotalIsListed(entries: seq<Entry>, qualified: bool, kinds: seq<Kind>)
    requires AllWellFormed(entries, qualified) && Disjoint(entries)
    requires DistinctKinds(kinds) && forall k :: Closed(k) ==> k in kinds
    ensures Weigh(entries, Any) == ListedSize(entries, kinds)
  {
    if entries == [] {
      ListedSizeEmpty(kinds);
    } else {
      LastEntry(entries, qualified);
      TotalIsListed(entries[..|entries| - 1], qualified, kinds);
      ListedSizeSnoc(entries[..|entries| - 1], entries[|entries| - 1], kinds);
    }
  }

  lemma {:induction false} CoveredSize(entries: seq<Entry>, discovered: Census, kinds: seq<Kind>)
    requires forall i :: 0 <= i < |kinds| ==>
      kinds[i] in discovered && Listed(entries, kinds[i]) == discovered[kinds[i]]
    ensures ListedSize(entries, kinds) == CensusSize(discovered, kinds)
  {
    if kinds != [] {
      CoveredSize(entries, discovered, kinds[1..]);
    }
  }

  /** Sorts that split every well-formed entry split the total. */
  lemma {:induction false} WeighSplits(entries: seq<Entry>, qualified: bool)
    requires AllWellFormed(entries, qualified)
    ensures Weigh(entries, IsMigrated) + Weigh(entries, IsRetained) + Weigh(entries, IsBlocked) == Weigh(entries, Any)
    ensures Weigh(entries, IsRemoved) + Weigh(entries, IsDelegated) == Weigh(entries, IsMigrated)
    ensures Weigh(entries, IsRemoved) + Weigh(entries, IsDelegated) + Weigh(entries, IsKept) == Weigh(entries, Any)
    ensures !qualified ==> Weigh(entries, IsMigrated) == 0
  {
    if entries != [] {
      var n := |entries| - 1;
      assert AllWellFormed(entries[..n], qualified) && WellFormed(entries[n], qualified);
      WeighSplits(entries[..n], qualified);
    }
  }

  /**
   * What the summary conserves: its total is the census size, dispositions and modes each add up to it, migrated is
   * delegated plus removed, and nothing is migrated without a qualified baseline.  Retirement is ready exactly when
   * something is counted, nothing is blocked and the baseline is qualified.
   */
  ghost predicate Conserves(s: Summary, discovered: Census, qualified: bool)
    requires forall i :: 0 <= i < |KINDS| ==> KINDS[i] in discovered
  {
    && s.total == CensusSize(discovered, KINDS)
    && s.migrated + s.retained + s.blocked == s.total
    && s.removed + s.delegated + s.kept == s.total
    && s.migrated == s.delegated + s.removed
    && (!qualified ==> s.migrated == 0 && s.delegated == 0 && s.removed == 0)
    && (s.ready <==> s.total > 0 && s.blocked == 0 && qualified)
  }

  lemma KindsAreDistinct()
    ensures DistinctKinds(KINDS) && forall k :: Closed(k) ==> k in KINDS
  {
    KindsAreClosed();
  }

  lemma TotalIsTheCensus(entries: seq<Entry>, discovered: Census, qualified: bool)
    requires AllFit(entries, qualified) && Covers(entries, discovered)
    ensures (forall i :: 0 <= i < |KINDS| ==> KINDS[i] in discovered)
         && Weigh(entries, Any) == CensusSize(discovered, KINDS)
  {
    KindsAreDistinct();
    KindsAreClosed();
    TotalIsListed(entries, qualified, KINDS);
    CoveredSize(entries, discovered, KINDS);
  }

  lemma CoverConserves(entries: seq<Entry>, discovered: Census, qualified: bool)
    requires ExactCover(entries, discovered, qualified)
    requires forall i :: 0 <= i < |KINDS| ==> KINDS[i] in discovered
    ensures Conserves(Summarized(entries, qualified), discovered, qualified)
  {
    TotalIsTheCensus(entries, discovered, qualified);
    WeighSplits(entries, qualified);
  }

  /** The summary of a valid inventory conserves the census. */
  lemma ValidSummary(prior: seq<Problem>, entries: seq<Entry>, discovered: Census, qualified: bool)
    requires forall k :: Closed(k) ==> k in discovered
    requires forall i :: 0 <= i < |KINDS| ==> KINDS[i] in discovered
    requires Problems(prior, entries, discovered, qualified) == []
    ensures Conserves(Summarized(entries, qualified), discovered, qualified)
  {
    ValidIff(prior, entries, discovered, qualified);
    CoverConserves(entries, discovered, qualified);
  }

  // ---- What each count counts ----

  /** The places of the locators of the entries with that disposition. */
  function Disposed(entries: seq<Entry>, d: Disposition): set<(nat, nat)> {
    set i, a | 0 <= i < |entries| && entries[i].disposition == d && 0 <= a < |entries[i].locators| :: (i, a)
  }

  function Retired(entries: seq<Entry>, m: Mode): set<(nat, nat)> {
    set i, a | 0 <= i < |entries| && entries[i].mode == m && 0 <= a < |entries[i].locators| :: (i, a)
  }

  function Listings(entries: seq<Entry>): set<(nat, nat)> {
    set i, a | 0 <= i < |entries| && 0 <= a < |entries[i].locators| :: (i, a)
  }

  /** The places of the locators of the entries of one sort. */
  function Places(entries: seq<Entry>, sort: Entry -> bool): set<(nat, nat)> {
    set i, a | 0 <= i < |entries| && sort(entries[i]) && 0 <= a < |entries[i].locators| :: (i, a)
  }

  function Row(i: nat, n: nat): (r: set<(nat, nat)>)
    ensures |r| == n
    ensures forall p :: p in r <==> p.0 == i && p.1 < n
  {
    if n == 0 then {} else Row(i, n - 1) + {(i, n - 1)}
  }

  lemma PlacesLast(entries: seq<Entry>, sort: Entry -> bool)
    requires entries != []
    ensures var n := |entries| - 1;
      |Places(entries, sort)| == |Places(entries[..n], sort)| + if sort(entries[n]) then |entries[n].locators| else 0
  {
    var n := |entries| - 1;
    var earlier, mine := Places(entries[..n], sort), Row(n, |entries[n].locators|);
    if sort(entries[n]) {
      assert Places(entries, sort) == earlier + mine;
      assert earlier !! mine;
    } else {
      assert Places(entries, sort) == earlier;
    }
  }

  lemma {:induction false} WeighIsSize(entries: seq<Entry>, sort: Entry -> bool)
    ensures Weigh(entries, sort) == |Places(entries, sort)|
  {
    if entries == [] {
      assert Places(entries, sort) == {};
    } else {
      WeighIsSize(entries[..|entries| - 1], sort);
      PlacesLast(entries, sort);
    }
  }

  /** Each count is the number of locators of the entries with that disposition or mode, for every inventory. */
  lemma SummaryCounts(entries: seq<Entry>, qualified: bool)
    ensures var s := Summarized(entries, qualified);
      && s.total == |Listings(entries)|
      && s.migrated == |Disposed(entries, Migrated)| && s.retained == |Disposed(entries, Retained)|
      && s.blocked == |Disposed(entries, Blocked)|
      && s.removed == |Retired(entries, Removed)| && s.delegated == |Retired(entries, Delegated)|
      && s.kept == |Retired(entries, RetainedMode)|
  {
    WeighIsSize(entries, Any);
    WeighIsSize(entries, IsMigrated);
    WeighIsSize(entries, IsRetained);
    WeighIsSize(entries, IsBlocked);
    WeighIsSize(entries, IsRemoved);
    WeighIsSize(entries, IsDelegated);
    WeighIsSize(entries, IsKept);
    assert Places(entries, Any) == Listings(entries);
    assert Places(entries, IsMigrated) == Disposed(entries, Migrated);
    assert Places(entries, IsRetained) == Disposed(entries, Retained);
    assert Places(entries, IsBlocked) == Disposed(entries, Blocked);
    assert Places(entries, IsRemoved) == Retired(entries, Removed);
    assert Places(entries, IsDelegated) == Retired(entries, Delegated);
    assert Places(entries, IsKept) == Retired(entries, RetainedMode);
  }

  /** Listings whose entry is migrated or retained. */
  ghost predicate AllSettled(entries: seq<Entry>) {
    forall i :: 0 <= i < |entries| && entries[i].locators != [] ==>
      entries[i].disposition.Migrated? || entries[i].disposition.Retained?
  }

  lemma SplitSize(all: set<(nat, nat)>, a: set<(nat, nat)>, b: set<(nat, nat)>)
    requires a <= all && b <= all && a !! b
    ensures |a| + |b| == |all| <==> all <= a + b
  {
    assert all == a + b + (all - a - b);
  }

  lemma SettledSizes(entries: seq<Entry>)
    ensures |Disposed(entries, Migrated)| + |Disposed(entries, Retained)| == |Listings(entries)|
       <==> AllSettled(entries)
  {
    var all, migrated, retained := Listings(entries), Disposed(entries, Migrated), Disposed(entries, Retained);
    SplitSize(all, migrated, retained);
    if all <= migrated + retained {
      forall i | 0 <= i < |entries| && entries[i].locators != []
        ensures entries[i].disposition.Migrated? || entries[i].disposition.Retained?
      {
        assert (i, 0) in all;
      }
    }
  }

  /**
   * Any inventory is ready exactly when it lists something, everything listed is migrated or retained, and the
   * baseline is qualified.
   */
  lemma ReadyIff(entries: seq<Entry>, qualified: bool)
    ensures Summarized(entries, qualified).ready <==> qualified && Listings(entries) != {} && AllSettled(entries)
  {
    SummaryCounts(entries, qualified);
    SettledSizes(entries);
    var s := Summarized(entries, qualified);
    if AllSettled(entries) {
      assert Disposed(entries, Blocked) == {};
    }
  }

  /** A valid inventory is ready exactly when it has entries, none of them blocked, and a qualified baseline. */
  lemma ValidReadyIff(prior: seq<Problem>, entries: seq<Entry>, discovered: Census, qualified: bool)
    requires forall k :: Closed(k) ==> k in discovered
    requires Problems(prior, entries, discovered, qualified) == []
    ensures Summarized(entries, qualified).ready
       <==> entries != [] && qualified && forall i :: 0 <= i < |entries| ==> !entries[i].disposition.Blocked?
  {
    ValidIff(prior, entries, discovered, qualified);
    ReadyIff(entries, qualified);
    SoundEntries(entries, qualified);
  }

  lemma SoundEntries(entries: seq<Entry>, qualified: bool)
    requires AllWellFormed(entries, qualified)
    ensures Listings(entries) != {} <==> entries != []
    ensures AllSettled(entries) <==> forall i :: 0 <= i < |entries| ==> !entries[i].disposition.Blocked?
  {
    forall i | 0 <= i < |entries| ensures entries[i].locators != [] && !entries[i].disposition.NoDisposition? {
      assert WellFormed(entries[i], qualified);
    }
    if entries != [] {
      assert (0, 0) in Listings(entries);
    }
  }
}
