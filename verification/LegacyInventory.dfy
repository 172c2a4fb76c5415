/** The legacy inventory against the discovered census, and the readiness summary computed from it. */
module LegacyInventory {
  import opened Common
  import opened ReplacementWalk

  datatype Kind =
    | AiPathProjection | ClientSemanticAggregator | FeedbackDoor | HistoricalReader | McpBinding
    | ProducerTool | Renderer
    | NotClosed(name: string)

  /** The closed classes, in the order `sorted` gives them. */
  const KINDS: seq<Kind> :=
    [AiPathProjection, ClientSemanticAggregator, FeedbackDoor, HistoricalReader, McpBinding, ProducerTool, Renderer]

  predicate Closed(k: Kind) {
    !k.NotClosed?
  }

  lemma KindsAreClosed()
    ensures forall k :: k in KINDS <==> Closed(k)
  {
    assert KINDS[0] == AiPathProjection && KINDS[1] == ClientSemanticAggregator && KINDS[2] == FeedbackDoor
        && KINDS[3] == HistoricalReader && KINDS[4] == McpBinding && KINDS[5] == ProducerTool && KINDS[6] == Renderer;
  }

  datatype Disposition = Migrated | Retained | Blocked | NoDisposition

  datatype Mode = Removed | Delegated | RetainedMode | NoMode

  /** The id of an entry: no text at all, a text of another shape, or an identifier. */
  datatype Id = NoText | Misshapen(text: string) | Named(text: string)

  /**
   * One entry.  `replacement` is there when it is a well-formed identifier.  The `Problems` fields count the errors
   * of the fields that play no part here, by where they are reported: before the id, after it, after the locators,
   * after the modes.  `evidencePasses` says whether its qualification evidence matches the pinned decision.
   */
  datatype Entry = Entry(
    id: Id, replacement: Option<string>,
    kind: Kind, locators: seq<string>, disposition: Disposition, mode: Mode,
    required: seq<string>, forbidden: seq<string>,
    evidenceAttached: bool, evidencePasses: bool,
    keyProblems: nat, doorProblems: nat, pathProblems: nat, proofProblems: nat)

  datatype Problem =
    | Other | BadId | DuplicateId(id: string) | BadReplacement | ClassNotClosed
    | BadLocators | DuplicateLocators(overlap: set<string>) | DispositionNotClosed | ModeNotClosed
    | AuthoritiesUnsorted | AuthoritiesMissing | ModeNeedsMigrated | MigratedNeedsMode
    | RetainedClaimsAuthority | MigratedUnqualified | ModeUnqualified | EvidenceOnUnmigrated
    | ReplacementCycle(cycle: seq<string>)
    | Unclassified(kind: Kind, missing: set<string>) | Stale(kind: Kind, stale: set<string>)

  type Census = map<Kind, set<string>>

  // ---- One entry ----

  predicate GoodLocators(q: seq<string>) {
    q != [] && StrictlySorted(q) && forall i :: 0 <= i < |q| ==> '#' in q[i]
  }

  predicate Retires(mode: Mode) {
    mode.Removed? || mode.Delegated?
  }

  /** The problems whose condition holds, in order. */
  function Collect(checks: seq<(bool, Problem)>): seq<Problem> {
    if checks == [] then [] else (if checks[0].0 then [checks[0].1] else []) + Collect(checks[1..])
  }

  /** `seen` holds the ids of the earlier entries. */
  function IdChecks(e: Entry, seen: set<string>): seq<(bool, Problem)> {
    if e.id.Named? then [(e.id.text in seen, DuplicateId(e.id.text))] else [(true, BadId)]
  }

  function LocatorChecks(e: Entry, inventoried: set<string>): seq<(bool, Problem)> {
    var overlap := inventoried * SetOf(e.locators);
    [(!GoodLocators(e.locators), BadLocators), (overlap != {}, DuplicateLocators(overlap))]
  }

  function RuleChecks(e: Entry): seq<(bool, Problem)> {
    [(e.disposition.NoDisposition?, DispositionNotClosed),
     (e.mode.NoMode?, ModeNotClosed),
     (!StrictlySorted(e.required) || !StrictlySorted(e.forbidden), AuthoritiesUnsorted),
     (Retires(e.mode) && (e.required == [] || e.forbidden == []), AuthoritiesMissing),
     (Retires(e.mode) && !e.disposition.Migrated?, ModeNeedsMigrated),
     (e.disposition.Migrated? && !Retires(e.mode), MigratedNeedsMode),
     (e.mode.RetainedMode? && (e.required != [] || e.forbidden != []), RetainedClaimsAuthority)]
  }

  function EvidenceChecks(e: Entry, qualified: bool): seq<(bool, Problem)> {
    [(e.disposition.Migrated? && (!qualified || !e.evidencePasses), MigratedUnqualified),
     (Retires(e.mode) && (!qualified || !e.evidencePasses), ModeUnqualified),
     ((e.disposition.Retained? || e.disposition.Blocked?) && e.evidenceAttached, EvidenceOnUnmigrated)]
  }

  function Others(count: nat): seq<Problem> {
    seq(count, i => Other)
  }

  function HeadProblems(e: Entry, seen: set<string>): seq<Problem> {
    Others(e.keyProblems) + Collect(IdChecks(e, seen)) + Others(e.doorProblems)
    + if e.replacement.None? then [BadReplacement] else []
  }

  /** `inventoried` holds the locators the earlier entries of its class listed. */
  function ClassProblems(e: Entry, inventoried: set<string>, qualified: bool): seq<Problem> {
    if !Closed(e.kind) then [ClassNotClosed]
    else
      Collect(LocatorChecks(e, inventoried)) + Others(e.pathProblems) + Collect(RuleChecks(e))
      + Others(e.proofProblems) + Collect(EvidenceChecks(e, qualified))
  }

  function EntryProblems(e: Entry, seen: set<string>, inventoried: set<string>, qualified: bool): seq<Problem> {
    HeadProblems(e, seen) + ClassProblems(e, inventoried, qualified)
  }

  /** The locators the entries of one class list. */
  function Listed(entries: seq<Entry>, k: Kind): set<string> {
    if entries == [] then {}
    else
      var last := entries[|entries| - 1];
      Listed(entries[..|entries| - 1], k) + if last.kind == k then SetOf(last.locators) else {}
  }

  function AllEntryProblems(entries: seq<Entry>, qualified: bool): seq<Problem> {
    if entries == [] then []
    else
      var before, last := entries[..|entries| - 1], entries[|entries| - 1];
      AllEntryProblems(before, qualified) + EntryProblems(last, SeenIds(before), Listed(before, last.kind), qualified)
  }

  function SeenIds(entries: seq<Entry>): set<string> {
    if entries == [] then {}
    else
      var last := entries[|entries| - 1];
      SeenIds(entries[..|entries| - 1]) + if last.id.Named? then {last.id.text} else {}
  }

  function NextReplacements(g: Graph, e: Entry): Graph {
    if e.replacement.Some? && !e.id.NoText? then g[e.id.text := e.replacement.value] else g
  }

  /** `replacements`: the replacement of each id, the last entry of an id deciding. */
  function Replacements(entries: seq<Entry>): Graph {
    if entries == [] then map[]
    else
      NextReplacements(Replacements(entries[..|entries| - 1]), entries[|entries| - 1])
  }

  function CycleProblems(errors: seq<CycleError>): seq<Problem> {
    seq(|errors|, i requires 0 <= i < |errors| => ReplacementCycle(errors[i].cycle))
  }

  function CensusProblems(discovered: Census, entries: seq<Entry>, kinds: seq<Kind>): seq<Problem>
    requires forall k :: Closed(k) ==> k in discovered
    requires forall i :: 0 <= i < |kinds| ==> Closed(kinds[i])
  {
    if kinds == [] then []
    else
      var k := kinds[0];
      KindProblems(k, discovered[k], Listed(entries, k)) + CensusProblems(discovered, entries, kinds[1..])
  }

  function InTurn(a: seq<Problem>, b: seq<Problem>, c: seq<Problem>, d: seq<Problem>): (all: seq<Problem>)
    ensures |all| == |a| + |b| + |c| + |d|
  {
    a + b + c + d
  }

  /** Everything the validator reports; `prior` holds the errors of the header and the baseline. */
  function Problems(prior: seq<Problem>, entries: seq<Entry>, discovered: Census, qualified: bool): seq<Problem>
    requires forall k :: Closed(k) ==> k in discovered
  {
    KindsAreClosed();
    InTurn(prior, AllEntryProblems(entries, qualified), CycleProblems(AllCycles(Replacements(entries))),
           CensusProblems(discovered, entries, KINDS))
  }

  ghost predicate Inventories(inventoried: Census, entries: seq<Entry>) {
    forall k :: Closed(k) ==> k in inventoried && inventoried[k] == Listed(entries, k)
  }

  function NothingListed(): (inventoried: Census)
    ensures Inventories(inventoried, [])
  {
    KindsAreClosed();
    map k | k in KINDS :: {}
  }

  /** What the loop over the entries has collected beside the errors. */
  ghost predicate Collected(seen: set<string>, replacements: Graph, inventoried: Census, entries: seq<Entry>) {
    seen == SeenIds(entries) && replacements == Replacements(entries) && Inventories(inventoried, entries)
  }

  lemma ErrorsStep(before: seq<Entry>, e: Entry, seen: set<string>, listed: set<string>, qualified: bool)
    requires seen == SeenIds(before) && (Closed(e.kind) ==> listed == Listed(before, e.kind))
    ensures AllEntryProblems(before + [e], qualified)
         == AllEntryProblems(before, qualified) + EntryProblems(e, seen, listed, qualified)
  {
    var all := before + [e];
    assert all[..|all| - 1] == before && all[|all| - 1] == e;
  }

  lemma SeenStep(before: seq<Entry>, e: Entry)
    ensures SeenIds(before + [e]) == if e.id.Named? then SeenIds(before) + {e.id.text} else SeenIds(before)
  {
    assert (before + [e])[..|before|] == before;
  }

  lemma ReplacementsStep(before: seq<Entry>, e: Entry)
    ensures Replacements(before + [e]) == NextReplacements(Replacements(before), e)
  {
    assert (before + [e])[..|before|] == before;
  }

  lemma ListedStep(before: seq<Entry>, e: Entry, k: Kind)
    ensures Listed(before + [e], k) == Listed(before, k) + if e.kind == k then SetOf(e.locators) else {}
  {
    assert (before + [e])[..|before|] == before;
  }

  function NextInventoried(inventoried: Census, e: Entry): Census
    requires Closed(e.kind) ==> e.kind in inventoried
  {
    if Closed(e.kind) then inventoried[e.kind := inventoried[e.kind] + SetOf(e.locators)] else inventoried
  }

  lemma InventoriedStep(inventoried: Census, before: seq<Entry>, e: Entry)
    requires Inventories(inventoried, before)
    ensures Inventories(NextInventoried(inventoried, e), before + [e])
  {
    forall k | Closed(k)
      ensures k in NextInventoried(inventoried, e) && NextInventoried(inventoried, e)[k] == Listed(before + [e], k)
    {
      ListedStep(before, e, k);
    }
  }

  lemma CollectedStep(seen: set<string>, g: Graph, inventoried: Census, before: seq<Entry>, e: Entry)
    requires Collected(seen, g, inventoried, before)
    ensures Collected(if e.id.Named? then seen + {e.id.text} else seen, NextReplacements(g, e),
                      NextInventoried(inventoried, e), before + [e])
  {
    SeenStep(before, e);
    ReplacementsStep(before, e);
    InventoriedStep(inventoried, before, e);
  }

  method ValidateEntries(entries: seq<Entry>, qualified: bool)
    returns (errors: seq<Problem>, replacements: Graph, inventoried: Census)
    ensures errors == AllEntryProblems(entries, qualified)
    ensures replacements == Replacements(entries) && Inventories(inventoried, entries)
  {
    errors := [];
    replacements := map[];
    inventoried := NothingListed();
    var seen: set<string> := {};
    for i := 0 to |entries|
      invariant Collected(seen, replacements, inventoried, entries[..i])
      invariant errors == AllEntryProblems(entries[..i], qualified)
    {
      var e := entries[i];
      var listed := if Closed(e.kind) then inventoried[e.kind] else {};
      var mine := EntryProblems(e, seen, listed, qualified);
      assert entries[..i + 1] == entries[..i] + [e];
      assert errors + mine == AllEntryProblems(entries[..i + 1], qualified) by {
        ErrorsStep(entries[..i], e, seen, listed, qualified);
      }
      CollectedStep(seen, replacements, inventoried, entries[..i], e);
      errors := errors + mine;
      if e.id.Named? {
        seen := seen + {e.id.text};
      }
      if e.replacement.Some? && !e.id.NoText? {
        replacements := replacements[e.id.text := e.replacement.value];
      }
      if Closed(e.kind) {
        inventoried := inventoried[e.kind := listed + SetOf(e.locators)];
      }
    }
    assert entries[..|entries|] == entries;
  }

  /** The problems of one class. */
  function KindProblems(k: Kind, found: set<string>, listed: set<string>): seq<Problem> {
    (if found - listed != {} then [Unclassified(k, found - listed)] else [])
    + (if listed - found != {} then [Stale(k, listed - found)] else [])
  }

  method CompareCensus(discovered: Census, inventoried: Census, kinds: seq<Kind>, ghost entries: seq<Entry>)
    returns (errors: seq<Problem>)
    requires forall k :: Closed(k) ==> k in discovered
    requires forall i :: 0 <= i < |kinds| ==> Closed(kinds[i])
    requires Inventories(inventoried, entries)
    ensures errors == CensusProblems(discovered, entries, kinds)
  {
    errors := [];
    for n := 0 to |kinds|
      invariant CensusProblems(discovered, entries, kinds) == errors + CensusProblems(discovered, entries, kinds[n..])
    {
      var k := kinds[n];
      var found, listed := discovered[k], inventoried[k];
      ghost var rest := CensusProblems(discovered, entries, kinds[n + 1..]);
      assert kinds[n..][1..] == kinds[n + 1..];
      assert errors + (KindProblems(k, found, listed) + rest) == errors + KindProblems(k, found, listed) + rest;
      errors := errors + KindProblems(k, found, listed);
    }
    assert errors + [] == errors;
  }

  method ValidateInventory(prior: seq<Problem>, entries: seq<Entry>, discovered: Census, qualified: bool)
    returns (errors: seq<Problem>)
    requires forall k :: Closed(k) ==> k in discovered
    ensures errors == Problems(prior, entries, discovered, qualified)
  {
    KindsAreClosed();
    var found, replacements, inventoried := ValidateEntries(entries, qualified);
    var cycles := FindCycles(replacements);
    var census := CompareCensus(discovered, inventoried, KINDS, entries);
    assert cycles == AllCycles(Replacements(entries)) && census == CensusProblems(discovered, entries, KINDS);
    errors := InTurn(prior, found, CycleProblems(cycles), census);
  }

  // ---- What a valid inventory is ----

  /** The rules one entry obeys by itself. */
  ghost predicate WellFormed(e: Entry, qualified: bool) {
    && e.keyProblems == 0 && e.doorProblems == 0 && e.id.Named? && e.replacement.Some?
    && ClassRulesHold(e, qualified)
  }

  ghost predicate ClassRulesHold(e: Entry, qualified: bool) {
    && e.pathProblems == 0 && e.proofProblems == 0
    && Closed(e.kind) && GoodLocators(e.locators)
    && !e.disposition.NoDisposition? && !e.mode.NoMode?
    && StrictlySorted(e.required) && StrictlySorted(e.forbidden)
    && (e.disposition.Migrated? <==> Retires(e.mode))
    && (Retires(e.mode) ==> qualified && e.evidencePasses && e.required != [] && e.forbidden != [])
    && (e.mode.RetainedMode? ==> e.required == [] && e.forbidden == [])
    && (!e.disposition.Migrated? ==> !e.evidenceAttached)
  }

  ghost predicate DistinctIds(entries: seq<Entry>) {
    forall i, j :: 0 <= i < j < |entries| && entries[i].id.Named? ==> entries[i].id != entries[j].id
  }

  /** Two entries of one class share no locator. */
  ghost predicate Disjoint(entries: seq<Entry>) {
    forall i, j :: 0 <= i < j < |entries| && entries[i].kind == entries[j].kind ==>
      SetOf(entries[i].locators) !! SetOf(entries[j].locators)
  }

  ghost predicate AllFit(entries: seq<Entry>, qualified: bool) {
    AllWellFormed(entries, qualified) && DistinctIds(entries) && Disjoint(entries)
  }

  /** Per class, the entries' locators and the census are the same set. */
  ghost predicate Covers(entries: seq<Entry>, discovered: Census) {
    forall k :: Closed(k) ==> k in discovered && Listed(entries, k) == discovered[k]
  }

  ghost predicate ExactCover(entries: seq<Entry>, discovered: Census, qualified: bool) {
    AllFit(entries, qualified) && Covers(entries, discovered)
  }

  lemma {:induction false} ListedMembers(entries: seq<Entry>, k: Kind)
    ensures forall x :: x in Listed(entries, k) <==>
      exists i :: 0 <= i < |entries| && entries[i].kind == k && x in entries[i].locators
  {
    if entries != [] {
      var before, last := entries[..|entries| - 1], entries[|entries| - 1];
      ListedMembers(before, k);
      forall x ensures x in Listed(entries, k) <==>
        exists i :: 0 <= i < |entries| && entries[i].kind == k && x in entries[i].locators
      {
        if x in Listed(before, k) {
          var i :| 0 <= i < |before| && before[i].kind == k && x in before[i].locators;
          assert entries[i].kind == k && x in entries[i].locators;
        } else if last.kind == k && x in last.locators {
          assert entries[|entries| - 1].kind == k;
        }
      }
    }
  }

  ghost predicate NoneHolds(checks: seq<(bool, Problem)>) {
    forall i :: 0 <= i < |checks| ==> !checks[i].0
  }

  lemma {:induction false} CollectIff(checks: seq<(bool, Problem)>)
    ensures Collect(checks) == [] <==> NoneHolds(checks)
  {
    if checks != [] {
      CollectIff(checks[1..]);
      BothEmpty(if checks[0].0 then [checks[0].1] else [], Collect(checks[1..]));
    }
  }

  /** What the rules on modes and authorities leave. */
  ghost predicate ModesFit(e: Entry) {
    && !e.disposition.NoDisposition? && !e.mode.NoMode?
    && StrictlySorted(e.required) && StrictlySorted(e.forbidden)
    && (Retires(e.mode) ==> e.required != [] && e.forbidden != [])
    && (e.disposition.Migrated? <==> Retires(e.mode))
    && (e.mode.RetainedMode? ==> e.required == [] && e.forbidden == [])
  }

  lemma ModesIff(e: Entry)
    ensures Collect(RuleChecks(e)) == [] <==> ModesFit(e)
  {
    var c := RuleChecks(e);
    CollectIff(c);
    assert NoneHolds(c) <==> !c[0].0 && !c[1].0 && !c[2].0 && !c[3].0 && !c[4].0 && !c[5].0 && !c[6].0;
  }

  lemma EvidenceIff(e: Entry, qualified: bool)
    requires ModesFit(e)
    ensures Collect(EvidenceChecks(e, qualified)) == [] <==>
      && (Retires(e.mode) ==> qualified && e.evidencePasses)
      && (!e.disposition.Migrated? ==> !e.evidenceAttached)
  {
    var v := EvidenceChecks(e, qualified);
    CollectIff(v);
    assert NoneHolds(v) <==> !v[0].0 && !v[1].0 && !v[2].0;
  }

  lemma RulesIff(e: Entry, qualified: bool)
    requires e.pathProblems == 0 && e.proofProblems == 0 && Closed(e.kind) && GoodLocators(e.locators)
    ensures Collect(RuleChecks(e)) == [] && Collect(EvidenceChecks(e, qualified)) == []
       <==> ClassRulesHold(e, qualified)
  {
    ModesIff(e);
    if ModesFit(e) {
      EvidenceIff(e, qualified);
    }
  }

  lemma LocatorsIff(e: Entry, inventoried: set<string>)
    ensures Collect(LocatorChecks(e, inventoried)) == []
       <==> GoodLocators(e.locators) && inventoried !! SetOf(e.locators)
  {
    var l := LocatorChecks(e, inventoried);
    CollectIff(l);
    assert Collect(l) == [] <==> !l[0].0 && !l[1].0;
    NoOverlap(inventoried, SetOf(e.locators));
  }

  lemma HeadIff(e: Entry, seen: set<string>)
    ensures HeadProblems(e, seen) == [] <==>
      && e.keyProblems == 0 && e.doorProblems == 0 && e.id.Named? && e.id.text !in seen && e.replacement.Some?
  {
    var ids := IdChecks(e, seen);
    CollectIff(ids);
    assert Collect(ids) == [] <==> !ids[0].0;
    assert |HeadProblems(e, seen)|
        == e.keyProblems + |Collect(ids)| + e.doorProblems + if e.replacement.None? then 1 else 0;
  }

  lemma ClassIff(e: Entry, inventoried: set<string>, qualified: bool)
    ensures ClassProblems(e, inventoried, qualified) == []
       <==> ClassRulesHold(e, qualified) && inventoried !! SetOf(e.locators)
  {
    if Closed(e.kind) {
      var l, r := Collect(LocatorChecks(e, inventoried)), Collect(RuleChecks(e));
      var v := Collect(EvidenceChecks(e, qualified));
      LocatorsIff(e, inventoried);
      assert |ClassProblems(e, inventoried, qualified)| == |l| + e.pathProblems + |r| + e.proofProblems + |v|;
      if e.pathProblems == 0 && e.proofProblems == 0 && GoodLocators(e.locators) {
        RulesIff(e, qualified);
      }
    }
  }

  /** An entry that breaks no rule beside earlier ones with those ids and those locators of its class. */
  ghost predicate FitsIn(e: Entry, seen: set<string>, inventoried: set<string>, qualified: bool) {
    WellFormed(e, qualified) && e.id.text !in seen && inventoried !! SetOf(e.locators)
  }

  lemma EntryProblemsIff(e: Entry, seen: set<string>, inventoried: set<string>, qualified: bool)
    ensures EntryProblems(e, seen, inventoried, qualified) == [] <==> FitsIn(e, seen, inventoried, qualified)
  {
    HeadIff(e, seen);
    ClassIff(e, inventoried, qualified);
    BothEmpty(HeadProblems(e, seen), ClassProblems(e, inventoried, qualified));
  }

  lemma NoOverlap(a: set<string>, b: set<string>)
    ensures a * b == {} <==> a !! b
  {
    var both := a * b;
    if both == {} {
      forall x | x in a ensures x !in b {
        assert x !in both;
      }
    } else {
      var x :| x in both;
    }
  }

  lemma BothEmpty(a: seq<Problem>, b: seq<Problem>)
    ensures a + b == [] <==> a == [] && b == []
  {
    assert |a + b| == |a| + |b|;
  }

  ghost predicate AllWellFormed(entries: seq<Entry>, qualified: bool) {
    forall i :: 0 <= i < |entries| ==> WellFormed(entries[i], qualified)
  }

  /** The last entry fits beside the earlier ones. */
  ghost predicate LastFits(entries: seq<Entry>, qualified: bool)
    requires entries != []
  {
    var before, last := entries[..|entries| - 1], entries[|entries| - 1];
    FitsIn(last, SeenIds(before), Listed(before, last.kind), qualified)
  }

  lemma AllFitLast(entries: seq<Entry>, qualified: bool)
    requires entries != []
    ensures AllFit(entries, qualified) <==> AllFit(entries[..|entries| - 1], qualified) && LastFits(entries, qualified)
  {
    var before, last := entries[..|entries| - 1], entries[|entries| - 1];
    AllSnoc(before, last, qualified);
    DistinctSnoc(before, last);
    DisjointSnoc(before, last);
    assert entries == before + [last];
  }

  lemma SilentLast(entries: seq<Entry>, qualified: bool)
    requires entries != []
    ensures AllEntryProblems(entries, qualified) == []
       <==> AllEntryProblems(entries[..|entries| - 1], qualified) == [] && LastFits(entries, qualified)
  {
    var before, last := entries[..|entries| - 1], entries[|entries| - 1];
    var seen, listed := SeenIds(before), Listed(before, last.kind);
    EntryProblemsIff(last, seen, listed, qualified);
    BothEmpty(AllEntryProblems(before, qualified), EntryProblems(last, seen, listed, qualified));
  }

  lemma {:induction false} EntriesIff(entries: seq<Entry>, qualified: bool)
    ensures AllEntryProblems(entries, qualified) == [] <==> AllFit(entries, qualified)
  {
    if entries != [] {
      EntriesIff(entries[..|entries| - 1], qualified);
      SilentLast(entries, qualified);
      AllFitLast(entries, qualified);
    }
  }

  lemma {:induction false} SeenMembers(entries: seq<Entry>, id: string)
    ensures id in SeenIds(entries) <==> exists i :: 0 <= i < |entries| && entries[i].id == Named(id)
  {
    if entries != [] {
      var before, last := entries[..|entries| - 1], entries[|entries| - 1];
      SeenMembers(before, id);
      assert forall i :: 0 <= i < |before| ==> before[i] == entries[i];
      if last.id == Named(id) {
        assert entries[|entries| - 1].id == Named(id);
      }
    }
  }

  lemma DistinctSnoc(before: seq<Entry>, last: Entry)
    ensures DistinctIds(before + [last])
       <==> DistinctIds(before) && (last.id.Named? ==> last.id.text !in SeenIds(before))
  {
    var all := before + [last];
    if last.id.Named? {
      SeenMembers(before, last.id.text);
    }
    assert forall i :: 0 <= i < |before| ==> before[i] == all[i];
    assert all[|before|] == last;
  }

  /** Some entry of that id names that replacement. */
  ghost predicate Names(entries: seq<Entry>, id: string, target: string) {
    exists i :: 0 <= i < |entries| && entries[i].id == Named(id) && entries[i].replacement == Some(target)
  }

  lemma NamesSnoc(before: seq<Entry>, last: Entry, id: string, target: string)
    ensures Names(before + [last], id, target)
       <==> Names(before, id, target) || (last.id == Named(id) && last.replacement == Some(target))
  {
    var all := before + [last];
    assert all[|before|] == last;
    assert forall i :: 0 <= i < |before| ==> before[i] == all[i];
    if Names(before, id, target) {
      var i :| 0 <= i < |before| && before[i].id == Named(id) && before[i].replacement == Some(target);
      assert all[i].id == Named(id);
    }
  }

  lemma NamesSeen(entries: seq<Entry>, id: string, target: string)
    ensures Names(entries, id, target) ==> id in SeenIds(entries)
  {
    SeenMembers(entries, id);
  }

  /** With distinct ids the graph is the entries': each id goes to the replacement its own entry names. */
  lemma {:induction false} ReplacementsAre(entries: seq<Entry>, qualified: bool, id: string, target: string)
    requires AllWellFormed(entries, qualified) && DistinctIds(entries)
    ensures id in Replacements(entries) && Replacements(entries)[id] == target <==> Names(entries, id, target)
    ensures id in Replacements(entries) <==> id in SeenIds(entries)
  {
    if entries != [] {
      var before, last := entries[..|entries| - 1], entries[|entries| - 1];
      assert entries == before + [last];
      AllSnoc(before, last, qualified);
      DistinctSnoc(before, last);
      ReplacementsAre(before, qualified, id, target);
      ReplacementsStep(before, last);
      SeenStep(before, last);
      NamesSnoc(before, last, id, target);
      NamesSeen(before, id, target);
    }
  }

  lemma AllSnoc(before: seq<Entry>, last: Entry, qualified: bool)
    ensures AllWellFormed(before + [last], qualified)
       <==> AllWellFormed(before, qualified) && WellFormed(last, qualified)
  {
    var all := before + [last];
    assert forall i :: 0 <= i < |before| ==> before[i] == all[i];
    assert all[|before|] == last;
  }

  lemma DisjointSnoc(before: seq<Entry>, last: Entry)
    ensures Disjoint(before + [last]) <==> Disjoint(before) && Listed(before, last.kind) !! SetOf(last.locators)
  {
    ListedMembers(before, last.kind);
    var all := before + [last];
    assert forall i :: 0 <= i < |before| ==> all[i] == before[i];
    if Disjoint(all) {
      forall x | x in Listed(before, last.kind) ensures x !in SetOf(last.locators) {
        var i :| 0 <= i < |before| && before[i].kind == last.kind && x in before[i].locators;
        assert all[i].kind == all[|before|].kind && x in SetOf(all[i].locators);
      }
    } else if Disjoint(before) {
      var i, j :| 0 <= i < j < |all| && all[i].kind == all[j].kind
        && !(SetOf(all[i].locators) !! SetOf(all[j].locators));
      assert j == |before|;
      var x :| x in SetOf(all[i].locators) && x in SetOf(all[j].locators);
      assert before[i].kind == last.kind && x in before[i].locators;
    }
  }

  ghost predicate Matches(discovered: Census, entries: seq<Entry>, kinds: seq<Kind>)
    requires forall k :: Closed(k) ==> k in discovered
    requires forall i :: 0 <= i < |kinds| ==> Closed(kinds[i])
  {
    forall i :: 0 <= i < |kinds| ==> Listed(entries, kinds[i]) == discovered[kinds[i]]
  }

  lemma {:induction false} CensusIff(discovered: Census, entries: seq<Entry>, kinds: seq<Kind>)
    requires forall k :: Closed(k) ==> k in discovered
    requires forall i :: 0 <= i < |kinds| ==> Closed(kinds[i])
    ensures CensusProblems(discovered, entries, kinds) == [] <==> Matches(discovered, entries, kinds)
  {
    if kinds != [] {
      var k := kinds[0];
      CensusIff(discovered, entries, kinds[1..]);
      BothEmpty(KindProblems(k, discovered[k], Listed(entries, k)), CensusProblems(discovered, entries, kinds[1..]));
    }
  }

  lemma CoversIff(entries: seq<Entry>, discovered: Census)
    requires forall k :: Closed(k) ==> k in discovered
    ensures CensusProblems(discovered, entries, KINDS) == [] <==> Covers(entries, discovered)
  {
    KindsAreClosed();
    CensusIff(discovered, entries, KINDS);
  }

  lemma CyclesIff(g: Graph)
    ensures CycleProblems(AllCycles(g)) == [] <==> !HasCycle(g)
  {
    AllReportsAre(g);
    assert |CycleProblems(AllCycles(g))| == |AllCycles(g)|;
  }

  /**
   * The validator is silent exactly on the inventories that are exact covers, break no other rule and have no entry
   * from which following replacements comes back.
   */
  lemma ValidIff(prior: seq<Problem>, entries: seq<Entry>, discovered: Census, qualified: bool)
    requires forall k :: Closed(k) ==> k in discovered
    ensures Problems(prior, entries, discovered, qualified) == []
       <==> prior == [] && ExactCover(entries, discovered, qualified) && !HasCycle(Replacements(entries))
  {
    var found, cycles := AllEntryProblems(entries, qualified), CycleProblems(AllCycles(Replacements(entries)));
    EntriesIff(entries, qualified);
    CyclesIff(Replacements(entries));
    CoversIff(entries, discovered);
  }

  /** An exact cover, one locator at a time: a discovered locator is listed by exactly one entry, at one place. */
  lemma ExactlyOneEntry(entries: seq<Entry>, discovered: Census, qualified: bool, k: Kind, x: string)
    requires ExactCover(entries, discovered, qualified) && Closed(k) && k in discovered && x in discovered[k]
    ensures exists i, a ::
      && 0 <= i < |entries| && 0 <= a < |entries[i].locators| && entries[i].kind == k && entries[i].locators[a] == x
      && forall j, b ::
           0 <= j < |entries| && 0 <= b < |entries[j].locators| && entries[j].kind == k && entries[j].locators[b] == x
           ==> j == i && b == a
  {
    ListedMembers(entries, k);
    var i :| 0 <= i < |entries| && entries[i].kind == k && x in entries[i].locators;
    var a :| 0 <= a < |entries[i].locators| && entries[i].locators[a] == x;
    forall j, b | 0 <= j < |entries| && 0 <= b < |entries[j].locators| && entries[j].kind == k
      && entries[j].locators[b] == x
      ensures j == i && b == a
    {
      OneEntry(entries, i, j, x);
      assert WellFormed(entries[i], qualified);
    }
  }

  lemma OneEntry(entries: seq<Entry>, i: nat, j: nat, x: string)
    requires Disjoint(entries) && i < |entries| && j < |entries| && entries[i].kind == entries[j].kind
    requires x in entries[i].locators && x in entries[j].locators
    ensures i == j
  {
    assert x in SetOf(entries[i].locators) && x in SetOf(entries[j].locators);
  }

  // ---- Which problem ----

  /** The locators the entries list under class k. */
  ghost predicate ListsUnder(entries: seq<Entry>, k: Kind, x: string) {
    exists i :: 0 <= i < |entries| && entries[i].kind == k && x in entries[i].locators
  }

  /** Discovered and listed by no entry of the class; listed by one and not discovered. */
  ghost predicate CensusReport(entries: seq<Entry>, discovered: Census, x: Problem)
    requires forall k :: Closed(k) ==> k in discovered
  {
    match x
    case Unclassified(k, q) =>
      Closed(k) && q != {} && forall l :: l in q <==> l in discovered[k] && !ListsUnder(entries, k, l)
    case Stale(k, q) =>
      Closed(k) && q != {} && forall l :: l in q <==> ListsUnder(entries, k, l) && l !in discovered[k]
    case _ => false
  }

  lemma {:induction false} CensusReports(entries: seq<Entry>, discovered: Census, kinds: seq<Kind>, x: Problem)
    requires forall k :: Closed(k) ==> k in discovered
    requires forall i :: 0 <= i < |kinds| ==> Closed(kinds[i])
    ensures x in CensusProblems(discovered, entries, kinds)
       <==> CensusReport(entries, discovered, x) && x.kind in kinds
  {
    if kinds != [] {
      var k := kinds[0];
      CensusReports(entries, discovered, kinds[1..], x);
      KindReports(entries, discovered, k, x);
      assert forall y :: y in kinds <==> y == k || y in kinds[1..];
    }
  }

  lemma KindReports(entries: seq<Entry>, discovered: Census, k: Kind, x: Problem)
    requires (forall y :: Closed(y) ==> y in discovered) && Closed(k)
    ensures x in KindProblems(k, discovered[k], Listed(entries, k))
       <==> CensusReport(entries, discovered, x) && x.kind == k
  {
    var found, listed := discovered[k], Listed(entries, k);
    forall l ensures l in listed <==> ListsUnder(entries, k, l) {
      ListedMembers(entries, k);
    }
    match x
    case Unclassified(_, q) =>
      assert q == found - listed <==> forall l :: l in q <==> l in found && l !in listed;
    case Stale(_, q) =>
      assert q == listed - found <==> forall l :: l in q <==> l in listed && l !in found;
    case _ =>
  }

  /** What the census comparison reports, by class: exactly the locators nobody lists, and those no longer there. */
  lemma CensusReportIff(entries: seq<Entry>, discovered: Census, x: Problem)
    requires forall k :: Closed(k) ==> k in discovered
    ensures x in CensusProblems(discovered, entries, KINDS) <==> CensusReport(entries, discovered, x)
  {
    KindsAreClosed();
    CensusReports(entries, discovered, KINDS, x);
  }

  /** What each rule says of one entry that has a class. */
  ghost predicate RuleBroken(e: Entry, inventoried: set<string>, qualified: bool, x: Problem) {
    match x
    case BadLocators =>
      e.locators == [] || !StrictlySorted(e.locators) || exists i :: 0 <= i < |e.locators| && '#' !in e.locators[i]
    case DuplicateLocators(q) => q != {} && forall l :: l in q <==> l in inventoried && l in e.locators
    case DispositionNotClosed => e.disposition == NoDisposition
    case ModeNotClosed => e.mode == NoMode
    case AuthoritiesUnsorted => !(StrictlySorted(e.required) && StrictlySorted(e.forbidden))
    case AuthoritiesMissing => (e.mode == Removed || e.mode == Delegated) && (e.required == [] || e.forbidden == [])
    case ModeNeedsMigrated => (e.mode == Removed || e.mode == Delegated) && e.disposition != Migrated
    case MigratedNeedsMode => e.disposition == Migrated && e.mode != Removed && e.mode != Delegated
    case RetainedClaimsAuthority => e.mode == RetainedMode && !(e.required == [] && e.forbidden == [])
    case MigratedUnqualified => e.disposition == Migrated && !(qualified && e.evidencePasses)
    case ModeUnqualified => (e.mode == Removed || e.mode == Delegated) && !(qualified && e.evidencePasses)
    case EvidenceOnUnmigrated => (e.disposition == Retained || e.disposition == Blocked) && e.evidenceAttached
    case _ => false
  }

  lemma {:induction false} InCollect(checks: seq<(bool, Problem)>, x: Problem)
    ensures x in Collect(checks) <==> exists i :: 0 <= i < |checks| && checks[i] == (true, x)
  {
    if checks != [] {
      InCollect(checks[1..], x);
      assert forall i :: 0 < i < |checks| ==> checks[i] == checks[1..][i - 1];
      if checks[0] == (true, x) {
        assert x in Collect(checks);
      }
      if i :| 0 <= i < |checks[1..]| && checks[1..][i] == (true, x) {
        assert checks[i + 1] == (true, x);
      }
    }
  }

  lemma LocatorsReport(e: Entry, inventoried: set<string>, qualified: bool, x: Problem)
    ensures x in Collect(LocatorChecks(e, inventoried))
       <==> (x.BadLocators? || x.DuplicateLocators?) && RuleBroken(e, inventoried, qualified, x)
  {
    var c := LocatorChecks(e, inventoried);
    InCollect(c, x);
    assert x in Collect(c) <==> c[0] == (true, x) || c[1] == (true, x);
    if x.DuplicateLocators? && RuleBroken(e, inventoried, qualified, x) {
      assert x.overlap == inventoried * SetOf(e.locators);
    }
  }

  predicate OfRules(x: Problem) {
    || x.DispositionNotClosed? || x.ModeNotClosed? || x.AuthoritiesUnsorted? || x.AuthoritiesMissing?
    || x.ModeNeedsMigrated? || x.MigratedNeedsMode? || x.RetainedClaimsAuthority?
  }

  predicate OfEvidence(x: Problem) {
    x.MigratedUnqualified? || x.ModeUnqualified? || x.EvidenceOnUnmigrated?
  }

  lemma RulesReport(e: Entry, inventoried: set<string>, qualified: bool, x: Problem)
    ensures x in Collect(RuleChecks(e)) <==> OfRules(x) && RuleBroken(e, inventoried, qualified, x)
  {
    var c := RuleChecks(e);
    InCollect(c, x);
    if OfRules(x) {
      var k := PlaceOf(x);
      RuleAtPlace(e, inventoried, qualified, x);
      assert c[k] == (true, x) <==> RuleBroken(e, inventoried, qualified, x);
    }
  }

  lemma RuleAtPlace(e: Entry, inventoried: set<string>, qualified: bool, x: Problem)
    requires OfRules(x)
    ensures var c, k := RuleChecks(e), PlaceOf(x);
      && c[k].1 == x && (forall i :: 0 <= i < |c| && c[i].1 == x ==> i == k)
      && (c[k].0 <==> RuleBroken(e, inventoried, qualified, x))
  {}

  function PlaceOf(x: Problem): (k: nat)
    requires OfRules(x)
    ensures k < 7
  {
    match x
    case DispositionNotClosed => 0
    case ModeNotClosed => 1
    case AuthoritiesUnsorted => 2
    case AuthoritiesMissing => 3
    case ModeNeedsMigrated => 4
    case MigratedNeedsMode => 5
    case RetainedClaimsAuthority => 6
  }

  lemma EvidenceReport(e: Entry, inventoried: set<string>, qualified: bool, x: Problem)
    ensures x in Collect(EvidenceChecks(e, qualified)) <==> OfEvidence(x) && RuleBroken(e, inventoried, qualified, x)
  {
    var c := EvidenceChecks(e, qualified);
    InCollect(c, x);
    assert x in Collect(c) <==> c[0] == (true, x) || c[1] == (true, x) || c[2] == (true, x);
  }

  /** An entry with a class is reported for exactly the rules it breaks. */
  lemma ClassReportIff(e: Entry, inventoried: set<string>, qualified: bool, x: Problem)
    requires Closed(e.kind) && !x.Other?
    ensures x in ClassProblems(e, inventoried, qualified) <==> RuleBroken(e, inventoried, qualified, x)
  {
    LocatorsReport(e, inventoried, qualified, x);
    RulesReport(e, inventoried, qualified, x);
    EvidenceReport(e, inventoried, qualified, x);
    assert x !in Others(e.pathProblems) && x !in Others(e.proofProblems);
  }

  /** The id and the replacement of an entry: what is said of them, given the ids of the entries before it. */
  lemma HeadReportIff(e: Entry, seen: set<string>, x: Problem)
    requires !x.Other?
    ensures x in HeadProblems(e, seen) <==>
      || (x.BadId? && !e.id.Named?)
      || (x.DuplicateId? && e.id == Named(x.id) && x.id in seen)
      || (x.BadReplacement? && e.replacement == None)
  {
    InCollect(IdChecks(e, seen), x);
    assert x !in Others(e.keyProblems) && x !in Others(e.doorProblems);
    assert x in Collect(IdChecks(e, seen)) <==> IdChecks(e, seen)[0] == (true, x);
  }
}
