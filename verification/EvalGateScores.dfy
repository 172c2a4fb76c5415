/** The verdict of the gate in whole numbers. */
module EvalGateScores {
  import opened Common
  import opened EvalGate
  import opened EvalGateLaws

  /** The baseline's questions with that verdict in this run. */
  function NowIds(bl: map<string, Verdicts>, results: seq<Record>, d: Dim, v: Verdict): set<string> {
    set r | r in results && r.id in bl && At(r.verdicts, d) == v :: r.id
  }

  /** Some question that passed in the baseline has verdict v in dimension d of this run. */
  ghost predicate PassTurned(bl: map<string, Verdicts>, results: seq<Record>, d: Dim, v: Verdict) {
    exists r :: r in results && r.id in bl && At(bl[r.id], d) == Pass && At(r.verdicts, d) == v
  }

  ghost predicate AnyPassTurned(bl: map<string, Verdicts>, results: seq<Record>, v: Verdict) {
    exists d :: PassTurned(bl, results, d, v)
  }

  /** No evidence is lost in the dimension, and the share of passes falls by more than 1e-9. */
  ghost predicate DimFails(bl: map<string, Verdicts>, results: seq<Record>, d: Dim) {
    var p, f := |Ids(bl, d, Pass)|, |Ids(bl, d, Fail)|;
    var q, g := |NowIds(bl, results, d, Pass)|, |NowIds(bl, results, d, Fail)|;
    p + f > 0 && q + g > 0 && FallsBeyond(p, f, q, g) && !PassTurned(bl, results, d, Unavailable)
  }

  ghost predicate AnyDimFails(bl: map<string, Verdicts>, results: seq<Record>) {
    exists d :: DimFails(bl, results, d)
  }

  lemma RecordOf(results: seq<Record>, r: Record)
    requires UniqueIds(results) && r in results
    ensures r.id in ById(results) && ById(results)[r.id] == r.verdicts
  {
    ByIdMembers(results);
  }

  lemma RecordFor(results: seq<Record>, id: string) returns (r: Record)
    requires UniqueIds(results) && id in ById(results)
    ensures r in results && r.id == id && r.verdicts == ById(results)[id]
  {
    ByIdMembers(results);
    var i :| 0 <= i < |results| && results[i].id == id;
    r := results[i];
  }

  lemma NowIdsAre(bl: map<string, Verdicts>, results: seq<Record>, d: Dim, v: Verdict)
    requires UniqueIds(results)
    ensures NowIds(bl, results, d, v) == Ids(Restricted(bl, ById(results)), d, v)
  {
    forall id ensures id in NowIds(bl, results, d, v) <==> id in Ids(Restricted(bl, ById(results)), d, v) {
      if id in ById(results) {
        var r := RecordFor(results, id);
      }
      if id in NowIds(bl, results, d, v) {
        var r :| r in results && r.id in bl && At(r.verdicts, d) == v && r.id == id;
        RecordOf(results, r);
      }
    }
  }

  lemma TurnedIff(bl: map<string, Verdicts>, results: seq<Record>, v: Verdict)
    requires UniqueIds(results)
    ensures AnyPassTurned(bl, results, v) <==> PassBecame(bl, ById(results), v)
  {
    if AnyPassTurned(bl, results, v) {
      var d :| PassTurned(bl, results, d, v);
      var r :| r in results && r.id in bl && At(bl[r.id], d) == Pass && At(r.verdicts, d) == v;
      RecordOf(results, r);
      assert PassBecameAt(bl, ById(results), r.id, d, v);
    }
    if PassBecame(bl, ById(results), v) {
      var id, d :| PassBecameAt(bl, ById(results), id, d, v);
      var r := RecordFor(results, id);
      assert PassTurned(bl, results, d, v);
    }
  }

  lemma AvailableIff(bl: map<string, Verdicts>, results: seq<Record>, d: Dim)
    ensures NoneUnavailable(bl, Known(bl, results), d) <==> !PassTurned(bl, results, d, Unavailable)
  {
    KnownMembers(bl, results);
  }

  lemma WhereIsNow(bl: map<string, Verdicts>, results: seq<Record>, d: Dim, v: Verdict)
    requires UniqueIds(results)
    ensures |Where(Known(bl, results), d, v)| == |NowIds(bl, results, d, v)|
  {
    NowIdsAre(bl, results, d, v);
    TalliesCountQuestions(bl, results, d, v);
    CountIsWhere(Known(bl, results), d, v);
  }

  lemma DimFailsIff(b: Baseline, results: seq<Record>, d: Dim)
    requires UniqueIds(results) && ScoresMatch(b)
    ensures ScoreDrops(b, Known(b.questions, results), d) <==> DimFails(b.questions, results, d)
  {
    var bl, known := b.questions, Known(b.questions, results);
    DropsIff(b, known, d);
    AvailableIff(bl, results, d);
    WhereIsNow(bl, results, d, Pass);
    WhereIsNow(bl, results, d, Fail);
    var p, f := |Ids(bl, d, Pass)|, |Ids(bl, d, Fail)|;
    var q, g := |NowIds(bl, results, d, Pass)|, |NowIds(bl, results, d, Fail)|;
    ShareFalls(ScoreAt(b.summary, d), p, f, q, g);
  }

  lemma ShareFalls(score: Option<real>, p: nat, f: nat, q: nat, g: nat)
    requires IsShare(score, p, f)
    ensures q + g > 0 && score.Some? && q as real / (q + g) as real < score.value - 0.000000001
       <==> p + f > 0 && q + g > 0 && FallsBeyond(p, f, q, g)
  {
    if p + f > 0 && q + g > 0 {
      FallInIntegers(p, f, q, g);
    }
  }

  lemma AnyDimFailsIff(b: Baseline, results: seq<Record>)
    requires UniqueIds(results) && ScoresMatch(b)
    ensures AnyDrop(b, Known(b.questions, results)) <==> AnyDimFails(b.questions, results)
  {
    AllDims();
    forall d ensures ScoreDrops(b, Known(b.questions, results), d) <==> DimFails(b.questions, results, d) {
      DimFailsIff(b, results, d);
    }
  }

  /**
   * The verdict of every run with distinct ids: FAIL exactly when a PASS turned FAIL or, in a dimension that lost no
   * evidence, the share of passes fell by more than 1e-9; else UNVERIFIABLE exactly when a PASS lost its evidence.
   */
  lemma GateVerdictIs(b: Baseline, results: seq<Record>)
    requires UniqueIds(results) && ScoresMatch(b)
    ensures GateVerdict(b, results) ==
      if AnyPassTurned(b.questions, results, Fail) || AnyDimFails(b.questions, results) then GateFail
      else if AnyPassTurned(b.questions, results, Unavailable) then Unverifiable
      else GatePass
  {
    VerdictIff(b, results);
    TurnedIff(b.questions, results, Fail);
    TurnedIff(b.questions, results, Unavailable);
    AnyDimFailsIff(b, results);
  }

  /** The share of passes falls at all. */
  ghost predicate StrictDrop(bl: map<string, Verdicts>, results: seq<Record>, d: Dim) {
    var p, f := |Ids(bl, d, Pass)|, |Ids(bl, d, Fail)|;
    var q, g := |NowIds(bl, results, d, Pass)|, |NowIds(bl, results, d, Fail)|;
    q + g > 0 && q * (p + f) < p * (q + g)
  }

  lemma SmallDrop(p: nat, f: nat, q: nat, g: nat)
    requires p + f <= 10_000 && q + g <= 10_000 && q * (p + f) < p * (q + g)
    ensures p + f > 0 && FallsBeyond(p, f, q, g)
  {
    MulBound(p + f, q + g, 10_000);
    assert p == 0 ==> p * (q + g) == 0;
    FewBeyond(p * (q + g), q * (p + f), (p + f) * (q + g));
  }

  lemma MulBound(a: nat, b: nat, m: nat)
    requires a <= m && b <= m
    ensures a * b <= m * m
  {
    assert a * b <= a * m <= m * m;
  }

  lemma FewBeyond(x: int, y: int, z: int)
    requires y < x && z <= 10_000 * 10_000
    ensures 1_000_000_000 * (x - y) > z
  {}

  lemma BeyondIsStrict(p: nat, f: nat, q: nat, g: nat)
    requires FallsBeyond(p, f, q, g)
    ensures q * (p + f) < p * (q + g)
  {
    NoneBeyond(p * (q + g), q * (p + f), (p + f) * (q + g));
  }

  lemma NoneBeyond(x: int, y: int, z: int)
    requires z >= 0 && 1_000_000_000 * (x - y) > z
    ensures y < x
  {}

  /** With at most ten thousand scored questions the tolerance hides nothing: any fall of a score fails the gate. */
  lemma AnyFallFails(b: Baseline, results: seq<Record>, d: Dim)
    requires UniqueIds(results) && ScoresMatch(b)
    requires |Ids(b.questions, d, Pass)| + |Ids(b.questions, d, Fail)| <= 10_000
    requires |NowIds(b.questions, results, d, Pass)| + |NowIds(b.questions, results, d, Fail)| <= 10_000
    requires StrictDrop(b.questions, results, d) && !PassTurned(b.questions, results, d, Unavailable)
    ensures GateVerdict(b, results) == GateFail
  {
    SmallDrop(|Ids(b.questions, d, Pass)|, |Ids(b.questions, d, Fail)|,
              |NowIds(b.questions, results, d, Pass)|, |NowIds(b.questions, results, d, Fail)|);
    assert DimFails(b.questions, results, d);
    GateVerdictIs(b, results);
  }

  lemma FailsFalls(bl: map<string, Verdicts>, results: seq<Record>, d: Dim)
    ensures DimFails(bl, results, d) ==> StrictDrop(bl, results, d)
  {
    if DimFails(bl, results, d) {
      BeyondIsStrict(|Ids(bl, d, Pass)|, |Ids(bl, d, Fail)|,
                     |NowIds(bl, results, d, Pass)|, |NowIds(bl, results, d, Fail)|);
    }
  }

  /** And a run in which no score falls and no PASS turned FAIL does not fail it, however many questions it has. */
  lemma NoFallNoFail(b: Baseline, results: seq<Record>)
    requires UniqueIds(results) && ScoresMatch(b) && !AnyPassTurned(b.questions, results, Fail)
    requires forall d :: !StrictDrop(b.questions, results, d)
    ensures GateVerdict(b, results) != GateFail
  {
    GateVerdictIs(b, results);
    forall d ensures !DimFails(b.questions, results, d) {
      FailsFalls(b.questions, results, d);
    }
  }

  // ---- A baseline ----

  /** A recorded question has the verdicts of its last record. */
  lemma {:induction false} LastRecordCounts(results: seq<Record>, i: nat)
    requires i < |results| && forall j :: i < j < |results| ==> results[j].id != results[i].id
    ensures results[i].id in ById(results) && ById(results)[results[i].id] == results[i].verdicts
  {
    if i < |results| - 1 {
      LastRecordCounts(results[..|results| - 1], i);
    }
  }

  lemma {:induction false} OnlyRecordedIds(results: seq<Record>, id: string)
    ensures id in ById(results) <==> Occurs(results, id)
  {
    if results != [] {
      var before, last := results[..|results| - 1], results[|results| - 1];
      OnlyRecordedIds(before, id);
      assert results == before + [last];
      OccursSnoc(before, last, id);
    }
  }
}
