/** What the regression gate promises about runs, and where "a skip is never a regression" ends. */
module EvalGateLaws {
  import opened Common
  import opened EvalGate

  // ---- The verdict, without the order of the report ----

  /** What each kind of change is. */
  ghost predicate Became(was: Verdict, now: Verdict, c: Change) {
    match c
    case Regression => was == Pass && now == Fail
    case Progression => was != Pass && now == Pass
    case SkipWasPass => was == Pass && now == Skipped
    case EvidenceUnavailable => was == Pass && now == Unavailable
    case NoChange =>
      if was == Pass then now != Fail && now != Skipped && now != Unavailable else now != Pass
  }

  ghost predicate ChangeAt(bl: map<string, Verdicts>, current: map<string, Verdicts>, id: string, d: Dim, c: Change) {
    id in bl && id in current && Became(At(bl[id], d), At(current[id], d), c)
  }

  ghost predicate ChangedIn(bl: map<string, Verdicts>, current: map<string, Verdicts>, id: string, c: Change) {
    exists d :: ChangeAt(bl, current, id, d, c)
  }

  ghost predicate Changed(bl: map<string, Verdicts>, current: map<string, Verdicts>, c: Change) {
    exists id :: ChangedIn(bl, current, id, c)
  }

  lemma AllDims()
    ensures forall d :: d in DIMS
  {
    forall d ensures d in DIMS {
      match d
      case Accuracy => assert DIMS[0] == d;
      case Citations => assert DIMS[1] == d;
      case Adherence => assert DIMS[2] == d;
    }
  }

  lemma {:induction false} DimsHave(bl: map<string, Verdicts>, current: map<string, Verdicts>, id: string,
                                    dims: seq<Dim>, c: Change)
    requires !c.NoChange? && id in bl && id in current
    ensures Has(DimFindings(id, bl[id], current[id], dims), c)
       <==> exists d :: d in dims && ChangeAt(bl, current, id, d, c)
  {
    if dims != [] {
      var d := dims[0];
      DimsHave(bl, current, id, dims[1..], c);
      var mine := DimFinding(id, d, At(bl[id], d), At(current[id], d));
      HasAppended(mine, DimFindings(id, bl[id], current[id], dims[1..]), c);
      assert Has(mine, c) <==> ChangeAt(bl, current, id, d, c);
      assert forall x :: x in dims <==> x == d || x in dims[1..];
    }
  }

  lemma QuestionHas(bl: map<string, Verdicts>, current: map<string, Verdicts>, id: string, c: Change)
    requires !c.NoChange?
    ensures Has(OneQuestion(bl, current, id), c) <==> ChangedIn(bl, current, id, c)
  {
    if id in bl && id in current {
      DimsHave(bl, current, id, DIMS, c);
      AllDims();
    }
  }

  lemma {:induction false} QuestionsHave(bl: map<string, Verdicts>, current: map<string, Verdicts>, order: seq<string>,
                                         c: Change)
    requires !c.NoChange?
    ensures Has(QuestionFindings(bl, current, order), c) <==> exists id :: id in order && ChangedIn(bl, current, id, c)
  {
    if order != [] {
      var id := order[0];
      QuestionsHave(bl, current, order[1..], c);
      QuestionHas(bl, current, id, c);
      HasAppended(OneQuestion(bl, current, id), QuestionFindings(bl, current, order[1..]), c);
      assert forall x :: x in order <==> x == id || x in order[1..];
    }
  }

  /** FAIL is a PASS that became FAIL or a dropped score; UNVERIFIABLE, failing that, is lost evidence. */
  lemma VerdictIs(b: Baseline, results: seq<Record>)
    ensures var current := ById(results); var drop := AnyDrop(b, Known(b.questions, results));
            GateVerdict(b, results) ==
              if Changed(b.questions, current, Regression) || drop then GateFail
              else if Changed(b.questions, current, EvidenceUnavailable) then Unverifiable
              else GatePass
  {
    var order := Alphabetical(b.questions.Keys);
    QuestionsHave(b.questions, ById(results), order, Regression);
    QuestionsHave(b.questions, ById(results), order, EvidenceUnavailable);
    assert forall id :: id in order <==> id in b.questions;
  }

  ghost predicate PassBecameAt(bl: map<string, Verdicts>, current: map<string, Verdicts>, id: string, d: Dim,
                               v: Verdict) {
    id in bl && id in current && At(bl[id], d).Pass? && At(current[id], d) == v
  }

  /** Some baseline question that passed in a dimension now has verdict v there. */
  ghost predicate PassBecame(bl: map<string, Verdicts>, current: map<string, Verdicts>, v: Verdict) {
    exists id, d :: PassBecameAt(bl, current, id, d, v)
  }

  lemma ChangedMeans(bl: map<string, Verdicts>, current: map<string, Verdicts>, c: Change, v: Verdict)
    requires (c.Regression? && v.Fail?) || (c.EvidenceUnavailable? && v.Unavailable?) || (c.SkipWasPass? && v.Skipped?)
    ensures Changed(bl, current, c) <==> PassBecame(bl, current, v)
  {
    if Changed(bl, current, c) {
      var id :| ChangedIn(bl, current, id, c);
      var d :| ChangeAt(bl, current, id, d, c);
      assert PassBecameAt(bl, current, id, d, v);
    }
    if PassBecame(bl, current, v) {
      var id, d :| PassBecameAt(bl, current, id, d, v);
      assert ChangeAt(bl, current, id, d, c);
      assert ChangedIn(bl, current, id, c);
    }
  }

  /** The verdict in the baseline's own terms: only PASS to FAIL, a dropped score and lost evidence decide it. */
  lemma VerdictIff(b: Baseline, results: seq<Record>)
    ensures var current := ById(results); var drop := AnyDrop(b, Known(b.questions, results));
            && (GateVerdict(b, results) == GateFail <==> PassBecame(b.questions, current, Fail) || drop)
            && (GateVerdict(b, results) == Unverifiable <==>
                  !PassBecame(b.questions, current, Fail) && !drop && PassBecame(b.questions, current, Unavailable))
  {
    VerdictIs(b, results);
    ChangedMeans(b.questions, ById(results), Regression, Fail);
    ChangedMeans(b.questions, ById(results), EvidenceUnavailable, Unavailable);
  }

  // ---- What is reported ----

  ghost predicate Reportable(bl: map<string, Verdicts>, current: map<string, Verdicts>, x: Finding) {
    match x
    case Finding(id, d, c) => !c.NoChange? && ChangeAt(bl, current, id, d, c)
    case MissingFromRun(id) => id in bl && id !in current
  }

  lemma {:induction false} ReportedInDims(bl: map<string, Verdicts>, current: map<string, Verdicts>, id: string,
                                          dims: seq<Dim>, x: Finding)
    requires id in bl && id in current
    ensures x in DimFindings(id, bl[id], current[id], dims)
       <==> x.Finding? && x.id == id && x.dim in dims && Reportable(bl, current, x)
  {
    if dims != [] {
      ReportedInDims(bl, current, id, dims[1..], x);
      var d := dims[0];
      assert x in DimFinding(id, d, At(bl[id], d), At(current[id], d))
        <==> x.Finding? && x.id == id && x.dim == d && Reportable(bl, current, x);
      assert x.Finding? ==> (x.dim in dims <==> x.dim == d || x.dim in dims[1..]);
    }
  }

  lemma {:induction false} ReportedIn(bl: map<string, Verdicts>, current: map<string, Verdicts>, order: seq<string>,
                                      x: Finding)
    ensures x in QuestionFindings(bl, current, order) <==> x.id in order && Reportable(bl, current, x)
  {
    if order != [] {
      ReportedIn(bl, current, order[1..], x);
      var id := order[0];
      if id in bl && id in current {
        ReportedInDims(bl, current, id, DIMS, x);
        AllDims();
      }
      assert x in OneQuestion(bl, current, id) <==> x.id == id && Reportable(bl, current, x);
      assert x.id in order <==> x.id == id || x.id in order[1..];
    }
  }

  /** A finding is reported exactly when that question's verdict changed that way, or the question is missing. */
  lemma ReportIff(b: Baseline, results: seq<Record>, x: Finding)
    ensures x in Findings(b, results) <==> Reportable(b.questions, ById(results), x)
  {
    ReportedIn(b.questions, ById(results), Alphabetical(b.questions.Keys), x);
  }

  ghost predicate Occurs(results: seq<Record>, id: string) {
    exists i :: 0 <= i < |results| && results[i].id == id
  }

  lemma OccursSnoc(before: seq<Record>, last: Record, id: string)
    ensures Occurs(before + [last], id) <==> id == last.id || Occurs(before, id)
  {
    var all := before + [last];
    assert all[|before|].id == last.id;
    if Occurs(before, id) {
      var i :| 0 <= i < |before| && before[i].id == id;
      assert all[i].id == id;
    }
  }

  /** The new questions are the ids of the run that the baseline does not know, each once. */
  lemma {:induction false} NewIdsAre(bl: map<string, Verdicts>, results: seq<Record>, id: string)
    ensures id in NewIds(bl, results) <==> id !in bl && Occurs(results, id)
    ensures Distinct(NewIds(bl, results))
  {
    if results != [] {
      var before, last := results[..|results| - 1], results[|results| - 1];
      NewIdsAre(bl, before, id);
      NewIdsAre(bl, before, last.id);
      assert results == before + [last];
      OccursSnoc(before, last, id);
    }
  }

  lemma {:induction false} WarnedIn(b: Baseline, known: seq<Record>, dims: seq<Dim>, x: ScoreWarning)
    ensures x in ScoreWarnings(b, known, dims) <==> x.dim in dims && x in WarningsFor(b, known, x.dim)
  {
    if dims != [] {
      var rest, last := dims[..|dims| - 1], dims[|dims| - 1];
      WarnedIn(b, known, rest, x);
      assert dims == rest + [last];
    }
  }

  /** The records with verdict v in dimension d. */
  function Where(known: seq<Record>, d: Dim, v: Verdict): set<nat> {
    set i | 0 <= i < |known| && At(known[i].verdicts, d) == v
  }

  /** A record of a question that passed in the baseline and is skipped or unavailable now. */
  predicate LosesPass(bl: map<string, Verdicts>, r: Record, d: Dim) {
    && r.id in bl && At(bl[r.id], d) == Pass
    && (At(r.verdicts, d) == Skipped || At(r.verdicts, d) == Unavailable)
  }

  function LostAt(bl: map<string, Verdicts>, known: seq<Record>, d: Dim): set<nat> {
    set i | 0 <= i < |known| && LosesPass(bl, known[i], d)
  }

  /** A set of indices that grows by n, or does not. */
  lemma GrowsBy(before: set<nat>, all: set<nat>, n: nat, more: bool)
    requires n !in before && forall i :: i in all <==> i in before || (more && i == n)
    ensures |all| == |before| + if more then 1 else 0
  {
    assert all == if more then before + {n} else before;
  }

  lemma {:induction false} CountIsWhere(known: seq<Record>, d: Dim, v: Verdict)
    ensures Count(known, d, v) == |Where(known, d, v)|
  {
    if known == [] {
      assert Where(known, d, v) == {};
    } else {
      var n := |known| - 1;
      CountIsWhere(known[..n], d, v);
      GrowsBy(Where(known[..n], d, v), Where(known, d, v), n, At(known[n].verdicts, d) == v);
    }
  }

  lemma {:induction false} LostCountIsLostAt(bl: map<string, Verdicts>, known: seq<Record>, d: Dim)
    ensures LostCount(bl, known, d) == |LostAt(bl, known, d)|
  {
    if known == [] {
      assert LostAt(bl, known, d) == {};
    } else {
      var n := |known| - 1;
      LostCountIsLostAt(bl, known[..n], d);
      GrowsBy(LostAt(bl, known[..n], d), LostAt(bl, known, d), n, LosesPass(bl, known[n], d));
    }
  }

  /** The share of passes among the scored records lies more than 1e-9 below the recorded score. */
  ghost predicate Fell(b: Baseline, known: seq<Record>, d: Dim) {
    var passes, fails := |Where(known, d, Pass)|, |Where(known, d, Fail)|;
    && passes + fails > 0 && ScoreAt(b.summary, d).Some?
    && passes as real / (passes + fails) as real < ScoreAt(b.summary, d).value - 0.000000001
  }

  ghost predicate NoneUnavailable(bl: map<string, Verdicts>, known: seq<Record>, d: Dim) {
    forall r :: r in known && r.id in bl && At(bl[r.id], d) == Pass ==> At(r.verdicts, d) != Unavailable
  }

  lemma DropsIff(b: Baseline, known: seq<Record>, d: Dim)
    ensures ScoreDrops(b, known, d) <==> Fell(b, known, d) && NoneUnavailable(b.questions, known, d)
  {
    CountIsWhere(known, d, Pass);
    CountIsWhere(known, d, Fail);
    if !EvidenceLost(b.questions, known, d) {
      forall r | r in known && r.id in b.questions && At(b.questions[r.id], d) == Pass
        ensures At(r.verdicts, d) != Unavailable
      {
        var i :| 0 <= i < |known| && known[i] == r;
      }
    }
  }

  ghost predicate Warnable(b: Baseline, known: seq<Record>, x: ScoreWarning) {
    match x
    case ScoreDrop(d) => Fell(b, known, d) && NoneUnavailable(b.questions, known, d)
    case ReducedDenominator(d, scored, lost) =>
      && ScoreAt(b.summary, d).Some? && lost == |LostAt(b.questions, known, d)| > 0
      && scored == |Where(known, d, Pass)| + |Where(known, d, Fail)|
  }

  /**
   * A dropped score is reported exactly when it drops; a reduced denominator exactly when passes lost their evidence.
   */
  lemma WarnedIff(b: Baseline, known: seq<Record>, x: ScoreWarning)
    ensures x in ScoreWarnings(b, known, DIMS) <==> Warnable(b, known, x)
  {
    WarnedIn(b, known, DIMS, x);
    AllDims();
    DropsIff(b, known, x.dim);
    LostCountIsLostAt(b.questions, known, x.dim);
    CountIsWhere(known, x.dim, Pass);
    CountIsWhere(known, x.dim, Fail);
  }

  // ---- Questions the baseline does not know ----

  function Restricted(bl: map<string, Verdicts>, current: map<string, Verdicts>): map<string, Verdicts> {
    map id | id in current && id in bl :: current[id]
  }

  lemma {:induction false} KnownDecides(bl: map<string, Verdicts>, results: seq<Record>)
    ensures ById(Known(bl, results)) == Restricted(bl, ById(results))
  {
    if results != [] {
      var before, last := results[..|results| - 1], results[|results| - 1];
      KnownDecides(bl, before);
      var k := Known(bl, before);
      if last.id in bl {
        assert Known(bl, results) == k + [last];
        assert (k + [last])[..|k|] == k;
        assert ById(k + [last]) == ById(k)[last.id := last.verdicts];
      } else {
        assert Known(bl, results) == k + [] == k;
      }
    }
  }

  lemma {:induction false} SameFindings(bl: map<string, Verdicts>, x: map<string, Verdicts>, y: map<string, Verdicts>,
                                        order: seq<string>)
    requires Restricted(bl, x) == Restricted(bl, y)
    ensures QuestionFindings(bl, x, order) == QuestionFindings(bl, y, order)
  {
    if order != [] {
      SameFindings(bl, x, y, order[1..]);
      var id := order[0];
      assert id in bl ==> (id in x <==> id in Restricted(bl, x)) && (id in y <==> id in Restricted(bl, y));
      assert OneQuestion(bl, x, id) == OneQuestion(bl, y, id);
    }
  }

  /** Two runs that agree on the baseline's questions get the same findings and the same verdict. */
  lemma UnknownQuestionsAreInert(b: Baseline, one: seq<Record>, two: seq<Record>)
    requires Known(b.questions, one) == Known(b.questions, two)
    ensures Findings(b, one) == Findings(b, two) && GateVerdict(b, one) == GateVerdict(b, two)
  {
    KnownDecides(b.questions, one);
    KnownDecides(b.questions, two);
    SameFindings(b.questions, ById(one), ById(two), Alphabetical(b.questions.Keys));
  }

  lemma {:induction false} KnownSkips(bl: map<string, Verdicts>, before: seq<Record>, added: Record, after: seq<Record>)
    requires added.id !in bl
    ensures Known(bl, before + [added] + after) == Known(bl, before + after)
    decreases |after|
  {
    if after == [] {
      assert before + [added] + after == before + [added] && before + after == before;
      assert (before + [added])[..|before|] == before;
    } else {
      var n := |after| - 1;
      KnownSkips(bl, before, added, after[..n]);
      var x, y := before + [added] + after, before + after;
      assert x[..|x| - 1] == before + [added] + after[..n] && y[..|y| - 1] == before + after[..n];
    }
  }

  /** Adding a question the baseline does not know, anywhere in the run, never changes the verdict. */
  lemma NewQuestionNeverDecides(b: Baseline, before: seq<Record>, added: Record, after: seq<Record>)
    requires added.id !in b.questions
    ensures GateVerdict(b, before + [added] + after) == GateVerdict(b, before + after)
  {
    KnownSkips(b.questions, before, added, after);
    UnknownQuestionsAreInert(b, before + [added] + after, before + after);
  }

  // ---- Counting questions instead of records ----

  ghost predicate UniqueIds(results: seq<Record>) {
    forall i, j :: 0 <= i < j < |results| ==> results[i].id != results[j].id
  }

  function Ids(m: map<string, Verdicts>, d: Dim, v: Verdict): set<string> {
    set id | id in m && At(m[id], d) == v
  }

  lemma {:induction false} ByIdMembers(results: seq<Record>)
    ensures forall id :: id in ById(results) ==> exists i :: 0 <= i < |results| && results[i].id == id
    ensures UniqueIds(results) ==> forall i :: 0 <= i < |results| ==>
      results[i].id in ById(results) && ById(results)[results[i].id] == results[i].verdicts
  {
    if results != [] {
      var before := results[..|results| - 1];
      ByIdMembers(before);
      forall id | id in ById(results) ensures exists i :: 0 <= i < |results| && results[i].id == id {
        if id in ById(before) {
          var i :| 0 <= i < |before| && before[i].id == id;
          assert results[i].id == id;
        } else {
          assert results[|results| - 1].id == id;
        }
      }
    }
  }

  lemma AddedId(m: map<string, Verdicts>, last: Record, d: Dim, v: Verdict)
    requires last.id !in m
    ensures |Ids(m[last.id := last.verdicts], d, v)| == |Ids(m, d, v)| + if At(last.verdicts, d) == v then 1 else 0
  {
    var now := Ids(m[last.id := last.verdicts], d, v);
    if At(last.verdicts, d) == v {
      assert now == Ids(m, d, v) + {last.id};
    } else {
      assert now == Ids(m, d, v);
    }
  }

  lemma {:induction false} CountIsSize(records: seq<Record>, d: Dim, v: Verdict)
    requires UniqueIds(records)
    ensures Count(records, d, v) == |Ids(ById(records), d, v)|
  {
    if records == [] {
      assert Ids(ById(records), d, v) == {};
    } else {
      var before := records[..|records| - 1];
      CountIsSize(before, d, v);
      ByIdMembers(before);
      AddedId(ById(before), records[|records| - 1], d, v);
    }
  }

  lemma {:induction false} KnownMembers(bl: map<string, Verdicts>, results: seq<Record>)
    ensures forall r :: r in Known(bl, results) <==> r in results && r.id in bl
  {
    if results != [] {
      var before, last := results[..|results| - 1], results[|results| - 1];
      KnownMembers(bl, before);
      assert results == before + [last];
    }
  }

  lemma {:induction false} KnownStaysUnique(bl: map<string, Verdicts>, results: seq<Record>)
    requires UniqueIds(results)
    ensures UniqueIds(Known(bl, results))
  {
    if results != [] {
      var before, last := results[..|results| - 1], results[|results| - 1];
      KnownStaysUnique(bl, before);
      KnownMembers(bl, before);
      var k := Known(bl, before);
      forall i | 0 <= i < |k| ensures k[i].id != last.id {
        assert k[i] in before;
      }
    }
  }

  /** The gate's tallies count the baseline questions of the run. */
  lemma TalliesCountQuestions(bl: map<string, Verdicts>, results: seq<Record>, d: Dim, v: Verdict)
    requires UniqueIds(results)
    ensures Count(Known(bl, results), d, v) == |Ids(Restricted(bl, ById(results)), d, v)|
  {
    KnownStaysUnique(bl, results);
    CountIsSize(Known(bl, results), d, v);
    KnownDecides(bl, results);
  }

  lemma LostMeansChanged(bl: map<string, Verdicts>, results: seq<Record>, d: Dim)
    requires UniqueIds(results) && EvidenceLost(bl, Known(bl, results), d)
    ensures exists id :: ChangeAt(bl, ById(results), id, d, EvidenceUnavailable)
  {
    KnownMembers(bl, results);
    ByIdMembers(results);
    var known := Known(bl, results);
    var k :| 0 <= k < |known| && known[k].id in bl && At(known[k].verdicts, d).Unavailable?
      && At(bl[known[k].id], d).Pass?;
    assert known[k] in results;
    assert ChangeAt(bl, ById(results), known[k].id, d, EvidenceUnavailable);
  }

  lemma ChangedMeansLost(bl: map<string, Verdicts>, results: seq<Record>, id: string, d: Dim)
    requires UniqueIds(results) && ChangeAt(bl, ById(results), id, d, EvidenceUnavailable)
    ensures EvidenceLost(bl, Known(bl, results), d)
  {
    KnownMembers(bl, results);
    ByIdMembers(results);
    var i :| 0 <= i < |results| && results[i].id == id;
    assert results[i] in Known(bl, results);
  }

  // ---- Ratios ----

  lemma ScaledQuotient(a: real, b: real)
    requires b > 0.0
    ensures (a / b) * b == a
  {}

  lemma CancelLe(x: real, y: real, z: real)
    requires z > 0.0 && x * z <= y * z
    ensures x <= y
  {}

  lemma CrossLe(p: nat, f: nat, passes: nat, fails: nat)
    requires p <= passes && fails <= f
    ensures p * (passes + fails) <= passes * (p + f)
  {
    calc {
      p * (passes + fails);
    ==
      p * passes + p * fails;
    <=
      p * passes + passes * f;
    ==
      passes * (p + f);
    }
  }

  lemma QuotientsScaled(a: real, b: real, c: real, d: real)
    requires b > 0.0 && d > 0.0
    ensures b * d > 0.0 && (a / b) * (b * d) == a * d && (c / d) * (b * d) == c * b
  {
    ScaledQuotient(a, b);
    ScaledQuotient(c, d);
    var x, y := a / b, c / d;
    assert x * (b * d) == (x * b) * d;
    assert y * (b * d) == (y * d) * b;
  }

  /** More passes and fewer fails never lower the score. */
  lemma RatioIsMonotone(p: nat, f: nat, passes: nat, fails: nat)
    requires p <= passes && fails <= f && p + f > 0 && passes + fails > 0
    ensures p as real / (p + f) as real <= passes as real / (passes + fails) as real
  {
    var a, b, c, d := p as real, (p + f) as real, passes as real, (passes + fails) as real;
    CrossLe(p, f, passes, fails);
    QuotientsScaled(a, b, c, d);
    CancelLe(a / b, c / d, b * d);
  }

  lemma CastProduct(a: int, b: int)
    ensures (a * b) as real == a as real * b as real
  {}

  lemma ScaleLess(x: real, y: real, z: real)
    requires z > 0.0
    ensures x < y <==> x * z < y * z
  {}

  /** q of q + g lies more than 1e-9 below p of p + f. */
  ghost predicate FallsBeyond(p: nat, f: nat, q: nat, g: nat) {
    1_000_000_000 * (p * (q + g) - q * (p + f)) > (p + f) * (q + g)
  }

  lemma FallInReals(a: real, b: real, c: real, d: real)
    requires b > 0.0 && d > 0.0
    ensures c / d < a / b - 0.000000001 <==> 1000000000.0 * (a * d - c * b) > b * d
  {
    QuotientsScaled(a, b, c, d);
    var x, y, z := a / b, c / d, b * d;
    ScaleLess(y, x - 0.000000001, z);
    assert (x - 0.000000001) * z == x * z - 0.000000001 * z;
  }

  lemma FallInIntegers(p: nat, f: nat, q: nat, g: nat)
    requires p + f > 0 && q + g > 0
    ensures q as real / (q + g) as real < p as real / (p + f) as real - 0.000000001 <==> FallsBeyond(p, f, q, g)
  {
    FallInReals(p as real, (p + f) as real, q as real, (q + g) as real);
    CastProduct(p, q + g);
    CastProduct(q, p + f);
    CastProduct(p + f, q + g);
  }

  // ---- Runs that only keep or improve ----

  /** The recorded scores are those of the recorded verdicts. */
  ghost predicate ScoresMatch(b: Baseline) {
    forall d :: IsShare(ScoreAt(b.summary, d), |Ids(b.questions, d, Pass)|, |Ids(b.questions, d, Fail)|)
  }

  /** The share of p passes and f fails, if there are any. */
  ghost predicate IsShare(score: Option<real>, p: nat, f: nat) {
    if p + f == 0 then score == None else score == Some(p as real / (p + f) as real)
  }

  /** No baseline question is missing, and each verdict is the recorded one or PASS. */
  ghost predicate KeptOrImproved(bl: map<string, Verdicts>, current: map<string, Verdicts>) {
    && bl.Keys <= current.Keys
    && forall id, d :: id in bl ==> At(current[id], d) == At(bl[id], d) || At(current[id], d).Pass?
  }

  lemma SubsetSize(a: set<string>, b: set<string>)
    requires a <= b
    ensures |a| <= |b|
  {
    assert b == a + (b - a);
  }

  lemma KeptOrImprovedDrops(b: Baseline, results: seq<Record>, d: Dim)
    requires UniqueIds(results) && ScoresMatch(b) && KeptOrImproved(b.questions, ById(results))
    ensures !ScoreDrops(b, Known(b.questions, results), d)
  {
    var now := Restricted(b.questions, ById(results));
    TalliesCountQuestions(b.questions, results, d, Pass);
    TalliesCountQuestions(b.questions, results, d, Fail);
    assert Ids(b.questions, d, Pass) <= Ids(now, d, Pass);
    assert Ids(now, d, Fail) <= Ids(b.questions, d, Fail);
    SubsetSize(Ids(b.questions, d, Pass), Ids(now, d, Pass));
    SubsetSize(Ids(now, d, Fail), Ids(b.questions, d, Fail));
    var p, f, passes, fails := |Ids(b.questions, d, Pass)|, |Ids(b.questions, d, Fail)|, |Ids(now, d, Pass)|,
                               |Ids(now, d, Fail)|;
    if p + f > 0 && passes + fails > 0 {
      RatioIsMonotone(p, f, passes, fails);
    }
  }

  /** A run that loses no question and no PASS passes the gate. */
  lemma KeptOrImprovedPasses(b: Baseline, results: seq<Record>)
    requires UniqueIds(results) && ScoresMatch(b) && KeptOrImproved(b.questions, ById(results))
    ensures GateVerdict(b, results) == GatePass
  {
    VerdictIs(b, results);
    KeptMeansUnchanged(b.questions, ById(results), Regression);
    KeptMeansUnchanged(b.questions, ById(results), EvidenceUnavailable);
    forall d ensures !ScoreDrops(b, Known(b.questions, results), d) {
      KeptOrImprovedDrops(b, results, d);
    }
  }

  lemma KeptMeansUnchanged(bl: map<string, Verdicts>, current: map<string, Verdicts>, c: Change)
    requires KeptOrImproved(bl, current) && (c.Regression? || c.EvidenceUnavailable?)
    ensures !Changed(bl, current, c)
  {
    forall id, d ensures !ChangeAt(bl, current, id, d, c) {
      if id in bl {
        assert At(current[id], d) == At(bl[id], d) || At(current[id], d).Pass?;
      }
    }
  }

  /** Without distinct ids that fails: a question recorded twice is tallied twice. */
  lemma RepeatedIdsCanFail()
    ensures exists b, results ::
      ScoresMatch(b) && KeptOrImproved(b.questions, ById(results)) && GateVerdict(b, results) == GateFail
  {
    var good, bad := Verdicts(Pass, Pass, Pass), Verdicts(Fail, Pass, Pass);
    var one, two := Record("a", good), Record("b", bad);
    var b := Baseline(map["a" := good, "b" := bad], Scores(Some(0.5), Some(1.0), Some(1.0)));
    var results := [one, two, two];
    RepeatedIdsTallies(b.questions, one, two);
    HalfAndHalf(b, good, bad);
    AllDims();
    assert ScoreDrops(b, Known(b.questions, results), Accuracy);
    VerdictIs(b, results);
    assert ScoresMatch(b) && KeptOrImproved(b.questions, ById(results)) && GateVerdict(b, results) == GateFail;
  }

  lemma RepeatedIdsTallies(bl: map<string, Verdicts>, one: Record, two: Record)
    requires one.id in bl && two.id in bl && one.id != two.id
    requires one.verdicts.accuracy.Pass? && two.verdicts.accuracy.Fail?
    ensures Known(bl, [one, two, two]) == [one, two, two]
    ensures Count([one, two, two], Accuracy, Pass) == 1 && Count([one, two, two], Accuracy, Fail) == 2
    ensures ById([one, two, two]) == map[one.id := one.verdicts, two.id := two.verdicts]
  {
    var all := [one, two, two];
    assert all[..2] == [one, two] && all[..2][..1] == [one] && all[..2][..1][..0] == [];
    assert Known(bl, [one]) == [one] && Known(bl, [one, two]) == [one, two];
    assert ById([one]) == map[one.id := one.verdicts];
    assert ById([one, two]) == map[one.id := one.verdicts, two.id := two.verdicts];
    assert Count([one], Accuracy, Pass) == 1 && Count([one], Accuracy, Fail) == 0;
    assert Count([one, two], Accuracy, Pass) == 1 && Count([one, two], Accuracy, Fail) == 1;
  }

  /** The scores a run reports are those of its own records. */
  ghost predicate HonestSummary(artifact: Artifact) {
    forall d ::
      IsShare(ScoreAt(artifact.summary, d), |Where(artifact.results, d, Pass)|, |Where(artifact.results, d, Fail)|)
  }

  lemma {:induction false} KnowsItself(bl: map<string, Verdicts>, results: seq<Record>)
    requires ById(results).Keys <= bl.Keys
    ensures Known(bl, results) == results
  {
    if results != [] {
      KnowsItself(bl, results[..|results| - 1]);
      assert results[|results| - 1].id in ById(results).Keys;
    }
  }

  /** A run compared with the baseline built from it passes, repeated ids included. */
  method BaselineThenCompare(artifact: Artifact) returns (verdict: Outcome)
    requires HonestSummary(artifact)
    ensures verdict == GatePass
  {
    var b := BuildBaseline(artifact);
    var findings, warnings, extra, drop;
    findings, warnings, extra, drop, verdict := CompareToBaseline(artifact, b);
    OwnBaselinePasses(artifact);
  }

  lemma OwnBaselinePasses(artifact: Artifact)
    requires HonestSummary(artifact)
    ensures GateVerdict(Baseline(ById(artifact.results), artifact.summary), artifact.results) == GatePass
  {
    var b := Baseline(ById(artifact.results), artifact.summary);
    KnowsItself(b.questions, artifact.results);
    VerdictIs(b, artifact.results);
    NothingChangesAgainstItself(b.questions, Regression);
    NothingChangesAgainstItself(b.questions, EvidenceUnavailable);
    forall d ensures !ScoreDrops(b, artifact.results, d) {
      OwnScoreStands(artifact, d);
    }
  }

  lemma NothingChangesAgainstItself(m: map<string, Verdicts>, c: Change)
    requires c.Regression? || c.EvidenceUnavailable?
    ensures !Changed(m, m, c)
  {
    forall id, d ensures !ChangeAt(m, m, id, d, c) {}
  }

  lemma OwnScoreStands(artifact: Artifact, d: Dim)
    requires HonestSummary(artifact)
    ensures !ScoreDrops(Baseline(ById(artifact.results), artifact.summary), artifact.results, d)
  {
    CountIsWhere(artifact.results, d, Pass);
    CountIsWhere(artifact.results, d, Fail);
    assert IsShare(ScoreAt(artifact.summary, d), |Where(artifact.results, d, Pass)|,
        |Where(artifact.results, d, Fail)|);
  }

  // ---- Runs that only lose evidence ----

  /** No question is missing, and each verdict is the recorded one, or a PASS whose evidence is unavailable. */
  ghost predicate OnlyUnavailable(bl: map<string, Verdicts>, current: map<string, Verdicts>) {
    && bl.Keys <= current.Keys
    && forall id, d :: id in bl ==>
       At(current[id], d) == At(bl[id], d) || (At(bl[id], d).Pass? && At(current[id], d).Unavailable?)
  }

  lemma UnavailableDrops(b: Baseline, results: seq<Record>, d: Dim)
    requires UniqueIds(results) && ScoresMatch(b) && OnlyUnavailable(b.questions, ById(results))
    ensures !ScoreDrops(b, Known(b.questions, results), d)
  {
    var now := Restricted(b.questions, ById(results));
    if !EvidenceLost(b.questions, Known(b.questions, results), d) {
      TalliesCountQuestions(b.questions, results, d, Pass);
      TalliesCountQuestions(b.questions, results, d, Fail);
      assert now.Keys == b.questions.Keys;
      forall id | id in b.questions ensures At(now[id], d) == At(b.questions[id], d) {
        if At(now[id], d) != At(b.questions[id], d) {
          ChangedMeansLost(b.questions, results, id, d);
        }
      }
      assert Ids(now, d, Pass) == Ids(b.questions, d, Pass) && Ids(now, d, Fail) == Ids(b.questions, d, Fail);
    }
  }

  /** An evidence outage alone is UNVERIFIABLE and never FAIL. */
  lemma OutageIsUnverifiable(b: Baseline, results: seq<Record>)
    requires UniqueIds(results) && ScoresMatch(b) && OnlyUnavailable(b.questions, ById(results))
    ensures GateVerdict(b, results)
         == if Changed(b.questions, ById(results), EvidenceUnavailable) then Unverifiable else GatePass
  {
    VerdictIs(b, results);
    OutageIsNoRegression(b.questions, ById(results));
    forall d ensures !ScoreDrops(b, Known(b.questions, results), d) {
      UnavailableDrops(b, results, d);
    }
  }

  lemma OutageIsNoRegression(bl: map<string, Verdicts>, current: map<string, Verdicts>)
    requires OnlyUnavailable(bl, current)
    ensures !Changed(bl, current, Regression)
  {
    forall id, d ensures !ChangeAt(bl, current, id, d, Regression) {
      if id in bl {
        assert At(current[id], d) == At(bl[id], d) || At(current[id], d).Unavailable?;
      }
    }
  }

  /** Each baseline question is missing, or each of its verdicts is the recorded one or skipped. */
  ghost predicate OnlySkipped(bl: map<string, Verdicts>, current: map<string, Verdicts>) {
    forall id, d :: id in bl && id in current ==> At(current[id], d) == At(bl[id], d) || At(current[id], d).Skipped?
  }

  /** The baseline questions with verdict v that this run skips or no longer has. */
  function Gone(bl: map<string, Verdicts>, current: map<string, Verdicts>, d: Dim, v: Verdict): set<string> {
    set id | id in bl && At(bl[id], d) == v && (id !in current || At(current[id], d) != v)
  }

  /** p passes and f fails recorded, of which k and j are gone: the score falls by more than 1e-9. */
  ghost predicate FallsTooFar(p: nat, f: nat, k: nat, j: nat)
    requires k <= p && j <= f
  {
    p - k + f - j > 0 && 1_000_000_000 * (k * f - p * j) > (p + f) * (p - k + f - j)
  }

  lemma GoneSizes(bl: map<string, Verdicts>, current: map<string, Verdicts>, d: Dim, v: Verdict)
    requires OnlySkipped(bl, current) && !v.Skipped?
    ensures |Gone(bl, current, d, v)| <= |Ids(bl, d, v)|
    ensures |Ids(Restricted(bl, current), d, v)| == |Ids(bl, d, v)| - |Gone(bl, current, d, v)|
  {
    var was, gone, now := Ids(bl, d, v), Gone(bl, current, d, v), Ids(Restricted(bl, current), d, v);
    assert was == now + gone && now !! gone;
  }

  ghost predicate SkipsDrop(bl: map<string, Verdicts>, current: map<string, Verdicts>, d: Dim)
    requires OnlySkipped(bl, current)
  {
    GoneSizes(bl, current, d, Pass);
    GoneSizes(bl, current, d, Fail);
    FallsTooFar(|Ids(bl, d, Pass)|, |Ids(bl, d, Fail)|, |Gone(bl, current, d, Pass)|, |Gone(bl, current, d, Fail)|)
  }

  ghost predicate SomeSkipDrops(bl: map<string, Verdicts>, current: map<string, Verdicts>)
    requires OnlySkipped(bl, current)
  {
    exists d :: SkipsDrop(bl, current, d)
  }

  lemma GoneDifference(p: nat, f: nat, k: nat, j: nat)
    requires k <= p && j <= f
    ensures p * (p - k + (f - j)) - (p - k) * (p + f) == k * f - p * j
  {
    assert p * (p - k + (f - j)) == p * p - p * k + p * f - p * j;
    assert (p - k) * (p + f) == p * p + p * f - k * p - k * f;
  }

  lemma FallsIff(p: nat, f: nat, k: nat, j: nat)
    requires k <= p && j <= f && p - k + f - j > 0
    ensures FallsTooFar(p, f, k, j)
       <==> (p - k) as real / (p - k + (f - j)) as real < p as real / (p + f) as real - 0.000000001
  {
    FallInIntegers(p, f, p - k, f - j);
    GoneDifference(p, f, k, j);
  }

  lemma NothingLost(b: Baseline, results: seq<Record>, d: Dim)
    requires UniqueIds(results) && OnlySkipped(b.questions, ById(results))
    ensures !EvidenceLost(b.questions, Known(b.questions, results), d)
  {
    if EvidenceLost(b.questions, Known(b.questions, results), d) {
      LostMeansChanged(b.questions, results, d);
    }
  }

  lemma SkippedDrops(b: Baseline, results: seq<Record>, d: Dim)
    requires UniqueIds(results) && ScoresMatch(b) && OnlySkipped(b.questions, ById(results))
    ensures ScoreDrops(b, Known(b.questions, results), d) <==> SkipsDrop(b.questions, ById(results), d)
  {
    var bl, current := b.questions, ById(results);
    NothingLost(b, results, d);
    TalliesCountQuestions(bl, results, d, Pass);
    TalliesCountQuestions(bl, results, d, Fail);
    GoneSizes(bl, current, d, Pass);
    GoneSizes(bl, current, d, Fail);
    var p, f, k, j := |Ids(bl, d, Pass)|, |Ids(bl, d, Fail)|, |Gone(bl, current, d, Pass)|,
        |Gone(bl, current, d, Fail)|;
    if p - k + f - j > 0 {
      FallsIff(p, f, k, j);
    }
  }

  lemma SkipsChangeNothingElse(bl: map<string, Verdicts>, current: map<string, Verdicts>, c: Change)
    requires OnlySkipped(bl, current) && (c.Regression? || c.EvidenceUnavailable?)
    ensures !Changed(bl, current, c)
  {
    forall id, d ensures !ChangeAt(bl, current, id, d, c) {
      if id in bl && id in current {
        assert At(current[id], d) == At(bl[id], d) || At(current[id], d).Skipped?;
      }
    }
  }

  /**
   * Skipped or missing questions alone fail the gate exactly when, in some dimension with p passes and f fails
   * recorded and k and j of them gone, something is still scored and (k*f - p*j) / ((p+f)*(p-k+f-j)) exceeds 1e-9.
   * Where no recorded FAIL is gone this is k*f / ((p+f)*(p-k+f)).
   */
  lemma SkipsFailIff(b: Baseline, results: seq<Record>)
    requires UniqueIds(results) && ScoresMatch(b) && OnlySkipped(b.questions, ById(results))
    ensures GateVerdict(b, results) == if SomeSkipDrops(b.questions, ById(results)) then GateFail else GatePass
  {
    VerdictIs(b, results);
    SkipsChangeNothingElse(b.questions, ById(results), Regression);
    SkipsChangeNothingElse(b.questions, ById(results), EvidenceUnavailable);
    DropIff(b, results);
  }

  lemma DropIff(b: Baseline, results: seq<Record>)
    requires UniqueIds(results) && ScoresMatch(b) && OnlySkipped(b.questions, ById(results))
    ensures AnyDrop(b, Known(b.questions, results)) <==> SomeSkipDrops(b.questions, ById(results))
  {
    AllDims();
    forall d ensures ScoreDrops(b, Known(b.questions, results), d) <==> SkipsDrop(b.questions, ById(results), d) {
      SkippedDrops(b, results, d);
    }
  }

  ghost predicate KeysKept(b: Baseline, results: seq<Record>) {
    b.questions.Keys <= ById(results).Keys
  }

  ghost predicate ComparableRun(b: Baseline, results: seq<Record>) {
    UniqueIds(results) && ScoresMatch(b) && KeysKept(b, results) && OnlySkipped(b.questions, ById(results))
  }

  /** One PASS skipped beside one recorded FAIL: the documented "a skip is never a regression" does not hold. */
  lemma OneSkipCanFail() returns (b: Baseline, results: seq<Record>)
    ensures ComparableRun(b, results) && GateVerdict(b, results) == GateFail
  {
    b, results := SkippedRun();
    DropFails(b, results, Accuracy);
  }

  lemma SkippedRun() returns (b: Baseline, results: seq<Record>)
    ensures ComparableRun(b, results) && SkipsDrop(b.questions, ById(results), Accuracy)
  {
    var good, bad, skipped := Verdicts(Pass, Pass, Pass), Verdicts(Fail, Pass, Pass), Verdicts(Skipped, Pass, Pass);
    b := Baseline(map["a" := good, "b" := bad], Scores(Some(0.5), Some(1.0), Some(1.0)));
    results := [Record("a", skipped), Record("b", bad)];
    TwoRecords(results[0], results[1]);
    HalfAndHalf(b, good, bad);
    SkipDropsHalf(b.questions, ById(results), good, bad, skipped);
  }

  lemma DropFails(b: Baseline, results: seq<Record>, d: Dim)
    requires ComparableRun(b, results) && SkipsDrop(b.questions, ById(results), d)
    ensures GateVerdict(b, results) == GateFail
  {
    SkipsFailIff(b, results);
  }

  lemma TwoRecords(one: Record, two: Record)
    requires one.id != two.id
    ensures ById([one, two]) == map[one.id := one.verdicts, two.id := two.verdicts]
  {
    assert [one, two][..1] == [one] && [one][..0] == [];
    assert ById([one]) == map[one.id := one.verdicts];
  }

  lemma HalfAndHalf(b: Baseline, good: Verdicts, bad: Verdicts)
    requires good == Verdicts(Pass, Pass, Pass) && bad == Verdicts(Fail, Pass, Pass)
    requires b == Baseline(map["a" := good, "b" := bad], Scores(Some(0.5), Some(1.0), Some(1.0)))
    ensures ScoresMatch(b)
  {
    forall d ensures IsShare(ScoreAt(b.summary, d), |Ids(b.questions, d, Pass)|, |Ids(b.questions, d, Fail)|) {
      assert Ids(b.questions, d, Pass) == if d.Accuracy? then {"a"} else {"a", "b"};
      assert Ids(b.questions, d, Fail) == if d.Accuracy? then {"b"} else {};
    }
  }

  lemma SkipDropsHalf(bl: map<string, Verdicts>, current: map<string, Verdicts>, good: Verdicts, bad: Verdicts,
                      skipped: Verdicts)
    requires good.accuracy.Pass? && bad.accuracy.Fail? && skipped == good.(accuracy := Skipped)
    requires bl == map["a" := good, "b" := bad] && current == map["a" := skipped, "b" := bad]
    ensures OnlySkipped(bl, current) && SkipsDrop(bl, current, Accuracy)
  {
    assert Gone(bl, current, Accuracy, Pass) == {"a"};
    assert Gone(bl, current, Accuracy, Fail) == {};
    assert Ids(bl, Accuracy, Pass) == {"a"} && Ids(bl, Accuracy, Fail) == {"b"};
  }
}
