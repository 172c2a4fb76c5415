/** The regression gate of the golden questions. */
module EvalGate {
  import opened Common

  datatype Verdict = Pass | Fail | NotApplicable | Skipped | Unavailable | Unset

  datatype Dim = Accuracy | Citations | Adherence

  const DIMS: seq<Dim> := [Accuracy, Citations, Adherence]

  datatype Verdicts = Verdicts(accuracy: Verdict, citations: Verdict, adherence: Verdict)

  function At(v: Verdicts, d: Dim): Verdict {
    match d
    case Accuracy => v.accuracy
    case Citations => v.citations
    case Adherence => v.adherence
  }

  datatype Record = Record(id: string, verdicts: Verdicts)

  datatype Scores = Scores(accuracy: Option<real>, citations: Option<real>, adherence: Option<real>)

  function ScoreAt(s: Scores, d: Dim): Option<real> {
    match d
    case Accuracy => s.accuracy
    case Citations => s.citations
    case Adherence => s.adherence
  }

  datatype Artifact = Artifact(results: seq<Record>, summary: Scores)

  datatype Baseline = Baseline(questions: map<string, Verdicts>, summary: Scores)

  datatype Outcome = GatePass | GateFail | Unverifiable

  const EPSILON: real := 0.000000001

  /** `{r["id"]: r for r in results}`. */
  function ById(results: seq<Record>): map<string, Verdicts> {
    if results == [] then map[]
    else
      var last := results[|results| - 1];
      ById(results[..|results| - 1])[last.id := last.verdicts]
  }

  method BuildBaseline(artifact: Artifact) returns (b: Baseline)
    ensures b == Baseline(ById(artifact.results), artifact.summary)
  {
    var questions: map<string, Verdicts> := map[];
    for i := 0 to |artifact.results|
      invariant questions == ById(artifact.results[..i])
    {
      assert artifact.results[..i + 1][..i] == artifact.results[..i];
      questions := questions[artifact.results[i].id := artifact.results[i].verdicts];
    }
    assert artifact.results[..|artifact.results|] == artifact.results;
    b := Baseline(questions, artifact.summary);
  }

  // ---- Question by question ----

  datatype Change = Regression | Progression | SkipWasPass | EvidenceUnavailable | NoChange

  function Classify(was: Verdict, now: Verdict): Change {
    if now.Skipped? && was.Pass? then SkipWasPass
    else if now.Unavailable? && was.Pass? then EvidenceUnavailable
    else if was.Pass? && now.Fail? then Regression
    else if !was.Pass? && now.Pass? then Progression
    else NoChange
  }

  datatype Finding = Finding(id: string, dim: Dim, change: Change) | MissingFromRun(id: string)

  function DimFinding(id: string, d: Dim, was: Verdict, now: Verdict): seq<Finding> {
    var c := Classify(was, now);
    if c.NoChange? then [] else [Finding(id, d, c)]
  }

  function DimFindings(id: string, was: Verdicts, now: Verdicts, dims: seq<Dim>): seq<Finding> {
    if dims == [] then []
    else DimFinding(id, dims[0], At(was, dims[0]), At(now, dims[0])) + DimFindings(id, was, now, dims[1..])
  }

  /** What one baseline question has to report. */
  function OneQuestion(bl: map<string, Verdicts>, current: map<string, Verdicts>, id: string): seq<Finding> {
    if id !in bl then []
    else if id in current then DimFindings(id, bl[id], current[id], DIMS)
    else [MissingFromRun(id)]
  }

  function QuestionFindings(bl: map<string, Verdicts>, current: map<string, Verdicts>,
                            order: seq<string>): seq<Finding> {
    if order == [] then [] else OneQuestion(bl, current, order[0]) + QuestionFindings(bl, current, order[1..])
  }

  // ---- Scores over the questions the baseline knows ----

  function Known(bl: map<string, Verdicts>, results: seq<Record>): seq<Record> {
    if results == [] then []
    else
      var last := results[|results| - 1];
      Known(bl, results[..|results| - 1]) + if last.id in bl then [last] else []
  }

  function Count(records: seq<Record>, d: Dim, v: Verdict): nat {
    if records == [] then 0
    else
      var last := records[|records| - 1];
      Count(records[..|records| - 1], d, v) + if At(last.verdicts, d) == v then 1 else 0
  }

  function Ratio(passes: nat, fails: nat): Option<real> {
    if passes + fails == 0 then None else Some(passes as real / (passes + fails) as real)
  }

  /** Some question that passed in the baseline has lost its evidence in this dimension. */
  predicate EvidenceLost(bl: map<string, Verdicts>, known: seq<Record>, d: Dim) {
    exists i :: 0 <= i < |known| && known[i].id in bl
      && At(known[i].verdicts, d).Unavailable? && At(bl[known[i].id], d).Pass?
  }

  predicate ScoreDrops(b: Baseline, known: seq<Record>, d: Dim) {
    var was := ScoreAt(b.summary, d);
    var now := Ratio(Count(known, d, Pass), Count(known, d, Fail));
    was.Some? && !EvidenceLost(b.questions, known, d) && now.Some? && now.value < was.value - EPSILON
  }

  predicate AnyDrop(b: Baseline, known: seq<Record>) {
    exists d :: d in DIMS && ScoreDrops(b, known, d)
  }

  predicate Has(findings: seq<Finding>, c: Change) {
    findings != [] && ((findings[0].Finding? && findings[0].change == c) || Has(findings[1..], c))
  }

  function Decide(findings: seq<Finding>, drop: bool): Outcome {
    if Has(findings, Regression) || drop then GateFail
    else if Has(findings, EvidenceUnavailable) then Unverifiable
    else GatePass
  }

  function Findings(b: Baseline, results: seq<Record>): seq<Finding> {
    QuestionFindings(b.questions, ById(results), Alphabetical(b.questions.Keys))
  }

  function GateVerdict(b: Baseline, results: seq<Record>): Outcome {
    Decide(Findings(b, results), AnyDrop(b, Known(b.questions, results)))
  }

  /** The ids the baseline does not know, each once, in the order the run first has them. */
  function NewIds(bl: map<string, Verdicts>, results: seq<Record>): seq<string> {
    if results == [] then []
    else
      var before, last := NewIds(bl, results[..|results| - 1]), results[|results| - 1];
      if last.id in bl || last.id in before then before else before + [last.id]
  }

  datatype ScoreWarning = ReducedDenominator(dim: Dim, scored: nat, lost: nat) | ScoreDrop(dim: Dim)

  /** The questions that passed in the baseline and are skipped or unavailable now. */
  function LostCount(bl: map<string, Verdicts>, known: seq<Record>, d: Dim): nat {
    if known == [] then 0
    else
      var last := known[|known| - 1];
      LostCount(bl, known[..|known| - 1], d)
      + if last.id in bl && At(bl[last.id], d).Pass?
           && (At(last.verdicts, d).Skipped? || At(last.verdicts, d).Unavailable?) then 1 else 0
  }

  function WarningsFor(b: Baseline, known: seq<Record>, d: Dim): seq<ScoreWarning> {
    var lost := LostCount(b.questions, known, d);
    if ScoreAt(b.summary, d).None? then []
    else
      (if lost > 0 then [ReducedDenominator(d, Count(known, d, Pass) + Count(known, d, Fail), lost)] else [])
      + (if ScoreDrops(b, known, d) then [ScoreDrop(d)] else [])
  }

  function ScoreWarnings(b: Baseline, known: seq<Record>, dims: seq<Dim>): seq<ScoreWarning> {
    if dims == [] then [] else ScoreWarnings(b, known, dims[..|dims| - 1]) + WarningsFor(b, known, dims[|dims| - 1])
  }

  method CompareToBaseline(artifact: Artifact, b: Baseline)
    returns (findings: seq<Finding>, warnings: seq<ScoreWarning>, newQuestions: seq<string>, scoreRegression: bool,
             verdict: Outcome)
    ensures findings == Findings(b, artifact.results)
    ensures warnings == ScoreWarnings(b, Known(b.questions, artifact.results), DIMS)
    ensures newQuestions == NewIds(b.questions, artifact.results)
    ensures scoreRegression == AnyDrop(b, Known(b.questions, artifact.results))
    ensures verdict == GateVerdict(b, artifact.results)
  {
    var order := Alphabetical(b.questions.Keys);
    var unverifiable, regressed;
    findings, unverifiable, regressed := CompareQuestions(b.questions, ById(artifact.results), order);
    newQuestions := NewQuestions(b.questions, artifact.results);
    warnings, scoreRegression := CompareScores(b, Known(b.questions, artifact.results));
    verdict := if regressed || scoreRegression then GateFail else if unverifiable then Unverifiable else GatePass;
  }

  lemma {:induction false} HasAppended(a: seq<Finding>, b: seq<Finding>, c: Change)
    ensures Has(a + b, c) <==> Has(a, c) || Has(b, c)
  {
    if a == [] {
      assert a + b == b;
    } else {
      HasAppended(a[1..], b, c);
      assert (a + b)[1..] == a[1..] + b;
    }
  }

  method NewQuestions(bl: map<string, Verdicts>, results: seq<Record>) returns (ids: seq<string>)
    ensures ids == NewIds(bl, results)
  {
    ids := [];
    for i := 0 to |results|
      invariant ids == NewIds(bl, results[..i])
    {
      assert results[..i + 1][..i] == results[..i];
      if results[i].id !in bl && results[i].id !in ids {
        ids := ids + [results[i].id];
      }
    }
    assert results[..|results|] == results;
  }

  method CompareQuestions(bl: map<string, Verdicts>, current: map<string, Verdicts>, order: seq<string>)
    returns (findings: seq<Finding>, unverifiable: bool, regressed: bool)
    requires forall i :: 0 <= i < |order| ==> order[i] in bl
    ensures findings == QuestionFindings(bl, current, order)
    ensures unverifiable == Has(findings, EvidenceUnavailable) && regressed == Has(findings, Regression)
  {
    findings, unverifiable, regressed := [], false, false;
    for i := 0 to |order|
      invariant QuestionFindings(bl, current, order) == findings + QuestionFindings(bl, current, order[i..])
      invariant unverifiable == Has(findings, EvidenceUnavailable) && regressed == Has(findings, Regression)
    {
      var mine, lost, failed := CompareQuestion(bl, current, order[i]);
      HasAppended(findings, mine, EvidenceUnavailable);
      HasAppended(findings, mine, Regression);
      QuestionStep(bl, current, order, i, findings);
      findings, unverifiable, regressed := findings + mine, unverifiable || lost, regressed || failed;
    }
    assert findings + [] == findings;
  }

  lemma QuestionStep(bl: map<string, Verdicts>, current: map<string, Verdicts>, order: seq<string>, i: nat,
                     before: seq<Finding>)
    requires i < |order|
    ensures before + QuestionFindings(bl, current, order[i..])
         == before + OneQuestion(bl, current, order[i]) + QuestionFindings(bl, current, order[i + 1..])
  {
    assert order[i..][1..] == order[i + 1..];
  }

  method CompareQuestion(bl: map<string, Verdicts>, current: map<string, Verdicts>, id: string)
    returns (mine: seq<Finding>, lost: bool, failed: bool)
    requires id in bl
    ensures mine == OneQuestion(bl, current, id)
    ensures lost == Has(mine, EvidenceUnavailable) && failed == Has(mine, Regression)
  {
    if id in current {
      mine, lost, failed := CompareDims(id, bl[id], current[id], DIMS);
    } else {
      mine, lost, failed := [MissingFromRun(id)], false, false;
    }
  }

  /** The inner loop over the scored dimensions. */
  method CompareDims(id: string, was: Verdicts, now: Verdicts, dims: seq<Dim>)
    returns (findings: seq<Finding>, lost: bool, failed: bool)
    ensures findings == DimFindings(id, was, now, dims)
    ensures lost == Has(findings, EvidenceUnavailable) && failed == Has(findings, Regression)
  {
    findings, lost, failed := [], false, false;
    for k := 0 to |dims|
      invariant DimFindings(id, was, now, dims) == findings + DimFindings(id, was, now, dims[k..])
      invariant lost == Has(findings, EvidenceUnavailable) && failed == Has(findings, Regression)
    {
      var d := dims[k];
      var mine, noEvidence, fails := CompareDim(id, d, At(was, d), At(now, d));
      HasAppended(findings, mine, EvidenceUnavailable);
      HasAppended(findings, mine, Regression);
      findings, lost, failed := findings + mine, lost || noEvidence, failed || fails;
    }
    assert findings + [] == findings;
  }

  method CompareDim(id: string, d: Dim, was: Verdict, now: Verdict)
    returns (mine: seq<Finding>, lost: bool, failed: bool)
    ensures mine == DimFinding(id, d, was, now)
    ensures lost == Has(mine, EvidenceUnavailable) && failed == Has(mine, Regression)
  {
    mine, lost, failed := [], false, false;
    if (now.Skipped? || now.Unavailable?) && was.Pass? {
      if now.Unavailable? {
        lost := true;
      }
      mine := [Finding(id, d, if now.Skipped? then SkipWasPass else EvidenceUnavailable)];
    } else if was.Pass? && now.Fail? {
      failed := true;
      mine := [Finding(id, d, Regression)];
    } else if !was.Pass? && now.Pass? {
      mine := [Finding(id, d, Progression)];
    }
  }

  method CompareScores(b: Baseline, known: seq<Record>) returns (warnings: seq<ScoreWarning>, drop: bool)
    ensures warnings == ScoreWarnings(b, known, DIMS)
    ensures drop == AnyDrop(b, known)
  {
    warnings, drop := [], false;
    for k := 0 to |DIMS|
      invariant warnings == ScoreWarnings(b, known, DIMS[..k])
      invariant drop == exists i :: 0 <= i < k && ScoreDrops(b, known, DIMS[i])
    {
      assert DIMS[..k + 1][..k] == DIMS[..k];
      var mine, drops := CompareScore(b, known, DIMS[k]);
      warnings, drop := warnings + mine, drop || drops;
    }
    assert DIMS[..|DIMS|] == DIMS;
    assert (exists i :: 0 <= i < |DIMS| && ScoreDrops(b, known, DIMS[i])) <==> AnyDrop(b, known);
  }

  /** One dimension of the score loop. */
  method CompareScore(b: Baseline, known: seq<Record>, d: Dim) returns (mine: seq<ScoreWarning>, drops: bool)
    ensures mine == WarningsFor(b, known, d) && drops == ScoreDrops(b, known, d)
  {
    mine, drops := [], false;
    var was := ScoreAt(b.summary, d);
    if was.None? {
      return;
    }
    var passes, fails := Count(known, d, Pass), Count(known, d, Fail);
    var now := Ratio(passes, fails);
    var lost := LostCount(b.questions, known, d);
    if lost > 0 {
      mine := [ReducedDenominator(d, passes + fails, lost)];
    }
    if EvidenceLost(b.questions, known, d) || now.None? {
      return;
    }
    if now.value < was.value - EPSILON {
      drops := true;
      mine := mine + [ScoreDrop(d)];
    }
  }
}
