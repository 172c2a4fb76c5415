/** `known-debt.json`: what the gate blocks on and what is recorded. */
module DebtFile {
  import opened Common
  import opened DebtRatchet

  /** The findings of one audit; `structural` is flattened over the surfaces. */
  datatype Audit = Audit(
    orphans: seq<string>, structural: seq<string>, fallbacks: seq<string>, routes: seq<string>,
    french: seq<string>, styling: seq<string>, duplicates: seq<string>, reimplemented: nat)

  datatype Pending = Pending(finding: string, cssExempt: set<string>, note: string)

  /** The file's keys; a key the two commands do not read or write is carried as text. */
  datatype Debt = Debt(
    orphans: Option<seq<string>>, structural: Option<seq<string>>, plumbing: Option<seq<string>>,
    reimplementedCount: Option<nat>, pending: Option<seq<Pending>>, cssLines: Option<nat>,
    others: map<string, string>)

  datatype Content = Absent | Unreadable | Readable(debt: Debt)

  const EMPTY := Debt(None, None, None, None, None, None, map[])
  const README_KEY := "_README"
  /** The opening of the explanation written when the file has none. */
  const README_TEXT := "Findings accepted as standing debt."
  const CSS_TARGET := "(target ~1400)"

  function OrEmpty<T>(q: Option<seq<T>>): seq<T> {
    if q.Some? then q.value else []
  }

  function PendingFindings(debt: Debt): set<string> {
    set e | e in OrEmpty(debt.pending) :: e.finding
  }

  function Exempt(pending: seq<Pending>): set<string> {
    set e, sheet | e in pending && sheet in e.cssExempt :: sheet
  }

  predicate EndsWith(s: string, suffix: string) {
    |s| >= |suffix| && s[|s| - |suffix|..] == suffix
  }

  // ---- The gate ----

  /** What the gate would block on. */
  datatype Blocking = Blocking(orphans: seq<string>, structural: seq<string>, plumbing: seq<string>, cssGrew: bool)

  function NotIn(q: seq<string>, known: set<string>): seq<string> {
    if q == [] then [] else (if q[0] in known then [] else [q[0]]) + NotIn(q[1..], known)
  }

  function Regressions(q: seq<string>, known: set<string>): seq<string> {
    if q == [] then [] else (if IsRegression(q[0], known) then [q[0]] else []) + Regressions(q[1..], known)
  }

  /** The CSS volume is a plain measurement here; its own ratchet is separate. */
  function PlumbingRegressions(q: seq<string>, known: set<string>): seq<string> {
    if q == [] then []
    else
      (if IsRegression(q[0], known) && !EndsWith(q[0], CSS_TARGET) then [q[0]] else [])
      + PlumbingRegressions(q[1..], known)
  }

  function BlockingPlumbing(a: Audit): seq<string> {
    a.fallbacks + a.french + a.styling + a.duplicates + a.routes
  }

  function NewFindings(a: Audit, css: set<string> -> nat, debt: Debt): Blocking {
    var pending := PendingFindings(debt);
    Blocking(
      NotIn(a.orphans, SetOf(OrEmpty(debt.orphans)) + pending),
      Regressions(a.structural, SetOf(OrEmpty(debt.structural)) + pending),
      PlumbingRegressions(BlockingPlumbing(a), SetOf(OrEmpty(debt.plumbing)) + pending),
      debt.cssLines.Some? && css(Exempt(OrEmpty(debt.pending))) > debt.cssLines.value)
  }

  predicate Clean(b: Blocking) {
    b.orphans == [] && b.structural == [] && b.plumbing == [] && !b.cssGrew
  }

  // ---- Recording a baseline ----

  function AcceptedPlumbing(a: Audit): seq<string> {
    a.fallbacks + a.routes + a.french + a.styling + a.duplicates
  }

  function Unanswered(pending: seq<Pending>, accepted: set<string>): seq<Pending> {
    if pending == [] then []
    else (if pending[0].finding in accepted then [] else [pending[0]]) + Unanswered(pending[1..], accepted)
  }

  ghost predicate AscendingStrings(q: seq<string>) {
    forall i, j :: 0 <= i < j < |q| ==> StringLeq(q[i], q[j])
  }

  function InsertSorted(x: string, q: seq<string>): seq<string> {
    if q == [] || StringLeq(x, q[0]) then [x] + q else [q[0]] + InsertSorted(x, q[1..])
  }

  /** `sorted`, with repetitions kept. */
  function SortAll(q: seq<string>): seq<string> {
    if q == [] then [] else InsertSorted(q[0], SortAll(q[1..]))
  }

  lemma {:induction false} InsertKeepsAll(x: string, q: seq<string>)
    ensures multiset(InsertSorted(x, q)) == multiset(q) + multiset{x}
  {
    if q != [] {
      assert q == [q[0]] + q[1..];
      InsertKeepsAll(x, q[1..]);
    }
  }

  lemma {:induction false} InsertAscends(x: string, q: seq<string>)
    requires AscendingStrings(q)
    ensures AscendingStrings(InsertSorted(x, q))
  {
    StringOrder();
    if q != [] && !StringLeq(x, q[0]) {
      InsertAscends(x, q[1..]);
      InsertKeepsAll(x, q[1..]);
      var rest := InsertSorted(x, q[1..]);
      forall i | 0 <= i < |rest| ensures StringLeq(q[0], rest[i]) {
        assert rest[i] in multiset(rest);
        assert rest[i] == x || rest[i] in q[1..];
      }
    }
  }

  lemma {:induction false} SortAllIs(q: seq<string>)
    ensures multiset(SortAll(q)) == multiset(q) && AscendingStrings(SortAll(q))
    ensures SetOf(SortAll(q)) == SetOf(q)
  {
    if q != [] {
      SortAllIs(q[1..]);
      InsertKeepsAll(q[0], SortAll(q[1..]));
      InsertAscends(q[0], SortAll(q[1..]));
      assert q == [q[0]] + q[1..];
    }
    SameElements(SortAll(q), q);
  }

  lemma SameElements(a: seq<string>, b: seq<string>)
    requires multiset(a) == multiset(b)
    ensures SetOf(a) == SetOf(b)
  {
    assert forall x :: x in a <==> x in multiset(a);
    assert forall x :: x in b <==> x in multiset(b);
  }

  function Recorded(a: Audit, existing: Debt): Debt {
    var accepted := SetOf(a.orphans) + SetOf(a.structural);
    var kept := Unanswered(OrEmpty(existing.pending), accepted);
    Debt(
      Some(SortAll(a.orphans)), Some(a.structural), Some(AcceptedPlumbing(a)), Some(a.reimplemented),
      if kept != [] || existing.pending.Some? then Some(kept) else None,
      existing.cssLines,
      if README_KEY in existing.others then existing.others else existing.others[README_KEY := README_TEXT])
  }

  class KnownDebt {
    var content: Content

    /** `--gate`: 0 lets the session stop, 2 blocks it; a second report for one stop never blocks. */
    method Gate(a: Audit, css: set<string> -> nat, alreadyBlocked: bool) returns (code: int, blocking: Blocking)
      requires !content.Unreadable?
      ensures blocking == NewFindings(a, css, if content.Readable? then content.debt else EMPTY)
      ensures code == if Clean(blocking) || alreadyBlocked then 0 else 2
    {
      var debt := if content.Readable? then content.debt else EMPTY;
      var pending := PendingFindings(debt);
      var orphans := NotIn(a.orphans, SetOf(OrEmpty(debt.orphans)) + pending);
      var structural := Regressions(a.structural, SetOf(OrEmpty(debt.structural)) + pending);
      var plumbing := PlumbingRegressions(BlockingPlumbing(a), SetOf(OrEmpty(debt.plumbing)) + pending);
      var grew := false;
      if debt.cssLines.Some? {
        var current := css(Exempt(OrEmpty(debt.pending)));
        grew := current > debt.cssLines.value;
      }
      blocking := Blocking(orphans, structural, plumbing, grew);
      if Clean(blocking) || alreadyBlocked {
        return 0, blocking;
      }
      return 2, blocking;
    }

    /** `--baseline`: read, merge, write; a file that cannot be read is left alone. */
    method Baseline(a: Audit) returns (code: int)
      modifies this
      ensures old(content).Unreadable? ==> code == 2 && content == old(content)
      ensures !old(content).Unreadable? ==>
        code == 0 && content == Readable(Recorded(a, if old(content).Readable? then old(content).debt else EMPTY))
    {
      if content.Unreadable? {
        return 2;
      }
      var existing := if content.Readable? then content.debt else EMPTY;
      var merged := existing.(
        orphans := Some(SortAll(a.orphans)), structural := Some(a.structural),
        plumbing := Some(AcceptedPlumbing(a)), reimplementedCount := Some(a.reimplemented));
      if README_KEY !in merged.others {
        merged := merged.(others := merged.others[README_KEY := README_TEXT]);
      }
      var nowAccepted := SetOf(a.orphans) + SetOf(a.structural);
      var kept := KeepUnanswered(OrEmpty(existing.pending), nowAccepted);
      if kept != [] || existing.pending.Some? {
        merged := merged.(pending := Some(kept));
      }
      content := Readable(merged);
      return 0;
    }
  }

  method KeepUnanswered(pending: seq<Pending>, accepted: set<string>) returns (kept: seq<Pending>)
    ensures kept == Unanswered(pending, accepted)
  {
    kept := [];
    for i := 0 to |pending|
      invariant Unanswered(pending, accepted) == kept + Unanswered(pending[i..], accepted)
    {
      if pending[i].finding !in accepted {
        kept := kept + [pending[i]];
      }
    }
    assert kept + [] == kept;
  }

  // ---- What passes ----

  ghost predicate InPlumbing(a: Audit, f: string) {
    f in a.fallbacks || f in a.routes || f in a.french || f in a.styling || f in a.duplicates
  }

  /** The sentence that measures the CSS volume. */
  ghost predicate IsCssTarget(f: string) {
    exists front: string :: f == front + "(target ~1400)"
  }

  lemma CssTargetIff(f: string)
    ensures EndsWith(f, CSS_TARGET) <==> IsCssTarget(f)
  {
    if EndsWith(f, CSS_TARGET) {
      assert f == f[..|f| - |CSS_TARGET|] + "(target ~1400)";
    }
    if front: string :| f == front + "(target ~1400)" {
      assert f[|front|..] == "(target ~1400)";
    }
  }

  /** Every finding is recorded or pending, or no worse than what is, and the CSS volume has not grown. */
  ghost predicate NothingNew(a: Audit, css: set<string> -> nat, debt: Debt) {
    var pending := PendingFindings(debt);
    && SetOf(a.orphans) <= SetOf(OrEmpty(debt.orphans)) + pending
    && (forall f :: f in a.structural ==> NoWorse(f, SetOf(OrEmpty(debt.structural)) + pending))
    && (forall f :: InPlumbing(a, f) && !IsCssTarget(f) ==> NoWorse(f, SetOf(OrEmpty(debt.plumbing)) + pending))
    && (debt.cssLines.Some? ==> css(Exempt(OrEmpty(debt.pending))) <= debt.cssLines.value)
  }

  lemma {:induction false} NotInIff(q: seq<string>, known: set<string>)
    ensures NotIn(q, known) == [] <==> SetOf(q) <= known
  {
    if q != [] {
      NotInIff(q[1..], known);
      assert SetOf(q) == {q[0]} + SetOf(q[1..]);
    }
  }

  lemma {:induction false} RegressionsIff(q: seq<string>, known: set<string>)
    ensures Regressions(q, known) == [] <==> forall f :: f in q ==> NoWorse(f, known)
  {
    if q != [] {
      RegressionsIff(q[1..], known);
      NoWorseIsNoRegression(q[0], known);
      assert forall f :: f in q <==> f == q[0] || f in q[1..];
    }
  }

  lemma {:induction false} PlumbingIff(q: seq<string>, known: set<string>)
    ensures PlumbingRegressions(q, known) == []
       <==> forall f :: f in q && !EndsWith(f, CSS_TARGET) ==> NoWorse(f, known)
  {
    if q != [] {
      PlumbingIff(q[1..], known);
      NoWorseIsNoRegression(q[0], known);
      assert forall f :: f in q <==> f == q[0] || f in q[1..];
    }
  }

  /** The gate has nothing to block on exactly when nothing is new. */
  lemma CleanIff(a: Audit, css: set<string> -> nat, debt: Debt)
    ensures Clean(NewFindings(a, css, debt)) <==> NothingNew(a, css, debt)
  {
    var pending := PendingFindings(debt);
    NotInIff(a.orphans, SetOf(OrEmpty(debt.orphans)) + pending);
    RegressionsIff(a.structural, SetOf(OrEmpty(debt.structural)) + pending);
    PlumbingIff(BlockingPlumbing(a), SetOf(OrEmpty(debt.plumbing)) + pending);
    forall f ensures f in BlockingPlumbing(a) && !EndsWith(f, CSS_TARGET) <==> InPlumbing(a, f) && !IsCssTarget(f) {
      CssTargetIff(f);
    }
  }

  // ---- Gate after baseline ----

  lemma {:induction false} NothingNotIn(q: seq<string>, known: set<string>)
    requires SetOf(q) <= known
    ensures NotIn(q, known) == []
  {
    if q != [] {
      assert q[0] in SetOf(q);
      assert forall x :: x in SetOf(q[1..]) ==> x in SetOf(q);
      NothingNotIn(q[1..], known);
    }
  }

  lemma {:induction false} NoRegressions(q: seq<string>, known: set<string>)
    requires forall f :: f in q ==> !IsRegression(f, known)
    ensures Regressions(q, known) == [] && PlumbingRegressions(q, known) == []
  {
    if q != [] {
      assert q[0] in q && forall f :: f in q[1..] ==> f in q;
      NoRegressions(q[1..], known);
    }
  }

  /**
   * Right after recording a baseline, whatever the file held before and whatever the findings, the gate has
   * nothing to block on but the CSS line count.
   */
  lemma GateAfterBaseline(a: Audit, css: set<string> -> nat, existing: Debt)
    ensures var b := NewFindings(a, css, Recorded(a, existing));
            && b.orphans == [] && b.structural == [] && b.plumbing == []
            && (b.cssGrew <==> existing.cssLines.Some?
                               && css(Exempt(OrEmpty(Recorded(a, existing).pending))) > existing.cssLines.value)
  {
    var debt := Recorded(a, existing);
    var pending := PendingFindings(debt);
    SortAllIs(a.orphans);
    NothingNotIn(a.orphans, SetOf(SortAll(a.orphans)) + pending);
    NoRegressions(a.structural, SetOf(a.structural) + pending);
    var known := SetOf(AcceptedPlumbing(a)) + pending;
    forall f | f in BlockingPlumbing(a) ensures !IsRegression(f, known) {
      assert f in AcceptedPlumbing(a);
    }
    NoRegressions(BlockingPlumbing(a), known);
  }

  /** A finding that is no worse than what an audit recorded. */
  ghost predicate NoWorse(f: string, recorded: set<string>) {
    || f in recorded
    || (IsCounted(f) && exists r ::
          r in recorded && HasCeiling(r) && CeilingPhrase(r) == PhraseOf(f) && CountOf(f) <= CeilingOf(r))
    || (!IsCounted(f) && Members(f).1 != {} && Members(f).1 <= Covered(Members(f).0, recorded))
  }

  lemma NoWorseIsNoRegression(f: string, recorded: set<string>)
    ensures NoWorse(f, recorded) <==> !IsRegression(f, recorded)
  {
    if IsCounted(f) {
      CountedIff(f, recorded);
      if f in recorded {
        CountedIsItsOwnCeiling(f);
      }
    } else if f !in recorded {
      ListedIff(f, recorded);
    }
  }

  /** An improvement is not a regression: findings no worse than a recorded audit pass its baseline. */
  lemma ImprovementPasses(a: Audit, later: Audit, css: set<string> -> nat, existing: Debt)
    requires SetOf(later.orphans) <= SetOf(a.orphans)
    requires forall f :: f in later.structural ==> NoWorse(f, SetOf(a.structural))
    requires forall f :: f in BlockingPlumbing(later) ==> NoWorse(f, SetOf(AcceptedPlumbing(a)))
    ensures var b := NewFindings(later, css, Recorded(a, existing));
            b.orphans == [] && b.structural == [] && b.plumbing == []
  {
    var pending := PendingFindings(Recorded(a, existing));
    SortAllIs(a.orphans);
    NothingNotIn(later.orphans, SetOf(SortAll(a.orphans)) + pending);
    StillNoRegression(later.structural, SetOf(a.structural), pending);
    StillNoRegression(BlockingPlumbing(later), SetOf(AcceptedPlumbing(a)), pending);
  }

  lemma StillNoRegression(q: seq<string>, recorded: set<string>, pending: set<string>)
    requires forall f :: f in q ==> NoWorse(f, recorded)
    ensures Regressions(q, recorded + pending) == [] && PlumbingRegressions(q, recorded + pending) == []
  {
    forall f | f in q ensures !IsRegression(f, recorded + pending) {
      NoWorseIsNoRegression(f, recorded);
      if IsRegression(f, recorded + pending) {
        RecordingMoreIsSafe(f, recorded, recorded + pending);
      }
    }
    NoRegressions(q, recorded + pending);
  }

  // ---- What recording preserves ----

  lemma {:induction false} UnansweredIs(pending: seq<Pending>, accepted: set<string>)
    ensures forall e :: e in Unanswered(pending, accepted) <==> e in pending && e.finding !in accepted
  {
    if pending != [] {
      UnansweredIs(pending[1..], accepted);
      assert forall e :: e in pending <==> e == pending[0] || e in pending[1..];
    }
  }

  /**
   * Every key recording does not own keeps its value, and no key but the owned ones and the readme appears.  A
   * pending entry goes exactly when its finding is an accepted orphan or structural finding.
   */
  lemma BaselinePreserves(a: Audit, existing: Debt)
    ensures var debt := Recorded(a, existing);
            && (forall k :: k in existing.others ==> k in debt.others && debt.others[k] == existing.others[k])
            && debt.others.Keys == existing.others.Keys + {README_KEY}
            && debt.cssLines == existing.cssLines
            && (debt.pending.Some? <==> existing.pending.Some?)
            && (forall e :: e in OrEmpty(debt.pending) <==>
                  e in OrEmpty(existing.pending) && e.finding !in a.orphans && e.finding !in a.structural)
  {
    var accepted := SetOf(a.orphans) + SetOf(a.structural);
    UnansweredIs(OrEmpty(existing.pending), accepted);
  }

  /**
   * "A finding cannot be both accepted and pending" holds of orphans and structural findings only: a pending
   * entry stays beside its own acceptance exactly when the finding is accepted as plumbing and as nothing else.
   */
  lemma PendingBesideAccepted(a: Audit, existing: Debt, e: Pending)
    ensures var debt := Recorded(a, existing);
            e in OrEmpty(debt.pending)
            && (e.finding in debt.orphans.value || e.finding in debt.structural.value
                || e.finding in debt.plumbing.value)
            <==> e in OrEmpty(existing.pending) && e.finding in AcceptedPlumbing(a)
                 && e.finding !in a.orphans && e.finding !in a.structural
  {
    BaselinePreserves(a, existing);
    SortAllIs(a.orphans);
    assert e.finding in SetOf(SortAll(a.orphans)) <==> e.finding in SetOf(a.orphans);
  }

  /** Recording the same audit twice changes nothing the second time. */
  lemma BaselineIsIdempotent(a: Audit, existing: Debt)
    ensures Recorded(a, Recorded(a, existing)) == Recorded(a, existing)
  {
    UnansweredTwice(OrEmpty(existing.pending), SetOf(a.orphans) + SetOf(a.structural));
  }

  lemma {:induction false} UnansweredTwice(pending: seq<Pending>, accepted: set<string>)
    ensures Unanswered(Unanswered(pending, accepted), accepted) == Unanswered(pending, accepted)
  {
    if pending != [] {
      UnansweredTwice(pending[1..], accepted);
      var rest := Unanswered(pending[1..], accepted);
      if pending[0].finding in accepted {
        assert Unanswered(pending, accepted) == rest;
      } else {
        assert Unanswered(pending, accepted)[1..] == rest;
      }
    }
  }
}
