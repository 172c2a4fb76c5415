/** Exactly where a clause may be inserted. */
module CriteriaSafety {
  import opened CriteriaParser
  import opened CriteriaReading
  import opened CriteriaInsertion
  import opened CriteriaBlocks

  // ---- Walks that owe the list nothing ----

  /** No bullet read next, and no open entry, goes to the list. */
  predicate Quiet(w: Walk) {
    || (w.mode.NoMode? && w.buffer.None?)
    || (w.target.Appended? && (w.mode.Collect? || w.mode.Clause?))
  }

  /** The same list so far, and the same list whatever follows. */
  ghost predicate SameList(u: Walk, v: Walk) {
    && Close(u).listed == Close(v).listed
    && (|| (Quiet(u) && Quiet(v))
        || (FeedsList(u) && v.target.Listed? && u.mode == v.mode && u.listed == v.listed && u.buffer == v.buffer
            && u.previousBlank == v.previousBlank))
  }

  lemma QuietPlain(w: Walk, line: Line)
    requires Quiet(w) && PlainLine(line, w.previousBlank)
    ensures Quiet(Step(w, line)) && Close(Step(w, line)).listed == Close(w).listed
  {
    PlainStep(w, line);
    if line.bullet && w.mode.Collect? {
      OpenBulletIs(w.(previousBlank := line.blankUnquoted), line);
    }
  }

  /** Clauses and openings of appended lists owe the list nothing. */
  predicate TurnsToList(line: Line) {
    !line.heading.NoHeading? || line.addToList
  }

  lemma QuietStep(w: Walk, line: Line)
    requires Quiet(w)
    ensures Close(Step(w, line)).listed == Close(w).listed
    ensures !TurnsToList(line) ==> Quiet(Step(w, line))
  {
    if PlainLine(line, w.previousBlank) {
      QuietPlain(w, line);
    } else {
      GovernedStep(w, line);
    }
  }

  lemma FeedingPlain(u: Walk, v: Walk, line: Line)
    requires SameList(u, v) && FeedsList(u) && !(Quiet(u) && Quiet(v)) && PlainLine(line, u.previousBlank)
    ensures SameList(Step(u, line), Step(v, line))
  {
    PlainStep(u, line);
    PlainStep(v, line);
    if line.bullet {
      OpenBulletIs(u.(previousBlank := line.blankUnquoted), line);
      OpenBulletIs(v.(previousBlank := line.blankUnquoted), line);
    }
  }

  lemma StepSameList(u: Walk, v: Walk, line: Line)
    requires SameList(u, v)
    ensures SameList(Step(u, line), Step(v, line))
  {
    if Quiet(u) && Quiet(v) {
      QuietStep(u, line);
      QuietStep(v, line);
      if TurnsToList(line) {
        GovernedStep(u, line);
        GovernedStep(v, line);
      }
    } else if PlainLine(line, u.previousBlank) {
      FeedingPlain(u, v, line);
    } else {
      GovernedStep(u, line);
      GovernedStep(v, line);
    }
  }

  lemma {:induction false} WalkSameList(u: Walk, v: Walk, lines: seq<Line>)
    requires SameList(u, v)
    ensures SameList(WalkFrom(u, lines), WalkFrom(v, lines))
    decreases |lines|
  {
    if lines != [] {
      StepSameList(u, v, lines[0]);
      WalkSameList(Step(u, lines[0]), Step(v, lines[0]), lines[1..]);
    }
  }

  // ---- The list ----

  predicate InList(region: Region) {
    region.ListBlock? || region.ReplaceBlock?
  }

  ghost predicate ListKept(before: seq<Line>, clause: Line, rest: seq<Line>, blank: Line, after: seq<Line>) {
    Split(Inserted(before, clause, rest, blank, after)).0 == Split(before + after).0
  }

  lemma OutsideTheList(before: seq<Line>, clause: Line, rest: seq<Line>, blank: Line, after: seq<Line>)
    requires ClauseParagraph(clause, rest, blank) && StatesClause(clause, WasBlank(before, |before|))
    requires !InList(RegionAt(before, |before|))
    ensures ListKept(before, clause, rest, blank, after)
  {
    var w := WalkFrom(START, before);
    var paragraph := [clause] + rest + [blank];
    ReadsText(before);
    ReadParagraph(w, clause, rest, blank);
    WalkSameList(w, WalkFrom(w, paragraph), after);
    WalkConcat(START, before, after);
    WalkThree(START, before, paragraph, after);
  }

  function BulletLine(text: string): Line {
    Line(NoHeading, false, false, false, false, true, true, false, false, false, text)
  }

  /** Two bullets always change the length of a list they are fed to. */
  function TwoBullets(): seq<Line> {
    [BulletLine("- a"), BulletLine("- b")]
  }

  lemma InsideTheList(before: seq<Line>, clause: Line, rest: seq<Line>, blank: Line)
    requires ClauseParagraph(clause, rest, blank) && StatesClause(clause, WasBlank(before, |before|))
    requires InList(RegionAt(before, |before|))
    ensures !ListKept(before, clause, rest, blank, TwoBullets())
  {
    var w := WalkFrom(START, before);
    var paragraph := [clause] + rest + [blank];
    ReadsText(before);
    ReadParagraph(w, clause, rest, blank);
    var p := WalkFrom(w, paragraph);
    TextThenBlock(before, TwoBullets());
    WalkSilent(p, TwoBullets());
    WalkThree(START, before, paragraph, TwoBullets());
    assert |Split(before + TwoBullets()).0| != |Split(before).0|;
    assert Split(Inserted(before, clause, rest, blank, TwoBullets())).0 == Split(before).0;
  }

  /**
   * Where it is read as a clause at all, the inserted paragraph leaves the list alone for every text that may follow
   * exactly when the place lies in no block that feeds the list.
   */
  lemma ListIsSafeIff(before: seq<Line>, clause: Line, rest: seq<Line>, blank: Line)
    requires ClauseParagraph(clause, rest, blank) && StatesClause(clause, WasBlank(before, |before|))
    ensures (forall after :: ListKept(before, clause, rest, blank, after)) <==> !InList(RegionAt(before, |before|))
  {
    if InList(RegionAt(before, |before|)) {
      InsideTheList(before, clause, rest, blank);
    } else {
      forall after ensures ListKept(before, clause, rest, blank, after) {
        OutsideTheList(before, clause, rest, blank, after);
      }
    }
  }

  // ---- The whole guarantee ----

  ghost predicate InsertedOnce(a: seq<Criterion>, b: seq<Criterion>, x: Criterion) {
    exists k: nat :: k <= |a| && b == a[..k] + [x] + a[k..]
  }

  /** The list is unchanged and exactly the clause is added to the other one. */
  ghost predicate Guaranteed(before: seq<Line>, clause: Line, rest: seq<Line>, blank: Line, after: seq<Line>) {
    && ListKept(before, clause, rest, blank, after)
    && InsertedOnce(Split(before + after).1, Split(Inserted(before, clause, rest, blank, after)).1,
          Criterion(true, clause, rest))
  }

  lemma InsertedCounts(a: seq<Criterion>, b: seq<Criterion>, x: Criterion)
    requires InsertedOnce(a, b, x)
    ensures |b| == |a| + 1 && multiset(b) == multiset(a) + multiset{x}
    ensures Clauses(b) == Clauses(a) + if x.byClause then 1 else 0
  {
    var k: nat :| k <= |a| && b == a[..k] + [x] + a[k..];
    assert a == a[..k] + a[k..];
    ClausesConcat(a[..k], a[k..]);
    ClausesConcat(a[..k], [x]);
    ClausesConcat(a[..k] + [x], a[k..]);
    assert [x][..0] == [];
  }

  /** How many entries come from clauses. */
  function Clauses(q: seq<Criterion>): nat {
    if q == [] then 0 else Clauses(q[..|q| - 1]) + if q[|q| - 1].byClause then 1 else 0
  }

  lemma {:induction false} ClausesConcat(a: seq<Criterion>, b: seq<Criterion>)
    ensures Clauses(a + b) == Clauses(a) + Clauses(b)
    decreases |b|
  {
    if b == [] {
      assert a + b == a;
    } else {
      ClausesConcat(a, b[..|b| - 1]);
      assert (a + b)[..|a + b| - 1] == a + b[..|b| - 1];
    }
  }

  predicate Sound(w: Walk) {
    && (w.mode.Clause? ==> w.buffer.Some? && w.target.Appended?)
    && (w.mode.Replace? ==> w.target.Listed?)
    && (w.mode.NoMode? ==> w.buffer.None?)
  }

  lemma PlainClauses(w: Walk, line: Line)
    requires Sound(w) && PlainLine(line, w.previousBlank)
    ensures Sound(Step(w, line)) && Clauses(Close(Step(w, line)).appended) == Clauses(Close(w).appended)
  {
    PlainStep(w, line);
    if line.bullet && (w.mode.Collect? || w.mode.Replace?) {
      OpenBulletIs(w.(previousBlank := line.blankUnquoted), line);
    }
  }

  /** Lines that govern nothing add no clause. */
  lemma {:induction false} BlockAddsNoClause(w: Walk, lines: seq<Line>)
    requires Sound(w) && BlockLines(lines, w.previousBlank)
    ensures Clauses(Close(WalkFrom(w, lines)).appended) == Clauses(Close(w).appended)
    decreases |lines|
  {
    if lines != [] {
      PlainClauses(w, lines[0]);
      BlockAddsNoClause(Step(w, lines[0]), lines[1..]);
    }
  }

  lemma {:induction false} RestIsABlock(rest: seq<Line>, blank: Line)
    requires forall i :: 0 <= i < |rest| ==> PlainLine(rest[i], false) && !EndsParagraph(rest[i])
    requires PlainLine(blank, false)
    ensures BlockLines(rest + [blank], false)
  {
    var lines := rest + [blank];
    if rest != [] {
      RestIsABlock(rest[1..], blank);
      assert lines[1..] == rest[1..] + [blank];
    } else {
      assert lines[1..] == [];
    }
  }

  /** Where the paragraph is not read as a clause, its entry does not appear. */
  lemma NotReadAsClause(before: seq<Line>, clause: Line, rest: seq<Line>, blank: Line)
    requires ClauseParagraph(clause, rest, blank) && !StatesClause(clause, WasBlank(before, |before|))
    ensures !Guaranteed(before, clause, rest, blank, [])
  {
    var w := WalkFrom(START, before);
    var paragraph := [clause] + (rest + [blank]);
    ReadsText(before);
    RestIsABlock(rest, blank);
    assert paragraph[1..] == rest + [blank];
    BlockAddsNoClause(w, paragraph);
    assert before + [] == before;
    assert Inserted(before, clause, rest, blank, []) == before + paragraph;
    WalkConcat(START, before, paragraph);
    if Guaranteed(before, clause, rest, blank, []) {
      InsertedCounts(Split(before + []).1, Split(Inserted(before, clause, rest, blank, [])).1,
          Criterion(true, clause, rest));
    }
  }

  /** In an appended block the next bullet is lost in exchange for the clause. */
  lemma InsideAnAppendedBlock(before: seq<Line>, clause: Line, rest: seq<Line>, blank: Line)
    requires ClauseParagraph(clause, rest, blank) && StatesClause(clause, WasBlank(before, |before|))
    requires RegionAt(before, |before|).AppendBlock?
    ensures !Guaranteed(before, clause, rest, blank, [BulletLine("- a")])
  {
    var w, after := WalkFrom(START, before), [BulletLine("- a")];
    var paragraph := [clause] + rest + [blank];
    ReadsText(before);
    ReadParagraph(w, clause, rest, blank);
    TextThenBlock(before, after);
    WalkSilent(WalkFrom(w, paragraph), after);
    WalkThree(START, before, paragraph, after);
    if Guaranteed(before, clause, rest, blank, after) {
      InsertedCounts(Split(before + after).1, Split(Inserted(before, clause, rest, blank, after)).1,
          Criterion(true, clause, rest));
    }
  }

  /** A line that states a clause after a blank line only. */
  function LateClause(): Line {
    Line(NoHeading, false, false, true, false, false, false, false, false, false, "incomplete if")
  }

  /** Without the blank line before it, the blank line after the paragraph can turn the next line into a clause. */
  lemma WithoutTheBlankLine(before: seq<Line>, clause: Line, rest: seq<Line>, blank: Line)
    requires ClauseParagraph(clause, rest, blank) && StatesClause(clause, WasBlank(before, |before|))
    requires !WasBlank(before, |before|)
      && (RegionAt(before, |before|).Silent? || RegionAt(before, |before|).Paragraph?)
    ensures !Guaranteed(before, clause, rest, blank, [LateClause()])
  {
    var w, after := WalkFrom(START, before), [LateClause()];
    var paragraph := [clause] + rest + [blank];
    ReadsText(before);
    ReadParagraph(w, clause, rest, blank);
    assert after[1..] == [];
    assert BlockLines(after, false);
    TextThenBlock(before, after);
    GovernedStep(WalkFrom(w, paragraph), LateClause());
    WalkThree(START, before, paragraph, after);
    if Guaranteed(before, clause, rest, blank, after) {
      InsertedCounts(Split(before + after).1, Split(Inserted(before, clause, rest, blank, after)).1,
          Criterion(true, clause, rest));
    }
  }

  function ProseLine(): Line {
    Line(NoHeading, false, false, false, false, false, false, false, false, false, "prose")
  }

  lemma OneOccurrence(prior: seq<Criterion>, c: Criterion, longer: Criterion, x: Criterion)
    requires c != longer
    ensures multiset(prior + [longer]) + multiset{x} != multiset(prior + [c] + [x])
  {
    assert multiset(prior + [longer])[longer] == multiset(prior)[longer] + 1;
    assert multiset(prior + [c] + [x])[longer] == multiset(prior)[longer] + multiset{x}[longer];
  }

  lemma NotLonger(prior: seq<Criterion>, c: Criterion, longer: Criterion, x: Criterion)
    requires c != longer
    ensures !InsertedOnce(prior + [longer], prior + [c] + [x], x)
  {
    OneOccurrence(prior, c, longer, x);
    if InsertedOnce(prior + [longer], prior + [c] + [x], x) {
      InsertedCounts(prior + [longer], prior + [c] + [x], x);
    }
  }

  lemma {:induction false} ParagraphReads(before: seq<Line>, clause: Line, rest: seq<Line>, blank: Line)
    requires ClauseParagraph(clause, rest, blank) && StatesClause(clause, WasBlank(before, |before|))
    requires RegionAt(before, |before|).Paragraph?
    ensures var w := WalkFrom(START, before);
      && w.buffer.Some?
      && Split(before + [ProseLine()]).1 == w.appended + [w.buffer.value.(rest := w.buffer.value.rest + [ProseLine()])]
      && Split(Inserted(before, clause, rest, blank, [ProseLine()])).1
           == w.appended + [w.buffer.value] + [Criterion(true, clause, rest)]
  {
    var w, after := WalkFrom(START, before), [ProseLine()];
    var paragraph := [clause] + rest + [blank];
    ReadsText(before);
    ReadParagraph(w, clause, rest, blank);
    PlainStep(w, ProseLine());
    PlainStep(WalkFrom(w, paragraph), ProseLine());
    assert after[1..] == [];
    WalkConcat(START, before, after);
    WalkThree(START, before, paragraph, after);
  }

  /** Inside a paragraph the clause it belongs to is cut short. */
  lemma InsideAParagraph(before: seq<Line>, clause: Line, rest: seq<Line>, blank: Line)
    requires ClauseParagraph(clause, rest, blank) && StatesClause(clause, WasBlank(before, |before|))
    requires RegionAt(before, |before|).Paragraph?
    ensures !Guaranteed(before, clause, rest, blank, [ProseLine()])
  {
    ParagraphReads(before, clause, rest, blank);
    var w := WalkFrom(START, before);
    var c := w.buffer.value;
    assert |c.rest + [ProseLine()]| != |c.rest|;
    NotLonger(w.appended, c, c.(rest := c.rest + [ProseLine()]), Criterion(true, clause, rest));
  }

  /**
   * The exact boundary of the guarantee, to be checked on the text before the place: the list is unchanged and
   * exactly one entry is added, whatever text follows, if and only if the line before is blank and the place lies
   * outside every block and paragraph.
   */
  lemma GuaranteedIff(before: seq<Line>, clause: Line, rest: seq<Line>, blank: Line)
    requires ClauseParagraph(clause, rest, blank)
    ensures (forall after :: Guaranteed(before, clause, rest, blank, after))
       <==> WasBlank(before, |before|) && RegionAt(before, |before|).Silent?
  {
    var region, wasBlank := RegionAt(before, |before|), WasBlank(before, |before|);
    if wasBlank && region.Silent? {
      forall after ensures Guaranteed(before, clause, rest, blank, after) {
        InsertOutsideBlocks(before, clause, rest, blank, after);
      }
    } else if !StatesClause(clause, wasBlank) {
      NotReadAsClause(before, clause, rest, blank);
    } else if InList(region) {
      InsideTheList(before, clause, rest, blank);
      assert !Guaranteed(before, clause, rest, blank, TwoBullets());
    } else if region.AppendBlock? {
      InsideAnAppendedBlock(before, clause, rest, blank);
    } else if wasBlank {
      InsideAParagraph(before, clause, rest, blank);
    } else {
      WithoutTheBlankLine(before, clause, rest, blank);
    }
  }
}
