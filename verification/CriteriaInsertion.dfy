/** What the two lists promise to the indexes recorded against them. */
module CriteriaInsertion {
  import opened Common
  import opened CriteriaParser
  import opened CriteriaReading

  // ---- Order and provenance ----

  /**
   * No line feeds two criteria, in one list or across the two, and a criterion whose opening line comes first
   * ends before the next one starts.
   */
  lemma EntriesAreDisjoint(lines: seq<Line>, o: nat, p: nat)
    requires o < p < |lines|
    requires ListedAt(lines, o) || AppendedAt(lines, o)
    requires ListedAt(lines, p) || AppendedAt(lines, p)
    ensures RunEnd(lines, o, |lines|) <= p
    ensures !(ListedAt(lines, o) && AppendedAt(lines, o))
  {
    if RunEnd(lines, o, |lines|) > p {
      assert Continues(lines, o, p);
      if OpensClause(lines, o) {
        ClauseRunIsAParagraph(lines, o, p);
      }
    }
  }

  lemma {:induction false} ClauseRunIsAParagraph(lines: seq<Line>, o: nat, n: nat)
    requires o < n <= |lines| && OpensClause(lines, o)
    requires forall k :: o < k < n ==> Continues(lines, o, k)
    ensures Governor(lines, n) == Some(o) && RegionAt(lines, n).Paragraph?
  {
    if n == o + 1 {
      GoverningRegion(lines, o);
    } else {
      ClauseRunIsAParagraph(lines, o, n - 1);
      assert Continues(lines, o, n - 1);
    }
  }

  /** The established list holds bullets only; whatever is not a bullet is appended. */
  lemma ListedComeFromBullets(lines: seq<Line>)
    ensures forall c :: c in Split(lines).0 ==> !c.byClause && c.opener.bullet
    ensures forall c :: c in Split(lines).1 ==> c.byClause || c.opener.bullet
  {
    SplitIsTheReading(lines);
    var l, a := ListedOpeners(lines, |lines|), AppendedOpeners(lines, |lines|);
    forall c | c in Split(lines).0 ensures !c.byClause && c.opener.bullet {
      var i :| 0 <= i < |l| && Split(lines).0[i] == c;
      assert ListedAt(lines, l[i]) && c == Entry(lines, l[i], |lines|);
    }
    forall c | c in Split(lines).1 ensures c.byClause || c.opener.bullet {
      var i :| 0 <= i < |a| && Split(lines).1[i] == c;
      assert AppendedAt(lines, a[i]) && c == Entry(lines, a[i], |lines|);
    }
  }

  // ---- Inserting a clause ----

  predicate PlainLine(line: Line, wasBlank: bool) {
    line.heading.NoHeading? && !line.addToList && !line.listOpener && !StatesClause(line, wasBlank)
  }

  /** A clause, the rest of its paragraph, and a blank line, to be put after a blank line. */
  ghost predicate ClauseParagraph(clause: Line, rest: seq<Line>, blank: Line) {
    && clause.heading.NoHeading? && !clause.addToList && !clause.listOpener
    && StatesClause(clause, true) && !clause.blankUnquoted
    && (forall i :: 0 <= i < |rest| ==> PlainLine(rest[i], false) && !EndsParagraph(rest[i]))
    && PlainLine(blank, false) && blank.blankUnquoted
  }

  function Inserted(before: seq<Line>, clause: Line, rest: seq<Line>, blank: Line, after: seq<Line>): seq<Line> {
    before + ([clause] + rest + [blank]) + after
  }

  // ---- One line at a time ----

  /** What a governing line sets: target, mode and buffer, whatever the walk was doing. */
  function Governed(line: Line, wasBlank: bool): (Target, Mode, Option<Criterion>)
    requires !PlainLine(line, wasBlank)
  {
    if line.heading.ReplacesHeading? then (Listed, Replace, None)
    else if line.heading.CriteriaHeading? then (Listed, Collect, None)
    else if line.heading.OtherHeading? then (Listed, NoMode, None)
    else if line.addToList then (Listed, Collect, None)
    else if line.listOpener then (Appended, Collect, None)
    else (Appended, Clause, Some(Criterion(true, line, [])))
  }

  lemma GovernedStep(w: Walk, line: Line)
    requires !PlainLine(line, w.previousBlank)
    ensures var (target, mode, buffer) := Governed(line, w.previousBlank);
      Step(w, line) == Walk(Close(w).listed, Close(w).appended, buffer, target, mode, line.blankUnquoted)
  {}

  /** Two walks that differ by one appended entry, and in the target only where it does not matter. */
  ghost predicate OneMore(u: Walk, v: Walk, k: nat, x: Criterion) {
    && u.listed == v.listed && u.buffer == v.buffer && u.mode == v.mode && u.previousBlank == v.previousBlank
    && (u.mode.NoMode? ==> u.buffer.None?)
    && (!u.mode.NoMode? ==> u.target == v.target)
    && (u.mode.Replace? ==> u.target.Listed?)
    && k <= |u.appended|
    && v.appended == u.appended[..k] + [x] + u.appended[k..]
  }

  lemma CloseOneMore(u: Walk, v: Walk, k: nat, x: Criterion)
    requires OneMore(u, v, k, x)
    ensures var s, t := Close(u), Close(v);
            && s.listed == t.listed && s.buffer.None? && t.buffer.None?
            && s.mode == t.mode && s.previousBlank == t.previousBlank
            && s.target == u.target && t.target == v.target
            && k <= |s.appended| && t.appended == s.appended[..k] + [x] + s.appended[k..]
  {}

  lemma GovernedOneMore(u: Walk, v: Walk, line: Line, k: nat, x: Criterion)
    requires OneMore(u, v, k, x) && !PlainLine(line, u.previousBlank)
    ensures OneMore(Step(u, line), Step(v, line), k, x)
  {
    GovernedStep(u, line);
    GovernedStep(v, line);
    CloseOneMore(u, v, k, x);
  }

  lemma BulletOneMore(u: Walk, v: Walk, line: Line, k: nat, x: Criterion)
    requires OneMore(u, v, k, x) && (u.mode.Collect? || u.mode.Replace?)
    ensures OneMore(OpenBullet(u, line), OpenBullet(v, line), k, x)
  {
    OpenBulletIs(u, line);
    OpenBulletIs(v, line);
    CloseOneMore(u, v, k, x);
  }

  lemma PlainOneMore(u: Walk, v: Walk, line: Line, k: nat, x: Criterion)
    requires OneMore(u, v, k, x) && PlainLine(line, u.previousBlank)
    ensures OneMore(Step(u, line), Step(v, line), k, x)
  {
    PlainStep(u, line);
    PlainStep(v, line);
    var p, q := u.(previousBlank := line.blankUnquoted), v.(previousBlank := line.blankUnquoted);
    CloseOneMore(p, q, k, x);
    if (u.mode.Collect? || u.mode.Replace?) && line.bullet {
      BulletOneMore(p, q, line, k, x);
    }
  }

  lemma {:induction false} WalkOneMore(u: Walk, v: Walk, lines: seq<Line>, k: nat, x: Criterion)
    requires OneMore(u, v, k, x)
    ensures OneMore(WalkFrom(u, lines), WalkFrom(v, lines), k, x)
    decreases |lines|
  {
    if lines != [] {
      if PlainLine(lines[0], u.previousBlank) {
        PlainOneMore(u, v, lines[0], k, x);
      } else {
        GovernedOneMore(u, v, lines[0], k, x);
      }
      WalkOneMore(Step(u, lines[0]), Step(v, lines[0]), lines[1..], k, x);
    }
  }

  lemma {:induction false} WalkParagraph(w: Walk, rest: seq<Line>, c: Criterion)
    requires w.mode.Clause? && w.target.Appended? && w.buffer == Some(c) && !w.previousBlank
    requires forall i :: 0 <= i < |rest| ==> PlainLine(rest[i], false) && !EndsParagraph(rest[i])
    ensures WalkFrom(w, rest) == w.(buffer := Some(c.(rest := c.rest + rest)))
    decreases |rest|
  {
    if rest == [] {
      assert c.rest + rest == c.rest;
    } else {
      PlainStep(w, rest[0]);
      WalkParagraph(Step(w, rest[0]), rest[1..], c.(rest := c.rest + [rest[0]]));
      assert c.rest + [rest[0]] + rest[1..] == c.rest + rest;
    }
  }

  /** Reading an inserted clause paragraph: its entry is appended and nothing else but the mode and target moves. */
  lemma ReadParagraph(w: Walk, clause: Line, rest: seq<Line>, blank: Line)
    requires ClauseParagraph(clause, rest, blank) && StatesClause(clause, w.previousBlank)
    ensures var closed := Close(w);
            WalkFrom(w, [clause] + rest + [blank])
            == Walk(closed.listed, closed.appended + [Criterion(true, clause, rest)], None, Appended, NoMode, true)
  {
    var c := Criterion(true, clause, []);
    var w1 := Step(w, clause);
    WalkConcat(w, [clause] + rest, [blank]);
    WalkConcat(w, [clause], rest);
    assert [clause][1..] == [] && [blank][1..] == [];
    GovernedStep(w, clause);
    assert w1 == Walk(Close(w).listed, Close(w).appended, Some(c), Appended, Clause, false);
    WalkParagraph(w1, rest, c);
    assert c.rest + rest == rest;
    PlainStep(WalkFrom(w1, rest), blank);
  }

  /** What the walk knows after a text, read off the text. */
  lemma ReadsText(before: seq<Line>)
    ensures ReadsState(before, |before|, WalkFrom(START, before))
  {
    WalkReads(before, |before|);
    assert before[..|before|] == before;
  }

  lemma WalkThree(w: Walk, a: seq<Line>, b: seq<Line>, c: seq<Line>)
    ensures WalkFrom(w, a + b + c) == WalkFrom(WalkFrom(WalkFrom(w, a), b), c)
  {
    WalkConcat(w, a + b, c);
    WalkConcat(w, a, b);
  }

  /**
   * The guarantee the recorded keys rest on: a clause paragraph put after a blank line outside every block
   * leaves the bullet list as it was, and adds one entry to the other list, after those read so far.
   */
  lemma InsertOutsideBlocks(before: seq<Line>, clause: Line, rest: seq<Line>, blank: Line, after: seq<Line>)
    requires ClauseParagraph(clause, rest, blank)
    requires WasBlank(before, |before|) && RegionAt(before, |before|).Silent?
    ensures var k := |Split(before).1|;
            var (l, a) := Split(before + after);
            k <= |a| && Split(Inserted(before, clause, rest, blank, after))
                     == (l, a[..k] + [Criterion(true, clause, rest)] + a[k..])
  {
    var w := WalkFrom(START, before);
    var x := Criterion(true, clause, rest);
    var paragraph := [clause] + rest + [blank];
    ReadsText(before);
    ReadParagraph(w, clause, rest, blank);
    var v := WalkFrom(w, paragraph);
    assert w.appended == w.appended[..|w.appended|] + w.appended[|w.appended|..];
    WalkOneMore(w, v, after, |w.appended|, x);
    CloseOneMore(WalkFrom(w, after), WalkFrom(v, after), |w.appended|, x);
    WalkConcat(START, before, after);
    WalkThree(START, before, paragraph, after);
  }
}
