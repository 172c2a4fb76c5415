/** What a block feeds to the lists, and what an insertion takes away. */
module CriteriaBlocks {
  import opened CriteriaParser
  import opened CriteriaReading
  import opened CriteriaInsertion

  // ---- A block: what follows a governing line, up to the next ----

  predicate BlockLines(lines: seq<Line>, wasBlank: bool) {
    lines == [] || (PlainLine(lines[0], wasBlank) && BlockLines(lines[1..], lines[0].blankUnquoted))
  }

  function BulletCount(lines: seq<Line>): nat {
    if lines == [] then 0 else (if lines[0].bullet then 1 else 0) + BulletCount(lines[1..])
  }

  function LastBlank(lines: seq<Line>, wasBlank: bool): bool {
    if lines == [] then wasBlank else lines[|lines| - 1].blankUnquoted
  }

  /** The block runs to the end of the text or to a governing line. */
  predicate EndsBlock(block: seq<Line>, tail: seq<Line>) {
    tail == [] || !PlainLine(tail[0], LastBlank(block, true))
  }

  predicate NoReplacing(lines: seq<Line>) {
    forall i :: 0 <= i < |lines| ==> !lines[i].heading.ReplacesHeading?
  }

  /**
   * The list after n bullets on top of k entries.  While a replacing block is armed, the first of its bullets that
   * finds an entry removes it, be it an entry of the block itself.
   */
  function ListedAfter(armed: bool, k: nat, n: nat): nat {
    if n == 0 then k
    else if !armed then k + n
    else if k > 0 then k - 1 + n
    else if n == 1 then 1
    else n - 1
  }

  predicate FeedsList(w: Walk) {
    w.target.Listed? && (w.mode.Collect? || w.mode.Replace?)
  }

  lemma {:induction false} WalkBlank(w: Walk, lines: seq<Line>)
    ensures WalkFrom(w, lines).previousBlank == LastBlank(lines, w.previousBlank)
    decreases |lines|
  {
    if lines != [] {
      WalkBlank(Step(w, lines[0]), lines[1..]);
    }
  }

  lemma FeedStep(w: Walk, line: Line)
    requires FeedsList(w) && PlainLine(line, w.previousBlank)
    ensures var after := Step(w, line); var k := |Close(w).listed|;
      && FeedsList(after) && after.previousBlank == line.blankUnquoted
      && Close(after).appended == Close(w).appended
      && |Close(after).listed| == ListedAfter(w.mode.Replace?, k, if line.bullet then 1 else 0)
      && (after.mode.Replace? <==> w.mode.Replace? && (line.bullet ==> k == 0))
  {
    PlainStep(w, line);
    if line.bullet {
      OpenBulletIs(w.(previousBlank := line.blankUnquoted), line);
    }
  }

  lemma {:induction false} WalkFeeds(w: Walk, lines: seq<Line>)
    requires FeedsList(w) && BlockLines(lines, w.previousBlank)
    ensures var after := WalkFrom(w, lines);
      && Close(after).appended == Close(w).appended
      && |Close(after).listed| == ListedAfter(w.mode.Replace?, |Close(w).listed|, BulletCount(lines))
    decreases |lines|
  {
    if lines != [] {
      FeedStep(w, lines[0]);
      WalkFeeds(Step(w, lines[0]), lines[1..]);
    }
  }

  lemma {:induction false} WalkAppends(w: Walk, lines: seq<Line>)
    requires w.mode.Collect? && w.target.Appended? && BlockLines(lines, w.previousBlank)
    ensures var after := WalkFrom(w, lines);
      && Close(after).listed == Close(w).listed
      && |Close(after).appended| == |Close(w).appended| + BulletCount(lines)
    decreases |lines|
  {
    if lines != [] {
      PlainStep(w, lines[0]);
      if lines[0].bullet {
        OpenBulletIs(w.(previousBlank := lines[0].blankUnquoted), lines[0]);
      }
      WalkAppends(Step(w, lines[0]), lines[1..]);
    }
  }

  lemma {:induction false} WalkSilent(w: Walk, lines: seq<Line>)
    requires w.mode.NoMode? && BlockLines(lines, w.previousBlank)
    ensures WalkFrom(w, lines).(previousBlank := w.previousBlank) == w
    decreases |lines|
  {
    if lines != [] {
      PlainStep(w, lines[0]);
      WalkSilent(Step(w, lines[0]), lines[1..]);
    }
  }

  lemma {:induction false} WalkClause(w: Walk, lines: seq<Line>)
    requires w.mode.Clause? && w.target.Appended? && w.buffer.Some? && BlockLines(lines, w.previousBlank)
    ensures var after := WalkFrom(w, lines);
      Close(after).listed == Close(w).listed && |Close(after).appended| == |Close(w).appended|
    decreases |lines|
  {
    if lines != [] {
      PlainStep(w, lines[0]);
      var after := Step(w, lines[0]);
      if after.mode.Clause? {
        WalkClause(after, lines[1..]);
      } else {
        WalkSilent(after, lines[1..]);
      }
    }
  }

  // ---- A replacing block ----

  /** The lists (m, b) after n bullets read in a region where they were (l, a). */
  ghost predicate BlockAdds(region: Region, armed: bool, n: nat,
                            l: seq<Criterion>, a: seq<Criterion>, m: seq<Criterion>, b: seq<Criterion>)
  {
    match region
    case ListBlock => |m| == |l| + n && b == a
    case ReplaceBlock => |m| == ListedAfter(armed, |l|, n) && b == a
    case AppendBlock => m == l && |b| == |a| + n
    case Paragraph => m == l && |b| == |a|
    case Silent => m == l && b == a
  }

  lemma TextThenBlock(before: seq<Line>, block: seq<Line>)
    requires BlockLines(block, WasBlank(before, |before|))
    ensures BlockAdds(RegionAt(before, |before|), Armed(before, |before|), BulletCount(block),
      Split(before).0, Split(before).1, Split(before + block).0, Split(before + block).1)
  {
    var w := WalkFrom(START, before);
    ReadsText(before);
    WalkConcat(START, before, block);
    match RegionAt(before, |before|)
    case ListBlock => WalkFeeds(w, block);
    case ReplaceBlock => WalkFeeds(w, block);
    case AppendBlock => WalkAppends(w, block);
    case Paragraph => WalkClause(w, block);
    case Silent => WalkSilent(w, block);
  }

  /**
   * A heading that replaces the last bullet is meant as a substitution.  With k entries before it and n bullets
   * under it the list ends with k - 1 + n of them if there is something to replace.  If there is not, the second
   * bullet replaces the first: a bullet is lost exactly when k is 0 and n at least 2.
   */
  lemma ReplacingBlock(before: seq<Line>, heading: Line, block: seq<Line>)
    requires heading.heading.ReplacesHeading? && BlockLines(block, heading.blankUnquoted)
    ensures var k, n := |Split(before).0|, BulletCount(block);
      var listed := |Split(before + [heading] + block).0|;
      && listed == ListedAfter(true, k, n)
      && (listed < (if k > 0 then k - 1 else 0) + n <==> k == 0 && n >= 2)
  {
    var w := WalkFrom(START, before);
    var h := Step(w, heading);
    GovernedStep(w, heading);
    WalkThree(START, before, [heading], block);
    assert [heading][1..] == [];
    WalkFeeds(h, block);
  }

  // ---- Two walks whose lists differ in length only ----

  ghost predicate Alike(u: Walk, v: Walk) {
    && u.target == v.target && u.buffer == v.buffer && u.previousBlank == v.previousBlank
    && (u.mode == v.mode || (FeedsList(u) && FeedsList(v)))
    && (u.mode.Replace? || v.mode.Replace? ==> u.target.Listed?)
  }

  lemma GovernedAlike(u: Walk, v: Walk, line: Line)
    requires u.previousBlank == v.previousBlank && !PlainLine(line, u.previousBlank)
    ensures var s, t := Step(u, line), Step(v, line);
      && Alike(s, t) && (s.mode.Replace? || t.mode.Replace? <==> line.heading.ReplacesHeading?)
      && s.listed == Close(u).listed && t.listed == Close(v).listed
      && s.appended == Close(u).appended && t.appended == Close(v).appended
  {
    GovernedStep(u, line);
    GovernedStep(v, line);
  }

  lemma PlainAlike(u: Walk, v: Walk, line: Line)
    requires Alike(u, v) && PlainLine(line, u.previousBlank)
    ensures var s, t := Step(u, line), Step(v, line);
      && Alike(s, t) && |s.appended| - |t.appended| == |u.appended| - |v.appended|
      && (!u.mode.Replace? && !v.mode.Replace? ==>
            !s.mode.Replace? && !t.mode.Replace? && |s.listed| - |t.listed| == |u.listed| - |v.listed|)
  {
    PlainStep(u, line);
    PlainStep(v, line);
    if line.bullet && !u.mode.Clause? && !u.mode.NoMode? {
      OpenBulletIs(u.(previousBlank := line.blankUnquoted), line);
      OpenBulletIs(v.(previousBlank := line.blankUnquoted), line);
    }
  }

  lemma StepAlike(u: Walk, v: Walk, line: Line)
    requires Alike(u, v)
    ensures var s, t := Step(u, line), Step(v, line);
      && Alike(s, t) && |s.appended| - |t.appended| == |u.appended| - |v.appended|
      && (!u.mode.Replace? && !v.mode.Replace? && !line.heading.ReplacesHeading? ==>
            !s.mode.Replace? && !t.mode.Replace? && |s.listed| - |t.listed| == |u.listed| - |v.listed|)
  {
    if PlainLine(line, u.previousBlank) {
      PlainAlike(u, v, line);
    } else {
      GovernedAlike(u, v, line);
    }
  }

  lemma {:induction false} WalkAlike(u: Walk, v: Walk, lines: seq<Line>)
    requires Alike(u, v)
    ensures var s, t := Close(WalkFrom(u, lines)), Close(WalkFrom(v, lines));
      && |s.appended| - |t.appended| == |u.appended| - |v.appended|
      && (!u.mode.Replace? && !v.mode.Replace? && NoReplacing(lines) ==>
          |s.listed| - |t.listed| == |u.listed| - |v.listed|)
    decreases |lines|
  {
    if lines != [] {
      StepAlike(u, v, lines[0]);
      WalkAlike(Step(u, lines[0]), Step(v, lines[0]), lines[1..]);
    }
  }

  /** From the end of a block on, two walks keep the difference their closed lists had there. */
  lemma AfterBlock(u: Walk, v: Walk, block: seq<Line>, tail: seq<Line>)
    requires u.previousBlank == v.previousBlank == LastBlank(block, true) && EndsBlock(block, tail)
    ensures var s, t := Close(WalkFrom(u, tail)), Close(WalkFrom(v, tail));
      && |s.appended| - |t.appended| == |Close(u).appended| - |Close(v).appended|
      && (NoReplacing(tail) ==> |s.listed| - |t.listed| == |Close(u).listed| - |Close(v).listed|)
  {
    if tail != [] {
      GovernedAlike(u, v, tail[0]);
      WalkAlike(Step(u, tail[0]), Step(v, tail[0]), tail[1..]);
    }
  }

  // ---- Inserting a clause at a blank line of any region ----

  lemma SplitAtBlock(before: seq<Line>, clause: Line, rest: seq<Line>, blank: Line, block: seq<Line>, tail: seq<Line>)
    requires ClauseParagraph(clause, rest, blank) && WasBlank(before, |before|)
    requires BlockLines(block, true) && EndsBlock(block, tail)
    ensures var plain := Split(before + block + tail);
            var inserted := Split(Inserted(before, clause, rest, blank, block + tail));
      && |plain.1| - |inserted.1| == |Split(before + block).1| - |Split(before).1| - 1
      && (NoReplacing(tail) ==> |plain.0| - |inserted.0| == |Split(before + block).0| - |Split(before).0|)
  {
    var w := WalkFrom(START, before);
    var paragraph := [clause] + rest + [blank];
    ReadsText(before);
    ReadParagraph(w, clause, rest, blank);
    var p := WalkFrom(w, paragraph);
    var u, v := WalkFrom(w, block), WalkFrom(p, block);
    WalkBlank(w, block);
    WalkBlank(p, block);
    WalkSilent(p, block);
    AfterBlock(u, v, block, tail);
    WalkConcat(START, before, block);
    WalkThree(START, before, block, tail);
    WalkThree(START, before, paragraph, block + tail);
    WalkConcat(p, block, tail);
  }

  /** The entries a clause inserted into a region takes from the list, n bullets of its block still to come. */
  function ListCost(region: Region, armed: bool, k: nat, n: nat): int {
    match region
    case ListBlock => n
    case ReplaceBlock => ListedAfter(armed, k, n) - k
    case AppendBlock => 0
    case Paragraph => 0
    case Silent => 0
  }

  /** The entries it takes from the other list, beside the one it adds. */
  function OtherCost(region: Region, n: nat): nat {
    if region.AppendBlock? then n else 0
  }

  /**
   * What the insertion costs, block by block, whatever follows the block (for the list: whatever holds no replacing
   * heading).  Inside a collecting block every later bullet of the block is lost to the list; inside an armed
   * replacing block its substitution is cancelled with them; inside an appended block they are lost to the other
   * list; in a paragraph and outside every block nothing is lost, and the clause is one entry more.
   */
  lemma InsertionCosts(before: seq<Line>, clause: Line, rest: seq<Line>, blank: Line, block: seq<Line>, tail: seq<Line>)
    requires ClauseParagraph(clause, rest, blank) && WasBlank(before, |before|)
    requires BlockLines(block, true) && EndsBlock(block, tail)
    ensures var plain := Split(before + block + tail);
            var inserted := Split(Inserted(before, clause, rest, blank, block + tail));
      var region, n := RegionAt(before, |before|), BulletCount(block);
      && |inserted.1| == |plain.1| + 1 - OtherCost(region, n)
      && (NoReplacing(tail) ==>
          |inserted.0| == |plain.0| - ListCost(region, Armed(before, |before|), |Split(before).0|, n))
  {
    SplitAtBlock(before, clause, rest, blank, block, tail);
    TextThenBlock(before, block);
  }
}
