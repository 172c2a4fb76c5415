/** What the walk means: which lines open a criterion, in which list, and which lines continue it. */
module CriteriaReading {
  import opened Common
  import opened CriteriaParser

  // ---- The declarative reading ----

  predicate WasBlank(lines: seq<Line>, i: nat)
    requires i <= |lines|
  {
    i == 0 || lines[i - 1].blankUnquoted
  }

  predicate OpensClause(lines: seq<Line>, i: nat)
    requires i < |lines|
  {
    && lines[i].heading.NoHeading? && !lines[i].addToList && !lines[i].listOpener
    && (if WasBlank(lines, i) then lines[i].clauseAfterBlank else lines[i].clauseOtherwise)
  }

  /** A line that says what the lines after it are. */
  predicate Governs(lines: seq<Line>, i: nat)
    requires i < |lines|
  {
    !lines[i].heading.NoHeading? || lines[i].addToList || lines[i].listOpener || OpensClause(lines, i)
  }

  /** The last governing line before line n. */
  function Governor(lines: seq<Line>, n: nat): (g: Option<nat>)
    requires n <= |lines|
    ensures g.Some? ==> g.value < n && Governs(lines, g.value)
    ensures forall k :: (if g.Some? then g.value + 1 else 0) <= k < n ==> !Governs(lines, k)
  {
    if n == 0 then None
    else if Governs(lines, n - 1) then Some(n - 1)
    else Governor(lines, n - 1)
  }

  predicate EndsParagraph(line: Line) {
    line.blankUnquoted || line.bulletUnquoted
  }

  datatype Region = Silent | ListBlock | ReplaceBlock | AppendBlock | Paragraph

  /** What line n stands in. */
  function RegionAt(lines: seq<Line>, n: nat): Region
    requires n <= |lines|
  {
    match Governor(lines, n)
    case None => Silent
    case Some(g) =>
      if lines[g].heading.CriteriaHeading? then ListBlock
      else if lines[g].heading.ReplacesHeading? then ReplaceBlock
      else if lines[g].heading.OtherHeading? then Silent
      else if lines[g].addToList then ListBlock
      else if lines[g].listOpener then AppendBlock
      else if forall k :: g < k < n ==> !EndsParagraph(lines[k]) then Paragraph
      else Silent
  }

  predicate ListedAt(lines: seq<Line>, i: nat)
    requires i < |lines|
  {
    !Governs(lines, i) && lines[i].bullet && (RegionAt(lines, i).ListBlock? || RegionAt(lines, i).ReplaceBlock?)
  }

  predicate AppendedAt(lines: seq<Line>, i: nat)
    requires i < |lines|
  {
    OpensClause(lines, i) || (!Governs(lines, i) && lines[i].bullet && RegionAt(lines, i).AppendBlock?)
  }

  predicate Below(q: seq<nat>, n: nat) {
    forall i :: 0 <= i < |q| ==> q[i] < n
  }

  function AppendedOpeners(lines: seq<Line>, n: nat): (q: seq<nat>)
    requires n <= |lines|
    ensures Below(q, n) && forall i :: 0 <= i < |q| ==> AppendedAt(lines, q[i])
    ensures forall o: nat :: o < n && AppendedAt(lines, o) ==> o in q
    ensures forall i, j :: 0 <= i < j < |q| ==> q[i] < q[j]
  {
    if n == 0 then []
    else
      var prior := AppendedOpeners(lines, n - 1);
      if AppendedAt(lines, n - 1) then prior + [n - 1] else prior
  }

  /** The bullets of the list, in order; the first bullet of a replacing block that finds an entry removes it. */
  function ListedOpeners(lines: seq<Line>, n: nat): (q: seq<nat>)
    requires n <= |lines|
    ensures Below(q, n) && forall i :: 0 <= i < |q| ==> ListedAt(lines, q[i])
    ensures forall i, j :: 0 <= i < j < |q| ==> q[i] < q[j]
    decreases n, 0
  {
    if n == 0 then []
    else
      var prior := ListedOpeners(lines, n - 1);
      if !ListedAt(lines, n - 1) then prior
      else if Armed(lines, n - 1) && prior != [] then prior[..|prior| - 1] + [n - 1]
      else prior + [n - 1]
  }

  /** In a replacing block none of whose bullets has found an entry to remove yet. */
  predicate Armed(lines: seq<Line>, n: nat)
    requires n <= |lines|
    decreases n, 1
  {
    RegionAt(lines, n).ReplaceBlock? &&
    forall k: nat :: Governor(lines, n).value < k < n && lines[k].bullet ==> ListedOpeners(lines, k) == []
  }

  /** Line i continues a criterion opened at line o, if the lines between them do. */
  predicate Continues(lines: seq<Line>, o: nat, i: nat)
    requires o < i < |lines|
  {
    && !Governs(lines, i)
    && (if OpensClause(lines, o) then !EndsParagraph(lines[i])
        else !lines[i].bullet && lines[i].indented && !lines[i].blank)
  }

  /** The end of the unbroken run of continuation lines after o, looking no further than n. */
  function RunEnd(lines: seq<Line>, o: nat, n: nat): (e: nat)
    requires o < n <= |lines|
    ensures o < e <= n
    ensures forall k :: o < k < e ==> Continues(lines, o, k)
    ensures e < n ==> !Continues(lines, o, e)
  {
    if n == o + 1 then n
    else
      var e := RunEnd(lines, o, n - 1);
      if e == n - 1 && Continues(lines, o, e) then n else e
  }

  function Entry(lines: seq<Line>, o: nat, n: nat): Criterion
    requires o < n <= |lines|
  {
    Criterion(OpensClause(lines, o), lines[o], lines[o + 1..RunEnd(lines, o, n)])
  }

  function Entries(lines: seq<Line>, openers: seq<nat>, n: nat): (q: seq<Criterion>)
    requires n <= |lines| && Below(openers, n)
    ensures |q| == |openers|
    ensures forall i :: 0 <= i < |q| ==> q[i] == Entry(lines, openers[i], n)
  {
    if openers == [] then []
    else
      Entries(lines, openers[..|openers| - 1], n) + [Entry(lines, openers[|openers| - 1], n)]
  }

  // ---- The walk computes it ----

  function ModeOf(lines: seq<Line>, n: nat): Mode
    requires n <= |lines|
  {
    match RegionAt(lines, n)
    case Silent => NoMode
    case ListBlock => Collect
    case AppendBlock => Collect
    case Paragraph => Clause
    case ReplaceBlock => if Armed(lines, n) then Replace else Collect
  }

  function TargetOf(region: Region): Target {
    if region.AppendBlock? || region.Paragraph? then Appended else Listed
  }

  ghost predicate AllEnded(lines: seq<Line>, openers: seq<nat>, n: nat)
    requires n <= |lines| && Below(openers, n)
  {
    forall i :: 0 <= i < |openers| ==> RunEnd(lines, openers[i], n) < n
  }

  /** The lists so far, one entry possibly still open in the buffer. */
  ghost predicate Holds(lines: seq<Line>, openers: seq<nat>, n: nat, done: seq<Criterion>, open: Option<Criterion>)
    requires n <= |lines| && Below(openers, n)
  {
    match open
    case None => AllEnded(lines, openers, n) && done == Entries(lines, openers, n)
    case Some(c) =>
      && openers != []
      && (var o := openers[|openers| - 1]; var before := openers[..|openers| - 1];
          && RunEnd(lines, o, n) == n && c == Entry(lines, o, n)
          && AllEnded(lines, before, n) && done == Entries(lines, before, n))
  }

  /** The automaton's variables, read off the lines. */
  ghost predicate ReadsState(lines: seq<Line>, n: nat, w: Walk)
    requires n <= |lines|
  {
    && w.previousBlank == WasBlank(lines, n)
    && w.mode == ModeOf(lines, n)
    && (!RegionAt(lines, n).Silent? ==> w.target == TargetOf(RegionAt(lines, n)))
    && (RegionAt(lines, n).Silent? ==> w.buffer == None)
    && (RegionAt(lines, n).Paragraph? ==> w.buffer.Some? && w.buffer.value.byClause)
    && (w.buffer.Some? && !RegionAt(lines, n).Paragraph? ==> !w.buffer.value.byClause)
  }

  /** The two lists and the buffer against the two lists of openers. */
  ghost predicate HoldsBoth(lines: seq<Line>, l: seq<nat>, a: seq<nat>, n: nat, w: Walk)
    requires n <= |lines| && Below(l, n) && Below(a, n)
  {
    && Holds(lines, l, n, w.listed, if w.target.Listed? then w.buffer else None)
    && Holds(lines, a, n, w.appended, if w.target.Appended? then w.buffer else None)
  }

  ghost predicate Reads(lines: seq<Line>, n: nat, w: Walk)
    requires n <= |lines|
  {
    ReadsState(lines, n, w) && HoldsBoth(lines, ListedOpeners(lines, n), AppendedOpeners(lines, n), n, w)
  }

  lemma {:induction false} StillEnded(lines: seq<Line>, openers: seq<nat>, n: nat)
    requires n < |lines| && Below(openers, n)
    requires AllEnded(lines, openers, n)
    ensures AllEnded(lines, openers, n + 1) && Entries(lines, openers, n + 1) == Entries(lines, openers, n)
  {
    if openers != [] {
      StillEnded(lines, openers[..|openers| - 1], n);
    }
  }

  /** Line n does not continue the open entry: closing it leaves every entry ended. */
  lemma HoldsClosed(lines: seq<Line>, openers: seq<nat>, n: nat, done: seq<Criterion>, open: Option<Criterion>)
    requires n < |lines| && Below(openers, n)
    requires Holds(lines, openers, n, done, open)
    requires open.Some? ==> !Continues(lines, openers[|openers| - 1], n)
    ensures Holds(lines, openers, n + 1, if open.Some? then done + [open.value] else done, None)
    ensures |done| + (if open.Some? then 1 else 0) == |openers|
  {
    match open
    case None => StillEnded(lines, openers, n);
    case Some(c) =>
      var o, before := openers[|openers| - 1], openers[..|openers| - 1];
      StillEnded(lines, before, n);
      assert Entry(lines, o, n + 1) == c;
  }

  /** Line n continues the open entry. */
  lemma HoldsContinued(lines: seq<Line>, openers: seq<nat>, n: nat, done: seq<Criterion>, c: Criterion)
    requires n < |lines| && Below(openers, n)
    requires Holds(lines, openers, n, done, Some(c))
    requires Continues(lines, openers[|openers| - 1], n)
    ensures Holds(lines, openers, n + 1, done, Some(c.(rest := c.rest + [lines[n]])))
  {
    var o, before := openers[|openers| - 1], openers[..|openers| - 1];
    StillEnded(lines, before, n);
    assert lines[o + 1..n + 1] == lines[o + 1..n] + [lines[n]];
  }

  /** Line n opens an entry after ended ones. */
  lemma HoldsOpened(lines: seq<Line>, openers: seq<nat>, n: nat, done: seq<Criterion>)
    requires n < |lines| && Below(openers, n)
    requires Holds(lines, openers, n + 1, done, None)
    ensures Holds(lines, openers + [n], n + 1, done, Some(Criterion(OpensClause(lines, n), lines[n], [])))
  {
    var all := openers + [n];
    assert all[..|all| - 1] == openers && all[|all| - 1] == n;
    assert lines[n + 1..n + 1] == [];
  }

  // ---- One line ----

  /** The last opener of the list the buffer belongs to. */
  ghost predicate OpenContinues(lines: seq<Line>, n: nat, w: Walk)
    requires n < |lines| && Reads(lines, n, w) && w.buffer.Some?
  {
    var openers := if w.target.Listed? then ListedOpeners(lines, n) else AppendedOpeners(lines, n);
    Continues(lines, openers[|openers| - 1], n)
  }

  /** The open entry is a clause exactly when the walk stands in a clause paragraph. */
  lemma OpenKind(lines: seq<Line>, n: nat, openers: seq<nat>, done: seq<Criterion>, c: Criterion)
    requires n <= |lines| && Below(openers, n) && Holds(lines, openers, n, done, Some(c))
    ensures openers != [] && c.byClause == OpensClause(lines, openers[|openers| - 1])
  {}

  /** Whether line n continues the buffer, read off the line itself. */
  lemma ContinuationRule(lines: seq<Line>, n: nat, w: Walk)
    requires n < |lines|
    ensures Reads(lines, n, w) && w.buffer.Some? ==>
      (OpenContinues(lines, n, w) <==>
        && !Governs(lines, n)
        && (if RegionAt(lines, n).Paragraph? then !EndsParagraph(lines[n])
            else !lines[n].bullet && lines[n].indented && !lines[n].blank))
  {
    if Reads(lines, n, w) && w.buffer.Some? {
      if w.target.Listed? {
        OpenKind(lines, n, ListedOpeners(lines, n), w.listed, w.buffer.value);
      } else {
        OpenKind(lines, n, AppendedOpeners(lines, n), w.appended, w.buffer.value);
      }
    }
  }

  lemma BothClosed(lines: seq<Line>, l: seq<nat>, a: seq<nat>, n: nat, w: Walk)
    requires n < |lines| && Below(l, n) && Below(a, n) && HoldsBoth(lines, l, a, n, w)
    requires w.buffer.Some? ==>
      var openers := if w.target.Listed? then l else a; openers != [] && !Continues(lines, openers[|openers| - 1], n)
    ensures Holds(lines, l, n + 1, Close(w).listed, None) && Holds(lines, a, n + 1, Close(w).appended, None)
    ensures |Close(w).listed| == |l|
  {
    HoldsClosed(lines, l, n, w.listed, if w.target.Listed? then w.buffer else None);
    HoldsClosed(lines, a, n, w.appended, if w.target.Appended? then w.buffer else None);
  }

  /** Closing the buffer on a line that does not continue it. */
  lemma ClosedHolds(lines: seq<Line>, n: nat, w: Walk)
    requires n < |lines| && Reads(lines, n, w)
    requires w.buffer.Some? ==> !OpenContinues(lines, n, w)
    ensures Holds(lines, ListedOpeners(lines, n), n + 1, Close(w).listed, None)
    ensures Holds(lines, AppendedOpeners(lines, n), n + 1, Close(w).appended, None)
    ensures |Close(w).listed| == |ListedOpeners(lines, n)|
  {
    BothClosed(lines, ListedOpeners(lines, n), AppendedOpeners(lines, n), n, w);
  }

  /** What a governing line makes of the lines after it. */
  lemma GoverningRegion(lines: seq<Line>, n: nat)
    requires n < |lines| && Governs(lines, n)
    ensures ListedOpeners(lines, n + 1) == ListedOpeners(lines, n)
    ensures AppendedOpeners(lines, n + 1) == AppendedOpeners(lines, n) + if OpensClause(lines, n) then [n] else []
    ensures Governor(lines, n + 1) == Some(n)
    ensures RegionAt(lines, n + 1).ReplaceBlock? ==> Armed(lines, n + 1)
    ensures RegionAt(lines, n + 1).Paragraph? <==> OpensClause(lines, n)
  {}

  /** The walk's state after a governing line, read off the line. */
  lemma GoverningStep(lines: seq<Line>, n: nat, w: Walk)
    requires n < |lines| && Governs(lines, n) && w.previousBlank == WasBlank(lines, n)
    ensures var after := Step(w, lines[n]);
            && after.listed == Close(w).listed && after.appended == Close(w).appended
            && after.mode == ModeOf(lines, n + 1) && after.target == TargetOf(RegionAt(lines, n + 1))
            && after.previousBlank == lines[n].blankUnquoted
            && after.buffer == if OpensClause(lines, n) then Some(Criterion(true, lines[n], [])) else None
  {
    GoverningRegion(lines, n);
  }

  lemma StepGoverning(lines: seq<Line>, n: nat, w: Walk)
    requires n < |lines| && Reads(lines, n, w) && Governs(lines, n)
    ensures Reads(lines, n + 1, Step(w, lines[n]))
  {
    GoverningRegion(lines, n);
    GoverningStep(lines, n, w);
    GoverningHolds(lines, n, w);
  }

  /** The lists of openers after a governing line, against the closed lists of the walk. */
  lemma GoverningHolds(lines: seq<Line>, n: nat, w: Walk)
    requires n < |lines| && Reads(lines, n, w) && Governs(lines, n)
    ensures Holds(lines, ListedOpeners(lines, n), n + 1, Close(w).listed, None)
    ensures if OpensClause(lines, n) then
        Holds(lines, AppendedOpeners(lines, n) + [n], n + 1, Close(w).appended, Some(Criterion(true, lines[n], [])))
      else Holds(lines, AppendedOpeners(lines, n), n + 1, Close(w).appended, None)
  {
    if w.buffer.Some? {
      ContinuationRule(lines, n, w);
    }
    ClosedHolds(lines, n, w);
    if OpensClause(lines, n) {
      HoldsOpened(lines, AppendedOpeners(lines, n), n, Close(w).appended);
    }
  }

  /** A line that governs nothing leaves the governing line in place. */
  lemma RegionAfter(lines: seq<Line>, n: nat)
    requires n < |lines| && !Governs(lines, n)
    ensures RegionAt(lines, n + 1) ==
      if RegionAt(lines, n).Paragraph? && EndsParagraph(lines[n]) then Silent else RegionAt(lines, n)
    ensures Armed(lines, n + 1) <==> Armed(lines, n) && (lines[n].bullet ==> ListedOpeners(lines, n) == [])
  {
    assert Governor(lines, n + 1) == Governor(lines, n);
    if Governor(lines, n).Some? {
      var g := Governor(lines, n).value;
      assert (forall k :: g < k < n + 1 ==> !EndsParagraph(lines[k]))
        <==> (forall k :: g < k < n ==> !EndsParagraph(lines[k])) && !EndsParagraph(lines[n]);
      if RegionAt(lines, n).ReplaceBlock? && Armed(lines, n) && (lines[n].bullet ==> ListedOpeners(lines, n) == []) {
        forall k: nat | g < k < n + 1 && lines[k].bullet ensures ListedOpeners(lines, k) == [] {}
      }
    }
  }

  lemma ParagraphRegion(lines: seq<Line>, n: nat)
    requires n < |lines| && !Governs(lines, n) && RegionAt(lines, n).Paragraph?
    ensures ListedOpeners(lines, n + 1) == ListedOpeners(lines, n)
    ensures AppendedOpeners(lines, n + 1) == AppendedOpeners(lines, n)
    ensures RegionAt(lines, n + 1) == if EndsParagraph(lines[n]) then Silent else Paragraph
  {
    RegionAfter(lines, n);
  }

  lemma ParagraphState(lines: seq<Line>, n: nat, w: Walk)
    requires n < |lines| && ReadsState(lines, n, w) && !Governs(lines, n) && RegionAt(lines, n).Paragraph?
    ensures var marked := w.(previousBlank := lines[n].blankUnquoted);
            Step(w, lines[n])
            == if EndsParagraph(lines[n]) then Close(marked).(mode := NoMode) else Continue(marked, lines[n])
    ensures ReadsState(lines, n + 1, Step(w, lines[n]))
  {
    ParagraphRegion(lines, n);
    PlainStep(w, lines[n]);
  }

  lemma StepParagraph(lines: seq<Line>, n: nat, w: Walk)
    requires n < |lines| && Reads(lines, n, w) && !Governs(lines, n) && RegionAt(lines, n).Paragraph?
    ensures Reads(lines, n + 1, Step(w, lines[n]))
  {
    ParagraphRegion(lines, n);
    ParagraphState(lines, n, w);
    ContinuationRule(lines, n, w);
    if EndsParagraph(lines[n]) {
      ClosedHolds(lines, n, w);
    } else {
      HoldsContinued(lines, AppendedOpeners(lines, n), n, w.appended, w.buffer.value);
      HoldsClosed(lines, ListedOpeners(lines, n), n, w.listed, None);
    }
  }

  /** A line that governs nothing, seen from the automaton alone. */
  lemma PlainStep(w: Walk, line: Line)
    requires line.heading.NoHeading? && !line.addToList && !line.listOpener && !StatesClause(line, w.previousBlank)
    ensures var marked := w.(previousBlank := line.blankUnquoted);
            Step(w, line) ==
              if w.mode.Clause? then
                if EndsParagraph(line) then Close(marked).(mode := NoMode) else Continue(marked, line)
              else if w.mode.NoMode? then marked
              else if line.bullet then OpenBullet(marked, line)
              else if w.buffer.Some? && line.indented && !line.blank then Continue(marked, line)
              else Close(marked)
  {}

  lemma OpenBulletIs(w: Walk, line: Line)
    requires w.mode.Replace? ==> w.target.Listed?
    ensures var popped := w.mode.Replace? && Close(w).listed != [];
            var after := OpenBullet(w, line);
            && after.listed == (if popped then Close(w).listed[..|Close(w).listed| - 1] else Close(w).listed)
            && after.appended == Close(w).appended && after.target == w.target && after.previousBlank == w.previousBlank
            && after.mode == (if popped then Collect else w.mode)
            && after.buffer == Some(Criterion(false, line, []))
  {}

  lemma StepSilent(lines: seq<Line>, n: nat, w: Walk)
    requires n < |lines| && Reads(lines, n, w) && !Governs(lines, n) && RegionAt(lines, n).Silent?
    ensures Reads(lines, n + 1, Step(w, lines[n]))
  {
    SilentState(lines, n, w);
    ClosedHolds(lines, n, w);
  }

  lemma SilentState(lines: seq<Line>, n: nat, w: Walk)
    requires n < |lines| && ReadsState(lines, n, w) && !Governs(lines, n) && RegionAt(lines, n).Silent?
    ensures Step(w, lines[n]) == w.(previousBlank := lines[n].blankUnquoted)
    ensures ReadsState(lines, n + 1, Step(w, lines[n]))
  {
    RegionAfter(lines, n);
    PlainStep(w, lines[n]);
  }

  lemma BulletRegion(lines: seq<Line>, n: nat)
    requires n < |lines| && !Governs(lines, n) && lines[n].bullet
    requires !RegionAt(lines, n).Paragraph? && !RegionAt(lines, n).Silent?
    ensures TargetOf(RegionAt(lines, n)).Listed? ==>
              var l := ListedOpeners(lines, n); var popped := ModeOf(lines, n).Replace? && l != [];
              && AppendedOpeners(lines, n + 1) == AppendedOpeners(lines, n)
              && ListedOpeners(lines, n + 1) == (if popped then l[..|l| - 1] else l) + [n]
    ensures TargetOf(RegionAt(lines, n)).Appended? ==>
              && ListedOpeners(lines, n + 1) == ListedOpeners(lines, n)
              && AppendedOpeners(lines, n + 1) == AppendedOpeners(lines, n) + [n]
              && !ModeOf(lines, n).Replace?
    ensures ModeOf(lines, n + 1) ==
      if ModeOf(lines, n).Replace? && ListedOpeners(lines, n) != [] then Collect else ModeOf(lines, n)
    ensures RegionAt(lines, n + 1) == RegionAt(lines, n)
    ensures !OpensClause(lines, n)
  {
    RegionAfter(lines, n);
  }

  lemma BulletState(lines: seq<Line>, n: nat, w: Walk)
    requires n < |lines| && ReadsState(lines, n, w) && !Governs(lines, n) && lines[n].bullet
    requires !RegionAt(lines, n).Paragraph? && !RegionAt(lines, n).Silent?
    requires Close(w).listed == [] <==> ListedOpeners(lines, n) == []
    ensures ReadsState(lines, n + 1, Step(w, lines[n]))
    ensures Step(w, lines[n]).target == TargetOf(RegionAt(lines, n))
    ensures Step(w, lines[n]).buffer == Some(Criterion(false, lines[n], []))
    ensures Step(w, lines[n]).appended == Close(w).appended
    ensures var popped := ModeOf(lines, n).Replace? && ListedOpeners(lines, n) != [];
            Step(w, lines[n]).listed == if popped then Close(w).listed[..|Close(w).listed| - 1] else Close(w).listed
  {
    var marked := w.(previousBlank := lines[n].blankUnquoted);
    PlainStep(w, lines[n]);
    OpenBulletIs(marked, lines[n]);
    assert Close(marked).listed == Close(w).listed && Close(marked).appended == Close(w).appended;
    BulletRegion(lines, n);
  }

  /** Opening a bullet in one list, its last entry removed first or not. */
  lemma HoldsBullet(lines: seq<Line>, n: nat, openers: seq<nat>, popped: bool, closed: seq<Criterion>, c: Criterion)
    requires n < |lines| && Below(openers, n) && Holds(lines, openers, n + 1, closed, None)
    requires popped ==> openers != []
    requires c == Criterion(OpensClause(lines, n), lines[n], [])
    ensures |closed| == |openers|
    ensures Holds(lines, (if popped then openers[..|openers| - 1] else openers) + [n], n + 1,
                  if popped then closed[..|closed| - 1] else closed, Some(c))
  {
    if popped {
      HoldsOpened(lines, openers[..|openers| - 1], n, closed[..|closed| - 1]);
    } else {
      HoldsOpened(lines, openers, n, closed);
    }
  }

  /** The same for both lists, the walk's state taken apart. */
  lemma BothBullet(lines: seq<Line>, n: nat, l: seq<nat>, a: seq<nat>, closed: Walk, popped: bool, after: Walk)
    requires n < |lines| && Below(l, n) && Below(a, n) && !OpensClause(lines, n)
    requires Holds(lines, l, n + 1, closed.listed, None) && Holds(lines, a, n + 1, closed.appended, None)
    requires popped ==> l != [] && after.target.Listed?
    requires after.buffer == Some(Criterion(false, lines[n], [])) && after.appended == closed.appended
    requires |closed.listed| == |l|
    requires after.listed == if popped then closed.listed[..|l| - 1] else closed.listed
    ensures after.target.Listed? ==> HoldsBoth(lines, (if popped then l[..|l| - 1] else l) + [n], a, n + 1, after)
    ensures after.target.Appended? ==> HoldsBoth(lines, l, a + [n], n + 1, after)
  {
    if after.target.Listed? {
      HoldsBullet(lines, n, l, popped, closed.listed, after.buffer.value);
    } else {
      HoldsBullet(lines, n, a, false, closed.appended, after.buffer.value);
    }
  }

  lemma BulletCloses(lines: seq<Line>, n: nat, w: Walk)
    requires n < |lines| && Reads(lines, n, w) && lines[n].bullet && !RegionAt(lines, n).Paragraph?
    ensures Holds(lines, ListedOpeners(lines, n), n + 1, Close(w).listed, None)
    ensures Holds(lines, AppendedOpeners(lines, n), n + 1, Close(w).appended, None)
    ensures |Close(w).listed| == |ListedOpeners(lines, n)|
  {
    if w.buffer.Some? {
      ContinuationRule(lines, n, w);
    }
    ClosedHolds(lines, n, w);
  }

  lemma StepBullet(lines: seq<Line>, n: nat, w: Walk)
    requires n < |lines| && Reads(lines, n, w) && !Governs(lines, n) && lines[n].bullet
    requires !RegionAt(lines, n).Paragraph? && !RegionAt(lines, n).Silent?
    ensures Reads(lines, n + 1, Step(w, lines[n]))
  {
    var l, a := ListedOpeners(lines, n), AppendedOpeners(lines, n);
    var popped := ModeOf(lines, n).Replace? && l != [];
    BulletCloses(lines, n, w);
    BulletState(lines, n, w);
    BulletRegion(lines, n);
    BothBullet(lines, n, l, a, Close(w), popped, Step(w, lines[n]));
  }

  lemma InBlockRegion(lines: seq<Line>, n: nat)
    requires n < |lines| && !Governs(lines, n) && !lines[n].bullet
    requires !RegionAt(lines, n).Paragraph? && !RegionAt(lines, n).Silent?
    ensures ListedOpeners(lines, n + 1) == ListedOpeners(lines, n)
    ensures AppendedOpeners(lines, n + 1) == AppendedOpeners(lines, n)
    ensures ModeOf(lines, n + 1) == ModeOf(lines, n) && RegionAt(lines, n + 1) == RegionAt(lines, n)
    ensures !OpensClause(lines, n)
  {
    RegionAfter(lines, n);
  }

  lemma InBlockState(lines: seq<Line>, n: nat, w: Walk)
    requires n < |lines| && Reads(lines, n, w) && !Governs(lines, n) && !lines[n].bullet
    requires !RegionAt(lines, n).Paragraph? && !RegionAt(lines, n).Silent?
    ensures var marked := w.(previousBlank := lines[n].blankUnquoted);
            Step(w, lines[n])
            == if w.buffer.Some? && lines[n].indented && !lines[n].blank then Continue(marked, lines[n])
               else Close(marked)
    ensures ReadsState(lines, n + 1, Step(w, lines[n]))
  {
    InBlockRegion(lines, n);
    PlainStep(w, lines[n]);
  }

  lemma StepInBlock(lines: seq<Line>, n: nat, w: Walk)
    requires n < |lines| && Reads(lines, n, w) && !Governs(lines, n) && !lines[n].bullet
    requires !RegionAt(lines, n).Paragraph? && !RegionAt(lines, n).Silent?
    ensures Reads(lines, n + 1, Step(w, lines[n]))
  {
    InBlockRegion(lines, n);
    InBlockState(lines, n, w);
    var l, a := ListedOpeners(lines, n), AppendedOpeners(lines, n);
    if w.buffer.Some? {
      ContinuationRule(lines, n, w);
    }
    if w.buffer.Some? && lines[n].indented && !lines[n].blank {
      if w.target.Listed? {
        HoldsContinued(lines, l, n, w.listed, w.buffer.value);
        HoldsClosed(lines, a, n, w.appended, None);
      } else {
        HoldsContinued(lines, a, n, w.appended, w.buffer.value);
        HoldsClosed(lines, l, n, w.listed, None);
      }
    } else {
      ClosedHolds(lines, n, w);
    }
  }

  lemma {:induction false} WalkReads(lines: seq<Line>, n: nat)
    requires n <= |lines|
    ensures Reads(lines, n, WalkFrom(START, lines[..n]))
  {
    if n == 0 {
      assert lines[..0] == [];
    } else {
      var m := n - 1;
      WalkReads(lines, m);
      WalkSnoc(START, lines, m);
      var w := WalkFrom(START, lines[..m]);
      if Governs(lines, m) {
        StepGoverning(lines, m, w);
      } else if RegionAt(lines, m).Paragraph? {
        StepParagraph(lines, m, w);
      } else if RegionAt(lines, m).Silent? {
        StepSilent(lines, m, w);
      } else if lines[m].bullet {
        StepBullet(lines, m, w);
      } else {
        StepInBlock(lines, m, w);
      }
    }
  }

  /**
   * The walk returns exactly the declared reading: one entry per opening line, in document order, each with its
   * unbroken run of continuation lines.
   */
  lemma SplitIsTheReading(lines: seq<Line>)
    ensures Split(lines).0 == Entries(lines, ListedOpeners(lines, |lines|), |lines|)
    ensures Split(lines).1 == Entries(lines, AppendedOpeners(lines, |lines|), |lines|)
  {
    WalkReads(lines, |lines|);
    assert lines[..|lines|] == lines;
    var w := WalkFrom(START, lines);
  }
}
