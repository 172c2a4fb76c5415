/** Reading the completion criteria of a document into its two lists. */
module CriteriaParser {
  // Bullets go to `listed`, inline clauses to `appended`.  A line arrives with the outcome of every pattern
  // the walk tries on it.  A criterion is kept as the lines that feed it; its printed text is a function of
  // them.

  import opened Common

  datatype Heading = NoHeading | CriteriaHeading | ReplacesHeading | OtherHeading

  datatype Line = Line(
    heading: Heading,
    addToList: bool,          // `Add to **Incomplete if**:` alone on its line
    listOpener: bool,         // `**Incomplete if** (...):`, fence removed
    clauseAfterBlank: bool,   // the line states a clause, when the line before it is blank
    clauseOtherwise: bool,    // ... and when it is not
    bullet: bool,             // a dashed or numbered bullet
    bulletUnquoted: bool,     // ... once a blockquote fence is removed
    blank: bool,
    blankUnquoted: bool,
    indented: bool,
    text: string)

  datatype Criterion = Criterion(byClause: bool, opener: Line, rest: seq<Line>)

  datatype Mode = NoMode | Collect | Replace | Clause

  datatype Target = Listed | Appended

  predicate StatesClause(line: Line, wasBlank: bool) {
    if wasBlank then line.clauseAfterBlank else line.clauseOtherwise
  }

  // ---- The walk as a fold ----

  datatype Walk = Walk(
    listed: seq<Criterion>, appended: seq<Criterion>, buffer: Option<Criterion>,
    target: Target, mode: Mode, previousBlank: bool)

  const START := Walk([], [], None, Listed, NoMode, true)

  /** `close_bullet`. */
  function Close(w: Walk): Walk {
    match w.buffer
    case None => w
    case Some(c) =>
      if w.target.Listed? then w.(listed := w.listed + [c], buffer := None)
      else w.(appended := w.appended + [c], buffer := None)
  }

  function Enter(w: Walk, target: Target, mode: Mode): Walk {
    Close(w).(target := target, mode := mode)
  }

  function Continue(w: Walk, line: Line): Walk {
    match w.buffer
    case None => w.(buffer := Some(Criterion(true, line, [])))
    case Some(c) => w.(buffer := Some(c.(rest := c.rest + [line])))
  }

  /** A bullet under a replacing heading first removes the last entry of its target. */
  function OpenBullet(w: Walk, line: Line): Walk {
    var closed := Close(w);
    var fed := Some(Criterion(false, line, []));
    if closed.mode.Replace? && closed.target.Listed? && closed.listed != [] then
      closed.(listed := closed.listed[..|closed.listed| - 1], mode := Collect, buffer := fed)
    else if closed.mode.Replace? && closed.target.Appended? && closed.appended != [] then
      closed.(appended := closed.appended[..|closed.appended| - 1], mode := Collect, buffer := fed)
    else
      closed.(buffer := fed)
  }

  function Step(before: Walk, line: Line): Walk {
    var wasBlank := before.previousBlank;
    var w := before.(previousBlank := line.blankUnquoted);
    if !line.heading.NoHeading? then
      Enter(w, Listed, match line.heading
                       case ReplacesHeading => Replace
                       case CriteriaHeading => Collect
                       case _ => NoMode)
    else if line.addToList then Enter(w, Listed, Collect)
    else if line.listOpener then Enter(w, Appended, Collect)
    else if StatesClause(line, wasBlank) then
      Enter(w, Appended, Clause).(buffer := Some(Criterion(true, line, [])))
    else if w.mode.Clause? then
      if line.blankUnquoted || line.bulletUnquoted then Close(w).(mode := NoMode) else Continue(w, line)
    else if w.mode.NoMode? then w
    else if line.bullet then OpenBullet(w, line)
    else if w.buffer.Some? && line.indented && !line.blank then Continue(w, line)
    else Close(w)
  }

  function WalkFrom(w: Walk, lines: seq<Line>): Walk
    decreases |lines|
  {
    if lines == [] then w else WalkFrom(Step(w, lines[0]), lines[1..])
  }

  function Split(lines: seq<Line>): (seq<Criterion>, seq<Criterion>) {
    var w := Close(WalkFrom(START, lines));
    (w.listed, w.appended)
  }

  lemma {:induction false} WalkConcat(w: Walk, a: seq<Line>, b: seq<Line>)
    ensures WalkFrom(w, a + b) == WalkFrom(WalkFrom(w, a), b)
    decreases |a|
  {
    if a == [] {
      assert a + b == b;
    } else {
      WalkConcat(Step(w, a[0]), a[1..], b);
      assert (a + b)[1..] == a[1..] + b;
    }
  }

  lemma WalkSnoc(w: Walk, lines: seq<Line>, n: nat)
    requires n < |lines|
    ensures WalkFrom(w, lines[..n + 1]) == Step(WalkFrom(w, lines[..n]), lines[n])
  {
    assert lines[..n + 1] == lines[..n] + [lines[n]];
    WalkConcat(w, lines[..n], [lines[n]]);
    assert [lines[n]][1..] == [];
  }

  /** The loop with its variables: the two growing lists, the buffer, the target and the mode. */
  method CriteriaSplit(lines: seq<Line>) returns (listed: seq<Criterion>, appended: seq<Criterion>)
    ensures (listed, appended) == Split(lines)
  {
    listed, appended := [], [];
    var buffer: Option<Criterion> := None;
    var target, mode, previousBlank := Listed, NoMode, true;
    for i := 0 to |lines|
      invariant Walk(listed, appended, buffer, target, mode, previousBlank) == WalkFrom(START, lines[..i])
    {
      WalkSnoc(START, lines, i);
      listed, appended, buffer, target, mode, previousBlank :=
        ReadLine(listed, appended, buffer, target, mode, previousBlank, lines[i]);
    }
    assert lines[..|lines|] == lines;
    listed, appended, buffer := CloseBullet(listed, appended, buffer, target);
  }

  /** The body of the loop. */
  method ReadLine(listed: seq<Criterion>, appended: seq<Criterion>, buffer: Option<Criterion>,
                  target: Target, mode: Mode, wasBlank: bool, line: Line)
    returns (listed': seq<Criterion>, appended': seq<Criterion>, buffer': Option<Criterion>,
             target': Target, mode': Mode, previousBlank: bool)
    ensures Walk(listed', appended', buffer', target', mode', previousBlank)
         == Step(Walk(listed, appended, buffer, target, mode, wasBlank), line)
  {
    listed', appended', buffer', target', mode' := listed, appended, buffer, target, mode;
    previousBlank := line.blankUnquoted;
    if !line.heading.NoHeading? {
      listed', appended', buffer' := CloseBullet(listed, appended, buffer, target);
      target' := Listed;
      if line.heading.ReplacesHeading? {
        mode' := Replace;
      } else if line.heading.CriteriaHeading? {
        mode' := Collect;
      } else {
        mode' := NoMode;
      }
    } else if line.addToList {
      listed', appended', buffer' := CloseBullet(listed, appended, buffer, target);
      target', mode' := Listed, Collect;
    } else if line.listOpener {
      listed', appended', buffer' := CloseBullet(listed, appended, buffer, target);
      target', mode' := Appended, Collect;
    } else if StatesClause(line, wasBlank) {
      listed', appended', buffer' := CloseBullet(listed, appended, buffer, target);
      target', mode' := Appended, Clause;
      buffer' := Some(Criterion(true, line, []));
    } else if mode.Clause? {
      if line.blankUnquoted || line.bulletUnquoted {
        listed', appended', buffer' := CloseBullet(listed, appended, buffer, target);
        mode' := NoMode;
      } else {
        buffer' := Some(if buffer.None? then Criterion(true, line, [])
                        else buffer.value.(rest := buffer.value.rest + [line]));
      }
    } else if mode.NoMode? {
    } else if line.bullet {
      listed', appended', buffer', mode' := FeedBullet(listed, appended, buffer, target, mode, line, previousBlank);
    } else if buffer.Some? && line.indented && !line.blank {
      buffer' := Some(buffer.value.(rest := buffer.value.rest + [line]));
    } else {
      listed', appended', buffer' := CloseBullet(listed, appended, buffer, target);
    }
  }

  /** A bullet of a collecting or replacing block. */
  method FeedBullet(listed: seq<Criterion>, appended: seq<Criterion>, buffer: Option<Criterion>,
                    target: Target, mode: Mode, line: Line, ghost previousBlank: bool)
    returns (listed': seq<Criterion>, appended': seq<Criterion>, buffer': Option<Criterion>, mode': Mode)
    ensures Walk(listed', appended', buffer', target, mode', previousBlank)
         == OpenBullet(Walk(listed, appended, buffer, target, mode, previousBlank), line)
  {
    mode' := mode;
    listed', appended', buffer' := CloseBullet(listed, appended, buffer, target);
    if mode.Replace? {
      if target.Listed? && listed' != [] {
        listed', mode' := listed'[..|listed'| - 1], Collect;
      } else if target.Appended? && appended' != [] {
        appended', mode' := appended'[..|appended'| - 1], Collect;
      }
    }
    buffer' := Some(Criterion(false, line, []));
  }

  method CloseBullet(listed: seq<Criterion>, appended: seq<Criterion>, buffer: Option<Criterion>, target: Target)
    returns (listed': seq<Criterion>, appended': seq<Criterion>, buffer': Option<Criterion>)
    ensures listed' == if buffer.Some? && target.Listed? then listed + [buffer.value] else listed
    ensures appended' == if buffer.Some? && target.Appended? then appended + [buffer.value] else appended
    ensures buffer' == None
  {
    listed', appended', buffer' := listed, appended, None;
    if buffer.Some? {
      if target.Listed? {
        listed' := listed + [buffer.value];
      } else {
        appended' := appended + [buffer.value];
      }
    }
  }
}
