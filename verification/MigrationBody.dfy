/** The optional BEGIN/COMMIT pair of a migration file. */
module MigrationBody {
  import opened Common

  datatype SqlLine = Begin(text: string) | CommitLine(text: string) | Code(text: string) | Idle(text: string)

  predicate IsBoundary(line: SqlLine) {
    line.Begin? || line.CommitLine?
  }

  function BoundaryLines(lines: seq<SqlLine>, from: nat): (q: seq<nat>)
    requires from <= |lines|
    ensures forall k :: k in q <==> from <= k < |lines| && IsBoundary(lines[k])
    ensures forall i, j :: 0 <= i < j < |q| ==> q[i] < q[j]
    decreases |lines| - from
  {
    if from == |lines| then []
    else
      var rest := BoundaryLines(lines, from + 1);
      assert forall j :: 0 <= j < |rest| ==> rest[j] in rest;
      if IsBoundary(lines[from]) then [from] + rest else rest
  }

  function CodeLines(lines: seq<SqlLine>, from: nat): (q: seq<nat>)
    requires from <= |lines|
    ensures forall k :: k in q <==> from <= k < |lines| && !lines[k].Idle?
    ensures forall i, j :: 0 <= i < j < |q| ==> q[i] < q[j]
    decreases |lines| - from
  {
    if from == |lines| then []
    else
      var rest := CodeLines(lines, from + 1);
      assert forall j :: 0 <= j < |rest| ==> rest[j] in rest;
      if !lines[from].Idle? then [from] + rest else rest
  }

  function Excluding(lines: seq<SqlLine>, i: nat, j: nat): seq<SqlLine>
    requires i < j < |lines|
  {
    lines[..i] + lines[i + 1..j] + lines[j + 1..]
  }

  function MigrationBody(lines: seq<SqlLine>): Option<seq<SqlLine>> {
    var boundaries := BoundaryLines(lines, 0);
    if boundaries == [] then Some(lines)
    else
      var code := CodeLines(lines, 0);
      assert boundaries[0] in boundaries && boundaries[0] in code;
      if && |boundaries| == 2
         && (assert boundaries[1] in boundaries; lines[boundaries[0]].Begin? && lines[boundaries[1]].CommitLine?)
         && boundaries[0] == code[0] && boundaries[1] == code[|code| - 1]
      then Some(Excluding(lines, boundaries[0], boundaries[1]))
      else None
  }

  /** One outer pair: only idle lines before the BEGIN and after the COMMIT, no boundary in between. */
  ghost predicate Wrapped(lines: seq<SqlLine>, i: nat, j: nat) {
    && i < j < |lines| && lines[i].Begin? && lines[j].CommitLine?
    && (forall k :: 0 <= k < i ==> lines[k].Idle?)
    && (forall k :: i < k < j ==> !IsBoundary(lines[k]))
    && (forall k :: j < k < |lines| ==> lines[k].Idle?)
  }

  lemma TwoElements(q: seq<nat>, i: nat, j: nat)
    requires i < j && i in q && j in q
    requires forall k :: k in q ==> k == i || k == j
    requires forall a, b :: 0 <= a < b < |q| ==> q[a] < q[b]
    ensures q == [i, j]
  {
    var a :| 0 <= a < |q| && q[a] == i;
    var b :| 0 <= b < |q| && q[b] == j;
    assert q[0] in q;
    assert a == 0;
    assert q[1] in q;
    assert b == 1;
    assert q[|q| - 1] in q;
  }

  lemma WrappedBody(lines: seq<SqlLine>, i: nat, j: nat)
    requires Wrapped(lines, i, j)
    ensures MigrationBody(lines) == Some(Excluding(lines, i, j))
  {
    var boundaries, code := BoundaryLines(lines, 0), CodeLines(lines, 0);
    assert i in boundaries && j in boundaries && i in code && j in code;
    TwoElements(boundaries, i, j);
    assert code[0] in code && code[|code| - 1] in code;
  }

  lemma ExcludingRestores(lines: seq<SqlLine>, i: nat, j: nat)
    requires Wrapped(lines, i, j)
    ensures var body := Excluding(lines, i, j);
            && |body| == |lines| - 2
            && (forall k :: 0 <= k < |body| ==> !IsBoundary(body[k]))
            && body[..i] + [lines[i]] + body[i..j - 1] + [lines[j]] + body[j - 1..] == lines
  {
    var body := Excluding(lines, i, j);
    assert body[..i] == lines[..i] && body[i..j - 1] == lines[i + 1..j] && body[j - 1..] == lines[j + 1..];
  }

  /** What is left holds no boundary, and putting the two lines back gives the file again. */
  lemma StripAndRestore(lines: seq<SqlLine>, i: nat, j: nat)
    requires Wrapped(lines, i, j)
    ensures MigrationBody(lines).Some?
    ensures var body := MigrationBody(lines).value;
            && |body| == |lines| - 2
            && (forall k :: 0 <= k < |body| ==> !IsBoundary(body[k]))
            && body[..i] + [lines[i]] + body[i..j - 1] + [lines[j]] + body[j - 1..] == lines
  {
    WrappedBody(lines, i, j);
    ExcludingRestores(lines, i, j);
  }

  /** A file is accepted exactly when it has no boundary line or one outer pair. */
  lemma BodyIff(lines: seq<SqlLine>)
    ensures MigrationBody(lines).Some?
       <==> (forall k :: 0 <= k < |lines| ==> !IsBoundary(lines[k])) || exists i: nat, j: nat :: Wrapped(lines, i, j)
    ensures (forall k :: 0 <= k < |lines| ==> !IsBoundary(lines[k])) ==> MigrationBody(lines) == Some(lines)
  {
    var boundaries := BoundaryLines(lines, 0);
    if boundaries == [] {
      forall k | 0 <= k < |lines| ensures !IsBoundary(lines[k]) {
        assert k !in boundaries;
      }
    } else {
      assert boundaries[0] in boundaries && IsBoundary(lines[boundaries[0]]);
      if MigrationBody(lines).Some? {
        PairIsWrapped(lines, boundaries[0], boundaries[1]);
      }
      forall i: nat, j: nat | Wrapped(lines, i, j) ensures MigrationBody(lines).Some? {
        WrappedBody(lines, i, j);
      }
    }
  }

  lemma PairIsWrapped(lines: seq<SqlLine>, i: nat, j: nat)
    requires MigrationBody(lines).Some? && BoundaryLines(lines, 0) == [i, j]
    ensures Wrapped(lines, i, j)
  {
    var boundaries, code := BoundaryLines(lines, 0), CodeLines(lines, 0);
    assert i in boundaries && j in boundaries;
    forall k | 0 <= k < i ensures lines[k].Idle? {
      assert k !in code;
    }
    forall k | j < k < |lines| ensures lines[k].Idle? {
      assert k !in code;
    }
    forall k | i < k < j ensures !IsBoundary(lines[k]) {
      assert k !in boundaries;
    }
  }
}
