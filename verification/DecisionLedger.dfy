/** One pass over a decision ledger with interleaved attempts. */
module DecisionLedger {
  import opened Common

  datatype Row = Row(replacement: string, ordinal: int, predecessor: Option<string>, evidence: string)

  datatype ChainError = OutOfOrder(at: nat) | WrongPredecessor(at: nat)

  // ---- The chain each replacement should form ----

  /** The rows of one replacement, in ledger order. */
  function Project(rows: seq<Row>, id: string): seq<Row> {
    if rows == [] then []
    else
      var before, last := rows[..|rows| - 1], rows[|rows| - 1];
      if last.replacement == id then Project(before, id) + [last] else Project(before, id)
  }

  ghost predicate Linked(attempts: seq<Row>, k: nat)
    requires k < |attempts|
  {
    && attempts[k].ordinal == k + 1
    && attempts[k].predecessor == if k == 0 then None else Some(attempts[k - 1].evidence)
  }

  /** Attempts 1, 2, 3, ..., each naming the evidence of the one before it, the first naming none. */
  ghost predicate IsChain(attempts: seq<Row>) {
    forall k :: 0 <= k < |attempts| ==> Linked(attempts, k)
  }

  ghost predicate AllChains(rows: seq<Row>) {
    forall id :: IsChain(Project(rows, id))
  }

  // ---- The pass ----

  function Heads(rows: seq<Row>): map<string, Row> {
    if rows == [] then map[]
    else
      var last := rows[|rows| - 1];
      Heads(rows[..|rows| - 1])[last.replacement := last]
  }

  function ExpectedOrdinal(heads: map<string, Row>, row: Row): int {
    if row.replacement in heads then heads[row.replacement].ordinal + 1 else 1
  }

  function ExpectedPredecessor(heads: map<string, Row>, row: Row): Option<string> {
    if row.replacement in heads then Some(heads[row.replacement].evidence) else None
  }

  function RowErrors(heads: map<string, Row>, row: Row, at: nat): seq<ChainError> {
    (if row.ordinal != ExpectedOrdinal(heads, row) then [OutOfOrder(at)] else [])
    + (if row.predecessor != ExpectedPredecessor(heads, row) then [WrongPredecessor(at)] else [])
  }

  function ChainErrors(rows: seq<Row>): seq<ChainError> {
    if rows == [] then []
    else
      var before, last := rows[..|rows| - 1], rows[|rows| - 1];
      ChainErrors(before) + RowErrors(Heads(before), last, |before|)
  }

  method CheckChains(rows: seq<Row>) returns (heads: map<string, Row>, errors: seq<ChainError>)
    ensures heads == Heads(rows) && errors == ChainErrors(rows)
  {
    heads, errors := map[], [];
    for i := 0 to |rows|
      invariant heads == Heads(rows[..i]) && errors == ChainErrors(rows[..i])
    {
      var row := rows[i];
      assert rows[..i + 1][..i] == rows[..i];
      var expectedOrdinal := 1;
      var expectedPredecessor: Option<string> := None;
      if row.replacement in heads {
        expectedOrdinal := heads[row.replacement].ordinal + 1;
        expectedPredecessor := Some(heads[row.replacement].evidence);
      }
      ghost var before := errors;
      if row.ordinal != expectedOrdinal {
        errors := errors + [OutOfOrder(i)];
      }
      if row.predecessor != expectedPredecessor {
        errors := errors + [WrongPredecessor(i)];
      }
      assert errors == before + RowErrors(heads, row, i);
      heads := heads[row.replacement := row];
    }
    assert rows[..|rows|] == rows;
  }

  // ---- What the pass decides ----

  /** The head of a replacement is its last row, whatever lies between. */
  lemma {:induction false} HeadsAreLast(rows: seq<Row>, id: string)
    ensures id in Heads(rows) <==> Project(rows, id) != []
    ensures id in Heads(rows) ==> Heads(rows)[id] == Project(rows, id)[|Project(rows, id)| - 1]
  {
    if rows != [] {
      HeadsAreLast(rows[..|rows| - 1], id);
    }
  }

  lemma SnocChain(attempts: seq<Row>, row: Row)
    ensures IsChain(attempts + [row]) <==>
      && IsChain(attempts)
      && row.ordinal == |attempts| + 1
      && row.predecessor == if attempts == [] then None else Some(attempts[|attempts| - 1].evidence)
  {
    var all := attempts + [row];
    assert forall k :: 0 <= k < |attempts| ==> (Linked(all, k) <==> Linked(attempts, k));
    assert Linked(all, |attempts|) <==>
      row.ordinal == |attempts| + 1
      && row.predecessor == if attempts == [] then None else Some(attempts[|attempts| - 1].evidence);
  }

  /** One more row breaks exactly its own replacement's chain, if any. */
  lemma ProjectSnoc(before: seq<Row>, last: Row, id: string)
    ensures Project(before + [last], id)
         == if last.replacement == id then Project(before, id) + [last] else Project(before, id)
  {
    var rows := before + [last];
    assert rows[..|rows| - 1] == before;
  }

  lemma {:induction false} RowErrorsIff(before: seq<Row>, last: Row)
    requires IsChain(Project(before, last.replacement))
    ensures RowErrors(Heads(before), last, |before|) == [] <==> IsChain(Project(before, last.replacement) + [last])
  {
    var attempts := Project(before, last.replacement);
    HeadsAreLast(before, last.replacement);
    SnocChain(attempts, last);
    LastOrdinal(attempts);
  }

  /**
   * However the replacements are interleaved, the one pass raises no error exactly when every replacement's own
   * rows form a chain.
   */
  lemma {:induction false} ErrorsIffChains(rows: seq<Row>)
    ensures ChainErrors(rows) == [] <==> AllChains(rows)
  {
    if rows != [] {
      var before, last := rows[..|rows| - 1], rows[|rows| - 1];
      assert rows == before + [last];
      ErrorsIffChains(before);
      forall x ensures IsChain(Project(rows, x)) ==> IsChain(Project(before, x)) {
        ProjectSnoc(before, last, x);
        SnocChain(Project(before, x), last);
      }
      ProjectSnoc(before, last, last.replacement);
      if AllChains(before) {
        RowErrorsIff(before, last);
        forall x | x != last.replacement ensures IsChain(Project(rows, x)) {
          ProjectSnoc(before, last, x);
        }
      }
    }
  }

  lemma LastOrdinal(attempts: seq<Row>)
    requires IsChain(attempts)
    ensures attempts != [] ==> attempts[|attempts| - 1].ordinal == |attempts|
  {
    assert attempts != [] ==> Linked(attempts, |attempts| - 1);
  }

  /** The head picked for a replacement is its last row, and after an error-free pass it counts the attempts. */
  lemma HeadCountsAttempts(rows: seq<Row>, id: string)
    requires ChainErrors(rows) == [] && id in Heads(rows)
    ensures Project(rows, id) != [] && Heads(rows)[id] == Project(rows, id)[|Project(rows, id)| - 1]
    ensures Heads(rows)[id].ordinal == |Project(rows, id)|
  {
    ErrorsIffChains(rows);
    HeadsAreLast(rows, id);
    LastOrdinal(Project(rows, id));
  }

  // ---- Which error ----

  /** The row before row i of the same replacement. */
  ghost predicate IsPrevious(rows: seq<Row>, i: nat, j: nat)
    requires i < |rows|
  {
    && j < i && rows[j].replacement == rows[i].replacement
    && forall k :: j < k < i ==> rows[k].replacement != rows[i].replacement
  }

  ghost predicate IsFirst(rows: seq<Row>, i: nat)
    requires i < |rows|
  {
    forall k :: 0 <= k < i ==> rows[k].replacement != rows[i].replacement
  }

  /** A first row is numbered 1 and names nothing; any other continues the row before it of its replacement. */
  ghost predicate RightOrdinal(rows: seq<Row>, i: nat)
    requires i < |rows|
  {
    && (IsFirst(rows, i) ==> rows[i].ordinal == 1)
    && (forall j: nat :: IsPrevious(rows, i, j) ==> rows[i].ordinal == rows[j].ordinal + 1)
  }

  ghost predicate RightPredecessor(rows: seq<Row>, i: nat)
    requires i < |rows|
  {
    && (IsFirst(rows, i) ==> rows[i].predecessor == None)
    && (forall j: nat :: IsPrevious(rows, i, j) ==> rows[i].predecessor == Some(rows[j].evidence))
  }

  lemma HeadIsPrevious(rows: seq<Row>, i: nat)
    requires i < |rows|
    ensures rows[i].replacement in Heads(rows[..i]) <==> !IsFirst(rows, i)
    ensures rows[i].replacement in Heads(rows[..i]) ==>
      exists j: nat :: IsPrevious(rows, i, j) && Heads(rows[..i])[rows[i].replacement] == rows[j]
    ensures forall j: nat, k: nat :: IsPrevious(rows, i, j) && IsPrevious(rows, i, k) ==> j == k
  {
    HeadBefore(rows, i, i);
  }

  /** The head at n of the replacement of row i is its last row before n. */
  lemma {:induction false} HeadBefore(rows: seq<Row>, i: nat, n: nat)
    requires n <= i < |rows|
    ensures var id, heads := rows[i].replacement, Heads(rows[..n]);
      if id in heads then
        exists j: nat :: j < n && rows[j].replacement == id && heads[id] == rows[j]
                    && forall k :: j < k < n ==> rows[k].replacement != id
      else forall k :: 0 <= k < n ==> rows[k].replacement != id
  {
    if n > 0 {
      HeadBefore(rows, i, n - 1);
      assert rows[..n][..n - 1] == rows[..n - 1] && rows[..n][n - 1] == rows[n - 1];
    }
  }

  lemma RowErrorsAre(rows: seq<Row>, i: nat)
    requires i < |rows|
    ensures var errors := RowErrors(Heads(rows[..i]), rows[i], i);
      && (OutOfOrder(i) in errors <==> !RightOrdinal(rows, i))
      && (WrongPredecessor(i) in errors <==> !RightPredecessor(rows, i))
      && (forall e :: e in errors ==> e.at == i)
  {
    HeadIsPrevious(rows, i);
    if !IsFirst(rows, i) {
      var j: nat :| IsPrevious(rows, i, j) && Heads(rows[..i])[rows[i].replacement] == rows[j];
    } else {
      forall j: nat ensures !IsPrevious(rows, i, j) {}
    }
  }

  lemma ErrorsStep(rows: seq<Row>, n: nat)
    requires n < |rows|
    ensures ChainErrors(rows[..n + 1]) == ChainErrors(rows[..n]) + RowErrors(Heads(rows[..n]), rows[n], n)
  {
    assert rows[..n + 1][..n] == rows[..n] && rows[..n + 1][n] == rows[n];
  }

  lemma {:induction false} ErrorsUpTo(rows: seq<Row>, n: nat, e: ChainError)
    requires n <= |rows|
    ensures e in ChainErrors(rows[..n]) <==> e.at < n && e in RowErrors(Heads(rows[..e.at]), rows[e.at], e.at)
  {
    if n > 0 {
      ErrorsUpTo(rows, n - 1, e);
      ErrorsStep(rows, n - 1);
      RowErrorsAre(rows, n - 1);
    }
  }

  /** Each row is reported for its ordinal, for its predecessor, for both or for neither, by its own chain alone. */
  lemma ErrorsAre(rows: seq<Row>, i: nat)
    ensures OutOfOrder(i) in ChainErrors(rows) <==> i < |rows| && !RightOrdinal(rows, i)
    ensures WrongPredecessor(i) in ChainErrors(rows) <==> i < |rows| && !RightPredecessor(rows, i)
  {
    assert rows[..|rows|] == rows;
    ErrorsUpTo(rows, |rows|, OutOfOrder(i));
    ErrorsUpTo(rows, |rows|, WrongPredecessor(i));
    if i < |rows| {
      RowErrorsAre(rows, i);
    }
  }

  ghost predicate SameAttempts(rows: seq<Row>, other: seq<Row>) {
    forall id :: Project(rows, id) == Project(other, id)
  }

  lemma SameHead(rows: seq<Row>, other: seq<Row>, id: string)
    requires Project(rows, id) == Project(other, id)
    ensures id in Heads(rows) <==> id in Heads(other)
    ensures id in Heads(rows) ==> Heads(rows)[id] == Heads(other)[id]
  {
    HeadsAreLast(rows, id);
    HeadsAreLast(other, id);
  }

  lemma SameChains(rows: seq<Row>, other: seq<Row>)
    requires SameAttempts(rows, other) && AllChains(rows)
    ensures AllChains(other)
  {
    forall id ensures IsChain(Project(other, id)) {
      assert Project(rows, id) == Project(other, id);
    }
  }

  /**
   * How the replacements are interleaved is immaterial: ledgers with the same rows per replacement are judged alike.
   */
  lemma InterleavingIsImmaterial(rows: seq<Row>, other: seq<Row>)
    requires SameAttempts(rows, other)
    ensures ChainErrors(rows) == [] <==> ChainErrors(other) == []
    ensures Heads(rows) == Heads(other)
  {
    ErrorsIffChains(rows);
    ErrorsIffChains(other);
    if AllChains(rows) {
      SameChains(rows, other);
    } else if AllChains(other) {
      SameChains(other, rows);
    }
    forall id ensures id in Heads(rows) <==> id in Heads(other)
      ensures id in Heads(rows) ==> Heads(rows)[id] == Heads(other)[id]
    {
      SameHead(rows, other, id);
    }
  }
}
