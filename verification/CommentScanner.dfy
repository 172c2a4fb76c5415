/** Blanking the comments of a TypeScript source in place. */
module CommentScanner {
  import opened Common

  // ---- Reference reading: one lexical state per character, read left to right ----

  datatype Lex =
    | Plain             // outside literals and comments
    | Quoted(q: char)   // inside a literal opened by q
    | Escaped(q: char)  // after a backslash inside it
    | InLine            // inside a comment that ends before the next newline
    | Opening           // on the star that opens a block comment
    | InBlock           // inside a block comment
    | Closing           // on the slash that closes one

  predicate IsQuote(c: char) {
    c == '"' || c == '\'' || c == '`'
  }

  predicate OpensLine(text: string, i: nat)
    requires i < |text|
  {
    text[i] == '/' && i + 1 < |text| && text[i + 1] == '/'
  }

  predicate OpensBlock(text: string, i: nat)
    requires i < |text|
  {
    text[i] == '/' && i + 1 < |text| && text[i + 1] == '*'
  }

  predicate ClosesBlock(text: string, i: nat)
    requires i < |text|
  {
    text[i] == '*' && i + 1 < |text| && text[i + 1] == '/'
  }

  /** The state after character i, given the state before it. */
  function After(text: string, i: nat, state: Lex): Lex
    requires i < |text|
  {
    var c := text[i];
    match state
    case Plain =>
      if IsQuote(c) then Quoted(c)
      else if OpensLine(text, i) then InLine
      else if OpensBlock(text, i) then Opening
      else Plain
    case Quoted(q) => if c == '\\' then Escaped(q) else if c == q then Plain else state
    case Escaped(q) => Quoted(q)
    case InLine => if c == '\n' then Plain else InLine
    case Opening => InBlock
    case InBlock => if ClosesBlock(text, i) then Closing else InBlock
    case Closing => Plain
  }

  function StateAt(text: string, i: nat): Lex
    requires i <= |text|
  {
    if i == 0 then Plain else After(text, i - 1, StateAt(text, i - 1))
  }

  /** Whether character i belongs to a comment; the newline that ends a line comment does not. */
  predicate InComment(text: string, i: nat)
    requires i < |text|
  {
    match StateAt(text, i)
    case Plain => OpensLine(text, i) || OpensBlock(text, i)
    case Quoted(_) => false
    case Escaped(_) => false
    case InLine => text[i] != '\n'
    case Opening => true
    case InBlock => true
    case Closing => true
  }

  function MaskedChar(text: string, i: nat): char
    requires i < |text|
  {
    if InComment(text, i) && text[i] != '\n' then ' ' else text[i]
  }

  function Masked(text: string): string {
    seq(|text|, i requires 0 <= i < |text| => MaskedChar(text, i))
  }

  // ---- The scanner ----

  /** Blank [start, end) of the working copy, newlines kept. */
  method Blank(masked: array<char>, start: nat, end: nat)
    requires start <= end <= masked.Length
    modifies masked
    ensures forall i :: 0 <= i < masked.Length ==>
      masked[i] == if start <= i < end && old(masked[i]) != '\n' then ' ' else old(masked[i])
  {
    for i := start to end
      invariant forall k :: 0 <= k < masked.Length ==>
        masked[k] == if start <= k < i && old(masked[k]) != '\n' then ' ' else old(masked[k])
    {
      if masked[i] != '\n' {
        masked[i] := ' ';
      }
    }
  }

  /** `text.find("\n", from)`, or the length when there is none. */
  method FindNewline(text: string, from: nat) returns (end: nat)
    requires from <= |text|
    ensures from <= end <= |text|
    ensures forall k :: from <= k < end ==> text[k] != '\n'
    ensures end < |text| ==> text[end] == '\n'
  {
    end := from;
    while end < |text| && text[end] != '\n'
      invariant from <= end <= |text|
      invariant forall k :: from <= k < end ==> text[k] != '\n'
    {
      end := end + 1;
    }
  }

  predicate EndsBlock(text: string, from: nat, end: nat) {
    from + 2 <= end <= |text| && ClosesBlock(text, end - 2)
  }

  /** The position after the next `*` `/` at or past `from`, or the length when there is none. */
  method FindBlockEnd(text: string, from: nat) returns (end: nat)
    requires from <= |text|
    ensures from <= end <= |text|
    ensures forall k :: from <= k < end - 2 ==> !ClosesBlock(text, k)
    ensures if EndsBlock(text, from, end) then true
            else end == |text| && forall k :: from <= k < |text| ==> !ClosesBlock(text, k)
  {
    var k := from;
    while k < |text|
      invariant from <= k <= |text|
      invariant forall j :: from <= j < k ==> !ClosesBlock(text, j)
    {
      if ClosesBlock(text, k) {
        return k + 2;
      }
      k := k + 1;
    }
    return |text|;
  }

  lemma {:induction false} LineRegion(text: string, start: nat, end: nat)
    requires start < end <= |text| && StateAt(text, start) == Plain && OpensLine(text, start)
    requires forall k :: start <= k < end ==> text[k] != '\n'
    ensures forall k :: start <= k < end ==> InComment(text, k)
    ensures StateAt(text, end) == InLine
  {
    if start + 1 < end {
      LineRegion(text, start, end - 1);
    }
  }

  lemma {:induction false} BlockRegion(text: string, start: nat, end: nat)
    requires start + 2 <= end <= |text| && StateAt(text, start) == Plain && OpensBlock(text, start)
    requires forall k :: start + 2 <= k < end ==> !ClosesBlock(text, k)
    ensures forall k :: start <= k < end ==> InComment(text, k)
    ensures StateAt(text, end) == InBlock
  {
    if start + 2 < end {
      BlockRegion(text, start, end - 1);
    } else {
      assert StateAt(text, start + 1) == Opening;
    }
  }

  lemma ClosedBlockRegion(text: string, start: nat, end: nat)
    requires start + 4 <= end <= |text| && StateAt(text, start) == Plain && OpensBlock(text, start)
    requires forall k :: start + 2 <= k < end - 2 ==> !ClosesBlock(text, k)
    requires ClosesBlock(text, end - 2)
    ensures forall k :: start <= k < end ==> InComment(text, k)
    ensures StateAt(text, end) == Plain
  {
    BlockRegion(text, start, end - 2);
    assert StateAt(text, end - 1) == Closing;
  }

  /** Where the scanner stands: its `quote` variable against the lexical state. */
  ghost predicate Stands(text: string, index: nat, quote: Option<char>) {
    index < |text| ==>
      if quote.Some? then StateAt(text, index) == Quoted(quote.value)
      else StateAt(text, index) == Plain || (StateAt(text, index) == InLine && text[index] == '\n')
  }

  /** Characters before `index` are final, the others untouched. */
  ghost predicate DoneUpTo(text: string, copy: seq<char>, index: nat) {
    && |copy| == |text|
    && (forall i :: 0 <= i < |text| && i < index ==> copy[i] == MaskedChar(text, i))
    && (forall i :: index <= i < |text| ==> copy[i] == text[i])
  }

  ghost predicate NoComment(text: string, from: nat, upto: nat) {
    forall i :: from <= i < upto && i < |text| ==> !InComment(text, i)
  }

  /** Characters the scanner steps over without blanking are not comment. */
  lemma StepOver(text: string, copy: seq<char>, index: nat, next: nat)
    requires DoneUpTo(text, copy, index) && index < next
    requires NoComment(text, index, next)
    ensures DoneUpTo(text, copy, next)
  {}

  /** The loop invariant: where the scanner stands and what it has blanked. */
  ghost predicate Scanned(text: string, copy: seq<char>, index: nat, quote: Option<char>) {
    Stands(text, index, quote) && DoneUpTo(text, copy, index)
  }

  lemma ScannedInside(text: string, copy: seq<char>, index: nat, q: char)
    requires index < |text| && Scanned(text, copy, index, Some(q))
    ensures text[index] == '\\' ==> Scanned(text, copy, index + 2, Some(q))
    ensures text[index] != '\\' ==> Scanned(text, copy, index + 1, if text[index] == q then None else Some(q))
  {
    if text[index] == '\\' {
      StepOver(text, copy, index, index + 2);
    } else {
      StepOver(text, copy, index, index + 1);
    }
  }

  lemma ScannedOutside(text: string, copy: seq<char>, index: nat)
    requires index < |text| && Scanned(text, copy, index, None)
    requires !OpensLine(text, index) && !OpensBlock(text, index)
    ensures Scanned(text, copy, index + 1, if IsQuote(text[index]) then Some(text[index]) else None)
  {
    StepOver(text, copy, index, index + 1);
  }

  method CodeOnly(text: string) returns (masked: array<char>)
    ensures masked[..] == Masked(text)
  {
    masked := new char[|text|](i requires 0 <= i < |text| => text[i]);
    assert masked[..] == text;
    var index := 0;
    var quote: Option<char> := None;
    while index < |text|
      invariant masked.Length == |text| && Scanned(text, masked[..], index, quote)
      decreases |text| - index
    {
      if quote.Some? {
        ScannedInside(text, masked[..], index, quote.value);
        if text[index] == '\\' {
          index := index + 2;
        } else {
          if text[index] == quote.value {
            quote := None;
          }
          index := index + 1;
        }
      } else if OpensLine(text, index) || OpensBlock(text, index) {
        index := BlankComment(text, masked, index);
      } else {
        ScannedOutside(text, masked[..], index);
        if IsQuote(text[index]) {
          quote := Some(text[index]);
        }
        index := index + 1;
      }
    }
  }

  /** The comment that opens at `index` is blanked; scanning goes on after it. */
  method BlankComment(text: string, masked: array<char>, index: nat) returns (end: nat)
    requires masked.Length == |text| && index < |text| && Scanned(text, masked[..], index, None)
    requires OpensLine(text, index) || OpensBlock(text, index)
    modifies masked
    ensures index < end && Scanned(text, masked[..], end, None)
  {
    end := SkipComment(text, index);
    ghost var copy := masked[..];
    Blank(masked, index, end);
  }

  /** The end of the comment that opens at `index`. */
  method SkipComment(text: string, index: nat) returns (end: nat)
    requires index < |text| && StateAt(text, index) == Plain && (OpensLine(text, index) || OpensBlock(text, index))
    ensures index < end <= |text|
    ensures forall i :: index <= i < end ==> InComment(text, i)
    ensures Stands(text, end, None)
  {
    if OpensLine(text, index) {
      end := FindNewline(text, index);
      LineRegion(text, index, end);
    } else {
      end := FindBlockEnd(text, index + 2);
      if EndsBlock(text, index + 2, end) {
        ClosedBlockRegion(text, index, end);
      } else {
        BlockRegion(text, index, end);
      }
    }
  }

  // ---- What blanking means ----

  /** Same length, same newlines, everything outside comments kept, everything inside blanked. */
  lemma MaskedKeepsCode(text: string)
    ensures |Masked(text)| == |text|
    ensures forall i :: 0 <= i < |text| ==> (Masked(text)[i] == '\n' <==> text[i] == '\n')
    ensures forall i :: 0 <= i < |text| && !InComment(text, i) ==> Masked(text)[i] == text[i]
    ensures forall i :: 0 <= i < |text| && InComment(text, i) && text[i] != '\n' ==> Masked(text)[i] == ' '
    ensures forall i :: 0 <= i < |text| && StateAt(text, i).Quoted? ==> Masked(text)[i] == text[i]
  {}

  /** The state a masked text is in where the text itself was in a comment or in a literal. */
  function Uncommented(state: Lex): Lex {
    if state.Quoted? || state.Escaped? then state else Plain
  }

  lemma {:induction false} MaskedStates(text: string, i: nat)
    requires i <= |text|
    ensures StateAt(Masked(text), i) == Uncommented(StateAt(text, i))
  {
    if i > 0 {
      MaskedStates(text, i - 1);
      var m := Masked(text);
      var state := StateAt(text, i - 1);
      if InComment(text, i - 1) {
        assert m[i - 1] == ' ' || m[i - 1] == '\n';
      } else {
        assert m[i - 1] == text[i - 1];
        if state.Plain? && i < |text| {
          assert m[i] == text[i] || m[i] == ' ';
        }
      }
    }
  }

  /** A masked text holds no comment any more, so masking it again changes nothing. */
  lemma MaskingIsIdempotent(text: string)
    ensures Masked(Masked(text)) == Masked(text)
    ensures forall i :: 0 <= i < |text| ==> !InComment(Masked(text), i)
  {
    var m := Masked(text);
    forall i | 0 <= i < |text| ensures !InComment(m, i) {
      MaskedStates(text, i);
      if StateAt(m, i).Plain? && i + 1 < |text| {
        assert m[i] == '/' ==> !InComment(text, i) && text[i] == '/';
        assert m[i + 1] == text[i + 1] || m[i + 1] == ' ';
      }
    }
  }
}
