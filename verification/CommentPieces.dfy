/** The grammar behind the comment scanner. */
module CommentPieces {
  import opened CommentScanner

  datatype Piece =
    | Single(c: char)
    | Literal(q: char, body: string)
    | OpenLiteral(q: char, body: string)  // never closed
    | LineComment(body: string)
    | BlockComment(body: string)
    | OpenComment(body: string)           // never closed

  function Text(p: Piece): string {
    match p
    case Single(c) => [c]
    case Literal(q, body) => [q] + body + [q]
    case OpenLiteral(q, body) => [q] + body
    case LineComment(body) => "//" + body
    case BlockComment(body) => "/*" + body + "*/"
    case OpenComment(body) => "/*" + body
  }

  /** Spaces, newlines kept. */
  function Blanks(text: string): string {
    seq(|text|, i requires 0 <= i < |text| => if text[i] == '\n' then '\n' else ' ')
  }

  /** What is left to see of a piece. */
  function Shown(p: Piece): string {
    match p
    case Single(_) => Text(p)
    case Literal(_, _) => Text(p)
    case OpenLiteral(_, _) => Text(p)
    case LineComment(_) => Blanks(Text(p))
    case BlockComment(_) => Blanks(Text(p))
    case OpenComment(_) => Blanks(Text(p))
  }

  /** A body without q, except after a backslash; `open` allows a backslash as its very last character. */
  predicate Inside(q: char, body: string, open: bool) {
    if body == [] then true
    else if body[0] == '\\' then if |body| == 1 then open else Inside(q, body[2..], open)
    else body[0] != q && Inside(q, body[1..], open)
  }

  predicate HasNo(body: string, a: char, b: char) {
    forall k :: 0 <= k < |body| - 1 ==> !(body[k] == a && body[k + 1] == b)
  }

  /** How a piece may stand before `rest`. */
  predicate Reads(p: Piece, rest: string) {
    match p
    case Single(c) =>
      c != '"' && c != '\'' && c != '`' && (c == '/' && rest != [] ==> rest[0] != '/' && rest[0] != '*')
    case Literal(q, body) => (q == '"' || q == '\'' || q == '`') && Inside(q, body, false)
    case OpenLiteral(q, body) => (q == '"' || q == '\'' || q == '`') && Inside(q, body, true) && rest == []
    case LineComment(body) => '\n' !in body && (rest != [] ==> rest[0] == '\n')
    case BlockComment(body) => HasNo(body, '*', '/')
    case OpenComment(body) => HasNo(body, '*', '/') && rest == []
  }

  // ---- A text read from the middle ----

  /** The scanner is outside every literal and comment at n, or on the newline that ends a line comment. */
  ghost predicate Outside(text: string, n: nat) {
    && n <= |text|
    && (StateAt(text, n) == Plain || (StateAt(text, n) == InLine && (n < |text| ==> text[n] == '\n')))
  }

  lemma {:induction false} SameStates(text: string, n: nat, i: nat)
    requires Outside(text, n) && n + i <= |text|
    ensures StateAt(text[n..], i) == if i == 0 then Plain else StateAt(text, n + i)
  {
    if i > 0 {
      SameStates(text, n, i - 1);
      assert text[n..][i - 1] == text[n + i - 1];
      assert i < |text[n..]| ==> text[n..][i] == text[n + i];
    }
  }

  lemma SameRest(text: string, n: nat)
    requires Outside(text, n)
    ensures Masked(text)[n..] == Masked(text[n..])
  {
    var rest := text[n..];
    forall i | 0 <= i < |rest| ensures MaskedChar(text, n + i) == MaskedChar(rest, i) {
      SameStates(text, n, i);
      assert rest[i] == text[n + i] && (i + 1 < |rest| ==> rest[i + 1] == text[n + i + 1]);
    }
  }

  // ---- One piece ----

  lemma {:induction false} LiteralRegion(text: string, n: nat, q: char, body: string, open: bool)
    requires n + |body| <= |text| && text[n..n + |body|] == body
    requires StateAt(text, n) == Quoted(q) && Inside(q, body, open) && (open ==> n + |body| == |text|)
    ensures forall i :: n <= i < n + |body| ==> !InComment(text, i)
    ensures !open ==> StateAt(text, n + |body|) == Quoted(q)
    decreases |body|
  {
    if body != [] {
      assert text[n] == body[0];
      if body[0] == '\\' {
        if |body| > 1 {
          assert StateAt(text, n + 1) == Escaped(q) && StateAt(text, n + 2) == Quoted(q);
          LiteralRegion(text, n + 2, q, body[2..], open);
        }
      } else {
        assert StateAt(text, n + 1) == Quoted(q);
        LiteralRegion(text, n + 1, q, body[1..], open);
      }
    }
  }

  /** The first n characters are kept. */
  ghost predicate Kept(text: string, n: nat) {
    n <= |text| && forall i :: 0 <= i < n ==> !InComment(text, i)
  }

  ghost predicate Dropped(text: string, n: nat) {
    n <= |text| && forall i :: 0 <= i < n ==> InComment(text, i)
  }

  lemma LiteralKept(q: char, body: string, rest: string, open: bool)
    requires (q == '"' || q == '\'' || q == '`') && Inside(q, body, open) && (open ==> rest == [])
    requires !open ==> rest != [] && rest[0] == q
    ensures var text := [q] + body + rest;
      Kept(text, if open then |text| else |body| + 2) && (!open ==> StateAt(text, |body| + 2) == Plain)
  {
    var text := [q] + body + rest;
    assert text[0] == q && text[1..1 + |body|] == body;
    assert StateAt(text, 0) == Plain && StateAt(text, 1) == Quoted(q);
    LiteralRegion(text, 1, q, body, open);
    if !open {
      assert text[1 + |body|] == q;
    }
  }

  lemma LineDropped(body: string, rest: string)
    requires '\n' !in body && (rest != [] ==> rest[0] == '\n')
    ensures var text := "//" + body + rest; Dropped(text, 2 + |body|) && StateAt(text, 2 + |body|) == InLine
  {
    var text := "//" + body + rest;
    forall k | 0 <= k < 2 + |body| ensures text[k] != '\n' {
      assert k >= 2 ==> text[k] == body[k - 2] && body[k - 2] in body;
    }
    assert StateAt(text, 0) == Plain && OpensLine(text, 0);
    LineRegion(text, 0, 2 + |body|);
  }

  lemma BlockDropped(body: string, rest: string)
    requires HasNo(body, '*', '/')
    ensures var text := "/*" + body + "*/" + rest; Dropped(text, 4 + |body|) && StateAt(text, 4 + |body|) == Plain
  {
    var text := "/*" + body + "*/" + rest;
    assert text[2 + |body|] == '*' && text[3 + |body|] == '/';
    forall k | 2 <= k < 2 + |body| ensures !ClosesBlock(text, k) {
      assert text[k] == body[k - 2] && (k + 1 < 2 + |body| ==> text[k + 1] == body[k - 1]);
    }
    ClosedBlockRegion(text, 0, 4 + |body|);
  }

  lemma OpenDropped(body: string)
    requires HasNo(body, '*', '/')
    ensures Dropped("/*" + body, 2 + |body|)
  {
    var text := "/*" + body;
    forall k | 2 <= k < |text| ensures !ClosesBlock(text, k) {
      assert text[k] == body[k - 2] && (k + 1 < |text| ==> text[k + 1] == body[k - 1]);
    }
    BlockRegion(text, 0, |text|);
  }

  predicate IsComment(p: Piece) {
    p.LineComment? || p.BlockComment? || p.OpenComment?
  }

  lemma SingleKept(c: char, rest: string)
    requires Reads(Single(c), rest)
    ensures Kept([c] + rest, 1) && StateAt([c] + rest, 1) == Plain
  {
    var text := [c] + rest;
    assert text[0] == c && (rest != [] ==> text[1] == rest[0]);
    assert StateAt(text, 0) == Plain;
  }

  lemma CodeRegion(p: Piece, rest: string)
    requires Reads(p, rest) && !IsComment(p)
    ensures Kept(Text(p) + rest, |Text(p)|) && (rest != [] ==> Outside(Text(p) + rest, |Text(p)|))
  {
    match p
    case Single(c) =>
      SingleKept(c, rest);
    case Literal(q, body) =>
      LiteralKept(q, body, [q] + rest, false);
      assert Text(p) + rest == [q] + body + ([q] + rest);
    case OpenLiteral(q, body) =>
      LiteralKept(q, body, rest, true);
  }

  lemma CommentRegion(p: Piece, rest: string)
    requires Reads(p, rest) && IsComment(p)
    ensures Dropped(Text(p) + rest, |Text(p)|) && (rest != [] ==> Outside(Text(p) + rest, |Text(p)|))
  {
    match p
    case LineComment(body) =>
      LineDropped(body, rest);
    case BlockComment(body) =>
      BlockDropped(body, rest);
    case OpenComment(body) =>
      OpenDropped(body);
      assert Text(p) + rest == "/*" + body;
  }

  lemma KeptFront(text: string, n: nat)
    requires Kept(text, n)
    ensures Masked(text)[..n] == text[..n]
  {}

  lemma DroppedFront(text: string, n: nat)
    requires Dropped(text, n)
    ensures Masked(text)[..n] == Blanks(text[..n])
  {}

  /** A piece at the front is shown by itself, and what follows is masked as a text of its own. */
  lemma PieceIsMasked(p: Piece, rest: string)
    requires Reads(p, rest)
    ensures Masked(Text(p) + rest) == Shown(p) + Masked(rest)
  {
    var text, n := Text(p) + rest, |Text(p)|;
    assert text[..n] == Text(p);
    if IsComment(p) {
      CommentRegion(p, rest);
      DroppedFront(text, n);
    } else {
      CodeRegion(p, rest);
      KeptFront(text, n);
    }
    RestIsMasked(text, n, rest);
    assert Masked(text) == Masked(text)[..n] + Masked(text)[n..];
  }

  lemma RestIsMasked(text: string, n: nat, rest: string)
    requires n <= |text| && text[n..] == rest && (rest != [] ==> Outside(text, n))
    ensures Masked(text)[n..] == Masked(rest)
  {
    if rest != [] {
      SameRest(text, n);
    }
  }

  // ---- A whole text ----

  function TextOf(pieces: seq<Piece>): string {
    if pieces == [] then [] else Text(pieces[0]) + TextOf(pieces[1..])
  }

  function ShownOf(pieces: seq<Piece>): string {
    if pieces == [] then [] else Shown(pieces[0]) + ShownOf(pieces[1..])
  }

  predicate ReadsAll(pieces: seq<Piece>) {
    pieces == [] || (Reads(pieces[0], TextOf(pieces[1..])) && ReadsAll(pieces[1..]))
  }

  /** However a text is read as pieces, masking it shows them one after the other. */
  lemma {:induction false} MaskedIsShown(pieces: seq<Piece>)
    requires ReadsAll(pieces)
    ensures Masked(TextOf(pieces)) == ShownOf(pieces)
  {
    if pieces != [] {
      MaskedIsShown(pieces[1..]);
      PieceIsMasked(pieces[0], TextOf(pieces[1..]));
    }
  }

  // ---- Every text can be read ----

  /** The longest front without q outside an escape. */
  lemma {:induction false} ReadLiteral(q: char, text: string) returns (body: string, closed: bool)
    ensures closed ==> Inside(q, body, false) && |body| < |text| && text == body + [q] + text[|body| + 1..]
    ensures !closed ==> body == text && Inside(q, body, true)
    decreases |text|
  {
    if text == [] {
      body, closed := [], false;
    } else if text[0] == '\\' {
      if |text| == 1 {
        body, closed := text, false;
      } else {
        var inner;
        inner, closed := ReadLiteral(q, text[2..]);
        body := text[..2] + inner;
        assert body[2..] == inner;
      }
    } else if text[0] == q {
      body, closed := [], true;
    } else {
      var inner;
      inner, closed := ReadLiteral(q, text[1..]);
      body := [text[0]] + inner;
      assert body[1..] == inner;
    }
  }

  lemma {:induction false} ReadLine(text: string) returns (body: string)
    ensures |body| <= |text| && text[..|body|] == body && '\n' !in body
    ensures |body| < |text| ==> text[|body|] == '\n'
  {
    if text == [] || text[0] == '\n' {
      body := [];
    } else {
      var inner := ReadLine(text[1..]);
      body := [text[0]] + inner;
    }
  }

  lemma {:induction false} ReadBlock(text: string) returns (body: string, closed: bool)
    ensures HasNo(body, '*', '/')
    ensures closed ==> |body| + 2 <= |text| && text == body + "*/" + text[|body| + 2..]
    ensures !closed ==> body == text
    decreases |text|
  {
    if |text| < 2 {
      body, closed := text, false;
    } else if text[0] == '*' && text[1] == '/' {
      body, closed := [], true;
    } else {
      var inner;
      inner, closed := ReadBlock(text[1..]);
      body := [text[0]] + inner;
      forall k | 0 <= k < |body| - 1 ensures !(body[k] == '*' && body[k + 1] == '/') {
        assert k > 0 ==> body[k] == inner[k - 1] && body[k + 1] == inner[k];
        assert inner != [] ==> inner[0] == text[1];
      }
    }
  }

  lemma FirstLiteral(text: string) returns (p: Piece, rest: string)
    requires text != [] && (text[0] == '"' || text[0] == '\'' || text[0] == '`')
    ensures text == Text(p) + rest && Reads(p, rest)
  {
    var body, closed := ReadLiteral(text[0], text[1..]);
    if closed {
      p, rest := Literal(text[0], body), text[1..][|body| + 1..];
    } else {
      p, rest := OpenLiteral(text[0], body), [];
    }
  }

  lemma FirstLine(text: string) returns (p: Piece, rest: string)
    requires |text| > 1 && text[0] == '/' && text[1] == '/'
    ensures text == Text(p) + rest && Reads(p, rest)
  {
    var body := ReadLine(text[2..]);
    p, rest := LineComment(body), text[2..][|body|..];
  }

  lemma FirstBlock(text: string) returns (p: Piece, rest: string)
    requires |text| > 1 && text[0] == '/' && text[1] == '*'
    ensures text == Text(p) + rest && Reads(p, rest)
  {
    var body, closed := ReadBlock(text[2..]);
    if closed {
      p, rest := BlockComment(body), text[2..][|body| + 2..];
    } else {
      p, rest := OpenComment(body), [];
    }
  }

  lemma FirstPiece(text: string) returns (p: Piece, rest: string)
    requires text != []
    ensures text == Text(p) + rest && Reads(p, rest)
  {
    var c := text[0];
    if c == '"' || c == '\'' || c == '`' {
      p, rest := FirstLiteral(text);
    } else if |text| > 1 && c == '/' && text[1] == '/' {
      p, rest := FirstLine(text);
    } else if |text| > 1 && c == '/' && text[1] == '*' {
      p, rest := FirstBlock(text);
    } else {
      p, rest := Single(c), text[1..];
    }
  }

  /** Every text is read as pieces, so the scanner is the grammar: masking shows exactly them. */
  lemma {:induction false} EveryTextReads(text: string) returns (pieces: seq<Piece>)
    ensures ReadsAll(pieces) && TextOf(pieces) == text && Masked(text) == ShownOf(pieces)
    decreases |text|
  {
    pieces := [];
    if text != [] {
      var p, rest := FirstPiece(text);
      var others := EveryTextReads(rest);
      pieces := [p] + others;
      assert pieces[1..] == others;
    }
    MaskedIsShown(pieces);
  }
}
