/** The debt ratchet: when a finding is new and what the gate blocks on. */
module DebtRatchet {
  // ---- Text ----

  predicate IsDigit(c: char) {
    '0' <= c <= '9'
  }

  /** Blank, tab, line feed, vertical tab, form feed, carriage return and the four ASCII separators. */
  predicate IsSpace(c: char) {
    c == ' ' || '\t' <= c <= '\r' || '\U{1C}' <= c <= '\U{1F}'
  }

  function StripLeft(s: string): string {
    if s != [] && IsSpace(s[0]) then StripLeft(s[1..]) else s
  }

  function StripRight(s: string): string {
    if s != [] && IsSpace(s[|s| - 1]) then StripRight(s[..|s| - 1]) else s
  }

  function Strip(s: string): string {
    StripRight(StripLeft(s))
  }

  /** The position of the first ": ", or the length when there is none. */
  function ColonAt(s: string): (i: nat)
    ensures i <= |s| && (i < |s| ==> i + 2 <= |s| && s[i] == ':' && s[i + 1] == ' ')
    ensures forall k :: 0 <= k < i && k + 1 < |s| ==> !(s[k] == ':' && s[k + 1] == ' ')
  {
    if |s| < 2 then |s|
    else if s[0] == ':' && s[1] == ' ' then 0
    else 1 + ColonAt(s[1..])
  }

  function SplitCommas(s: string): (parts: seq<string>)
    ensures |parts| >= 1
  {
    if s == [] then [[]]
    else
      var rest := SplitCommas(s[1..]);
      if s[0] == ',' then [[]] + rest else [[s[0]] + rest[0]] + rest[1..]
  }

  /** Leading digits. */
  function Digits(s: string): (d: string)
    ensures |d| <= |s| && d == s[..|d|]
    ensures forall i :: 0 <= i < |d| ==> IsDigit(d[i])
    ensures |d| < |s| ==> !IsDigit(s[|d|])
  {
    if s != [] && IsDigit(s[0]) then [s[0]] + Digits(s[1..]) else []
  }

  function ToNat(d: string): nat
    requires forall i :: 0 <= i < |d| ==> IsDigit(d[i])
  {
    if d == [] then 0
    else
      assert IsDigit(d[|d| - 1]);
      10 * ToNat(d[..|d| - 1]) + (d[|d| - 1] as int - '0' as int)
  }

  /** The position of the first space, or the length. */
  function SpaceAt(s: string): (i: nat)
    ensures i <= |s|
    ensures forall k :: 0 <= k < i ==> s[k] != ' '
    ensures i < |s| ==> s[i] == ' '
  {
    if s == [] || s[0] == ' ' then 0 else 1 + SpaceAt(s[1..])
  }

  // ---- Findings ----

  /** `_COUNTED`: digits, one space, and something after it. */
  predicate IsCounted(finding: string) {
    var d := Digits(finding);
    d != [] && |d| + 1 < |finding| && finding[|d|] == ' '
  }

  function CountOf(finding: string): nat
    requires IsCounted(finding)
  {
    ToNat(Digits(finding))
  }

  /** What is counted, without the examples after a colon. */
  function Phrase(tail: string): string {
    Strip(tail[..ColonAt(tail)])
  }

  function PhraseOf(finding: string): string
    requires IsCounted(finding)
  {
    Phrase(finding[|Digits(finding)| + 1..])
  }

  /** A recorded entry that starts with a number, as the ceilings read it. */
  predicate HasCeiling(entry: string) {
    var first := entry[..SpaceAt(entry)];
    first != [] && forall i :: 0 <= i < |first| ==> IsDigit(first[i])
  }

  function CeilingOf(entry: string): nat
    requires HasCeiling(entry)
  {
    ToNat(entry[..SpaceAt(entry)])
  }

  function CeilingPhrase(entry: string): string {
    Phrase(if SpaceAt(entry) < |entry| then entry[SpaceAt(entry) + 1..] else "")
  }

  function Nonempty(parts: seq<string>): set<string> {
    set p | p in parts && Strip(p) != [] :: Strip(p)
  }

  /** `_members`: a comma list after a colon, as its phrase and its set of members. */
  function Members(finding: string): (string, set<string>) {
    var i := ColonAt(finding);
    if i == |finding| || ',' !in finding[i + 2..] then (finding, {})
    else (Strip(finding[..i]), Nonempty(SplitCommas(finding[i + 2..])))
  }

  /** Everything recorded under the phrase `head`. */
  function Covered(head: string, known: set<string>): set<string> {
    set entry, m | entry in known && Members(entry).0 == head && m in Members(entry).1 :: m
  }

  predicate HasNewMember(finding: string, known: set<string>) {
    var (head, members) := Members(finding);
    members == {} || Covered(head, known) == {} || !(members <= Covered(head, known))
  }

  function Ceilings(phrase: string, known: set<string>): set<nat> {
    set entry | entry in known && HasCeiling(entry) && CeilingPhrase(entry) == phrase :: CeilingOf(entry)
  }

  predicate IsRegression(finding: string, known: set<string>) {
    if finding in known then false
    else if !IsCounted(finding) then HasNewMember(finding, known)
    else
      var ceilings := Ceilings(PhraseOf(finding), known);
      ceilings == {} || forall c :: c in ceilings ==> CountOf(finding) > c
  }

  /** `_has_new_member`: the entries are folded into what their shared head covers. */
  method CheckNewMember(finding: string, known: set<string>) returns (isNew: bool)
    ensures isNew == HasNewMember(finding, known)
  {
    var (head, members) := Members(finding);
    if members == {} {
      return true;
    }
    var covered: set<string> := {};
    var rest := known;
    while rest != {}
      invariant rest <= known && covered == Covered(head, known - rest)
    {
      var entry :| entry in rest;
      var (entryHead, entryMembers) := Members(entry);
      CoveredStep(head, known - rest, entry);
      assert known - (rest - {entry}) == (known - rest) + {entry};
      if entryHead == head {
        covered := covered + entryMembers;
      }
      rest := rest - {entry};
    }
    assert known - rest == known;
    return covered == {} || !(members <= covered);
  }

  lemma CoveredStep(head: string, seen: set<string>, entry: string)
    ensures Covered(head, seen + {entry})
         == Covered(head, seen) + if Members(entry).0 == head then Members(entry).1 else {}
  {
    var now := Covered(head, seen + {entry});
    forall m ensures m in now <==> m in Covered(head, seen) || (Members(entry).0 == head && m in Members(entry).1) {
      if m in now {
        var e :| e in seen + {entry} && Members(e).0 == head && m in Members(e).1;
        assert e in seen || e == entry;
      }
    }
  }

  // ---- The ratchet ----

  /** Recording more never makes a finding new. */
  lemma RecordingMoreIsSafe(finding: string, known: set<string>, more: set<string>)
    requires known <= more && IsRegression(finding, more)
    ensures IsRegression(finding, known)
  {
    if IsCounted(finding) {
      assert Ceilings(PhraseOf(finding), known) <= Ceilings(PhraseOf(finding), more);
    } else {
      var head := Members(finding).0;
      assert Covered(head, known) <= Covered(head, more);
    }
  }

  lemma CountedIsItsOwnCeiling(finding: string)
    requires IsCounted(finding)
    ensures HasCeiling(finding) && CeilingOf(finding) == CountOf(finding) && CeilingPhrase(finding) == PhraseOf(finding)
  {
    var d := Digits(finding);
    assert forall k :: 0 <= k < |d| ==> finding[k] == d[k];
    assert SpaceAt(finding) == |d|;
    assert finding[..SpaceAt(finding)] == d;
  }

  /** A counted finding blocks exactly when its count is above everything recorded under its phrase. */
  lemma CountedIff(finding: string, known: set<string>)
    requires IsCounted(finding)
    ensures IsRegression(finding, known) <==>
      forall entry :: entry in known && HasCeiling(entry) && CeilingPhrase(entry) == PhraseOf(finding)
        ==> CountOf(finding) > CeilingOf(entry)
  {
    CountedIsItsOwnCeiling(finding);
    var phrase := PhraseOf(finding);
    forall entry | entry in known && HasCeiling(entry) && CeilingPhrase(entry) == phrase
      ensures CeilingOf(entry) in Ceilings(phrase, known) {}
    forall c | c in Ceilings(phrase, known)
      ensures exists entry ::
        entry in known && HasCeiling(entry) && CeilingPhrase(entry) == phrase && CeilingOf(entry) == c
    {}
  }

  /** Any other finding not recorded word for word blocks exactly when it lists nothing or lists something new. */
  lemma ListedIff(finding: string, known: set<string>)
    requires !IsCounted(finding) && finding !in known
    ensures IsRegression(finding, known) <==>
      Members(finding).1 == {} || exists m :: m in Members(finding).1 && m !in Covered(Members(finding).0, known)
  {
    var (head, members) := Members(finding);
    if members != {} && members <= Covered(head, known) {
      var m :| m in members;
      assert m in Covered(head, known);
    }
  }

  // ---- A list as it is written ----

  function Join(members: seq<string>): string {
    if members == [] then "" else if |members| == 1 then members[0] else members[0] + ", " + Join(members[1..])
  }

  function Render(head: string, members: seq<string>): string {
    head + ": " + Join(members)
  }

  predicate CleanMember(m: string) {
    m != [] && !IsSpace(m[0]) && !IsSpace(m[|m| - 1]) && ',' !in m
  }

  predicate CleanHead(head: string) {
    head != [] && !IsSpace(head[0]) && !IsSpace(head[|head| - 1]) && ':' !in head
  }

  lemma CleanIsStripped(m: string)
    requires m != [] && !IsSpace(m[0]) && !IsSpace(m[|m| - 1])
    ensures Strip(m) == m && Strip([' '] + m) == m
  {
    assert StripLeft([' '] + m) == StripLeft(m) by {
      assert ([' '] + m)[1..] == m;
    }
  }

  lemma {:induction false} ColonAfterHead(head: string, tail: string)
    requires ':' !in head
    ensures ColonAt(head + ": " + tail) == |head|
  {
    var s := head + ": " + tail;
    if head != [] {
      assert head[0] in head;
      assert forall c :: c in head[1..] ==> c in head;
      ColonAfterHead(head[1..], tail);
      assert s[1..] == head[1..] + ": " + tail;
    }
  }

  lemma {:induction false} SplitOne(m: string)
    requires ',' !in m
    ensures SplitCommas(m) == [m]
  {
    if m != [] {
      assert m[0] in m && forall c :: c in m[1..] ==> c in m;
      SplitOne(m[1..]);
      assert [m[0]] + m[1..] == m;
    }
  }

  lemma {:induction false} SplitFirst(m: string, rest: string)
    requires ',' !in m
    ensures SplitCommas(m + "," + rest) == [m] + SplitCommas(rest)
  {
    var s := m + "," + rest;
    if m == [] {
      assert s[1..] == rest;
    } else {
      assert m[0] in m && forall c :: c in m[1..] ==> c in m;
      SplitFirst(m[1..], rest);
      assert s[1..] == m[1..] + "," + rest;
      assert [m[0]] + m[1..] == m;
    }
  }

  predicate CleanMembers(members: seq<string>) {
    forall i :: 0 <= i < |members| ==> CleanMember(members[i])
  }

  /** The parts of `prefix + Join(members)`, where the prefix is the space a comma leaves, or nothing. */
  function MemberSet(members: seq<string>): set<string> {
    set m | m in members
  }

  lemma SplitLast(m: string, prefix: string)
    requires CleanMember(m) && (prefix == "" || prefix == " ")
    ensures Nonempty(SplitCommas(prefix + m)) == {m}
  {
    PrefixIsStripped(prefix, m);
    SplitOne(prefix + m);
    PartsOfCons(prefix + m, []);
    assert [prefix + m] + [] == [prefix + m];
  }

  lemma SplitStep(m: string, rest: string, prefix: string, members: set<string>)
    requires CleanMember(m) && (prefix == "" || prefix == " ")
    requires Nonempty(SplitCommas(" " + rest)) == members
    ensures Nonempty(SplitCommas(prefix + m + "," + (" " + rest))) == {m} + members
  {
    PrefixIsStripped(prefix, m);
    SplitFirst(prefix + m, " " + rest);
    PartsOfCons(prefix + m, SplitCommas(" " + rest));
  }

  lemma {:induction false} SplitJoined(members: seq<string>, prefix: string)
    requires members != [] && CleanMembers(members)
    requires prefix == "" || prefix == " "
    ensures Nonempty(SplitCommas(prefix + Join(members))) == MemberSet(members)
    decreases |members|
  {
    var m, rest := members[0], members[1..];
    assert members == [m] + rest;
    if |members| == 1 {
      SplitLast(m, prefix);
    } else {
      SplitJoined(rest, " ");
      JoinStep(members, prefix);
      SplitStep(m, Join(rest), prefix, MemberSet(rest));
      assert MemberSet(members) == {m} + MemberSet(rest);
    }
  }

  lemma PrefixIsStripped(prefix: string, m: string)
    requires CleanMember(m) && (prefix == "" || prefix == " ")
    ensures Strip(prefix + m) == m && ',' !in prefix + m
  {
    CleanIsStripped(m);
    assert prefix + m == m || prefix + m == [' '] + m;
  }

  lemma JoinStep(members: seq<string>, prefix: string)
    requires |members| > 1
    ensures prefix + Join(members) == prefix + members[0] + "," + (" " + Join(members[1..]))
  {}

  lemma JoinHasComma(members: seq<string>)
    requires members != [] && CleanMembers(members)
    ensures |members| >= 2 <==> ',' in Join(members)
  {
    if |members| >= 2 {
      var m := members[0];
      assert (m + ", " + Join(members[1..]))[|m|] == ',';
    }
  }

  lemma PartsOfCons(part: string, parts: seq<string>)
    requires Strip(part) != []
    ensures Nonempty([part] + parts) == {Strip(part)} + Nonempty(parts)
  {
    assert part in [part] + parts;
    forall p | p in parts ensures p in [part] + parts {}
  }

  /** Reading a rendered list back: two members or more give the list, one gives nothing to compare. */
  lemma RenderedList(head: string, members: seq<string>)
    requires CleanHead(head) && members != [] && CleanMembers(members)
    ensures |members| >= 2 ==> Members(Render(head, members)) == (head, MemberSet(members))
    ensures |members| == 1 ==> Members(Render(head, members)) == (Render(head, members), {})
  {
    var finding := Render(head, members);
    RenderedParts(head, Join(members));
    CleanIsStripped(head);
    SplitJoined(members, "");
    JoinHasComma(members);
    assert "" + Join(members) == Join(members);
    ReadParts(finding, head, Join(members));
    if |members| == 1 {
      assert members == [members[0]];
    }
  }

  lemma RenderedParts(head: string, tail: string)
    requires ':' !in head
    ensures var finding := head + ": " + tail;
      ColonAt(finding) == |head| && |head| + 2 <= |finding| && finding[..|head|] == head
        && finding[|head| + 2..] == tail
  {
    ColonAfterHead(head, tail);
  }

  lemma ReadParts(finding: string, head: string, tail: string)
    requires ColonAt(finding) == |head| && |head| + 2 <= |finding| && finding[..|head|] == head
      && finding[|head| + 2..] == tail
    requires Strip(head) == head
    ensures Members(finding) == if ',' in tail then (head, Nonempty(SplitCommas(tail))) else (finding, {})
  {}

  /**
   * A recorded list may shrink without blocking as long as two members are left.  Down to its last member it
   * blocks, unless that very sentence is recorded.
   */
  lemma ShrinkingList(head: string, recorded: seq<string>, now: seq<string>, known: set<string>)
    requires CleanHead(head) && |recorded| >= 2 && CleanMembers(recorded) && now != []
    requires forall i :: 0 <= i < |now| ==> now[i] in recorded
    requires Render(head, recorded) in known && Render(head, now) !in known && !IsCounted(Render(head, now))
    ensures IsRegression(Render(head, now), known) <==> |now| == 1
  {
    assert CleanMembers(now);
    RenderedList(head, recorded);
    RenderedList(head, now);
    ListedIff(Render(head, now), known);
    if |now| >= 2 {
      var (h, members) := Members(Render(head, now));
      assert now[0] in now && now[0] in members;
      forall m | m in members ensures m in Covered(head, known) {
        assert m in Members(Render(head, recorded)).1;
      }
    }
  }
}
