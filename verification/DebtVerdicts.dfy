/** The ratchet on the sentences themselves, and what is blocked and recorded. */
module DebtVerdicts {
  import opened Common
  import opened DebtRatchet
  import opened DebtFile

  // ---- A number as it is written ----

  function Digit(n: nat): char
    requires n < 10
  {
    ('0' as int + n) as char
  }

  function Decimal(n: nat): string {
    if n < 10 then [Digit(n)] else Decimal(n / 10) + [Digit(n % 10)]
  }

  ghost predicate AllDigits(d: string) {
    forall i :: 0 <= i < |d| ==> IsDigit(d[i])
  }

  lemma {:induction false} DecimalReads(n: nat)
    ensures Decimal(n) != [] && AllDigits(Decimal(n)) && ToNat(Decimal(n)) == n
  {
    var d := Decimal(n);
    if n >= 10 {
      DecimalReads(n / 10);
      assert d[..|d| - 1] == Decimal(n / 10) && d[|d| - 1] == Digit(n % 10);
    } else {
      assert d[..0] == [];
    }
  }

  lemma {:induction false} DigitsFront(d: string, rest: string)
    requires AllDigits(d) && (rest != [] ==> !IsDigit(rest[0]))
    ensures Digits(d + rest) == d
  {
    if d != [] {
      DigitsFront(d[1..], rest);
      assert (d + rest)[1..] == d[1..] + rest;
    } else {
      assert d + rest == rest;
    }
  }

  // ---- Counted findings ----

  /** `12 hardcoded colours`, or `12 hardcoded colours: a.css, b.css`. */
  function CountLine(n: nat, phrase: string, examples: string): string {
    Decimal(n) + " " + phrase + if examples == "" then "" else ": " + examples
  }

  lemma {:induction false} NoColon(s: string)
    requires ':' !in s
    ensures ColonAt(s) == |s|
  {
    if |s| >= 2 {
      assert s[0] in s && forall c :: c in s[1..] ==> c in s;
      NoColon(s[1..]);
    }
  }

  lemma PhraseReads(phrase: string, examples: string)
    requires CleanHead(phrase)
    ensures Phrase(phrase + if examples == "" then "" else ": " + examples) == phrase
  {
    CleanIsStripped(phrase);
    if examples == "" {
      NoColon(phrase);
      assert phrase + "" == phrase && phrase[..|phrase|] == phrase;
    } else {
      ColonAfterHead(phrase, examples);
      var tail := phrase + ": " + examples;
      assert phrase + (": " + examples) == tail && tail[..|phrase|] == phrase;
    }
  }

  lemma CountLineReads(n: nat, phrase: string, examples: string)
    requires CleanHead(phrase)
    ensures var line := CountLine(n, phrase, examples);
      IsCounted(line) && CountOf(line) == n && PhraseOf(line) == phrase
  {
    var tail := phrase + if examples == "" then "" else ": " + examples;
    var line, d := CountLine(n, phrase, examples), Decimal(n);
    assert line == d + (" " + tail);
    DecimalReads(n);
    DigitsFront(d, " " + tail);
    PhraseReads(phrase, examples);
    assert line[|d|] == ' ' && line[|d| + 1..] == tail;
  }

  ghost predicate IsCountLine(entry: string) {
    exists c, p, x :: CleanHead(p) && entry == CountLine(c, p, x)
  }

  /**
   * The ratchet on the sentences: against recorded counts, a count blocks exactly when every count recorded under
   * the same phrase, whatever its examples, is below it.
   */
  lemma CountedOnText(n: nat, phrase: string, examples: string, known: set<string>)
    requires CleanHead(phrase) && forall entry :: entry in known ==> IsCountLine(entry)
    ensures IsRegression(CountLine(n, phrase, examples), known)
       <==> forall c: nat, x :: CountLine(c, phrase, x) in known ==> c < n
  {
    var line := CountLine(n, phrase, examples);
    CountLineReads(n, phrase, examples);
    CountedIff(line, known);
    forall c: nat, x | CountLine(c, phrase, x) in known && IsRegression(line, known) ensures c < n {
      CountLineReads(c, phrase, x);
      CountedIsItsOwnCeiling(CountLine(c, phrase, x));
    }
    if forall c: nat, x :: CountLine(c, phrase, x) in known ==> c < n {
      forall entry | entry in known && HasCeiling(entry) && CeilingPhrase(entry) == phrase
        ensures n > CeilingOf(entry)
      {
        var c, p, x :| CleanHead(p) && entry == CountLine(c, p, x);
        CountLineReads(c, p, x);
        CountedIsItsOwnCeiling(entry);
      }
    }
  }

  // ---- Listed findings ----

  ghost predicate IsList(entry: string, head: string, members: seq<string>) {
    CleanHead(head) && !IsDigit(head[0]) && |members| >= 2 && CleanMembers(members) && entry == Render(head, members)
  }

  lemma ListReads(entry: string, head: string, members: seq<string>)
    requires IsList(entry, head, members)
    ensures !IsCounted(entry) && Members(entry) == (head, MemberSet(members))
  {
    RenderedList(head, members);
    assert entry[0] == head[0];
    assert Digits(entry) == [];
  }

  ghost predicate RecordedUnder(known: set<string>, head: string, m: string) {
    exists members :: IsList(Render(head, members), head, members) && Render(head, members) in known && m in members
  }

  /**
   * And against recorded lists, a list blocks exactly when one of its members is in no list recorded under the same
   * head.
   */
  lemma ListedOnText(finding: string, head: string, members: seq<string>, known: set<string>)
    requires IsList(finding, head, members)
    requires forall entry :: entry in known ==> exists h, ms :: IsList(entry, h, ms)
    ensures IsRegression(finding, known) <==> exists m :: m in members && !RecordedUnder(known, head, m)
  {
    ListReads(finding, head, members);
    assert members[0] in MemberSet(members);
    forall m ensures m in Covered(head, known) <==> RecordedUnder(known, head, m) {
      CoveredIff(known, head, m);
    }
    if finding in known {
      forall m | m in members ensures RecordedUnder(known, head, m) {
        assert IsList(Render(head, members), head, members);
      }
    } else {
      ListedIff(finding, known);
    }
  }

  lemma CoveredIff(known: set<string>, head: string, m: string)
    requires forall entry :: entry in known ==> exists h, ms :: IsList(entry, h, ms)
    ensures m in Covered(head, known) <==> RecordedUnder(known, head, m)
  {
    if m in Covered(head, known) {
      var entry :| entry in known && Members(entry).0 == head && m in Members(entry).1;
      var h, ms :| IsList(entry, h, ms);
      ListReads(entry, h, ms);
    }
    if RecordedUnder(known, head, m) {
      var ms :| IsList(Render(head, ms), head, ms) && Render(head, ms) in known && m in ms;
      ListReads(Render(head, ms), head, ms);
      assert m in Members(Render(head, ms)).1;
    }
  }

  // ---- Which findings block ----

  lemma {:induction false} NotInIs(q: seq<string>, known: set<string>, f: string)
    ensures f in NotIn(q, known) <==> f in q && f !in known
  {
    if q != [] {
      NotInIs(q[1..], known, f);
      assert f in q <==> f == q[0] || f in q[1..];
    }
  }

  lemma {:induction false} RegressionsAre(q: seq<string>, known: set<string>, f: string)
    ensures f in Regressions(q, known) <==> f in q && !NoWorse(f, known)
    ensures f in PlumbingRegressions(q, known) <==> f in q && !NoWorse(f, known) && !IsCssTarget(f)
  {
    if q != [] {
      RegressionsAre(q[1..], known, f);
      NoWorseIsNoRegression(q[0], known);
      CssTargetIff(q[0]);
      assert f in q <==> f == q[0] || f in q[1..];
    }
  }

  ghost predicate IsPending(debt: Debt, f: string) {
    debt.pending.Some? && exists e :: e in debt.pending.value && e.finding == f
  }

  /** Recorded in that list, or pending. */
  ghost predicate Known(debt: Debt, recorded: Option<seq<string>>, f: string) {
    (recorded.Some? && f in recorded.value) || IsPending(debt, f)
  }

  function KnownIn(debt: Debt, recorded: Option<seq<string>>): (known: set<string>)
    ensures forall f :: f in known <==> Known(debt, recorded, f)
  {
    SetOf(OrEmpty(recorded)) + PendingFindings(debt)
  }

  /** The sheets some pending entry attributes to other work. */
  ghost predicate ExemptsOnly(debt: Debt, sheets: set<string>) {
    forall s :: s in sheets <==> debt.pending.Some? && exists e :: e in debt.pending.value && s in e.cssExempt
  }

  /** What the gate reports: exactly the findings that are new, list by list. */
  lemma BlockingIs(a: Audit, css: set<string> -> nat, debt: Debt, f: string)
    ensures var b := NewFindings(a, css, debt);
      && (f in b.orphans <==> f in a.orphans && !Known(debt, debt.orphans, f))
      && (f in b.structural <==> f in a.structural && !NoWorse(f, KnownIn(debt, debt.structural)))
      && (f in b.plumbing <==>
            InPlumbing(a, f) && !IsCssTarget(f) && !NoWorse(f, KnownIn(debt, debt.plumbing)))
    ensures var b := NewFindings(a, css, debt);
      exists sheets :: ExemptsOnly(debt, sheets)
                 && (b.cssGrew <==> debt.cssLines.Some? && css(sheets) > debt.cssLines.value)
  {
    NotInIs(a.orphans, KnownIn(debt, debt.orphans), f);
    RegressionsAre(a.structural, KnownIn(debt, debt.structural), f);
    RegressionsAre(BlockingPlumbing(a), KnownIn(debt, debt.plumbing), f);
    assert ExemptsOnly(debt, Exempt(OrEmpty(debt.pending)));
  }

  // ---- What a baseline holds ----

  /** Every finding of the audit is recorded where it belongs, and nothing else is. */
  lemma BaselineRecords(a: Audit, existing: Debt)
    ensures var debt := Recorded(a, existing);
      && debt.orphans.Some? && multiset(debt.orphans.value) == multiset(a.orphans)
      && AscendingStrings(debt.orphans.value)
      && debt.structural == Some(a.structural)
      && debt.plumbing == Some(a.fallbacks + a.routes + a.french + a.styling + a.duplicates)
      && debt.reimplementedCount == Some(a.reimplemented)
    ensures var debt := Recorded(a, existing);
      && "_README" in debt.others
      && ("_README" !in existing.others ==> debt.others["_README"] == "Findings accepted as standing debt.")
  {
    SortAllIs(a.orphans);
  }

  lemma KeptAlone(e: Pending, accepted: set<string>)
    ensures Unanswered([e], accepted) == if e.finding in accepted then [] else [e]
  {
    assert [e][1..] == [];
  }

  lemma KeptFirst(e: Pending, rest: seq<Pending>, accepted: set<string>)
    ensures Unanswered([e] + rest, accepted) == Unanswered([e], accepted) + Unanswered(rest, accepted)
  {
    assert ([e] + rest)[1..] == rest;
    KeptAlone(e, accepted);
  }

  /** The kept pending entries stand in their order, each as often as before: keeping works entry by entry. */
  lemma {:induction false} KeptInOrder(a: seq<Pending>, b: seq<Pending>, accepted: set<string>)
    ensures Unanswered(a + b, accepted) == Unanswered(a, accepted) + Unanswered(b, accepted)
  {
    if a == [] {
      assert a + b == b;
    } else {
      var e, rest := a[0], a[1..];
      KeptInOrder(rest, b, accepted);
      KeptFirst(e, rest, accepted);
      KeptFirst(e, rest + b, accepted);
      assert a == [e] + rest;
      Associates([e], rest, b);
      Associates(Unanswered([e], accepted), Unanswered(rest, accepted), Unanswered(b, accepted));
    }
  }

  lemma Associates<T>(a: seq<T>, b: seq<T>, c: seq<T>)
    ensures a + b + c == a + (b + c)
  {}
}
