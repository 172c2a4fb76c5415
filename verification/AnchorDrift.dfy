/** Whether a recorded verdict still names its bullet. */
module AnchorDrift {
  import opened Common

  const REWRITE_MIN_OPENING: nat := 12
  const ANCHOR_CHARS: nat := 60

  // ---- The common opening of two bullets ----

  predicate StartsWith(s: string, opening: string) {
    opening <= s
  }

  /** What both bullets open on, up to the first difference. */
  ghost predicate IsCommonOpening(left: string, right: string, opening: string) {
    && opening <= left && opening <= right
    && (|opening| < |left| && |opening| < |right| ==> left[|opening|] != right[|opening|])
  }

  function CommonOpening(left: string, right: string): string {
    if left == [] || right == [] || left[0] != right[0] then []
    else [left[0]] + CommonOpening(left[1..], right[1..])
  }

  method CountOpening(left: string, right: string) returns (opening: string)
    ensures opening == CommonOpening(left, right)
  {
    var size := 0;
    while size < |left| && size < |right| && left[size] == right[size]
      invariant size <= |left| && size <= |right|
      invariant CommonOpening(left, right) == left[..size] + CommonOpening(left[size..], right[size..])
    {
      OpeningStep(left, right, size);
      size := size + 1;
    }
    opening := left[..size];
    assert opening + [] == opening;
  }

  lemma OpeningStep(left: string, right: string, size: nat)
    requires size < |left| && size < |right| && left[size] == right[size]
    ensures left[..size] + CommonOpening(left[size..], right[size..])
         == left[..size + 1] + CommonOpening(left[size + 1..], right[size + 1..])
  {
    assert left[size..][1..] == left[size + 1..] && right[size..][1..] == right[size + 1..];
    assert left[..size + 1] == left[..size] + [left[size]];
  }

  lemma {:induction false} CommonOpeningIs(left: string, right: string)
    ensures IsCommonOpening(left, right, CommonOpening(left, right))
  {
    if left != [] && right != [] && left[0] == right[0] {
      CommonOpeningIs(left[1..], right[1..]);
    }
  }

  // ---- The drift classes ----

  /** How many bullets of the list start with the opening. */
  function Openers(listing: seq<string>, opening: string): nat {
    if listing == [] then 0 else (if StartsWith(listing[0], opening) then 1 else 0) + Openers(listing[1..], opening)
  }

  /** The judged bullet, reworded: the two share an opening long enough, which opens one bullet of the list. */
  predicate SameCriterion(judged: string, candidate: string, listing: seq<string>) {
    var opening := CommonOpening(judged, candidate);
    |opening| >= REWRITE_MIN_OPENING && Openers(listing, opening) == 1
  }

  datatype Landing = Verbatim(index: nat) | Reworded(index: nat) | Gone

  datatype Drift = Unreadable | Stable | Rewritten | Moved(landing: Landing)

  /** The first index holding the judged bullet. */
  function IndexOf(listing: seq<string>, judged: string, from: nat): (r: Option<nat>)
    requires from <= |listing|
    ensures r.Some? ==> from <= r.value < |listing| && listing[r.value] == judged
    ensures forall k :: from <= k < (if r.Some? then r.value else |listing|) ==> listing[k] != judged
    decreases |listing| - from
  {
    if from == |listing| then None
    else if listing[from] == judged then Some(from)
    else IndexOf(listing, judged, from + 1)
  }

  /** The first index whose bullet is the judged one reworded. */
  function RewordedAt(listing: seq<string>, judged: string, from: nat): (r: Option<nat>)
    requires from <= |listing|
    ensures r.Some? ==> from <= r.value < |listing| && SameCriterion(judged, listing[r.value], listing)
    ensures forall k :: from <= k < (if r.Some? then r.value else |listing|) ==>
      !SameCriterion(judged, listing[k], listing)
    decreases |listing| - from
  {
    if from == |listing| then None
    else if SameCriterion(judged, listing[from], listing) then Some(from)
    else RewordedAt(listing, judged, from + 1)
  }

  function Land(judged: string, listing: seq<string>): Landing {
    match IndexOf(listing, judged, 0)
    case Some(i) => Verbatim(i)
    case None =>
      match RewordedAt(listing, judged, 0)
      case Some(i) => Reworded(i)
      case None => Gone
  }

  /** An unanchored verdict: its index, its list when it was written (None if that cannot be read), its list today. */
  datatype Verdict = Verdict(index: nat, before: Option<seq<string>>, now: seq<string>)

  predicate Readable(v: Verdict) {
    v.before.Some? && v.index < |v.before.value| && v.index < |v.now|
  }

  function Classify(v: Verdict): Drift {
    if !Readable(v) then Unreadable
    else
      var judged := v.before.value[v.index];
      if judged == v.now[v.index] then Stable
      else if SameCriterion(judged, v.now[v.index], v.now) then Rewritten
      else Moved(Land(judged, v.now))
  }

  // ---- The report ----

  datatype Class = InUnreadable | InStable | InRewritten | InMoved

  function ClassOf(d: Drift): Class {
    match d
    case Unreadable => InUnreadable
    case Stable => InStable
    case Rewritten => InRewritten
    case Moved(_) => InMoved
  }

  /** The positions of the verdicts of one class, in order. */
  function Positions(verdicts: seq<Verdict>, c: Class, n: nat): seq<nat>
    requires n <= |verdicts|
  {
    if n == 0 then []
    else if ClassOf(Classify(verdicts[n - 1])) == c then Positions(verdicts, c, n - 1) + [n - 1]
    else Positions(verdicts, c, n - 1)
  }

  function Landings(verdicts: seq<Verdict>, n: nat): seq<Landing>
    requires n <= |verdicts|
  {
    if n == 0 then []
    else if Classify(verdicts[n - 1]).Moved? then Landings(verdicts, n - 1) + [Classify(verdicts[n - 1]).landing]
    else Landings(verdicts, n - 1)
  }

  method FindLanding(judged: string, listing: seq<string>) returns (where: Landing)
    ensures where == Land(judged, listing)
  {
    var landed := IndexOf(listing, judged, 0);
    if landed.Some? {
      return Verbatim(landed.value);
    }
    var reworded := RewordedAt(listing, judged, 0);
    if reworded.Some? {
      return Reworded(reworded.value);
    }
    return Gone;
  }

  method UnanchoredDrift(verdicts: seq<Verdict>)
    returns (moved: seq<nat>, landings: seq<Landing>, rewritten: seq<nat>, stable: seq<nat>, unreadable: seq<nat>)
    ensures moved == Positions(verdicts, InMoved, |verdicts|) && landings == Landings(verdicts, |verdicts|)
    ensures rewritten == Positions(verdicts, InRewritten, |verdicts|)
    ensures stable == Positions(verdicts, InStable, |verdicts|)
    ensures unreadable == Positions(verdicts, InUnreadable, |verdicts|)
  {
    moved, landings, rewritten, stable, unreadable := [], [], [], [], [];
    for i := 0 to |verdicts|
      invariant moved == Positions(verdicts, InMoved, i) && landings == Landings(verdicts, i)
      invariant rewritten == Positions(verdicts, InRewritten, i)
      invariant stable == Positions(verdicts, InStable, i)
      invariant unreadable == Positions(verdicts, InUnreadable, i)
    {
      var v := verdicts[i];
      if !Readable(v) {
        unreadable := unreadable + [i];
      } else {
        var judged, today := v.before.value[v.index], v.now[v.index];
        if judged == today {
          stable := stable + [i];
        } else if SameCriterion(judged, today, v.now) {
          rewritten := rewritten + [i];
        } else {
          var where := FindLanding(judged, v.now);
          moved, landings := moved + [i], landings + [where];
        }
      }
    }
  }

  lemma {:induction false} PositionsAre(verdicts: seq<Verdict>, c: Class, n: nat)
    requires n <= |verdicts|
    ensures var q := Positions(verdicts, c, n);
            && (forall i: nat :: i in q <==> i < n && ClassOf(Classify(verdicts[i])) == c)
            && (forall i, j :: 0 <= i < j < |q| ==> q[i] < q[j])
  {
    if n > 0 {
      PositionsAre(verdicts, c, n - 1);
      var rest := Positions(verdicts, c, n - 1);
      assert forall i :: 0 <= i < |rest| ==> rest[i] in rest;
    }
  }

  /** Every verdict is reported in exactly one of the four lists, and once. */
  lemma DriftPartition(verdicts: seq<Verdict>, i: nat)
    requires i < |verdicts|
    ensures forall c :: i in Positions(verdicts, c, |verdicts|) <==> c == ClassOf(Classify(verdicts[i]))
    ensures forall c :: var q := Positions(verdicts, c, |verdicts|);
              forall a, b :: 0 <= a < b < |q| ==> q[a] < q[b]
  {
    forall c
      ensures i in Positions(verdicts, c, |verdicts|) <==> c == ClassOf(Classify(verdicts[i]))
      ensures var q := Positions(verdicts, c, |verdicts|); forall a, b :: 0 <= a < b < |q| ==> q[a] < q[b]
    {
      PositionsAre(verdicts, c, |verdicts|);
    }
  }

  // ---- An insertion is never read as a rewrite ----

  lemma {:induction false} TwoOpeners(listing: seq<string>, opening: string, i: nat, j: nat)
    requires i < j < |listing| && StartsWith(listing[i], opening) && StartsWith(listing[j], opening)
    ensures Openers(listing, opening) >= 2
  {
    if i == 0 {
      OneOpener(listing[1..], opening, j - 1);
    } else {
      TwoOpeners(listing[1..], opening, i - 1, j - 1);
    }
  }

  lemma {:induction false} OneOpener(listing: seq<string>, opening: string, i: nat)
    requires i < |listing| && StartsWith(listing[i], opening)
    ensures Openers(listing, opening) >= 1
  {
    if i > 0 {
      OneOpener(listing[1..], opening, i - 1);
    }
  }

  /** A judged bullet still in the list word for word, at whatever index, is stable or re-pointed, never rewritten. */
  lemma VerbatimIsNotRewritten(v: Verdict, j: nat)
    requires Readable(v) && j < |v.now| && v.now[j] == v.before.value[v.index]
    ensures !Classify(v).Rewritten?
    ensures Classify(v).Stable? <==> v.now[v.index] == v.before.value[v.index]
    ensures Classify(v).Moved? ==> Classify(v).landing.Verbatim? && v.now[Classify(v).landing.index] == v.now[j]
  {
    var judged, today := v.before.value[v.index], v.now[v.index];
    if judged != today {
      var opening := CommonOpening(judged, today);
      CommonOpeningIs(judged, today);
      if v.index < j {
        TwoOpeners(v.now, opening, v.index, j);
      } else {
        TwoOpeners(v.now, opening, j, v.index);
      }
    }
  }

  ghost predicate AllDistinct(listing: seq<string>) {
    forall i, j :: 0 <= i < j < |listing| ==> listing[i] != listing[j]
  }

  function InsertAt(listing: seq<string>, p: nat, bullet: string): seq<string>
    requires p <= |listing|
  {
    listing[..p] + [bullet] + listing[p..]
  }

  /**
   * One bullet inserted at p in a list of distinct bullets: every verdict below p is stable, and every verdict at
   * or above p is re-pointed, its bullet found one index further.
   */
  lemma InsertionRepoints(listing: seq<string>, p: nat, bullet: string, i: nat)
    requires p <= |listing| && i < |listing| && AllDistinct(InsertAt(listing, p, bullet))
    ensures Classify(Verdict(i, Some(listing), InsertAt(listing, p, bullet)))
         == if i < p then Stable else Moved(Verbatim(i + 1))
  {
    var now := InsertAt(listing, p, bullet);
    var v := Verdict(i, Some(listing), now);
    if i >= p {
      assert now[i + 1] == listing[i];
      VerbatimIsNotRewritten(v, i + 1);
      assert now[i] != now[i + 1];
    }
  }

  function RemoveAt(listing: seq<string>, p: nat): seq<string>
    requires p < |listing|
  {
    listing[..p] + listing[p + 1..]
  }

  /** One bullet removed at p: below it stable, above it re-pointed one index back, the last one unreadable. */
  lemma RemovalRepoints(listing: seq<string>, p: nat, i: nat)
    requires p < |listing| && i < |listing| && i != p && AllDistinct(listing)
    ensures Classify(Verdict(i, Some(listing), RemoveAt(listing, p)))
         == if i < p then Stable else if i == |listing| - 1 then Unreadable else Moved(Verbatim(i - 1))
  {
    var now := RemoveAt(listing, p);
    var v := Verdict(i, Some(listing), now);
    if p < i < |listing| - 1 {
      assert now[i - 1] == listing[i] && now[i] == listing[i + 1];
      VerbatimIsNotRewritten(v, i - 1);
      assert forall k :: 0 <= k < |now| ==> now[k] == listing[if k < p then k else k + 1];
      assert AllDistinct(now);
    }
  }

  lemma {:induction false} NoOpener(listing: seq<string>, opening: string)
    ensures Openers(listing, opening) == 0 <==> forall j :: 0 <= j < |listing| ==> !StartsWith(listing[j], opening)
  {
    if listing != [] {
      NoOpener(listing[1..], opening);
      assert forall j :: 1 <= j < |listing| ==> listing[j] == listing[1..][j - 1];
    }
  }

  lemma SoleOpener(listing: seq<string>, opening: string, i: nat)
    requires i < |listing| && StartsWith(listing[i], opening)
    ensures Openers(listing, opening) == 1 <==>
      forall j :: 0 <= j < |listing| && j != i ==> !StartsWith(listing[j], opening)
  {
    SplitOpeners(listing, opening, i);
    NoOpener(listing[..i], opening);
    NoOpener(listing[i + 1..], opening);
    assert forall j :: i < j < |listing| ==> listing[j] == listing[i + 1..][j - i - 1];
  }

  lemma {:induction false} SplitOpeners(listing: seq<string>, opening: string, i: nat)
    requires i < |listing| && StartsWith(listing[i], opening)
    ensures Openers(listing, opening) == Openers(listing[..i], opening) + 1 + Openers(listing[i + 1..], opening)
  {
    if i > 0 {
      SplitOpeners(listing[1..], opening, i - 1);
      assert listing[1..][..i - 1] == listing[..i][1..] && listing[1..][i..] == listing[i + 1..];
    }
  }

  /** The removed bullet and the one that takes its index share an opening long enough, which opens no third bullet. */
  ghost predicate PassesForRewrite(listing: seq<string>, p: nat)
    requires p + 1 < |listing|
  {
    var opening := CommonOpening(listing[p], listing[p + 1]);
    && |opening| >= 12
    && forall k :: 0 <= k < |listing| && k != p && k != p + 1 ==> !StartsWith(listing[k], opening)
  }

  lemma SoleAfterRemoval(listing: seq<string>, p: nat, opening: string)
    requires p + 1 < |listing| && StartsWith(listing[p + 1], opening)
    ensures Openers(RemoveAt(listing, p), opening) == 1 <==>
      forall k :: 0 <= k < |listing| && k != p && k != p + 1 ==> !StartsWith(listing[k], opening)
  {
    var now := RemoveAt(listing, p);
    SoleOpener(now, opening, p);
    assert forall k :: 0 <= k < |listing| && k != p && k != p + 1 ==> listing[k] == now[if k < p then k else k - 1];
  }

  /**
   * The rule protects insertions only.  The verdict of the removed bullet itself is read as a rewrite in place
   * exactly when the bullet that took its index shares an opening long enough with it and is, once it is gone, the
   * only one left with that opening.  Otherwise it is re-pointed, never to a bullet held word for word.  Removed
   * from the end it is unreadable.
   */
  lemma RemovedBulletIs(listing: seq<string>, p: nat)
    requires p < |listing| && AllDistinct(listing)
    ensures var drift := Classify(Verdict(p, Some(listing), RemoveAt(listing, p)));
      if p == |listing| - 1 then drift == Unreadable
      else if PassesForRewrite(listing, p) then drift == Rewritten
      else drift.Moved? && !drift.landing.Verbatim?
  {
    if p + 1 < |listing| {
      var now := RemoveAt(listing, p);
      var judged, today := listing[p], now[p];
      assert today == listing[p + 1] && judged != today;
      var opening := CommonOpening(judged, today);
      CommonOpeningIs(judged, today);
      SoleAfterRemoval(listing, p, opening);
      assert SameCriterion(judged, today, now) <==> PassesForRewrite(listing, p);
      forall k | 0 <= k < |now| ensures now[k] != judged {
        assert now[k] == listing[if k < p then k else k + 1];
      }
      assert IndexOf(now, judged, 0).None?;
    }
  }

  /** Two bullets that differ in their last character, the first removed: its verdict is read as a rewrite. */
  lemma RemovalCanReadAsRewrite(a: char, b: char)
    requires a != b
    ensures var opening := "the surface has no ";
            Classify(Verdict(0, Some([opening + [a], opening + [b]]), RemoveAt([opening + [a], opening + [b]], 0)))
            == Rewritten
  {
    var opening := "the surface has no ";
    var judged, today := opening + [a], opening + [b];
    assert judged[|opening|] != today[|opening|];
    CommonOpeningIs(judged, today);
    assert opening <= judged && opening <= today;
    assert |CommonOpening(judged, today)| >= |opening|;
    RemovedBulletIs([judged, today], 0);
  }

  // ---- Anchored verdicts ----

  /** A recorded verdict of one surface: its index and its anchor, if it carries one. */
  datatype Anchored = Anchored(index: nat, anchor: Option<string>)

  function Shown(anchor: string): string {
    if |anchor| <= ANCHOR_CHARS then anchor else anchor[..ANCHOR_CHARS]
  }

  predicate OutOfRange(e: Anchored, listing: seq<string>) {
    e.index >= |listing|
  }

  predicate Drifted(e: Anchored, listing: seq<string>) {
    !OutOfRange(e, listing) && e.anchor.Some? && e.anchor.value != []
    && !StartsWith(listing[e.index], Shown(e.anchor.value))
  }

  /** The entries up to n that point past the list, in order. */
  function OutOfRangeUpTo(entries: seq<Anchored>, listing: Option<seq<string>>, n: nat): (q: seq<nat>)
    requires n <= |entries|
  {
    if n == 0 then []
    else
      OutOfRangeUpTo(entries, listing, n - 1)
      + if listing.Some? && OutOfRange(entries[n - 1], listing.value) then [n - 1] else []
  }

  function DriftedUpTo(entries: seq<Anchored>, listing: Option<seq<string>>, n: nat): (q: seq<nat>)
    requires n <= |entries|
  {
    if n == 0 then []
    else
      DriftedUpTo(entries, listing, n - 1)
      + if listing.Some? && Drifted(entries[n - 1], listing.value) then [n - 1] else []
  }

  function UnanchoredUpTo(entries: seq<Anchored>, n: nat): nat
    requires n <= |entries|
  {
    if n == 0 then 0 else UnanchoredUpTo(entries, n - 1) + if entries[n - 1].anchor.None? then 1 else 0
  }

  method AuditSurface(entries: seq<Anchored>, listing: Option<seq<string>>)
    returns (drifted: seq<nat>, outOfRange: seq<nat>, unanchored: nat)
    ensures drifted == DriftedUpTo(entries, listing, |entries|)
    ensures outOfRange == OutOfRangeUpTo(entries, listing, |entries|)
    ensures unanchored == UnanchoredUpTo(entries, |entries|)
  {
    drifted, outOfRange, unanchored := [], [], 0;
    for i := 0 to |entries|
      invariant drifted == DriftedUpTo(entries, listing, i) && outOfRange == OutOfRangeUpTo(entries, listing, i)
      invariant unanchored == UnanchoredUpTo(entries, i)
    {
      var e := entries[i];
      if e.anchor.None? {
        unanchored := unanchored + 1;
      }
      if listing.Some? {
        if e.index >= |listing.value| {
          outOfRange := outOfRange + [i];
        } else if e.anchor.Some? && e.anchor.value != [] && !StartsWith(listing.value[e.index], Shown(e.anchor.value)) {
          drifted := drifted + [i];
        }
      }
    }
  }

  lemma {:induction false} DriftedUpToIs(entries: seq<Anchored>, listing: Option<seq<string>>, n: nat)
    requires n <= |entries|
    ensures forall i: nat ::
      i in DriftedUpTo(entries, listing, n) <==> i < n && listing.Some? && Drifted(entries[i], listing.value)
    ensures StrictlyAscending(DriftedUpTo(entries, listing, n))
  {
    if n > 0 {
      DriftedUpToIs(entries, listing, n - 1);
      AscendingSnoc(DriftedUpTo(entries, listing, n - 1), n - 1);
      assert DriftedUpTo(entries, listing, n - 1) + [] == DriftedUpTo(entries, listing, n - 1);
    }
  }

  lemma {:induction false} OutOfRangeUpToIs(entries: seq<Anchored>, listing: Option<seq<string>>, n: nat)
    requires n <= |entries|
    ensures forall i: nat ::
      i in OutOfRangeUpTo(entries, listing, n) <==> i < n && listing.Some? && OutOfRange(entries[i], listing.value)
    ensures StrictlyAscending(OutOfRangeUpTo(entries, listing, n))
  {
    if n > 0 {
      OutOfRangeUpToIs(entries, listing, n - 1);
      AscendingSnoc(OutOfRangeUpTo(entries, listing, n - 1), n - 1);
      assert OutOfRangeUpTo(entries, listing, n - 1) + [] == OutOfRangeUpTo(entries, listing, n - 1);
    }
  }

  lemma {:induction false} UnanchoredUpToIs(entries: seq<Anchored>, n: nat)
    requires n <= |entries|
    ensures UnanchoredUpTo(entries, n) == |set i | 0 <= i < n && entries[i].anchor.None?|
  {
    if n > 0 {
      UnanchoredUpToIs(entries, n - 1);
      var rest := set i | 0 <= i < n - 1 && entries[i].anchor.None?;
      assert (set i | 0 <= i < n && entries[i].anchor.None?)
         == if entries[n - 1].anchor.None? then rest + {n - 1} else rest;
    }
  }

  /** The entry points at a bullet that does not begin with the first sixty characters of its anchor. */
  ghost predicate Strayed(e: Anchored, listing: seq<string>) {
    && e.index < |listing| && e.anchor.Some? && e.anchor.value != []
    && !(e.anchor.value[..if |e.anchor.value| < 60 then |e.anchor.value| else 60] <= listing[e.index])
  }

  /** Each kind of report lists exactly its entries, once and in the order of the entries. */
  lemma AuditIff(entries: seq<Anchored>, listing: Option<seq<string>>)
    ensures var drifted := DriftedUpTo(entries, listing, |entries|);
      StrictlyAscending(drifted)
      && forall i: nat :: i in drifted <==> i < |entries| && listing.Some? && Strayed(entries[i], listing.value)
    ensures var outOfRange := OutOfRangeUpTo(entries, listing, |entries|);
      StrictlyAscending(outOfRange)
      && forall i: nat :: i in outOfRange <==> i < |entries| && listing.Some? && entries[i].index >= |listing.value|
    ensures UnanchoredUpTo(entries, |entries|) == |set i | 0 <= i < |entries| && entries[i].anchor.None?|
  {
    DriftedUpToIs(entries, listing, |entries|);
    OutOfRangeUpToIs(entries, listing, |entries|);
    UnanchoredUpToIs(entries, |entries|);
  }

  /**
   * An anchor that opens one bullet of the new list catches the insertion: verdicts below p still pass, every
   * verdict at or above p is refused as drifted, and none runs past the list.
   */
  lemma AnchorCatchesInsertion(listing: seq<string>, p: nat, bullet: string, i: nat, anchor: string)
    requires p <= |listing| && i < |listing| && anchor != [] && StartsWith(listing[i], Shown(anchor))
    requires Openers(InsertAt(listing, p, bullet), Shown(anchor)) == 1
    ensures var e := Anchored(i, Some(anchor));
            !OutOfRange(e, InsertAt(listing, p, bullet)) && (Drifted(e, InsertAt(listing, p, bullet)) <==> i >= p)
  {
    var now := InsertAt(listing, p, bullet);
    if i >= p {
      assert now[i + 1] == listing[i];
      if StartsWith(now[i], Shown(anchor)) {
        TwoOpeners(now, Shown(anchor), i, i + 1);
      }
    }
  }
}
