/** What each class of the drift report means. */
module DriftVerdicts {
  import opened AnchorDrift

  /** The two bullets open on the same text, twelve characters or more up to where they differ. */
  ghost predicate OpenAlike(judged: string, candidate: string, opening: string) {
    && |opening| >= 12 && opening <= judged && opening <= candidate
    && (|opening| < |judged| && |opening| < |candidate| ==> judged[|opening|] != candidate[|opening|])
  }

  ghost predicate OnlyOne(listing: seq<string>, opening: string) {
    && (exists k :: 0 <= k < |listing| && opening <= listing[k])
    && (forall j, k :: 0 <= j < k < |listing| ==> !(opening <= listing[j] && opening <= listing[k]))
  }

  /** The candidate is the judged bullet reworded: what they open on opens one bullet of the list. */
  ghost predicate IsReworded(judged: string, candidate: string, listing: seq<string>) {
    exists opening :: OpenAlike(judged, candidate, opening) && OnlyOne(listing, opening)
  }

  lemma OpeningIsUnique(judged: string, candidate: string, opening: string)
    requires IsCommonOpening(judged, candidate, opening)
    ensures opening == CommonOpening(judged, candidate)
  {
    var common := CommonOpening(judged, candidate);
    CommonOpeningIs(judged, candidate);
    assert forall k :: 0 <= k < |common| ==> common[k] == judged[k] == candidate[k];
    assert forall k :: 0 <= k < |opening| ==> opening[k] == judged[k] == candidate[k];
    assert |opening| == |common|;
    assert opening == judged[..|opening|] && common == judged[..|common|];
  }

  lemma OnlyOneIff(listing: seq<string>, opening: string)
    ensures Openers(listing, opening) == 1 <==> OnlyOne(listing, opening)
  {
    if Openers(listing, opening) == 0 {
      NoOpener(listing, opening);
    } else {
      if forall j :: 0 <= j < |listing| ==> !StartsWith(listing[j], opening) {
        NoOpener(listing, opening);
      }
      var i :| 0 <= i < |listing| && StartsWith(listing[i], opening);
      SoleOpener(listing, opening, i);
    }
  }

  lemma RewordedIff(judged: string, candidate: string, listing: seq<string>)
    ensures SameCriterion(judged, candidate, listing) <==> IsReworded(judged, candidate, listing)
  {
    var common := CommonOpening(judged, candidate);
    CommonOpeningIs(judged, candidate);
    OnlyOneIff(listing, common);
    if SameCriterion(judged, candidate, listing) {
      assert OpenAlike(judged, candidate, common);
    }
    forall opening | OpenAlike(judged, candidate, opening) && OnlyOne(listing, opening) ensures opening == common {
      OpeningIsUnique(judged, candidate, opening);
    }
  }

  /** The first index that holds the judged bullet. */
  ghost predicate FirstHolding(listing: seq<string>, judged: string, i: nat) {
    i < |listing| && listing[i] == judged && forall k :: 0 <= k < i ==> listing[k] != judged
  }

  /** No index holds it, and this is the first that holds it reworded. */
  ghost predicate FirstReworded(listing: seq<string>, judged: string, i: nat) {
    && judged !in listing && i < |listing| && IsReworded(judged, listing[i], listing)
    && forall k :: 0 <= k < i ==> !IsReworded(judged, listing[k], listing)
  }

  ghost predicate LandsAt(listing: seq<string>, judged: string, landing: Landing) {
    match landing
    case Verbatim(i) => FirstHolding(listing, judged, i)
    case Reworded(i) => FirstReworded(listing, judged, i)
    case Gone => judged !in listing && forall k :: 0 <= k < |listing| ==> !IsReworded(judged, listing[k], listing)
  }

  lemma LandIs(judged: string, listing: seq<string>)
    ensures LandsAt(listing, judged, Land(judged, listing))
  {
    forall k | 0 <= k < |listing|
      ensures SameCriterion(judged, listing[k], listing) <==> IsReworded(judged, listing[k], listing)
    {
      RewordedIff(judged, listing[k], listing);
    }
  }

  ghost predicate CanCompare(v: Verdict) {
    v.before.Some? && v.index < |v.before.value| && v.index < |v.now|
  }

  /** What each answer says of a verdict. */
  ghost predicate Says(v: Verdict, drift: Drift) {
    match drift
    case Unreadable => !CanCompare(v)
    case Stable => CanCompare(v) && v.now[v.index] == v.before.value[v.index]
    case Rewritten =>
      && CanCompare(v) && v.now[v.index] != v.before.value[v.index]
      && IsReworded(v.before.value[v.index], v.now[v.index], v.now)
    case Moved(landing) =>
      && CanCompare(v) && v.now[v.index] != v.before.value[v.index]
      && !IsReworded(v.before.value[v.index], v.now[v.index], v.now)
      && LandsAt(v.now, v.before.value[v.index], landing)
  }

  /** The class of every verdict, and the landing of every one that moved, for all pairs of lists. */
  lemma DriftSays(v: Verdict)
    ensures Says(v, Classify(v))
  {
    if Readable(v) {
      RewordedIff(v.before.value[v.index], v.now[v.index], v.now);
      LandIs(v.before.value[v.index], v.now);
    }
  }

  /** The moved verdicts are reported beside their own landings. */
  lemma {:induction false} LandingsAlign(verdicts: seq<Verdict>, n: nat)
    requires n <= |verdicts|
    ensures var moved, landings := Positions(verdicts, InMoved, n), Landings(verdicts, n);
      && |moved| == |landings|
      && forall k :: 0 <= k < |moved| ==> moved[k] < n && Says(verdicts[moved[k]], Moved(landings[k]))
  {
    if n > 0 {
      LandingsAlign(verdicts, n - 1);
      DriftSays(verdicts[n - 1]);
    }
  }

  lemma {:induction false} PositionsIn(verdicts: seq<Verdict>, c: Class, n: nat, i: nat)
    requires n <= |verdicts|
    ensures i in Positions(verdicts, c, n) <==> i < n && ClassOf(Classify(verdicts[i])) == c
  {
    PositionsAre(verdicts, c, n);
  }

  /** Which of the four lists a verdict is in. */
  lemma ReportSays(verdicts: seq<Verdict>, i: nat)
    requires i < |verdicts|
    ensures i in Positions(verdicts, InUnreadable, |verdicts|) <==> Says(verdicts[i], Unreadable)
    ensures i in Positions(verdicts, InStable, |verdicts|) <==> Says(verdicts[i], Stable)
    ensures i in Positions(verdicts, InRewritten, |verdicts|) <==> Says(verdicts[i], Rewritten)
    ensures i in Positions(verdicts, InMoved, |verdicts|) <==>
      CanCompare(verdicts[i]) && !Says(verdicts[i], Stable) && !Says(verdicts[i], Rewritten)
  {
    DriftSays(verdicts[i]);
    PositionsIn(verdicts, InUnreadable, |verdicts|, i);
    PositionsIn(verdicts, InStable, |verdicts|, i);
    PositionsIn(verdicts, InRewritten, |verdicts|, i);
    PositionsIn(verdicts, InMoved, |verdicts|, i);
  }
}
