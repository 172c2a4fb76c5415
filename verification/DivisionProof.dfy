/** The behaviour dump of a module division: a keyed diff that has to decide whether two dumps are the same. */
module DivisionProof {
  import opened Common

  /** One mounted route, or one bound tool. */
  datatype Entry =
    | Route(path: string, methods: seq<string>, handler: string, mod: string)
    | Tool(tool: string, binder: string)

  datatype Dump = Dump(routes: seq<Entry>, tools: seq<Entry>)

  datatype Surface = Routes | Tools

  const ROUTES_AT_2026_09_02 := 625
  const TOOLS_AT_2026_09_02 := 129

  function Joined(parts: seq<string>): string {
    if parts == [] then ""
    else if |parts| == 1 then parts[0]
    else parts[0] + "," + Joined(parts[1..])
  }

  function Key(e: Entry): string {
    match e
    case Route(path, methods, _, _) => path + " " + Joined(methods)
    case Tool(tool, _) => tool
  }

  function Keys(entries: seq<Entry>): seq<string> {
    if entries == [] then [] else Keys(entries[..|entries| - 1]) + [Key(entries[|entries| - 1])]
  }

  /** The dictionary of the entries by key: the last entry of a key stays. */
  function ByKey(entries: seq<Entry>): map<string, Entry> {
    if entries == [] then map[]
    else
      var last := entries[|entries| - 1];
      ByKey(entries[..|entries| - 1])[Key(last) := last]
  }

  datatype Divergence =
    | Gone(surface: Surface, key: string, entry: Entry)
    | Added(surface: Surface, key: string, entry: Entry)
    | Changed(surface: Surface, key: string, before: Entry, after: Entry)
    | Reordered(index: nat, was: string, now: string)

  // ---- What the comparison reports ----

  function GoneList(s: Surface, from: map<string, Entry>, order: seq<string>): (r: seq<Divergence>)
    requires forall i :: 0 <= i < |order| ==> order[i] in from
  {
    if order == [] then []
    else
      var n := |order| - 1;
      GoneList(s, from, order[..n]) + [Gone(s, order[n], from[order[n]])]
  }

  function AddedList(s: Surface, from: map<string, Entry>, order: seq<string>): (r: seq<Divergence>)
    requires forall i :: 0 <= i < |order| ==> order[i] in from
  {
    if order == [] then []
    else
      var n := |order| - 1;
      AddedList(s, from, order[..n]) + [Added(s, order[n], from[order[n]])]
  }

  function ChangedList(s: Surface, left: map<string, Entry>, right: map<string, Entry>,
                       order: seq<string>): (r: seq<Divergence>)
    requires forall i :: 0 <= i < |order| ==> order[i] in left && order[i] in right
  {
    if order == [] then []
    else
      var n := |order| - 1;
      var x, y := left[order[n]], right[order[n]];
      ChangedList(s, left, right, order[..n]) + if x != y then [Changed(s, order[n], x, y)] else []
  }

  /** `zip` stops at the shorter list. */
  function OrderList(was: seq<string>, now: seq<string>, n: nat): (r: seq<Divergence>)
    requires n <= |was| && n <= |now|
  {
    if n == 0 then []
    else
      OrderList(was, now, n - 1)
      + if was[n - 1] != now[n - 1] then [Reordered(n - 1, was[n - 1], now[n - 1])] else []
  }

  function GonePart(s: Surface, left: map<string, Entry>, right: map<string, Entry>): seq<Divergence> {
    GoneList(s, left, Alphabetical(left.Keys - right.Keys))
  }

  function AddedPart(s: Surface, left: map<string, Entry>, right: map<string, Entry>): seq<Divergence> {
    AddedList(s, right, Alphabetical(right.Keys - left.Keys))
  }

  function ChangedPart(s: Surface, left: map<string, Entry>, right: map<string, Entry>): seq<Divergence> {
    ChangedList(s, left, right, Alphabetical(left.Keys * right.Keys))
  }

  function SurfaceDivergences(s: Surface, left: map<string, Entry>, right: map<string, Entry>): seq<Divergence> {
    GonePart(s, left, right) + AddedPart(s, left, right) + ChangedPart(s, left, right)
  }

  function KeySet(entries: seq<Entry>): set<string> {
    set k | k in Keys(entries)
  }

  function Shorter(a: nat, b: nat): (n: nat)
    ensures n <= a && n <= b && (n == a || n == b)
  {
    if a <= b then a else b
  }

  function OrderDivergences(before: seq<Entry>, after: seq<Entry>): seq<Divergence> {
    if KeySet(before) != KeySet(after) then []
    else OrderList(Keys(before), Keys(after), Shorter(|Keys(before)|, |Keys(after)|))
  }

  function Divergences(before: Dump, after: Dump): seq<Divergence> {
    SurfaceDivergences(Routes, ByKey(before.routes), ByKey(after.routes))
      + OrderDivergences(before.routes, after.routes)
      + SurfaceDivergences(Tools, ByKey(before.tools), ByKey(after.tools))
  }

  // ---- The comparison itself ----

  method Index(entries: seq<Entry>) returns (m: map<string, Entry>, keys: seq<string>)
    ensures m == ByKey(entries) && keys == Keys(entries)
  {
    m, keys := map[], [];
    for i := 0 to |entries|
      invariant m == ByKey(entries[..i]) && keys == Keys(entries[..i])
    {
      assert entries[..i + 1][..i] == entries[..i];
      m, keys := m[Key(entries[i]) := entries[i]], keys + [Key(entries[i])];
    }
    assert entries[..|entries|] == entries;
  }

  method ListGone(s: Surface, from: map<string, Entry>, order: seq<string>) returns (found: seq<Divergence>)
    requires forall i :: 0 <= i < |order| ==> order[i] in from
    ensures found == GoneList(s, from, order)
  {
    found := [];
    for i := 0 to |order|
      invariant found == GoneList(s, from, order[..i])
    {
      assert order[..i + 1][..i] == order[..i];
      found := found + [Gone(s, order[i], from[order[i]])];
    }
    assert order[..|order|] == order;
  }

  method ListAdded(s: Surface, from: map<string, Entry>, order: seq<string>) returns (found: seq<Divergence>)
    requires forall i :: 0 <= i < |order| ==> order[i] in from
    ensures found == AddedList(s, from, order)
  {
    found := [];
    for i := 0 to |order|
      invariant found == AddedList(s, from, order[..i])
    {
      assert order[..i + 1][..i] == order[..i];
      found := found + [Added(s, order[i], from[order[i]])];
    }
    assert order[..|order|] == order;
  }

  method ListChanged(s: Surface, left: map<string, Entry>, right: map<string, Entry>, order: seq<string>)
    returns (found: seq<Divergence>)
    requires forall i :: 0 <= i < |order| ==> order[i] in left && order[i] in right
    ensures found == ChangedList(s, left, right, order)
  {
    found := [];
    for i := 0 to |order|
      invariant found == ChangedList(s, left, right, order[..i])
    {
      assert order[..i + 1][..i] == order[..i];
      if left[order[i]] != right[order[i]] {
        found := found + [Changed(s, order[i], left[order[i]], right[order[i]])];
      }
    }
    assert order[..|order|] == order;
  }

  method CompareSurface(s: Surface, left: map<string, Entry>, right: map<string, Entry>)
    returns (found: seq<Divergence>)
    ensures found == SurfaceDivergences(s, left, right)
  {
    var gone, added := Alphabetical(left.Keys - right.Keys), Alphabetical(right.Keys - left.Keys);
    var shared := Alphabetical(left.Keys * right.Keys);
    found := ListGone(s, left, gone);
    var more := ListAdded(s, right, added);
    found := found + more;
    more := ListChanged(s, left, right, shared);
    found := found + more;
  }

  method CompareOrder(was: seq<string>, now: seq<string>) returns (found: seq<Divergence>)
    ensures found == OrderList(was, now, Shorter(|was|, |now|))
  {
    found := [];
    var index := 0;
    while index < |was| && index < |now|
      invariant 0 <= index <= |was| && index <= |now|
      invariant found == OrderList(was, now, index)
    {
      if was[index] != now[index] {
        found := found + [Reordered(index, was[index], now[index])];
      }
      index := index + 1;
    }
  }

  method CompareRoutes(before: seq<Entry>, after: seq<Entry>) returns (found: seq<Divergence>)
    ensures found == SurfaceDivergences(Routes, ByKey(before), ByKey(after)) + OrderDivergences(before, after)
  {
    var left, keysBefore := Index(before);
    var right, keysAfter := Index(after);
    found := CompareSurface(Routes, left, right);
    if (set k | k in keysBefore) != (set k | k in keysAfter) {
      NothingAppended(found);
      return;
    }
    var order := CompareOrder(keysBefore, keysAfter);
    found := found + order;
  }

  lemma NothingAppended<T>(q: seq<T>)
    ensures q + [] == q
  {}

  method Compare(before: Dump, after: Dump) returns (divergences: seq<Divergence>)
    ensures divergences == Divergences(before, after)
  {
    divergences := CompareRoutes(before.routes, after.routes);
    var left, keysBefore := Index(before.tools);
    var right, keysAfter := Index(after.tools);
    var tools := CompareSurface(Tools, left, right);
    divergences := divergences + tools;
  }

  datatype Failure = TooFewRoutes(held: nat) | TooFewTools(held: nat) | MergedRoutes(merged: int)

  method DumpFailures(dump: Dump) returns (failures: seq<Failure>)
    ensures failures == [] <==> Certifies(dump)
    ensures TooFewRoutes(|dump.routes|) in failures <==> |dump.routes| < 625
    ensures TooFewTools(|dump.tools|) in failures <==> |dump.tools| < 129
    ensures forall n ::
      MergedRoutes(n) in failures <==> !UniqueKeys(dump.routes) && n == |dump.routes| - |KeySet(dump.routes)|
  {
    failures := [];
    if |dump.routes| < ROUTES_AT_2026_09_02 {
      failures := failures + [TooFewRoutes(|dump.routes|)];
    }
    if |dump.tools| < TOOLS_AT_2026_09_02 {
      failures := failures + [TooFewTools(|dump.tools|)];
    }
    var m, keys := Index(dump.routes);
    var distinct := set k | k in keys;
    DistinctKeysAreCounted(dump.routes);
    if |distinct| != |keys| {
      failures := failures + [MergedRoutes(|keys| - |distinct|)];
      assert MergedRoutes(|keys| - |distinct|) in failures;
    }
  }

  /** No two entries share a key. */
  ghost predicate UniqueKeys(entries: seq<Entry>) {
    forall i, j :: 0 <= i < j < |entries| ==> Key(entries[i]) != Key(entries[j])
  }

  ghost predicate Certifies(dump: Dump) {
    |dump.routes| >= 625 && |dump.tools| >= 129 && UniqueKeys(dump.routes)
  }

  // ---- Keys ----

  lemma {:induction false} KeysAt(entries: seq<Entry>)
    ensures |Keys(entries)| == |entries|
    ensures forall i :: 0 <= i < |entries| ==> Keys(entries)[i] == Key(entries[i])
  {
    if entries != [] {
      KeysAt(entries[..|entries| - 1]);
    }
  }

  lemma {:induction false} DistinctIff(keys: seq<string>)
    ensures |set k | k in keys| <= |keys|
    ensures |set k | k in keys| == |keys| <==> Distinct(keys)
  {
    if keys == [] {
      assert (set k | k in keys) == {};
    } else {
      var before, last := keys[..|keys| - 1], keys[|keys| - 1];
      DistinctIff(before);
      var rest := set k | k in before;
      assert (set k | k in keys) == rest + {last};
      if last in before {
        assert rest + {last} == rest;
        var i :| 0 <= i < |before| && before[i] == last;
        assert keys[i] == keys[|keys| - 1];
      } else {
        assert Distinct(keys) <==> Distinct(before);
      }
    }
  }

  /** `len(set(keys)) == len(keys)` is exactly the absence of a shared key. */
  lemma DistinctKeysAreCounted(entries: seq<Entry>)
    ensures |KeySet(entries)| <= |Keys(entries)| == |entries|
    ensures |KeySet(entries)| == |Keys(entries)| <==> UniqueKeys(entries)
  {
    KeysAt(entries);
    DistinctIff(Keys(entries));
    assert Distinct(Keys(entries)) <==> UniqueKeys(entries);
  }

  lemma {:induction false} ByKeyHolds(entries: seq<Entry>)
    ensures forall k :: k in ByKey(entries) ==> ByKey(entries)[k] in entries && Key(ByKey(entries)[k]) == k
    ensures forall e :: e in entries ==> Key(e) in ByKey(entries)
  {
    if entries != [] {
      var before, last := entries[..|entries| - 1], entries[|entries| - 1];
      ByKeyHolds(before);
      assert entries == before + [last];
    }
  }

  /** The entry of a key is the last one that has it. */
  lemma {:induction false} LastOfKey(entries: seq<Entry>, i: nat)
    requires i < |entries| && forall j :: i < j < |entries| ==> Key(entries[j]) != Key(entries[i])
    ensures Key(entries[i]) in ByKey(entries) && ByKey(entries)[Key(entries[i])] == entries[i]
  {
    if i < |entries| - 1 {
      LastOfKey(entries[..|entries| - 1], i);
    }
  }

  // ---- What a key is ----

  /** Without a blank in the path, and without a comma in any method, nor an empty one. */
  ghost predicate PlainRoute(e: Entry) {
    && e.Route? && ' ' !in e.path
    && forall i :: 0 <= i < |e.methods| ==> e.methods[i] != "" && ',' !in e.methods[i]
  }

  /** The position of the first c, or the length. */
  function FirstOf(s: string, c: char): (i: nat)
    ensures i <= |s|
  {
    if s == [] || s[0] == c then 0 else 1 + FirstOf(s[1..], c)
  }

  lemma {:induction false} FirstIs(front: string, rest: string, c: char)
    requires c !in front && (rest != [] ==> rest[0] == c)
    ensures FirstOf(front + rest, c) == |front|
  {
    if front == [] {
      assert front + rest == rest;
    } else {
      assert front[0] in front && forall x :: x in front[1..] ==> x in front;
      FirstIs(front[1..], rest, c);
      assert (front + rest)[1..] == front[1..] + rest;
    }
  }

  /** The text up to the first c determines both sides of it. */
  lemma SplitAtFirst(front: string, rest: string, other: string, tail: string, c: char)
    requires c !in front && c !in other && (rest != [] ==> rest[0] == c) && (tail != [] ==> tail[0] == c)
    requires front + rest == other + tail
    ensures front == other && rest == tail
  {
    FirstIs(front, rest, c);
    FirstIs(other, tail, c);
    assert front == (front + rest)[..|front|] && other == (other + tail)[..|other|];
    assert rest == (front + rest)[|front|..] && tail == (other + tail)[|other|..];
  }

  /** What follows the first part. */
  function JoinedRest(parts: seq<string>): string {
    if |parts| <= 1 then "" else "," + Joined(parts[1..])
  }

  lemma JoinedFirst(parts: seq<string>, other: seq<string>)
    requires parts != [] && other != [] && Joined(parts) == Joined(other)
    requires ',' !in parts[0] && ',' !in other[0]
    ensures parts[0] == other[0] && (|parts| == 1 <==> |other| == 1)
    ensures |parts| > 1 ==> Joined(parts[1..]) == Joined(other[1..])
  {
    JoinedSplit(parts);
    JoinedSplit(other);
    SplitAtFirst(parts[0], JoinedRest(parts), other[0], JoinedRest(other), ',');
  }

  lemma JoinedSplit(parts: seq<string>)
    requires parts != []
    ensures var rest := JoinedRest(parts);
      && Joined(parts) == parts[0] + rest && (rest == "" <==> |parts| == 1)
      && (rest != "" ==> rest[0] == ',' && rest[1..] == Joined(parts[1..]))
  {
    if |parts| > 1 {
      CommaBetween(parts[0], Joined(parts[1..]));
    } else {
      NothingAppended(parts[0]);
    }
  }

  lemma CommaBetween(first: string, rest: string)
    ensures first + "," + rest == first + ("," + rest)
    ensures ("," + rest)[0] == ',' && ("," + rest)[1..] == rest
  {}

  lemma JoinedEmptyIff(parts: seq<string>)
    requires forall i :: 0 <= i < |parts| ==> parts[i] != ""
    ensures Joined(parts) == "" <==> parts == []
  {
    if parts != [] {
      JoinedSplit(parts);
    }
  }

  lemma {:induction false} JoinedIsInjective(parts: seq<string>, other: seq<string>)
    requires forall i :: 0 <= i < |parts| ==> parts[i] != "" && ',' !in parts[i]
    requires forall i :: 0 <= i < |other| ==> other[i] != "" && ',' !in other[i]
    requires Joined(parts) == Joined(other)
    ensures parts == other
  {
    JoinedEmptyIff(parts);
    JoinedEmptyIff(other);
    if parts != [] {
      JoinedFirst(parts, other);
      assert parts == [parts[0]] + parts[1..] && other == [other[0]] + other[1..];
      if |parts| > 1 {
        JoinedIsInjective(parts[1..], other[1..]);
      }
    }
  }

  /** Two routes share a key exactly when they have the same path and the same methods; two tools, the same name. */
  lemma SameKeyIff(a: Entry, b: Entry)
    requires (PlainRoute(a) && PlainRoute(b)) || (a.Tool? && b.Tool?)
    ensures Key(a) == Key(b) <==>
      if a.Tool? then a.tool == b.tool else a.path == b.path && a.methods == b.methods
  {
    if a.Route? && Key(a) == Key(b) {
      var m, n := Joined(a.methods), Joined(b.methods);
      SamePath(a.path, m, b.path, n);
      JoinedIsInjective(a.methods, b.methods);
    }
  }

  lemma SamePath(p: string, m: string, q: string, n: string)
    requires ' ' !in p && ' ' !in q && p + " " + m == q + " " + n
    ensures p == q && m == n
  {
    assert p + " " + m == p + (" " + m) && q + " " + n == q + (" " + n);
    SplitAtFirst(p, " " + m, q, " " + n, ' ');
    assert m == (" " + m)[1..] && n == (" " + n)[1..];
  }

  lemma UniqueByKey(entries: seq<Entry>, e: Entry)
    requires UniqueKeys(entries) && e in entries
    ensures Key(e) in ByKey(entries) && ByKey(entries)[Key(e)] == e
  {
    ByKeyHolds(entries);
    var stored := ByKey(entries)[Key(e)];
    var i :| 0 <= i < |entries| && entries[i] == e;
    var j :| 0 <= j < |entries| && entries[j] == stored;
    assert Key(entries[i]) == Key(entries[j]);
  }

  // ---- What an empty comparison means ----

  lemma {:induction false} GoneEmpty(s: Surface, from: map<string, Entry>, order: seq<string>)
    requires forall i :: 0 <= i < |order| ==> order[i] in from
    ensures |GoneList(s, from, order)| == |order| && |AddedList(s, from, order)| == |order|
  {
    if order != [] {
      GoneEmpty(s, from, order[..|order| - 1]);
    }
  }

  lemma {:induction false} ChangedEmpty(s: Surface, left: map<string, Entry>, right: map<string, Entry>,
                                        order: seq<string>)
    requires forall i :: 0 <= i < |order| ==> order[i] in left && order[i] in right
    ensures ChangedList(s, left, right, order) == [] <==> forall k :: k in order ==> left[k] == right[k]
  {
    if order != [] {
      var n := |order| - 1;
      ChangedEmpty(s, left, right, order[..n]);
      assert order == order[..n] + [order[n]];
    }
  }

  lemma AlphabeticalEmpty(a: set<string>, b: set<string>)
    ensures Alphabetical(a - b) == [] <==> a <= b
  {
    var order, extra := Alphabetical(a - b), a - b;
    assert forall k :: k in a ==> k in b || k in extra;
    if order == [] {
      assert forall k :: k in extra ==> k in order;
    } else {
      assert order[0] in extra;
    }
  }

  lemma SharedEqual(s: Surface, left: map<string, Entry>, right: map<string, Entry>)
    ensures left.Keys == right.Keys ==>
      (ChangedPart(s, left, right) == [] <==> left == right)
  {
    var shared := Alphabetical(left.Keys * right.Keys);
    ChangedEmpty(s, left, right, shared);
    if left.Keys == right.Keys {
      assert forall k :: k in left <==> k in shared;
    }
  }

  lemma ThreeEmpty<T>(a: seq<T>, b: seq<T>, c: seq<T>)
    ensures a + b + c == [] <==> a == [] && b == [] && c == []
  {
    assert |a + b + c| == |a| + |b| + |c|;
  }

  lemma SurfaceEmptyIff(s: Surface, left: map<string, Entry>, right: map<string, Entry>)
    ensures SurfaceDivergences(s, left, right) == [] <==> left == right
  {
    var gone, added := Alphabetical(left.Keys - right.Keys), Alphabetical(right.Keys - left.Keys);
    GoneEmpty(s, left, gone);
    GoneEmpty(s, right, added);
    AlphabeticalEmpty(left.Keys, right.Keys);
    AlphabeticalEmpty(right.Keys, left.Keys);
    SharedEqual(s, left, right);
    ThreeEmpty(GonePart(s, left, right), AddedPart(s, left, right), ChangedPart(s, left, right));
  }

  lemma {:induction false} OrderEmpty(was: seq<string>, now: seq<string>, n: nat)
    requires n <= |was| && n <= |now|
    ensures OrderList(was, now, n) == [] <==> was[..n] == now[..n]
  {
    if n > 0 {
      OrderEmpty(was, now, n - 1);
      assert was[..n] == was[..n - 1] + [was[n - 1]] && now[..n] == now[..n - 1] + [now[n - 1]];
    }
  }

  /** One list of keys continues the other: all that the zipped comparison sees. */
  ghost predicate Agree(was: seq<string>, now: seq<string>) {
    was <= now || now <= was
  }

  lemma SameKeys(left: seq<Entry>, right: seq<Entry>)
    requires ByKey(left) == ByKey(right)
    ensures KeySet(left) == KeySet(right)
  {
    KeySetIs(left);
    KeySetIs(right);
  }

  lemma KeySetIs(entries: seq<Entry>)
    ensures KeySet(entries) == ByKey(entries).Keys
  {
    KeysAt(entries);
    ByKeyHolds(entries);
    forall k | k in KeySet(entries) ensures k in ByKey(entries) {
      var i :| 0 <= i < |entries| && Keys(entries)[i] == k;
      assert entries[i] in entries;
    }
    forall k | k in ByKey(entries) ensures k in KeySet(entries) {
      var i :| 0 <= i < |entries| && entries[i] == ByKey(entries)[k];
      assert Keys(entries)[i] == k;
    }
  }

  /**
   * Nothing is reported exactly when both surfaces have the same last entry per key and the route keys agree as far
   * as the shorter list goes.
   */
  lemma NothingReportedIff(before: Dump, after: Dump)
    ensures Divergences(before, after) == [] <==>
      ByKey(before.routes) == ByKey(after.routes) && ByKey(before.tools) == ByKey(after.tools)
      && Agree(Keys(before.routes), Keys(after.routes))
  {
    SurfaceEmptyIff(Routes, ByKey(before.routes), ByKey(after.routes));
    SurfaceEmptyIff(Tools, ByKey(before.tools), ByKey(after.tools));
    if ByKey(before.routes) == ByKey(after.routes) {
      SameKeys(before.routes, after.routes);
      AgreeIff(Keys(before.routes), Keys(after.routes));
    }
    ThreeEmpty(SurfaceDivergences(Routes, ByKey(before.routes), ByKey(after.routes)),
      OrderDivergences(before.routes, after.routes),
      SurfaceDivergences(Tools, ByKey(before.tools), ByKey(after.tools)));
  }

  lemma AgreeIff(was: seq<string>, now: seq<string>)
    ensures OrderList(was, now, Shorter(|was|, |now|)) == [] <==> Agree(was, now)
  {
    var n := Shorter(|was|, |now|);
    OrderEmpty(was, now, n);
    assert was[..|was|] == was && now[..|now|] == now;
  }

  /** With distinct route keys the order test decides the whole sequence of routes. */
  lemma UniqueRoutesAgree(before: seq<Entry>, after: seq<Entry>)
    requires UniqueKeys(before) && UniqueKeys(after)
    ensures ByKey(before) == ByKey(after) && Agree(Keys(before), Keys(after)) <==> before == after
  {
    if ByKey(before) == ByKey(after) && Agree(Keys(before), Keys(after)) {
      SameKeys(before, after);
      DistinctKeysAreCounted(before);
      DistinctKeysAreCounted(after);
      KeysAt(before);
      KeysAt(after);
      ByKeyHolds(before);
      ByKeyHolds(after);
      assert |before| == |after|;
      forall i | 0 <= i < |before| ensures before[i] == after[i] {
        UniqueByKey(before, before[i]);
        UniqueByKey(after, after[i]);
        assert Key(before[i]) == Keys(before)[i] == Keys(after)[i] == Key(after[i]);
      }
    }
  }

  function Members(entries: seq<Entry>): set<Entry> {
    set e | e in entries
  }

  lemma UniqueToolsAgree(before: seq<Entry>, after: seq<Entry>)
    requires UniqueKeys(before) && UniqueKeys(after)
    ensures ByKey(before) == ByKey(after) <==> Members(before) == Members(after)
  {
    ByKeyHolds(before);
    ByKeyHolds(after);
    forall e | e in before ensures ByKey(before)[Key(e)] == e {
      UniqueByKey(before, e);
    }
    forall e | e in after ensures ByKey(after)[Key(e)] == e {
      UniqueByKey(after, e);
    }
    if Members(before) == Members(after) {
      SameMembersSameMap(before, after);
      SameMembersSameMap(after, before);
    }
    if ByKey(before) == ByKey(after) {
      assert forall e :: e in Members(before) <==> Key(e) in ByKey(before) && ByKey(before)[Key(e)] == e;
      assert forall e :: e in Members(after) <==> Key(e) in ByKey(after) && ByKey(after)[Key(e)] == e;
    }
  }

  lemma SameMembersSameMap(before: seq<Entry>, after: seq<Entry>)
    requires UniqueKeys(after) && Members(before) == Members(after)
    ensures forall k :: k in ByKey(before) ==> k in ByKey(after) && ByKey(before)[k] == ByKey(after)[k]
  {
    ByKeyHolds(before);
    forall k | k in ByKey(before) ensures k in ByKey(after) && ByKey(before)[k] == ByKey(after)[k] {
      var e := ByKey(before)[k];
      assert e in Members(before) && Key(e) == k;
      UniqueByKey(after, e);
    }
  }

  /** Nothing is reported exactly when the routes are the same in content and order and the tools are the same. */
  lemma CompareDecides(before: Dump, after: Dump)
    requires UniqueKeys(before.routes) && UniqueKeys(after.routes) && UniqueKeys(before.tools)
      && UniqueKeys(after.tools)
    ensures Divergences(before, after) == []
       <==> before.routes == after.routes && Members(before.tools) == Members(after.tools)
  {
    NothingReportedIff(before, after);
    UniqueRoutesAgree(before.routes, after.routes);
    UniqueToolsAgree(before.tools, after.tools);
  }

  // ---- What is reported ----

  ghost predicate SurfaceDiverges(s: Surface, left: map<string, Entry>, right: map<string, Entry>, x: Divergence) {
    match x
    case Gone(t, k, e) => t == s && k in left && k !in right && left[k] == e
    case Added(t, k, e) => t == s && k in right && k !in left && right[k] == e
    case Changed(t, k, e, f) => t == s && k in left && k in right && left[k] == e && right[k] == f && e != f
    case Reordered(_, _, _) => false
  }

  /** Every key of either list is a key of the other. */
  ghost predicate SameKeySets(before: seq<Entry>, after: seq<Entry>) {
    KeysWithin(before, after) && KeysWithin(after, before)
  }

  ghost predicate KeysWithin(before: seq<Entry>, after: seq<Entry>) {
    forall e :: e in before ==> exists f :: f in after && Key(f) == Key(e)
  }

  lemma InKeySet(entries: seq<Entry>, k: string)
    ensures k in KeySet(entries) <==> exists e :: e in entries && Key(e) == k
  {
    KeySetIs(entries);
    ByKeyHolds(entries);
  }

  lemma SameKeySetsIff(before: seq<Entry>, after: seq<Entry>)
    ensures KeySet(before) == KeySet(after) <==> SameKeySets(before, after)
  {
    KeysAmong(before, after);
    KeysAmong(after, before);
  }

  lemma KeysAmong(before: seq<Entry>, after: seq<Entry>)
    ensures KeySet(before) <= KeySet(after) <==> KeysWithin(before, after)
  {
    forall e | e in before ensures Key(e) in KeySet(after) <==> exists f :: f in after && Key(f) == Key(e) {
      InKeySet(after, Key(e));
    }
    forall k | k in KeySet(before) ensures exists e :: e in before && Key(e) == k {
      InKeySet(before, k);
    }
    forall e | e in before ensures Key(e) in KeySet(before) {
      InKeySet(before, Key(e));
    }
  }

  ghost predicate OrderDiverges(before: seq<Entry>, after: seq<Entry>, x: Divergence) {
    x.Reordered? && SameKeySets(before, after) && x.index < |before| && x.index < |after|
    && x.was == Key(before[x.index]) && x.now == Key(after[x.index]) && x.was != x.now
  }

  lemma {:induction false} InGoneOrAdded(s: Surface, from: map<string, Entry>, order: seq<string>, x: Divergence)
    requires forall i :: 0 <= i < |order| ==> order[i] in from
    ensures x in GoneList(s, from, order) <==> x.Gone? && x.surface == s && x.key in order && x.entry == from[x.key]
    ensures x in AddedList(s, from, order) <==> x.Added? && x.surface == s && x.key in order && x.entry == from[x.key]
  {
    if order != [] {
      var n := |order| - 1;
      InGoneOrAdded(s, from, order[..n], x);
      assert order == order[..n] + [order[n]];
    }
  }

  lemma {:induction false} InChanged(s: Surface, left: map<string, Entry>, right: map<string, Entry>,
                                     order: seq<string>, x: Divergence)
    requires forall i :: 0 <= i < |order| ==> order[i] in left && order[i] in right
    ensures x in ChangedList(s, left, right, order) <==>
      x.Changed? && x.surface == s && x.key in order && x.before == left[x.key] && x.after == right[x.key]
        && x.before != x.after
  {
    if order != [] {
      var n := |order| - 1;
      InChanged(s, left, right, order[..n], x);
      assert order == order[..n] + [order[n]];
    }
  }

  lemma {:induction false} InOrder(was: seq<string>, now: seq<string>, n: nat, x: Divergence)
    requires n <= |was| && n <= |now|
    ensures x in OrderList(was, now, n) <==>
      x.Reordered? && x.index < n && x.was == was[x.index] && x.now == now[x.index] && x.was != x.now
  {
    if n > 0 {
      InOrder(was, now, n - 1, x);
    }
  }

  lemma GoneReports(s: Surface, left: map<string, Entry>, right: map<string, Entry>, x: Divergence)
    ensures x in GonePart(s, left, right) <==> x.Gone? && SurfaceDiverges(s, left, right, x)
  {
    InGoneOrAdded(s, left, Alphabetical(left.Keys - right.Keys), x);
  }

  lemma AddedReports(s: Surface, left: map<string, Entry>, right: map<string, Entry>, x: Divergence)
    ensures x in AddedPart(s, left, right) <==> x.Added? && SurfaceDiverges(s, left, right, x)
  {
    InGoneOrAdded(s, right, Alphabetical(right.Keys - left.Keys), x);
  }

  lemma ChangedReports(s: Surface, left: map<string, Entry>, right: map<string, Entry>, x: Divergence)
    ensures x in ChangedPart(s, left, right) <==> x.Changed? && SurfaceDiverges(s, left, right, x)
  {
    InChanged(s, left, right, Alphabetical(left.Keys * right.Keys), x);
  }

  lemma SurfaceReports(s: Surface, left: map<string, Entry>, right: map<string, Entry>, x: Divergence)
    ensures x in SurfaceDivergences(s, left, right) <==> SurfaceDiverges(s, left, right, x)
  {
    GoneReports(s, left, right, x);
    AddedReports(s, left, right, x);
    ChangedReports(s, left, right, x);
    assert x.Reordered? ==> !SurfaceDiverges(s, left, right, x);
  }

  lemma OrderReports(before: seq<Entry>, after: seq<Entry>, x: Divergence)
    ensures x in OrderDivergences(before, after) <==> OrderDiverges(before, after, x)
  {
    SameKeySetsIff(before, after);
    if KeySet(before) == KeySet(after) {
      OrderListReports(before, after, x);
    }
  }

  lemma OrderListReports(before: seq<Entry>, after: seq<Entry>, x: Divergence)
    ensures |Keys(before)| == |before| && |Keys(after)| == |after|
    ensures x in OrderList(Keys(before), Keys(after), Shorter(|before|, |after|)) <==>
      x.Reordered? && x.index < |before| && x.index < |after|
      && x.was == Key(before[x.index]) && x.now == Key(after[x.index]) && x.was != x.now
  {
    KeysAt(before);
    KeysAt(after);
    InOrder(Keys(before), Keys(after), Shorter(|before|, |after|), x);
  }

  /** Each divergence is reported exactly when it is there. */
  lemma ReportIff(before: Dump, after: Dump, x: Divergence)
    ensures x in Divergences(before, after) <==>
      || SurfaceDiverges(Routes, ByKey(before.routes), ByKey(after.routes), x)
      || OrderDiverges(before.routes, after.routes, x)
      || SurfaceDiverges(Tools, ByKey(before.tools), ByKey(after.tools), x)
  {
    SurfaceReports(Routes, ByKey(before.routes), ByKey(after.routes), x);
    OrderReports(before.routes, after.routes, x);
    SurfaceReports(Tools, ByKey(before.tools), ByKey(after.tools), x);
  }

  // ---- What the certification leaves open ----

  lemma ByKeySnoc(entries: seq<Entry>, last: Entry)
    ensures ByKey(entries + [last]) == ByKey(entries)[Key(last) := last]
  {
    assert (entries + [last])[..|entries|] == entries;
  }

  /** A dictionary with an entry put in first: it stays unless a later entry has its key. */
  function Under(m: map<string, Entry>, shadow: Entry, later: map<string, Entry>): map<string, Entry> {
    if Key(shadow) in later then m else m[Key(shadow) := shadow]
  }

  lemma UnderSnoc(m: map<string, Entry>, shadow: Entry, later: map<string, Entry>, last: Entry)
    ensures Under(m, shadow, later)[Key(last) := last] == Under(m[Key(last) := last], shadow, later[Key(last) := last])
  {}

  lemma {:induction false} ShadowedByKey(left: seq<Entry>, shadow: Entry, right: seq<Entry>)
    ensures ByKey(left + [shadow] + right) == Under(ByKey(left + right), shadow, ByKey(right))
    decreases |right|
  {
    if right == [] {
      assert left + [shadow] + right == left + [shadow] && left + right == left;
      ByKeySnoc(left, shadow);
    } else {
      var before, last := right[..|right| - 1], right[|right| - 1];
      assert right == before + [last];
      ShadowedByKey(left, shadow, before);
      ShadowStep(left, shadow, before, last);
    }
  }

  lemma ShadowStep(left: seq<Entry>, shadow: Entry, before: seq<Entry>, last: Entry)
    requires ByKey(left + [shadow] + before) == Under(ByKey(left + before), shadow, ByKey(before))
    ensures ByKey(left + [shadow] + (before + [last]))
         == Under(ByKey(left + (before + [last])), shadow, ByKey(before + [last]))
  {
    assert left + [shadow] + (before + [last]) == left + [shadow] + before + [last];
    assert left + (before + [last]) == left + before + [last];
    ByKeySnoc(left + [shadow] + before, last);
    ByKeySnoc(left + before, last);
    ByKeySnoc(before, last);
    UnderSnoc(ByKey(left + before), shadow, ByKey(before), last);
  }

  /**
   * Two certified dumps can differ without a word: a tool bound once more, anywhere before the last binding of its
   * name, is not reported, in a sorted list of tools either. Distinct tool names are a premise that the
   * certification does not check.
   */
  lemma SecondBindingIsSilent(routes: seq<Entry>, left: seq<Entry>, shadow: Entry, right: seq<Entry>)
    requires Certifies(Dump(routes, left + right)) && Key(shadow) in ByKey(right)
    ensures var before, after := Dump(routes, left + [shadow] + right), Dump(routes, left + right);
      Certifies(before) && Divergences(before, after) == [] && Divergences(after, before) == []
      && (shadow !in after.tools ==> Members(before.tools) != Members(after.tools))
  {
    ShadowedByKey(left, shadow, right);
    SameMapsAreSilent(routes, left + [shadow] + right, left + right);
    SameMapsAreSilent(routes, left + right, left + [shadow] + right);
    ShadowIsAMember(left, shadow, right);
  }

  lemma ShadowIsAMember(left: seq<Entry>, shadow: Entry, right: seq<Entry>)
    ensures shadow in Members(left + [shadow] + right)
    ensures shadow !in left + right ==> Members(left + [shadow] + right) != Members(left + right)
  {
    assert (left + [shadow] + right)[|left|] == shadow;
    assert shadow in Members(left + [shadow] + right);
  }

  lemma SameMapsAreSilent(routes: seq<Entry>, before: seq<Entry>, after: seq<Entry>)
    requires ByKey(before) == ByKey(after)
    ensures Divergences(Dump(routes, before), Dump(routes, after)) == []
  {
    NothingReportedIff(Dump(routes, before), Dump(routes, after));
  }
}
