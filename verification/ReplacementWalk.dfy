/** Following replacements and reporting the cycles met. */
module ReplacementWalk {
  import opened Common

  type Graph = map<string, string>

  // ---- Cycles ----

  /** Each node's replacement is the next one. */
  ghost predicate IsPath(g: Graph, path: seq<string>) {
    forall i :: 0 <= i < |path| - 1 ==> path[i] in g && g[path[i]] == path[i + 1]
  }

  /** Distinct nodes, each replaced by the next and the last by the first. */
  ghost predicate IsCycle(g: Graph, cycle: seq<string>) {
    && cycle != [] && Distinct(cycle) && IsPath(g, cycle)
    && cycle[|cycle| - 1] in g && g[cycle[|cycle| - 1]] == cycle[0]
  }

  /** Where the walk from `start` is after n steps, if it is still in the graph by then. */
  function WalkTo(g: Graph, start: string, n: nat): Option<string> {
    if n == 0 then Some(start)
    else
      match WalkTo(g, start, n - 1)
      case None => None
      case Some(x) => if x in g then Some(g[x]) else None
  }

  /** The walk from `start` gets to a node of some cycle. */
  ghost predicate ReachesCycle(g: Graph, start: string) {
    exists n: nat, cycle :: Meets(g, start, n, cycle)
  }

  ghost predicate Meets(g: Graph, start: string, n: nat, cycle: seq<string>) {
    IsCycle(g, cycle) && WalkTo(g, start, n) == Some(cycle[0])
  }

  ghost predicate HasCycle(g: Graph) {
    exists cycle :: IsCycle(g, cycle)
  }

  // ---- A walk that meets a cycle never leaves the graph ----

  lemma CycleIsClosed(g: Graph, cycle: seq<string>, x: string)
    requires IsCycle(g, cycle) && x in cycle
    ensures x in g && g[x] in cycle
  {
    var i :| 0 <= i < |cycle| && cycle[i] == x;
    if i < |cycle| - 1 {
      assert g[x] == cycle[i + 1];
    }
  }

  /** From a node of a cycle the walk stays on the cycle. */
  lemma {:induction false} StaysOnCycle(g: Graph, start: string, n: nat, cycle: seq<string>, m: nat)
    requires Meets(g, start, n, cycle) && n <= m
    ensures WalkTo(g, start, m).Some? && WalkTo(g, start, m).value in cycle && WalkTo(g, start, m).value in g
    decreases m
  {
    if m > n {
      StaysOnCycle(g, start, n, cycle, m - 1);
      CycleIsClosed(g, cycle, WalkTo(g, start, m - 1).value);
    } else {
      assert cycle[0] in cycle;
    }
    CycleIsClosed(g, cycle, WalkTo(g, start, m).value);
  }

  lemma {:induction false} EarlierIsInGraph(g: Graph, start: string, n: nat, m: nat)
    requires m < n && WalkTo(g, start, n).Some?
    ensures WalkTo(g, start, m).Some? && WalkTo(g, start, m).value in g
    decreases n
  {
    if m < n - 1 {
      EarlierIsInGraph(g, start, n - 1, m);
    }
  }

  lemma MeetingCyclesWalksForever(g: Graph, start: string, n: nat, cycle: seq<string>, m: nat)
    requires Meets(g, start, n, cycle)
    ensures WalkTo(g, start, m).Some? && WalkTo(g, start, m).value in g
  {
    if m < n {
      EarlierIsInGraph(g, start, n, m);
    } else {
      StaysOnCycle(g, start, n, cycle, m);
    }
  }

  lemma LeavingMeetsNoCycle(g: Graph, start: string, m: nat)
    requires WalkTo(g, start, m).Some? && WalkTo(g, start, m).value !in g
    ensures !ReachesCycle(g, start)
  {
    forall n: nat, cycle ensures !Meets(g, start, n, cycle) {
      if Meets(g, start, n, cycle) {
        MeetingCyclesWalksForever(g, start, n, cycle, m);
        assert false;
      }
    }
  }

  // ---- The walk ----

  /** The chain so far is the walk's first steps, no node twice. */
  ghost predicate IsWalk(g: Graph, start: string, chain: seq<string>, current: string) {
    && Distinct(chain)
    && (forall i :: 0 <= i < |chain| ==> chain[i] in g && WalkTo(g, start, i) == Some(chain[i]))
    && WalkTo(g, start, |chain|) == Some(current)
  }

  function IndexIn(chain: seq<string>, x: string): (i: nat)
    requires x in chain
    ensures i < |chain| && chain[i] == x
  {
    if chain[0] == x then 0 else 1 + IndexIn(chain[1..], x)
  }

  lemma ClosedWalk(g: Graph, start: string, chain: seq<string>, current: string, j: nat)
    requires IsWalk(g, start, chain, current) && j < |chain| && chain[j] == current
    ensures IsCycle(g, chain[j..]) && MeetsFirst(g, start, j, chain[j..])
  {
    var cycle := chain[j..];
    forall i | 0 <= i < |cycle| - 1 ensures cycle[i] in g && g[cycle[i]] == cycle[i + 1] {
      assert WalkTo(g, start, j + i + 1) == Some(chain[j + i + 1]);
    }
    assert WalkTo(g, start, |chain|) == Some(g[chain[|chain| - 1]]);
  }

  lemma DistinctFits(chain: seq<string>, keys: set<string>)
    requires Distinct(chain) && forall i :: 0 <= i < |chain| ==> chain[i] in keys
    ensures |chain| <= |keys|
    decreases |chain|
  {
    if chain != [] {
      var last := chain[|chain| - 1];
      DistinctFits(chain[..|chain| - 1], keys - {last});
    }
  }

  /** The walk on from `current`: the end of the chain from the first node met twice, if one is. */
  function Traced(g: Graph, chain: seq<string>, current: string): Option<seq<string>>
    requires Distinct(chain) && forall i :: 0 <= i < |chain| ==> chain[i] in g
    decreases |g.Keys| - |chain|
  {
    if current !in g then None
    else if current in chain then Some(chain[IndexIn(chain, current)..])
    else
      DistinctFits(chain + [current], g.Keys);
      Traced(g, chain + [current], g[current])
  }

  function CycleFrom(g: Graph, start: string): Option<seq<string>> {
    Traced(g, [], start)
  }

  /** A report is a cycle the entry reaches, and there is one exactly when the entry reaches a cycle. */
  ghost predicate IsReport(g: Graph, start: string, cycle: Option<seq<string>>) {
    && (cycle.Some? <==> ReachesCycle(g, start))
    && (cycle.Some? ==> IsCycle(g, cycle.value) && exists n: nat :: MeetsFirst(g, start, n, cycle.value))
  }

  /** The walk gets to the cycle at its first node, and meets none of its nodes before. */
  ghost predicate MeetsFirst(g: Graph, start: string, n: nat, cycle: seq<string>) {
    && Meets(g, start, n, cycle)
    && forall m: nat :: m < n ==> WalkTo(g, start, m).Some? && WalkTo(g, start, m).value !in cycle
  }

  lemma {:induction false} TracedIsReport(g: Graph, start: string, chain: seq<string>, current: string)
    requires IsWalk(g, start, chain, current)
    ensures IsReport(g, start, Traced(g, chain, current))
    decreases |g.Keys| - |chain|
  {
    if current !in g {
      LeavingMeetsNoCycle(g, start, |chain|);
    } else if current in chain {
      ClosedWalk(g, start, chain, current, IndexIn(chain, current));
    } else {
      DistinctFits(chain + [current], g.Keys);
      TracedIsReport(g, start, chain + [current], g[current]);
    }
  }

  /** The walk from one entry: it ends, and it reports a cycle exactly when the entry reaches one. */
  method FindCycle(g: Graph, start: string) returns (cycle: Option<seq<string>>)
    ensures cycle == CycleFrom(g, start) && IsReport(g, start, cycle)
  {
    var chain, current := [], start;
    TracedIsReport(g, start, [], start);
    while current in g
      invariant Distinct(chain) && forall i :: 0 <= i < |chain| ==> chain[i] in g
      invariant CycleFrom(g, start) == Traced(g, chain, current)
      decreases |g.Keys| - |chain|
    {
      if current in chain {
        return Some(chain[IndexIn(chain, current)..]);
      }
      DistinctFits(chain + [current], g.Keys);
      chain := chain + [current];
      current := g[current];
    }
    return None;
  }

  datatype CycleError = CycleError(start: string, cycle: seq<string>)

  function Starts(errors: seq<CycleError>): seq<string> {
    seq(|errors|, i requires 0 <= i < |errors| => errors[i].start)
  }

  /** One error for each entry of `order` whose walk meets a cycle. */
  function CycleErrors(g: Graph, order: seq<string>): seq<CycleError> {
    if order == [] then []
    else
      var start := order[|order| - 1];
      var cycle := CycleFrom(g, start);
      CycleErrors(g, order[..|order| - 1]) + if cycle.Some? then [CycleError(start, cycle.value)] else []
  }

  /** The errors of all entries, in alphabetical order. */
  function AllCycles(g: Graph): seq<CycleError> {
    CycleErrors(g, Alphabetical(g.Keys))
  }

  /** The reported nodes are a cycle, and the entry it is reported for reaches it. */
  ghost predicate IsFound(g: Graph, e: CycleError) {
    IsCycle(g, e.cycle) && exists n: nat :: MeetsFirst(g, e.start, n, e.cycle)
  }

  lemma {:induction false} ReportsAre(g: Graph, order: seq<string>)
    requires StrictlySorted(order)
    ensures var errors := CycleErrors(g, order);
      && (forall i :: 0 <= i < |errors| ==> IsFound(g, errors[i]))
      && StrictlySorted(Starts(errors))
      && (forall start :: start in Starts(errors) <==> start in order && ReachesCycle(g, start))
  {
    if order != [] {
      var before, start := order[..|order| - 1], order[|order| - 1];
      assert order == before + [start];
      var errors, earlier := CycleErrors(g, order), CycleErrors(g, before);
      ReportsAre(g, before);
      TracedIsReport(g, start, [], start);
      if errors != earlier {
        assert Starts(errors) == Starts(earlier) + [start];
        forall i | 0 <= i < |earlier| ensures StringLeq(Starts(earlier)[i], start) && Starts(earlier)[i] != start {
          assert Starts(earlier)[i] in Starts(earlier) && Starts(earlier)[i] in before;
        }
      }
    }
  }

  lemma CycleReachesItself(g: Graph, cycle: seq<string>)
    requires IsCycle(g, cycle)
    ensures cycle[0] in g && ReachesCycle(g, cycle[0])
  {
    assert Meets(g, cycle[0], 0, cycle);
    CycleIsClosed(g, cycle, cycle[0]);
  }

  /** Walking from every entry in turn: what is reported, and that it is nothing exactly when there is no cycle. */
  lemma AllReportsAre(g: Graph)
    ensures var errors := AllCycles(g);
      && (forall i :: 0 <= i < |errors| ==> IsFound(g, errors[i]))
      && StrictlySorted(Starts(errors))
      && (forall start :: start in Starts(errors) <==> start in g && ReachesCycle(g, start))
      && (errors != [] <==> HasCycle(g))
  {
    var order := Alphabetical(g.Keys);
    var errors := CycleErrors(g, order);
    ReportsAre(g, order);
    if errors != [] {
      assert IsFound(g, errors[0]);
    }
    forall cycle | IsCycle(g, cycle) ensures errors != [] {
      CycleReachesItself(g, cycle);
      assert cycle[0] in order && cycle[0] in Starts(errors);
    }
  }

  /**
   * Every entry in turn, in alphabetical order: one error for each entry that reaches a cycle and none for the
   * others, so there is an error exactly when the replacement graph has a cycle.
   */
  method FindCycles(g: Graph) returns (errors: seq<CycleError>)
    ensures errors == AllCycles(g)
    ensures forall i :: 0 <= i < |errors| ==> IsFound(g, errors[i])
    ensures StrictlySorted(Starts(errors))
    ensures forall start :: start in Starts(errors) <==> start in g && ReachesCycle(g, start)
    ensures errors != [] <==> HasCycle(g)
  {
    errors := FindCyclesIn(g, Alphabetical(g.Keys));
    AllReportsAre(g);
  }

  method FindCyclesIn(g: Graph, order: seq<string>) returns (errors: seq<CycleError>)
    ensures errors == CycleErrors(g, order)
  {
    errors := [];
    for k := 0 to |order|
      invariant errors == CycleErrors(g, order[..k])
    {
      var cycle := FindCycle(g, order[k]);
      assert order[..k + 1][..k] == order[..k];
      if cycle.Some? {
        errors := errors + [CycleError(order[k], cycle.value)];
      }
    }
    assert order[..|order|] == order;
  }
}
