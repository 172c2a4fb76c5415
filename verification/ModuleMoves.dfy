/** The census of a module division: which definition left one module, which arrived in another, and which stayed. */
module ModuleMoves {
  import opened Common

  datatype Def = Def(kind: string, body: string)

  /** The top-level definitions of each module, by name. */
  type Tree = map<string, map<string, Def>>

  datatype Move = Move(name: string, kind: string, frm: string, target: string, bodyIdentical: bool)

  predicate Defines(tree: Tree, path: string, name: string) {
    path in tree && name in tree[path]
  }

  /** The modules that define a name in one tree and not in the other. */
  function Leaving(tree: Tree, other: Tree, name: string): set<string> {
    set path | path in tree && name in tree[path] && !Defines(other, path, name)
  }

  /** `sources`, `targets`: a list of modules holding exactly the given ones, each once. */
  ghost predicate Lists(q: seq<string>, paths: set<string>) {
    Distinct(q) && forall p :: p in q <==> p in paths
  }

  ghost predicate Tabulates(table: map<string, seq<string>>, tree: Tree, other: Tree, done: set<string>) {
    && (forall n :: n in table ==> table[n] != [])
    && forall n :: Lists(Of(table, n), Leaving(tree, other, n) * done)
  }

  function Of(table: map<string, seq<string>>, name: string): seq<string> {
    if name in table then table[name] else []
  }

  lemma ListsOneMore(q: seq<string>, paths: set<string>, path: string)
    requires Lists(q, paths) && path !in paths
    ensures Lists(q + [path], paths + {path})
  {
    assert path !in q;
  }

  lemma PrefixStep(q: seq<string>, i: nat)
    requires i < |q| && Distinct(q)
    ensures SetOf(q[..i + 1]) == SetOf(q[..i]) + {q[i]} && q[i] !in SetOf(q[..i]) && q[i] in q
  {
    assert q[..i + 1] == q[..i] + [q[i]];
  }

  lemma WholePrefix(q: seq<string>, keys: set<string>)
    requires forall k :: k in q <==> k in keys
    ensures SetOf(q[..|q|]) == keys
  {
    assert q[..|q|] == q;
  }

  lemma AlphabeticalHolds(keys: set<string>)
    ensures SetOf(Alphabetical(keys)) == keys
  {}

  lemma EmptyTable(tree: Tree, other: Tree)
    ensures Tabulates(map[], tree, other, {})
  {
    forall n ensures Lists(Of(map[], n), Leaving(tree, other, n) * {}) {}
  }

  /** The loop over modules and names that fills `left`, or `arrived` with the trees exchanged. */
  method Tabulate(tree: Tree, other: Tree) returns (table: map<string, seq<string>>)
    ensures Tabulates(table, tree, other, tree.Keys)
  {
    table := map[];
    EmptyTable(tree, other);
    var order := Alphabetical(tree.Keys);
    assert SetOf(order[..0]) == {};
    for i := 0 to |order|
      invariant Tabulates(table, tree, other, SetOf(order[..i]))
    {
      PrefixStep(order, i);
      table := TabulateModule(table, tree, other, SetOf(order[..i]), order[i]);
    }
    WholePrefix(order, tree.Keys);
  }

  /** The names of a module, none when the module is not there. */
  function NamesOf(tree: Tree, path: string): set<string> {
    if path in tree then tree[path].Keys else {}
  }

  function NamesLeaving(tree: Tree, other: Tree, path: string): set<string>
    requires path in tree
  {
    tree[path].Keys - NamesOf(other, path)
  }

  /** The table with a module appended to the lists of the given names. */
  ghost predicate Appended(before: map<string, seq<string>>, table: map<string, seq<string>>, names: set<string>,
                           path: string) {
    && (forall n :: n in table ==> table[n] != [])
    && (forall n :: n in names ==> Of(table, n) == Of(before, n) + [path])
    && (forall n :: n !in names ==> Of(table, n) == Of(before, n))
  }

  lemma AppendStep(before: map<string, seq<string>>, table: map<string, seq<string>>, names: set<string>, path: string,
                   name: string)
    requires Appended(before, table, names, path) && name !in names
    ensures Appended(before, table[name := Of(table, name) + [path]], names + {name}, path)
  {}

  /** `table.setdefault(name, []).append(path)` for every name of the module that is not kept. */
  method AppendNames(before: map<string, seq<string>>, names: seq<string>, kept: set<string>, path: string)
    returns (table: map<string, seq<string>>)
    requires Distinct(names) && forall n :: n in before ==> before[n] != []
    ensures Appended(before, table, SetOf(names) - kept, path)
  {
    table := before;
    for j := 0 to |names|
      invariant Appended(before, table, SetOf(names[..j]) - kept, path)
    {
      var name := names[j];
      PrefixStep(names, j);
      ghost var seen := SetOf(names[..j]);
      if name !in kept {
        AppendStep(before, table, seen - kept, path, name);
        assert seen + {name} - kept == seen - kept + {name};
        table := table[name := Of(table, name) + [path]];
      } else {
        assert seen + {name} - kept == seen - kept;
      }
    }
    assert names[..|names|] == names;
  }

  method TabulateModule(before: map<string, seq<string>>, tree: Tree, other: Tree, ghost done: set<string>,
                        path: string)
    returns (table: map<string, seq<string>>)
    requires path in tree && path !in done && Tabulates(before, tree, other, done)
    ensures Tabulates(table, tree, other, done + {path})
  {
    var names := Alphabetical(tree[path].Keys);
    table := AppendNames(before, names, NamesOf(other, path), path);
    AlphabeticalHolds(tree[path].Keys);
    ModuleTabulated(before, table, tree, other, done, path);
  }

  lemma ModuleTabulated(before: map<string, seq<string>>, table: map<string, seq<string>>, tree: Tree, other: Tree,
                        done: set<string>, path: string)
    requires path in tree && path !in done && Tabulates(before, tree, other, done)
    requires Appended(before, table, NamesLeaving(tree, other, path), path)
    ensures Tabulates(table, tree, other, done + {path})
  {
    forall n ensures Lists(Of(table, n), Leaving(tree, other, n) * (done + {path})) {
      TabulatedOne(Of(before, n), Leaving(tree, other, n), done, path);
      assert path in Leaving(tree, other, n) <==> n in NamesLeaving(tree, other, path);
      assert Of(before, n) + [] == Of(before, n);
    }
  }

  lemma TabulatedOne(q: seq<string>, leaving: set<string>, done: set<string>, path: string)
    requires path !in done && Lists(q, leaving * done)
    ensures path in leaving ==> Lists(q + [path], leaving * (done + {path}))
    ensures path !in leaving ==> Lists(q + [], leaving * (done + {path}))
  {
    if path in leaving {
      ListsOneMore(q, leaving * done, path);
      assert leaving * (done + {path}) == leaving * done + {path};
    } else {
      assert leaving * (done + {path}) == leaving * done;
      assert q + [] == q;
    }
  }

  /** The one module in each set, when the name left one module and arrived in one. */
  ghost predicate IsMove(before: Tree, after: Tree, m: Move) {
    && Leaving(before, after, m.name) == {m.frm} && Leaving(after, before, m.name) == {m.target}
    && m.kind == before[m.frm][m.name].kind
    && (m.bodyIdentical <==> before[m.frm][m.name].body == after[m.target][m.name].body)
  }

  /** The name left some module and arrived in some, and not one and one. */
  ghost predicate IsAmbiguous(before: Tree, after: Tree, name: string) {
    var left, arrived := Leaving(before, after, name), Leaving(after, before, name);
    left != {} && arrived != {} && !(|left| == 1 && |arrived| == 1)
  }

  lemma {:induction false} ListedSize(q: seq<string>, paths: set<string>)
    requires Lists(q, paths)
    ensures |q| == |paths|
  {
    if q == [] {
      assert paths == {};
    } else {
      var n := |q| - 1;
      assert q[n] in q && forall p :: p in q[..n] ==> p in q;
      assert q == q[..n] + [q[n]];
      ListedSize(q[..n], paths - {q[n]});
    }
  }

  lemma Single(q: seq<string>, paths: set<string>)
    requires Lists(q, paths)
    ensures |q| == 1 <==> |paths| == 1
    ensures |q| == 1 ==> paths == {q[0]}
    ensures q != [] <==> paths != {}
  {
    ListedSize(q, paths);
    if |q| == 1 {
      assert forall p :: p in paths <==> p == q[0];
    }
    if q != [] {
      assert q[0] in paths;
    }
  }

  /** Exactly the moves and ties among the given names. */
  ghost predicate Census(before: Tree, after: Tree, names: set<string>, found: seq<Move>, ambiguous: seq<string>) {
    && (forall m :: m in found <==> m.name in names && IsMove(before, after, m))
    && (forall n :: n in ambiguous <==> n in names && IsAmbiguous(before, after, n))
  }

  lemma CensusMove(before: Tree, after: Tree, names: set<string>, found: seq<Move>, ambiguous: seq<string>, m: Move)
    requires Census(before, after, names, found, ambiguous) && m.name !in names && IsMove(before, after, m)
    ensures Census(before, after, names + {m.name}, found + [m], ambiguous)
  {
    OneMove(before, after, m);
  }

  lemma CensusTie(before: Tree, after: Tree, names: set<string>, found: seq<Move>, ambiguous: seq<string>, n: string)
    requires Census(before, after, names, found, ambiguous) && n !in names && IsAmbiguous(before, after, n)
    ensures Census(before, after, names + {n}, found, ambiguous + [n])
  {
    forall m | IsMove(before, after, m) ensures m.name != n {
      OneMove(before, after, m);
    }
  }

  /** Exactly the moves and ties of all names. */
  ghost predicate WholeCensus(before: Tree, after: Tree, found: seq<Move>, ambiguous: seq<string>) {
    && (forall m :: m in found <==> IsMove(before, after, m))
    && (forall n :: n in ambiguous <==> IsAmbiguous(before, after, n))
  }

  lemma CensusIsWhole(before: Tree, after: Tree, left: map<string, seq<string>>, arrived: map<string, seq<string>>,
                      found: seq<Move>, ambiguous: seq<string>)
    requires Tabulates(left, before, after, before.Keys) && Tabulates(arrived, after, before, after.Keys)
    requires Census(before, after, left.Keys * arrived.Keys, found, ambiguous)
    ensures WholeCensus(before, after, found, ambiguous)
  {
    forall n | Leaving(before, after, n) != {} && Leaving(after, before, n) != {}
      ensures n in left.Keys * arrived.Keys
    {
      Present(left, before, after, n);
      Present(arrived, after, before, n);
    }
    forall m | IsMove(before, after, m) ensures m.name in left.Keys * arrived.Keys {
      assert m.frm in Leaving(before, after, m.name) && m.target in Leaving(after, before, m.name);
    }
  }

  function Names(found: seq<Move>): seq<string> {
    seq(|found|, i requires 0 <= i < |found| => found[i].name)
  }

  lemma NamesSnoc(found: seq<Move>, m: Move)
    ensures Names(found + [m]) == Names(found) + [m.name]
  {}

  /** The census of the first i names, taken in their order. */
  ghost predicate CensusUpTo(before: Tree, after: Tree, names: seq<string>, i: nat, found: seq<Move>,
                             ambiguous: seq<string>, moved: seq<nat>, tied: seq<nat>)
  {
    && i <= |names| && Census(before, after, SetOf(names[..i]), found, ambiguous)
    && Picks(Names(found), names, moved, i) && Picks(ambiguous, names, tied, i)
  }

  lemma UpToMove(before: Tree, after: Tree, names: seq<string>, i: nat, found: seq<Move>, ambiguous: seq<string>,
                 moved: seq<nat>, tied: seq<nat>, m: Move)
    requires CensusUpTo(before, after, names, i, found, ambiguous, moved, tied) && i < |names| && Distinct(names)
    requires m.name == names[i] && IsMove(before, after, m)
    ensures CensusUpTo(before, after, names, i + 1, found + [m], ambiguous, moved + [i], tied)
  {
    PrefixStep(names, i);
    CensusMove(before, after, SetOf(names[..i]), found, ambiguous, m);
    NamesSnoc(found, m);
  }

  lemma UpToTie(before: Tree, after: Tree, names: seq<string>, i: nat, found: seq<Move>, ambiguous: seq<string>,
                moved: seq<nat>, tied: seq<nat>)
    requires CensusUpTo(before, after, names, i, found, ambiguous, moved, tied) && i < |names| && Distinct(names)
    requires IsAmbiguous(before, after, names[i])
    ensures CensusUpTo(before, after, names, i + 1, found, ambiguous + [names[i]], moved, tied + [i])
  {
    PrefixStep(names, i);
    CensusTie(before, after, SetOf(names[..i]), found, ambiguous, names[i]);
  }

  lemma UpToAll(before: Tree, after: Tree, keys: set<string>, found: seq<Move>, ambiguous: seq<string>, moved: seq<nat>,
                tied: seq<nat>)
    requires CensusUpTo(before, after, Alphabetical(keys), |Alphabetical(keys)|, found, ambiguous, moved, tied)
    ensures Census(before, after, keys, found, ambiguous)
    ensures StrictlySorted(Names(found)) && StrictlySorted(ambiguous)
  {
    var names := Alphabetical(keys);
    WholePrefix(names, keys);
    PicksAreSorted(Names(found), names, moved, |names|);
    PicksAreSorted(ambiguous, names, tied, |names|);
  }

  lemma UpToNone(before: Tree, after: Tree, names: seq<string>)
    ensures CensusUpTo(before, after, names, 0, [], [], [], [])
  {}

  /** The loop over the names that left somewhere and arrived somewhere. */
  method Classify(before: Tree, after: Tree, left: map<string, seq<string>>, arrived: map<string, seq<string>>,
                  names: seq<string>)
    returns (found: seq<Move>, ambiguous: seq<string>, ghost moved: seq<nat>, ghost tied: seq<nat>)
    requires Tabulates(left, before, after, before.Keys) && Tabulates(arrived, after, before, after.Keys)
    requires Distinct(names) && forall i :: 0 <= i < |names| ==> names[i] in left && names[i] in arrived
    ensures CensusUpTo(before, after, names, |names|, found, ambiguous, moved, tied)
  {
    found, ambiguous, moved, tied := [], [], [], [];
    UpToNone(before, after, names);
    for i := 0 to |names|
      invariant CensusUpTo(before, after, names, i, found, ambiguous, moved, tied)
    {
      var m := Match(before, after, left, arrived, names[i]);
      if m.None? {
        UpToTie(before, after, names, i, found, ambiguous, moved, tied);
        ambiguous, tied := ambiguous + [names[i]], tied + [i];
      } else {
        UpToMove(before, after, names, i, found, ambiguous, moved, tied, m.value);
        found, moved := found + [m.value], moved + [i];
      }
    }
  }

  /** `moves`: the moves and the ties, each in the order of the names. */
  method Moves(before: Tree, after: Tree) returns (found: seq<Move>, ambiguous: seq<string>)
    ensures WholeCensus(before, after, found, ambiguous)
    ensures StrictlySorted(Names(found)) && StrictlySorted(ambiguous)
  {
    var left := Tabulate(before, after);
    var arrived := Tabulate(after, before);
    var both := left.Keys * arrived.Keys;
    ghost var moved, tied;
    found, ambiguous, moved, tied := Classify(before, after, left, arrived, Alphabetical(both));
    UpToAll(before, after, both, found, ambiguous, moved, tied);
    CensusIsWhole(before, after, left, arrived, found, ambiguous);
  }

  /** One name: a move when it left one module and arrived in one, else a tie. */
  method Match(before: Tree, after: Tree, left: map<string, seq<string>>, arrived: map<string, seq<string>>,
               name: string)
    returns (m: Option<Move>)
    requires Tabulates(left, before, after, before.Keys) && Tabulates(arrived, after, before, after.Keys)
    requires name in left && name in arrived
    ensures m.Some? ==> m.value.name == name && IsMove(before, after, m.value)
    ensures m.None? ==> IsAmbiguous(before, after, name)
  {
    Tabulated(left, before, after, name);
    Tabulated(arrived, after, before, name);
    if |left[name]| != 1 || |arrived[name]| != 1 {
      return None;
    }
    var frm, target := left[name][0], arrived[name][0];
    assert frm in Leaving(before, after, name) && target in Leaving(after, before, name);
    var was, now := before[frm][name], after[target][name];
    return Some(Move(name, was.kind, frm, target, was.body == now.body));
  }

  lemma Tabulated(table: map<string, seq<string>>, tree: Tree, other: Tree, name: string)
    requires Tabulates(table, tree, other, tree.Keys) && name in table
    ensures |table[name]| == 1 <==> |Leaving(tree, other, name)| == 1
    ensures |table[name]| == 1 ==> Leaving(tree, other, name) == {table[name][0]}
    ensures Leaving(tree, other, name) != {}
  {
    assert Leaving(tree, other, name) * tree.Keys == Leaving(tree, other, name);
    assert Of(table, name) == table[name];
    Single(table[name], Leaving(tree, other, name));
  }

  lemma Present(table: map<string, seq<string>>, tree: Tree, other: Tree, name: string)
    requires Tabulates(table, tree, other, tree.Keys) && Leaving(tree, other, name) != {}
    ensures name in table
  {
    assert Leaving(tree, other, name) * tree.Keys == Leaving(tree, other, name);
    Single(Of(table, name), Leaving(tree, other, name));
  }

  /** A name has at most one move. */
  lemma OneMove(before: Tree, after: Tree, m: Move)
    requires IsMove(before, after, m)
    ensures forall n :: IsMove(before, after, n) && n.name == m.name ==> n == m
    ensures !IsAmbiguous(before, after, m.name)
    ensures m.frm != m.target
  {
    forall n | IsMove(before, after, n) && n.name == m.name ensures n == m {
      assert n.frm in {m.frm} && n.target in {m.target};
    }
    assert m.frm in Leaving(before, after, m.name) && m.target in Leaving(after, before, m.name);
  }

  // ---- What a division is read as ----

  /** `after` is `before` with the definitions `names` of module p taken out and put into module q. */
  ghost predicate Divides(before: Tree, after: Tree, p: string, q: string, names: set<string>) {
    && p != q && p in before && names <= before[p].Keys
    && (forall n :: n in names ==> !Defines(before, q, n))
    && (forall n :: n in names ==> !Defines(after, p, n) && Defines(after, q, n) && after[q][n] == before[p][n])
    && (forall path, n :: !((path == p || path == q) && n in names) ==>
        (Defines(before, path, n) <==> Defines(after, path, n)))
  }

  /**
   * Moving any definitions of one module into another, a new module included, is read as exactly that: one move
   * per definition, each body identical, and no tie, whatever other modules define the same names.
   */
  lemma DivisionIsReadAsMoves(before: Tree, after: Tree, p: string, q: string, names: set<string>, m: Move)
    requires Divides(before, after, p, q, names)
    ensures IsMove(before, after, m) <==> m.name in names && m == Move(m.name, before[p][m.name].kind, p, q, true)
    ensures !IsAmbiguous(before, after, m.name)
  {
    var n := m.name;
    var left, arrived := Leaving(before, after, n), Leaving(after, before, n);
    if n in names {
      assert left == {p};
      assert arrived == {q};
    } else {
      forall path ensures path !in left && path !in arrived {
        assert Defines(before, path, n) <==> Defines(after, path, n);
      }
    }
  }
}
