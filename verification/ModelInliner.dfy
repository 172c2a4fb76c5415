/** Replacing references to compiled models by the models' own SQL. */
module ModelInliner {
  // A query is a sequence of tokens: plain code, a string or comment, a qualified relation, or the
  // parenthesised body that stands where a relation stood.  Meaning is left abstract: any function of the
  // words of a query and of the relations it reads.

  const INLINE_BUDGET: nat := 400_000

  datatype Token =
    | Code(text: string)
    | Masked(text: string)                           // a string literal or a comment
    | Ref(qualifier: string, name: string, inMask: bool) // `project`.`dataset`.`name`; inside a mask it is text
    | Sub(qualifier: string, name: string, body: seq<Token>) // the body inlined where the relation stood

  // ---- The text ----

  function RefText(qualifier: string, name: string): string {
    qualifier + ".`" + name + "`"
  }

  function Render(text: seq<Token>): string {
    if text == [] then ""
    else
      (match text[0]
       case Code(s) => s
       case Masked(s) => s
       case Ref(q, n, _) => RefText(q, n)
       case Sub(_, _, body) => "(\n" + Render(body) + "\n)")
      + Render(text[1..])
  }

  function Size(text: seq<Token>): nat {
    |Render(text)|
  }

  // ---- Expansion ----

  /** Why a reference stays, or is replaced, at one level of expansion. */
  predicate Replaces(bodies: map<string, seq<Token>>, seen: set<string>, level: nat, name: string, inMask: bool) {
    name in bodies && name !in seen && !inMask && level + Size(bodies[name]) <= INLINE_BUDGET
  }

  /** Every reference of one level, left to right; `level` is the size of the whole text being expanded. */
  function ExpandTokens(bodies: map<string, seq<Token>>, seen: set<string>, level: nat, text: seq<Token>): seq<Token>
    decreases bodies.Keys - seen, |text|
  {
    if text == [] then []
    else
      var rest := ExpandTokens(bodies, seen, level, text[1..]);
      match text[0]
      case Ref(q, n, m) =>
        if Replaces(bodies, seen, level, n, m) then
          [Sub(q, n, ExpandTokens(bodies, seen + {n}, Size(bodies[n]), bodies[n]))] + rest
        else [text[0]] + rest
      case _ => [text[0]] + rest
  }

  function Expand(bodies: map<string, seq<Token>>, seen: set<string>, text: seq<Token>): seq<Token> {
    ExpandTokens(bodies, seen, Size(text), text)
  }

  function InlineModelBodies(sql: seq<Token>, bodies: map<string, seq<Token>>): seq<Token> {
    Expand(bodies, {}, sql)
  }

  // ---- Meaning ----

  /** What a query is made of for its meaning: words, and the relations it reads. */
  datatype Atom<V> = Word(text: string) | Relation(value: V)

  /** The relation each qualified name denotes. */
  type Environment<V> = (string, string) -> V

  function Atoms<V>(text: seq<Token>, sem: seq<Atom<V>> -> V, env: Environment<V>): seq<Atom<V>> {
    if text == [] then []
    else
      [match text[0]
       case Code(s) => Word(s)
       case Masked(s) => Word(s)
       case Ref(q, n, m) => if m then Word(RefText(q, n)) else Relation(env(q, n))
       case Sub(_, _, body) => Relation(sem(Atoms(body, sem, env)))]
      + Atoms(text[1..], sem, env)
  }

  function Meaning<V>(text: seq<Token>, sem: seq<Atom<V>> -> V, env: Environment<V>): V {
    sem(Atoms(text, sem, env))
  }

  /** The token reads a model outside every mask. */
  predicate ReadsModel(bodies: map<string, seq<Token>>, t: Token) {
    t.Ref? && !t.inMask && t.name in bodies
  }

  /** What the reference reads is what the model's body means. */
  ghost predicate DenotesBody<V>(bodies: map<string, seq<Token>>, sem: seq<Atom<V>> -> V, env: Environment<V>, t: Token)
    requires ReadsModel(bodies, t)
  {
    env(t.qualifier, t.name) == Meaning(bodies[t.name], sem, env)
  }

  /** Every model reference of the text denotes; relations that the text does not read may be anything. */
  ghost predicate Denotes<V>(bodies: map<string, seq<Token>>, sem: seq<Atom<V>> -> V, env: Environment<V>,
                             text: seq<Token>) {
    forall i :: 0 <= i < |text| && ReadsModel(bodies, text[i]) ==> DenotesBody(bodies, sem, env, text[i])
  }

  /** The references inside the bodies denote, each body for itself; cycles are fixed points. */
  ghost predicate BodiesDenote<V>(bodies: map<string, seq<Token>>, sem: seq<Atom<V>> -> V, env: Environment<V>) {
    forall n :: n in bodies ==> Denotes(bodies, sem, env, bodies[n])
  }

  lemma AtomsCons<V>(t: Token, rest: seq<Token>, sem: seq<Atom<V>> -> V, env: Environment<V>)
    ensures Atoms([t] + rest, sem, env) == Atoms([t], sem, env) + Atoms(rest, sem, env)
  {
    assert ([t] + rest)[1..] == rest && [t][1..] == [];
  }

  lemma AtomsLength<V>(text: seq<Token>, sem: seq<Atom<V>> -> V, env: Environment<V>)
    ensures |Atoms(text, sem, env)| == |text|
  {
    if text != [] {
      AtomsLength(text[1..], sem, env);
    }
  }

  lemma {:induction false} ExpansionKeepsAtoms<V>(bodies: map<string, seq<Token>>, seen: set<string>, level: nat,
                                                  text: seq<Token>, sem: seq<Atom<V>> -> V, env: Environment<V>)
    requires BodiesDenote(bodies, sem, env) && Denotes(bodies, sem, env, text)
    ensures Atoms(ExpandTokens(bodies, seen, level, text), sem, env) == Atoms(text, sem, env)
    decreases bodies.Keys - seen, |text|
  {
    if text != [] {
      assert forall i :: 0 <= i < |text[1..]| ==> text[1..][i] == text[i + 1];
      ExpansionKeepsAtoms(bodies, seen, level, text[1..], sem, env);
      var rest := ExpandTokens(bodies, seen, level, text[1..]);
      if text[0].Ref? && Replaces(bodies, seen, level, text[0].name, text[0].inMask) {
        var n := text[0].name;
        var body := ExpandTokens(bodies, seen + {n}, Size(bodies[n]), bodies[n]);
        ExpansionKeepsAtoms(bodies, seen + {n}, Size(bodies[n]), bodies[n], sem, env);
        assert ReadsModel(bodies, text[0]) && DenotesBody(bodies, sem, env, text[0]);
        assert ([Sub(text[0].qualifier, n, body)] + rest)[1..] == rest;
      } else {
        assert ([text[0]] + rest)[1..] == rest;
      }
    }
  }

  /**
   * Inlining preserves meaning, for every notion of meaning and every environment in which the model references
   * of the query and of the bodies denote those models, cyclic references included.
   */
  lemma InliningPreservesMeaning<V>(sql: seq<Token>, bodies: map<string, seq<Token>>, sem: seq<Atom<V>> -> V,
                                    env: Environment<V>)
    requires BodiesDenote(bodies, sem, env) && Denotes(bodies, sem, env, sql)
    ensures Meaning(InlineModelBodies(sql, bodies), sem, env) == Meaning(sql, sem, env)
  {
    ExpansionKeepsAtoms(bodies, {}, Size(sql), sql, sem, env);
  }

  /** Every reference of the text that is replaced at this level denotes its model. */
  ghost predicate ReplacedDenote<V>(bodies: map<string, seq<Token>>, seen: set<string>, level: nat, text: seq<Token>,
                                    sem: seq<Atom<V>> -> V, env: Environment<V>)
  {
    forall i :: 0 <= i < |text| && text[i].Ref? && Replaces(bodies, seen, level, text[i].name, text[i].inMask) ==>
      DenotesBody(bodies, sem, env, text[i])
  }

  lemma ReplacedDenoteCons<V>(bodies: map<string, seq<Token>>, seen: set<string>, level: nat, text: seq<Token>,
                              sem: seq<Atom<V>> -> V, env: Environment<V>)
    requires text != []
    ensures ReplacedDenote(bodies, seen, level, text, sem, env) <==>
      && (text[0].Ref? && Replaces(bodies, seen, level, text[0].name, text[0].inMask) ==>
          DenotesBody(bodies, sem, env, text[0]))
      && ReplacedDenote(bodies, seen, level, text[1..], sem, env)
  {
    var rest := text[1..];
    assert forall i :: 0 <= i < |rest| ==> rest[i] == text[i + 1];
    assert forall i :: 1 <= i < |text| ==> text[i] == rest[i - 1];
  }

  /** What one token becomes. */
  lemma ReplacedAtom<V>(bodies: map<string, seq<Token>>, seen: set<string>, r: Token, sem: seq<Atom<V>> -> V,
                        env: Environment<V>)
    requires BodiesDenote(bodies, sem, env) && ReadsModel(bodies, r)
    ensures var body := ExpandTokens(bodies, seen, Size(bodies[r.name]), bodies[r.name]);
      Atoms([Sub(r.qualifier, r.name, body)], sem, env) == Atoms([r], sem, env) <==> DenotesBody(bodies, sem, env, r)
  {
    var body := ExpandTokens(bodies, seen, Size(bodies[r.name]), bodies[r.name]);
    ExpansionKeepsAtoms(bodies, seen, Size(bodies[r.name]), bodies[r.name], sem, env);
    assert [r][1..] == [] && [Sub(r.qualifier, r.name, body)][1..] == [];
    assert Atoms([r], sem, env)[0] == Relation(env(r.qualifier, r.name));
    assert Atoms([Sub(r.qualifier, r.name, body)], sem, env)[0] == Relation(sem(Atoms(body, sem, env)));
  }

  lemma {:induction false} ExpansionKeepsAtomsIff<V>(bodies: map<string, seq<Token>>, seen: set<string>, level: nat,
                                                     text: seq<Token>, sem: seq<Atom<V>> -> V, env: Environment<V>)
    requires BodiesDenote(bodies, sem, env)
    ensures Atoms(ExpandTokens(bodies, seen, level, text), sem, env) == Atoms(text, sem, env)
       <==> ReplacedDenote(bodies, seen, level, text, sem, env)
    decreases |text|
  {
    if text != [] {
      var t, tail := text[0], text[1..];
      var rest := ExpandTokens(bodies, seen, level, tail);
      ExpansionKeepsAtomsIff(bodies, seen, level, tail, sem, env);
      ReplacedDenoteCons(bodies, seen, level, text, sem, env);
      assert text == [t] + tail;
      AtomsCons(t, tail, sem, env);
      var head := t;
      if t.Ref? && Replaces(bodies, seen, level, t.name, t.inMask) {
        head := Sub(t.qualifier, t.name, ExpandTokens(bodies, seen + {t.name}, Size(bodies[t.name]), bodies[t.name]));
        ReplacedAtom(bodies, seen + {t.name}, t, sem, env);
      }
      AtomsCons(head, rest, sem, env);
      AtomsLength([head], sem, env);
      AtomsLength([t], sem, env);
      SplitEqual(Atoms([head], sem, env), Atoms(rest, sem, env), Atoms([t], sem, env), Atoms(tail, sem, env));
    }
  }

  lemma SplitEqual<T>(a: seq<T>, b: seq<T>, c: seq<T>, d: seq<T>)
    requires |a| == |c|
    ensures a + b == c + d <==> a == c && b == d
  {
    if a + b == c + d {
      assert a == (a + b)[..|a|] && b == (a + b)[|a|..];
      assert c == (c + d)[..|c|] && d == (c + d)[|c|..];
    }
  }

  /**
   * Only the last part of a qualified name finds the model, so another dataset's relation of a model's name is
   * replaced as well.  Where the references inside the bodies denote, what the query reads is kept exactly when
   * every replaced reference of the query itself names a relation that is the model.
   */
  lemma ReadsAreKeptIff<V>(sql: seq<Token>, bodies: map<string, seq<Token>>, sem: seq<Atom<V>> -> V,
                           env: Environment<V>)
    requires BodiesDenote(bodies, sem, env)
    ensures Atoms(InlineModelBodies(sql, bodies), sem, env) == Atoms(sql, sem, env)
       <==> ReplacedDenote(bodies, {}, Size(sql), sql, sem, env)
  {
    ExpansionKeepsAtomsIff(bodies, {}, Size(sql), sql, sem, env);
  }

  /** The smallest case: one reference to another dataset's relation of the model's name. */
  lemma SameNameElsewhere<V>(bodies: map<string, seq<Token>>, q: string, n: string, sem: seq<Atom<V>> -> V,
                             env: Environment<V>)
    requires BodiesDenote(bodies, sem, env) && Replaces(bodies, {}, Size([Ref(q, n, false)]), n, false)
    ensures Atoms(InlineModelBodies([Ref(q, n, false)], bodies), sem, env) == Atoms([Ref(q, n, false)], sem, env)
       <==> env(q, n) == Meaning(bodies[n], sem, env)
  {
    var sql := [Ref(q, n, false)];
    ReadsAreKeptIff(sql, bodies, sem, env);
    assert sql[0].Ref? && Replaces(bodies, {}, Size(sql), sql[0].name, sql[0].inMask);
  }

  lemma RenderSingle(t: Token)
    ensures t.Code? ==> Render([t]) == t.text
    ensures t.Ref? ==> Render([t]) == RefText(t.qualifier, t.name)
    ensures t.Sub? ==> Render([t]) == "(\n" + Render(t.body) + "\n)"
  {
    assert [t][1..] == [];
  }

  lemma RenderCons(t: Token, rest: seq<Token>)
    ensures Render([t] + rest) == Render([t]) + Render(rest)
  {
    assert ([t] + rest)[1..] == rest && [t][1..] == [];
  }

  // ---- What is replaced and what stays ----

  /** A live reference to a model that is not on its own path and whose text, beside this level's, fits. */
  ghost predicate HasToGo(bodies: map<string, seq<Token>>, seen: set<string>, level: nat, t: Token) {
    && t.Ref? && !t.inMask && t.name in bodies && t.name !in seen
    && level + |Render(bodies[t.name])| <= 400_000
  }

  /**
   * `out` is `text` with every reference that has to be replaced replaced by its body, unfolded in turn, and
   * every other token as it was.
   */
  ghost predicate Unfolds(bodies: map<string, seq<Token>>, seen: set<string>, level: nat, text: seq<Token>,
                          out: seq<Token>)
    decreases out
  {
    && |out| == |text|
    && forall i :: 0 <= i < |out| ==>
         if HasToGo(bodies, seen, level, text[i]) then
           var n := text[i].name;
           && out[i].Sub? && out[i].qualifier == text[i].qualifier && out[i].name == n
           && Unfolds(bodies, seen + {n}, Size(bodies[n]), bodies[n], out[i].body)
         else out[i] == text[i]
  }

  lemma {:induction false} ExpansionUnfolds(bodies: map<string, seq<Token>>, seen: set<string>, level: nat,
                                            text: seq<Token>)
    ensures Unfolds(bodies, seen, level, text, ExpandTokens(bodies, seen, level, text))
    decreases bodies.Keys - seen, |text|
  {
    if text != [] {
      ExpansionUnfolds(bodies, seen, level, text[1..]);
      var rest := ExpandTokens(bodies, seen, level, text[1..]);
      if text[0].Ref? && Replaces(bodies, seen, level, text[0].name, text[0].inMask) {
        var n := text[0].name;
        ExpansionUnfolds(bodies, seen + {n}, Size(bodies[n]), bodies[n]);
      }
      var out := ExpandTokens(bodies, seen, level, text);
      forall i | 1 <= i < |out| ensures out[i] == rest[i - 1] && text[i] == text[1..][i - 1] {}
    }
  }

  lemma {:induction false} UnfoldingIsUnique(bodies: map<string, seq<Token>>, seen: set<string>, level: nat,
                                             text: seq<Token>, one: seq<Token>, two: seq<Token>)
    requires Unfolds(bodies, seen, level, text, one) && Unfolds(bodies, seen, level, text, two)
    ensures one == two
    decreases bodies.Keys - seen, |text|
  {
    forall i | 0 <= i < |text| ensures one[i] == two[i] {
      if text[i].Ref? && Replaces(bodies, seen, level, text[i].name, text[i].inMask) {
        var n := text[i].name;
        UnfoldingIsUnique(bodies, seen + {n}, Size(bodies[n]), bodies[n], one[i].body, two[i].body);
      }
    }
  }

  /**
   * The result is the one unfolding of the query: a reference survives, at any depth, exactly when its name is
   * no model, is on its own expansion path, stands in a mask, or its body would take that level over the budget.
   */
  lemma InliningIsTheUnfolding(sql: seq<Token>, bodies: map<string, seq<Token>>, out: seq<Token>)
    ensures out == InlineModelBodies(sql, bodies) <==> Unfolds(bodies, {}, Size(sql), sql, out)
  {
    ExpansionUnfolds(bodies, {}, Size(sql), sql);
    if Unfolds(bodies, {}, Size(sql), sql, out) {
      UnfoldingIsUnique(bodies, {}, Size(sql), sql, out, InlineModelBodies(sql, bodies));
    }
  }

  /** No live reference to a model at any depth. */
  ghost predicate NoModelLeft(bodies: map<string, seq<Token>>, out: seq<Token>) {
    forall i :: 0 <= i < |out| ==>
      match out[i]
      case Code(_) => true
      case Masked(_) => true
      case Ref(_, n, m) => m || n !in bodies
      case Sub(_, _, body) => NoModelLeft(bodies, body)
  }

  /** The models a text refers to rank below `bound`. */
  ghost predicate RefersBelow(bodies: map<string, seq<Token>>, rank: string -> nat, text: seq<Token>, bound: nat) {
    forall i :: 0 <= i < |text| ==>
      !text[i].Sub? && (text[i].Ref? && !text[i].inMask && text[i].name in bodies ==> rank(text[i].name) < bound)
  }

  ghost predicate Fits(bodies: map<string, seq<Token>>, level: nat) {
    forall n :: n in bodies ==> level + Size(bodies[n]) <= 400_000
  }

  lemma {:induction false} AcyclicExpansion(bodies: map<string, seq<Token>>, rank: string -> nat, seen: set<string>,
                                            level: nat, text: seq<Token>, bound: nat)
    requires RefersBelow(bodies, rank, text, bound) && Fits(bodies, level)
    requires forall n :: n in bodies ==> RefersBelow(bodies, rank, bodies[n], rank(n)) && Fits(bodies, Size(bodies[n]))
    requires forall n :: n in seen ==> rank(n) >= bound
    ensures NoModelLeft(bodies, ExpandTokens(bodies, seen, level, text))
    decreases bodies.Keys - seen, |text|
  {
    if text != [] {
      AcyclicExpansion(bodies, rank, seen, level, text[1..], bound);
      var rest := ExpandTokens(bodies, seen, level, text[1..]);
      if text[0].Ref? && Replaces(bodies, seen, level, text[0].name, text[0].inMask) {
        var n := text[0].name;
        AcyclicExpansion(bodies, rank, seen + {n}, Size(bodies[n]), bodies[n], rank(n));
      }
      var out := ExpandTokens(bodies, seen, level, text);
      forall i | 1 <= i < |out| ensures out[i] == rest[i - 1] {}
    }
  }

  /** Models without a cycle, whose bodies fit pairwise, are inlined to the bottom: the warehouse is not read. */
  lemma AcyclicModelsDisappear(sql: seq<Token>, bodies: map<string, seq<Token>>, rank: string -> nat, top: nat)
    requires RefersBelow(bodies, rank, sql, top) && Fits(bodies, Size(sql))
    requires forall n :: n in bodies ==> RefersBelow(bodies, rank, bodies[n], rank(n)) && Fits(bodies, Size(bodies[n]))
    ensures NoModelLeft(bodies, InlineModelBodies(sql, bodies))
  {
    AcyclicExpansion(bodies, rank, {}, Size(sql), sql, top);
  }

  // ---- The budget bounds one level, not the result ----

  /**
   * What a replaced reference adds: the body and its four characters of parentheses and newlines, less its own text.
   */
  function Added(bodies: map<string, seq<Token>>, r: Token): int
    requires r.Ref? && r.name in bodies
  {
    Size(bodies[r.name]) + 4 - |RefText(r.qualifier, r.name)|
  }

  /** What all replacements add, those inside the inlined bodies included. */
  function Growth(bodies: map<string, seq<Token>>, seen: set<string>, level: nat, text: seq<Token>): int
    decreases bodies.Keys - seen, |text|
  {
    if text == [] then 0
    else
      (if text[0].Ref? && Replaces(bodies, seen, level, text[0].name, text[0].inMask) then
         var n := text[0].name;
         Added(bodies, text[0]) + Growth(bodies, seen + {n}, Size(bodies[n]), bodies[n])
       else 0)
      + Growth(bodies, seen, level, text[1..])
  }

  lemma {:induction false} ExpansionGrows(bodies: map<string, seq<Token>>, seen: set<string>, level: nat,
                                          text: seq<Token>)
    ensures Size(ExpandTokens(bodies, seen, level, text)) == Size(text) + Growth(bodies, seen, level, text)
    decreases bodies.Keys - seen, |text|
  {
    if text != [] {
      var t, rest := text[0], ExpandTokens(bodies, seen, level, text[1..]);
      ExpansionGrows(bodies, seen, level, text[1..]);
      assert text == [t] + text[1..];
      RenderCons(t, text[1..]);
      if t.Ref? && Replaces(bodies, seen, level, t.name, t.inMask) {
        var body := ExpandTokens(bodies, seen + {t.name}, Size(bodies[t.name]), bodies[t.name]);
        ExpansionGrows(bodies, seen + {t.name}, Size(bodies[t.name]), bodies[t.name]);
        RenderSingle(t);
        RenderSingle(Sub(t.qualifier, t.name, body));
        RenderCons(Sub(t.qualifier, t.name, body), rest);
      } else {
        RenderCons(t, rest);
      }
    }
  }

  /** The size of the result, and so exactly when it exceeds the budget that each replacement was held to. */
  lemma ResultExceedsBudgetIff(sql: seq<Token>, bodies: map<string, seq<Token>>)
    ensures Size(InlineModelBodies(sql, bodies)) == Size(sql) + Growth(bodies, {}, Size(sql), sql)
    ensures Size(InlineModelBodies(sql, bodies)) > 400_000
       <==> Size(sql) + Growth(bodies, {}, Size(sql), sql) > 400_000
  {
    ExpansionGrows(bodies, {}, Size(sql), sql);
  }

  /** The bodies refer to no model themselves. */
  ghost predicate Flat(bodies: map<string, seq<Token>>) {
    forall n, i :: n in bodies && 0 <= i < |bodies[n]| ==> !ReadsModel(bodies, bodies[n][i])
  }

  /** What the replaced references of one level add, read off the query. */
  function OneLevel(bodies: map<string, seq<Token>>, level: nat, text: seq<Token>): int {
    if text == [] then 0
    else
      (if text[0].Ref? && Replaces(bodies, {}, level, text[0].name, text[0].inMask) then Added(bodies, text[0]) else 0)
      + OneLevel(bodies, level, text[1..])
  }

  lemma {:induction false} NothingToGrow(bodies: map<string, seq<Token>>, seen: set<string>, level: nat,
                                         text: seq<Token>)
    requires forall i :: 0 <= i < |text| ==> !ReadsModel(bodies, text[i])
    ensures Growth(bodies, seen, level, text) == 0
    decreases |text|
  {
    if text != [] {
      assert !ReadsModel(bodies, text[0]);
      assert forall i :: 0 <= i < |text[1..]| ==> text[1..][i] == text[i + 1];
      NothingToGrow(bodies, seen, level, text[1..]);
    }
  }

  lemma {:induction false} FlatGrowth(bodies: map<string, seq<Token>>, level: nat, text: seq<Token>)
    requires Flat(bodies)
    ensures Growth(bodies, {}, level, text) == OneLevel(bodies, level, text)
    decreases |text|
  {
    if text != [] {
      FlatGrowth(bodies, level, text[1..]);
      if text[0].Ref? && Replaces(bodies, {}, level, text[0].name, text[0].inMask) {
        var n := text[0].name;
        NothingToGrow(bodies, {} + {n}, Size(bodies[n]), bodies[n]);
      }
    }
  }

  /** For models that refer to no model, the check is a sum over the references of the query. */
  lemma FlatResultExceedsBudgetIff(sql: seq<Token>, bodies: map<string, seq<Token>>)
    requires Flat(bodies)
    ensures Size(InlineModelBodies(sql, bodies)) > 400_000
       <==> Size(sql) + OneLevel(bodies, Size(sql), sql) > 400_000
  {
    ResultExceedsBudgetIff(sql, bodies);
    FlatGrowth(bodies, Size(sql), sql);
  }

  function Filler(n: nat): string {
    seq(n, i => 'x')
  }

  /** The budget is passed by three references to a body of half the budget: all are replaced. */
  lemma BudgetIsNotATotalBound()
    ensures var bodies := map["m" := [Code(Filler(200_000))]]; var r := Ref("`p`.`d`", "m", false);
            Size(InlineModelBodies([r, r, r], bodies)) > 400_000
  {
    var body := [Code(Filler(200_000))];
    var bodies := map["m" := body];
    var r := Ref("`p`.`d`", "m", false);
    RenderSingle(body[0]);
    RenderSingle(r);
    RenderCons(r, [r]);
    RenderCons(r, [r, r]);
    assert [r] + [r] == [r, r] && [r] + [r, r] == [r, r, r];
    var level := Size([r, r, r]);
    assert [r, r, r][1..] == [r, r] && [r, r][1..] == [r] && [r][1..] == [];
    assert OneLevel(bodies, level, [r]) == Added(bodies, r);
    assert OneLevel(bodies, level, [r, r]) == 2 * Added(bodies, r);
    assert OneLevel(bodies, level, [r, r, r]) == 3 * Added(bodies, r);
    FlatResultExceedsBudgetIff([r, r, r], bodies);
  }
}
