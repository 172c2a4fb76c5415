/** Values and orderings every module of the model shares. */
module Common {

  datatype Option<+T> = None | Some(value: T)

  /** A total order, as Python's `sorted` needs one. */
  ghost predicate TotalOrder<T(!new)>(leq: (T, T) -> bool) {
    && (forall a, b :: leq(a, b) || leq(b, a))
    && (forall a, b :: leq(a, b) && leq(b, a) ==> a == b)
    && (forall a, b, c :: leq(a, b) && leq(b, c) ==> leq(a, c))
  }

  predicate IntLeq(a: int, b: int) {
    a <= b
  }

  /** Code point order on strings. */
  predicate StringLeq(a: string, b: string) {
    if a == [] then true
    else if b == [] then false
    else if a[0] != b[0] then a[0] < b[0]
    else StringLeq(a[1..], b[1..])
  }

  lemma {:induction false} StringLeqTotal(a: string, b: string)
    ensures StringLeq(a, b) || StringLeq(b, a)
    ensures StringLeq(a, b) && StringLeq(b, a) ==> a == b
  {
    if a != [] && b != [] && a[0] == b[0] {
      StringLeqTotal(a[1..], b[1..]);
      assert a == [a[0]] + a[1..] && b == [b[0]] + b[1..];
    }
  }

  lemma {:induction false} StringLeqTransitive(a: string, b: string, c: string)
    requires StringLeq(a, b) && StringLeq(b, c)
    ensures StringLeq(a, c)
  {
    if a != [] && b != [] && c != [] && a[0] == b[0] == c[0] {
      StringLeqTransitive(a[1..], b[1..], c[1..]);
    }
  }

  lemma StringOrder()
    ensures TotalOrder(StringLeq)
  {
    forall a, b ensures StringLeq(a, b) || StringLeq(b, a) {
      StringLeqTotal(a, b);
    }
    forall a, b | StringLeq(a, b) && StringLeq(b, a) ensures a == b {
      StringLeqTotal(a, b);
    }
    forall a, b, c | StringLeq(a, b) && StringLeq(b, c) ensures StringLeq(a, c) {
      StringLeqTransitive(a, b, c);
    }
  }

  /** The first difference decides; a text comes after its own beginnings. */
  ghost predicate ComesFirst(a: string, b: string, k: nat) {
    && k <= |a| && k <= |b| && a[..k] == b[..k]
    && (k == |a| || (k < |b| && a[k] < b[k]))
  }

  lemma {:induction false} StringLeqIff(a: string, b: string)
    ensures StringLeq(a, b) <==> exists k: nat :: ComesFirst(a, b, k)
  {
    if a == [] {
      assert ComesFirst(a, b, 0);
    } else if b != [] && a[0] == b[0] {
      StringLeqIff(a[1..], b[1..]);
      if k: nat :| ComesFirst(a[1..], b[1..], k) {
        assert ComesFirst(a, b, k + 1);
      }
      if k: nat :| ComesFirst(a, b, k) && k > 0 {
        assert a[1..][..k - 1] == a[..k][1..] && b[1..][..k - 1] == b[..k][1..];
        assert ComesFirst(a[1..], b[1..], k - 1);
      }
    } else if b != [] && a[0] < b[0] {
      assert ComesFirst(a, b, 0);
    } else if b != [] {
      forall k: nat ensures !ComesFirst(a, b, k) {
        assert k > 0 && k <= |a| && k <= |b| ==> a[..k][0] != b[..k][0];
      }
    }
  }

  ghost predicate IsLeast<T>(m: T, s: set<T>, leq: (T, T) -> bool) {
    m in s && forall x :: x in s ==> leq(m, x)
  }

  lemma {:induction false} LeastExists<T(!new)>(s: set<T>, leq: (T, T) -> bool) returns (m: T)
    requires s != {} && TotalOrder(leq)
    ensures IsLeast(m, s, leq)
    decreases s
  {
    var y :| y in s;
    var rest := s - {y};
    if rest == {} {
      m := y;
      assert leq(y, y);
      assert s == {y};
    } else {
      var n := LeastExists(rest, leq);
      m := if leq(n, y) then n else y;
      assert leq(m, n) && leq(m, y);
      forall x | x in s ensures leq(m, x) {
        if x != y {
          assert x in rest && leq(n, x);
        }
      }
    }
  }

  lemma SomeLeast<T(!new)>(s: set<T>, leq: (T, T) -> bool)
    requires s != {} && TotalOrder(leq)
    ensures exists m :: IsLeast(m, s, leq)
  {
    var m := LeastExists(s, leq);
  }

  function Least<T(==,!new)>(s: set<T>, leq: (T, T) -> bool): (m: T)
    requires s != {} && TotalOrder(leq)
    ensures IsLeast(m, s, leq)
  {
    SomeLeast(s, leq);
    var m :| m in s && forall x :: x in s ==> leq(m, x);
    m
  }

  /** `sorted(s)`: every element of the set once, in ascending order. */
  function Sorted<T(==,!new)>(s: set<T>, leq: (T, T) -> bool): (q: seq<T>)
    requires TotalOrder(leq)
    ensures forall x :: x in q <==> x in s
    ensures |q| == |s|
    ensures forall i, j :: 0 <= i < j < |q| ==> leq(q[i], q[j]) && q[i] != q[j]
    decreases s
  {
    if s == {} then []
    else
      var m := Least(s, leq);
      [m] + Sorted(s - {m}, leq)
  }

  ghost predicate StrictlyAscending(q: seq<int>) {
    forall i, j :: 0 <= i < j < |q| ==> q[i] < q[j]
  }

  lemma AscendingSnoc(q: seq<int>, n: int)
    requires StrictlyAscending(q) && forall x :: x in q ==> x < n
    ensures StrictlyAscending(q + [n])
  {
    forall i | 0 <= i < |q| ensures q[i] < n {
      assert q[i] in q;
    }
  }

  // ---- Strings in order ----

  function SetOf(q: seq<string>): set<string> {
    set x | x in q
  }

  ghost predicate Distinct(q: seq<string>) {
    forall i, j :: 0 <= i < j < |q| ==> q[i] != q[j]
  }

  /** `sorted` of a set of strings. */
  function Alphabetical(keys: set<string>): (order: seq<string>)
    ensures forall k :: k in order <==> k in keys
    ensures forall i :: 0 <= i < |order| ==> order[i] in keys
    ensures Distinct(order)
  {
    StringOrder();
    var order := Sorted(keys, StringLeq);
    assert forall i :: 0 <= i < |order| ==> order[i] in order;
    order
  }

  /** `q == sorted(set(q))`. */
  predicate StrictlySorted(q: seq<string>) {
    forall i, j :: 0 <= i < j < |q| ==> StringLeq(q[i], q[j]) && q[i] != q[j]
  }

  /** A list made of entries of another one, taken in its order, from its first n. */
  ghost predicate Picks(q: seq<string>, order: seq<string>, at: seq<nat>, n: nat) {
    && |at| == |q| && n <= |order|
    && (forall i :: 0 <= i < |at| ==> at[i] < n && q[i] == order[at[i]])
    && (forall i, j :: 0 <= i < j < |at| ==> at[i] < at[j])
  }

  lemma PicksAreSorted(q: seq<string>, order: seq<string>, at: seq<nat>, n: nat)
    requires Picks(q, order, at, n) && StrictlySorted(order)
    ensures StrictlySorted(q)
  {}
}
