/** `Semigroup` and `Monoid` (Source/Functional/Semigroup+Monoid.swift), their
    operators (Sources/Fx/Operators/Monoid+Operators.swift) and the instances for
    arrays, strings, sets and dictionaries (Sources/Fx/Extensions/Sequences.swift).

    A conformance is a record of `empty` and `combined`; the mutating `combine`
    is the same function applied to a copy, so values stay immutable here.
 */
module Monoids {
  import opened Optionals
  import opened Traces
  import opened Bags
  import opened Disposables

  datatype Monoid<!M> = Monoid(empty: M, combine: (M, M) -> M)

  /** The laws the protocol's doc comments promise: `combine` is associative and
      `empty` is its identity on both sides. */
  ghost predicate Lawful<M(!new)>(m: Monoid<M>)
  {
    && (forall a, b, c :: m.combine(m.combine(a, b), c) == m.combine(a, m.combine(b, c)))
    && (forall a :: m.combine(m.empty, a) == a)
    && (forall a :: m.combine(a, m.empty) == a)
  }

  /** `reduce(into: acc) { $0.combine($1) }`: combines the elements into `acc` left to right. */
  function Fold<M>(m: Monoid<M>, acc: M, xs: seq<M>): M
  {
    if xs == [] then acc else m.combine(Fold(m, acc, DropLast(xs)), Last(xs))
  }

  /** `Monoid.combined(_ x: [Self])`: `empty` for no elements, the element itself for
      one, and otherwise the left fold of the rest into the first. */
  function Combined<M>(m: Monoid<M>, xs: seq<M>): (r: M)
    ensures xs == [] ==> r == m.empty
    ensures |xs| == 1 ==> r == xs[0]
    ensures |xs| >= 2 ==> r == Fold(m, xs[0], xs[1..])
  {
    if |xs| == 0 then m.empty
    else if |xs| == 1 then xs[0]
    else Fold(m, xs[0], xs[1..])
  }

  /** Folding from `a` is `a` combined with the fold from `empty`. */
  lemma {:induction false} FoldFromEmpty<M(!new)>(m: Monoid<M>, a: M, xs: seq<M>)
    requires Lawful(m)
    ensures Fold(m, a, xs) == m.combine(a, Fold(m, m.empty, xs))
  {
    if xs != [] {
      FoldFromEmpty(m, a, DropLast(xs));
    }
  }

  /** The fold of a concatenation is the combination of the folds. */
  lemma {:induction false} FoldAppend<M(!new)>(m: Monoid<M>, xs: seq<M>, ys: seq<M>)
    requires Lawful(m)
    ensures Fold(m, m.empty, xs + ys) == m.combine(Fold(m, m.empty, xs), Fold(m, m.empty, ys))
  {
    if ys == [] {
      assert xs + ys == xs;
    } else {
      assert DropLast(xs + ys) == xs + DropLast(ys);
      assert Last(xs + ys) == Last(ys);
      FoldAppend(m, xs, DropLast(ys));
    }
  }

  /** For a lawful monoid the special cases of `combined` agree with the plain fold
      from `empty`, and combining is a homomorphism from concatenation. */
  lemma CombinedIsFold<M(!new)>(m: Monoid<M>, xs: seq<M>, ys: seq<M>)
    requires Lawful(m)
    ensures Combined(m, xs) == Fold(m, m.empty, xs)
    ensures Combined(m, xs + ys) == m.combine(Combined(m, xs), Combined(m, ys))
  {
    CombinedFold(m, xs);
    CombinedFold(m, ys);
    CombinedFold(m, xs + ys);
    FoldAppend(m, xs, ys);
  }

  lemma CombinedFold<M(!new)>(m: Monoid<M>, xs: seq<M>)
    requires Lawful(m)
    ensures Combined(m, xs) == Fold(m, m.empty, xs)
  {
    if |xs| == 1 {
      assert DropLast(xs) == [];
    } else if |xs| >= 2 {
      FoldFromEmpty(m, xs[0], xs[1..]);
      FoldAppend(m, [xs[0]], xs[1..]);
      assert [xs[0]] + xs[1..] == xs;
      assert DropLast([xs[0]]) == [];
    }
  }

  /** `Semigroup.combined(x)` and the `+` operator: a copy of `a` with `b` combined in. */
  function Plus<M>(m: Monoid<M>, a: M, b: M): M
  {
    m.combine(a, b)
  }

  /** `∑ xs`: `combined(xs)`. */
  function Sum<M>(m: Monoid<M>, xs: seq<M>): M
  {
    Combined(m, xs)
  }

  /** `make(f)`: `f` applied to a copy of `empty`. */
  function Make<M>(m: Monoid<M>, f: M -> M): M
  {
    f(m.empty)
  }

  /** `Optional.unwrapped` (and the `compact` of an optional monoid): the payload, or
      `∑ []` for nil. */
  function Unwrapped<M>(m: Monoid<M>, o: Option<M>): (r: M)
    ensures o.Some? ==> r == o.value
    ensures o.None? ==> r == m.empty
  {
    match o
    case Some(x) => x
    case None => Sum(m, [])
  }

  /** The operators agree with `combined`: `a + b == ∑ [a, b]`, `∑` of one element is
      that element. */
  lemma OperatorsAgree<M>(m: Monoid<M>, a: M, b: M)
    ensures Plus(m, a, b) == Sum(m, [a, b])
    ensures Sum(m, [a]) == a && Sum(m, []) == m.empty
  {
    assert [a, b][1..] == [b];
    assert DropLast([b]) == [] && Last([b]) == b;
    assert Fold(m, a, [b]) == m.combine(Fold(m, a, []), b);
  }

  /** For a lawful monoid, `make { $0.combine(x) }` is `x`, and `make` of the identity
      mutation is `empty`. */
  lemma MakeFromEmpty<M(!new)>(m: Monoid<M>, f: M -> M, a: M)
    requires Lawful(m)
    ensures (forall x :: f(x) == m.combine(x, a)) ==> Make(m, f) == a
    ensures (forall x :: f(x) == x) ==> Make(m, f) == m.empty
  {
  }

  /** `∑` over disposables builds a `CompositeDisposable` of them, in order. */
  function SumDisposables<D>(ds: seq<D>, ts: Tokens): (r: (Composite<D>, Tokens))
    requires |ds| < INT_MAX
    ensures Values(r.0.disposables) == ds
    ensures ValidComposite(r.0, r.1)
  {
    NewComposite(ds, ts)
  }

  // ---- instances ----

  /** `Array`: `empty` is `[]`, `combine` appends. */
  function ArrayMonoid<T>(): Monoid<seq<T>>
  {
    Monoid([], (a: seq<T>, b: seq<T>) => a + b)
  }

  /** `String`: the array instance on characters. */
  function StringMonoid(): Monoid<string>
  {
    ArrayMonoid<char>()
  }

  /** `Set`: `empty` is the empty set, `combine` forms the union. */
  function SetMonoid<T>(): Monoid<set<T>>
  {
    Monoid({}, (a: set<T>, b: set<T>) => a + b)
  }

  /** `Dictionary`: `merge` where the right-hand value wins on a shared key. */
  function DictionaryMonoid<K, V>(): Monoid<map<K, V>>
  {
    Monoid(map[], (a: map<K, V>, b: map<K, V>) => a + b)
  }

  lemma ArrayLawful<T(!new)>()
    ensures Lawful(ArrayMonoid<T>())
  {
    var m := ArrayMonoid<T>();
    forall a: seq<T>, b: seq<T>, c: seq<T>
      ensures m.combine(m.combine(a, b), c) == m.combine(a, m.combine(b, c))
    {
      assert (a + b) + c == a + (b + c);
    }
    forall a: seq<T> ensures m.combine(m.empty, a) == a && m.combine(a, m.empty) == a {
      assert [] + a == a && a + [] == a;
    }
  }

  lemma StringLawful()
    ensures Lawful(StringMonoid())
  {
    ArrayLawful<char>();
  }

  lemma SetLawful<T(!new)>()
    ensures Lawful(SetMonoid<T>())
  {
    var m := SetMonoid<T>();
    forall a: set<T>, b: set<T>, c: set<T>
      ensures m.combine(m.combine(a, b), c) == m.combine(a, m.combine(b, c))
    {
      assert (a + b) + c == a + (b + c);
    }
    forall a: set<T> ensures m.combine(m.empty, a) == a && m.combine(a, m.empty) == a {
      assert {} + a == a && a + {} == a;
    }
  }

  lemma DictionaryLawful<K(!new), V(!new)>()
    ensures Lawful(DictionaryMonoid<K, V>())
  {
    var m := DictionaryMonoid<K, V>();
    forall a: map<K, V>, b: map<K, V>, c: map<K, V>
      ensures m.combine(m.combine(a, b), c) == m.combine(a, m.combine(b, c))
    {
      assert (a + b) + c == a + (b + c);
    }
    forall a: map<K, V> ensures m.combine(m.empty, a) == a && m.combine(a, m.empty) == a {
      assert map[] + a == a && a + map[] == a;
    }
  }

  /** Summing arrays concatenates them in order; summing strings does the same. */
  lemma {:induction false} SumArrays<T(!new)>(xss: seq<seq<T>>)
    ensures Sum(ArrayMonoid<T>(), xss) == Concat(xss)
  {
    ArrayLawful<T>();
    CombinedFold(ArrayMonoid<T>(), xss);
    FoldArrays(xss);
  }

  lemma {:induction false} FoldArrays<T(!new)>(xss: seq<seq<T>>)
    ensures Fold(ArrayMonoid<T>(), [], xss) == Concat(xss)
  {
    if xss != [] {
      FoldArrays(DropLast(xss));
    }
  }

  /** The concatenation of the inner sequences. */
  function Concat<T>(xss: seq<seq<T>>): seq<T>
  {
    if xss == [] then [] else Concat(DropLast(xss)) + Last(xss)
  }

  /** Merging dictionaries: a key's value is taken from the right-most operand that
      holds it; the keys are the union of all keys. */
  lemma {:induction false} SumDictionaries<K(!new), V(!new)>(ms: seq<map<K, V>>, k: K)
    ensures var r := Sum(DictionaryMonoid<K, V>(), ms);
            && (k in r <==> exists i :: 0 <= i < |ms| && k in ms[i])
            && (k in r ==> exists i :: 0 <= i < |ms| && k in ms[i] && r[k] == ms[i][k]
                                      && forall j :: i < j < |ms| ==> k !in ms[j])
  {
    DictionaryLawful<K, V>();
    CombinedFold(DictionaryMonoid<K, V>(), ms);
    FoldDictionaries(ms, k);
  }

  lemma {:induction false} FoldDictionaries<K(!new), V(!new)>(ms: seq<map<K, V>>, k: K)
    ensures var r := Fold(DictionaryMonoid<K, V>(), map[], ms);
            && (k in r <==> exists i :: 0 <= i < |ms| && k in ms[i])
            && (k in r ==> exists i :: 0 <= i < |ms| && k in ms[i] && r[k] == ms[i][k]
                                      && forall j :: i < j < |ms| ==> k !in ms[j])
  {
    if ms != [] {
      var init := DropLast(ms);
      FoldDictionaries(init, k);
      var r0 := Fold(DictionaryMonoid<K, V>(), map[], init);
      var r := Fold(DictionaryMonoid<K, V>(), map[], ms);
      assert r == r0 + Last(ms);
      var n := |ms| - 1;
      if k in Last(ms) {
        assert k in ms[n] && r[k] == ms[n][k];
      } else if k in r0 {
        var i :| 0 <= i < |init| && k in init[i] && r0[k] == init[i][k] && forall j :: i < j < |init| ==> k !in init[j];
        assert k in ms[i] && r[k] == ms[i][k];
        assert forall j :: i < j < |ms| ==> k !in ms[j];
      } else {
        assert forall i :: 0 <= i < |ms| ==> k !in ms[i] by {
          forall i | 0 <= i < |ms| ensures k !in ms[i] {
            if i < n { assert ms[i] == init[i]; }
          }
        }
      }
    }
  }

  /** Summing sets forms the union of all of them. */
  lemma {:induction false} SumSets<T(!new)>(ss: seq<set<T>>, x: T)
    ensures x in Sum(SetMonoid<T>(), ss) <==> exists i :: 0 <= i < |ss| && x in ss[i]
  {
    SetLawful<T>();
    CombinedFold(SetMonoid<T>(), ss);
    FoldSets(ss, x);
  }

  lemma {:induction false} FoldSets<T(!new)>(ss: seq<set<T>>, x: T)
    ensures x in Fold(SetMonoid<T>(), {}, ss) <==> exists i :: 0 <= i < |ss| && x in ss[i]
  {
    if ss != [] {
      var init := DropLast(ss);
      FoldSets(init, x);
      if x in Last(ss) {
        assert x in ss[|ss| - 1];
      }
      if exists i :: 0 <= i < |ss| && x in ss[i] {
        var i :| 0 <= i < |ss| && x in ss[i];
        if i < |init| { assert init[i] == ss[i]; }
      }
    }
  }
}
