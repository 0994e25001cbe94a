/** The free functions of Sources/Fx/Functions/Functions.swift, the application
    and composition operators of Source/Operators/Application+Composition.swift,
    and the `Fn` adapters of Sources/Fx/Functions/FnFunctions.swift (lines 10-36).

    A `() -> Void` action is modelled by the effects it performs, in order; a
    throwing action also reports the error it threw, if any. An `(inout A) -> Void`
    mutation is a function `A -> A`. A throwing `(inout A) throws -> Void` is a
    function `A -> Mutated<A, E>`: Swift writes an `inout` argument back even when
    the call throws, so it yields the value left in the variable and the error, if
    any. Where the writes of a throwing call are discarded (`modify` works on a
    copy), the mutation is `A -> Outcome<A, E>`.
    Side effects of closures passed to `with` and `ignoreOutput` are listed as the
    arguments they were called with.
 */
module Functions {
  import opened Throwing
  import opened Optionals
  import opened Traces

  /** `id`. */
  function Id<A>(x: A): (r: A)
    ensures r == x
  {
    x
  }

  /** `const(x)` applied to any argument. */
  function Const<A, B>(x: B, ignored: A): (r: B)
    ensures r == x
  {
    x
  }

  /** `curry(f)`. */
  function Curry<A, B, C>(f: (A, B) -> C): A -> B -> C
  {
    x => y => f(x, y)
  }

  /** `flip(f)` for a two-argument function. */
  function Flip<A, B, C>(f: (A, B) -> C): (B, A) -> C
  {
    (y, x) => f(x, y)
  }

  /** `flip(f)` for a curried function. */
  function FlipCurried<A, B, C>(f: A -> B -> C): B -> A -> C
  {
    y => x => f(x)(y)
  }

  /** `curry(f)(x)(y) == f(x, y)`; `flip` swaps the arguments, in both forms, and so
      is its own inverse; flipping commutes with currying. */
  lemma CurryFlipLaws<A, B, C>(f: (A, B) -> C, g: A -> B -> C, x: A, y: B)
    ensures Curry(f)(x)(y) == f(x, y)
    ensures Flip(f)(y, x) == f(x, y)
    ensures Flip(Flip(f))(x, y) == f(x, y)
    ensures FlipCurried(g)(y)(x) == g(x)(y)
    ensures FlipCurried(FlipCurried(g))(x)(y) == g(x)(y)
    ensures FlipCurried(Curry(f))(y)(x) == Curry(Flip(f))(y)(x)
  {
  }

  function Times(x: int, y: int): int
  {
    x * y
  }

  /** The application test: `curry(*)` applied to 2 and then to 3 gives 6. */
  lemma CurriedMultiplication()
    ensures Application(Application(Curry(Times), 2), 3) == 6
  {
    CurryFlipLaws(Times, Curry(Times), 2, 3);
  }

  /** `ignoreInput(f)`: the nullary `f`, modelled by its result, seen as a function of any input. */
  function IgnoreInput<A, B>(result: B): A -> B
  {
    _ => result
  }

  /** `ignoreOutput(f)(x)`: calls `f(x)` once (listed) and returns unit. */
  function IgnoreOutput<A, B>(f: A -> B, x: A): (r: ((), seq<B>))
    ensures r.1 == [f(x)]
  {
    ((), [f(x)])
  }

  /** `ignoreInput(f)(a) == f()` for every input. */
  lemma IgnoreInputIgnores<A, B>(result: B, a: A, b: A)
    ensures IgnoreInput(result)(a) == result
    ensures IgnoreInput(result)(a) == IgnoreInput(result)(b)
  {
  }

  /** `modify(value, f) -> A`: the copy after `f` mutated it, or the error `f` threw. */
  function Modify<A, E>(value: A, f: A -> Outcome<A, E>): (r: Outcome<A, E>)
    ensures f(value).Returned? ==> r == Returned(f(value).value)
    ensures f(value).Threw? ==> r == Threw(f(value).error)
  {
    f(value)
  }

  /** `modify(&value, f)`: mutates a copy and assigns it back only after `f` returned,
      so a throwing `f` leaves `value` as it was. Returns the new value and the error. */
  function ModifyInPlace<A, E>(value: A, f: A -> Outcome<A, E>): (r: (A, Option<E>))
    ensures r.1.None? <==> f(value).Returned?
    ensures r.1.None? ==> r.0 == f(value).value
    ensures r.1.Some? ==> r.0 == value && r.1.value == f(value).error
  {
    match Modify(value, f)
    case Returned(copy) => (copy, None)
    case Threw(e) => (value, Some(e))
  }

  /** `with(x, f)`: calls `f(x)` (listed) and returns `x` itself; a throw from `f` propagates. */
  function With<A, E>(x: A, f: A -> Outcome<(), E>): (r: (Outcome<A, E>, seq<A>))
    ensures r.1 == [x]
    ensures f(x).Returned? ==> r.0 == Returned(x)
    ensures f(x).Threw? ==> r.0 == Threw(f(x).error)
  {
    (Then(f(x), _ => Returned(x)), [x])
  }

  /** `compact`: `compactMap(id)`. */
  function Compact<A>(xs: seq<Option<A>>): (r: seq<A>)
  {
    if xs == [] then []
    else Compact(DropLast(xs)) + (match Last(xs) case Some(x) => [x] case None => [])
  }

  /** The positions of the non-nil elements. */
  function SomeCount<A>(xs: seq<Option<A>>): nat
  {
    if xs == [] then 0 else SomeCount(DropLast(xs)) + (if Last(xs).Some? then 1 else 0)
  }

  /** `compact` keeps every non-nil payload, in order, and nothing else: wrapping its
      elements back gives the input without its nils. */
  lemma {:induction false} CompactKeepsPayloads<A>(xs: seq<Option<A>>)
    ensures |Compact(xs)| == SomeCount(xs)
    ensures WrapAll(Compact(xs)) == WithoutNils(xs)
  {
    if xs != [] {
      CompactKeepsPayloads(DropLast(xs));
      WrapAllAppend(Compact(DropLast(xs)), match Last(xs) case Some(x) => [x] case None => []);
    }
  }

  function WrapAll<A>(xs: seq<A>): (r: seq<Option<A>>)
    ensures |r| == |xs| && forall i :: 0 <= i < |xs| ==> r[i] == Some(xs[i])
  {
    if xs == [] then [] else WrapAll(DropLast(xs)) + [Some(Last(xs))]
  }

  lemma WrapAllAppend<A>(xs: seq<A>, ys: seq<A>)
    ensures WrapAll(xs + ys) == WrapAll(xs) + WrapAll(ys)
  {
  }

  /** The input with its nils removed. */
  function WithoutNils<A>(xs: seq<Option<A>>): (r: seq<Option<A>>)
  {
    if xs == [] then [] else WithoutNils(DropLast(xs)) + (if Last(xs).Some? then [Last(xs)] else [])
  }

  /** `compact` keeps the input's order: it is the subsequence of non-nil values. */
  lemma {:induction false} WithoutNilsIsSubsequence<A>(xs: seq<Option<A>>)
    ensures IsSubsequence(WithoutNils(xs), xs)
    ensures forall i :: 0 <= i < |WithoutNils(xs)| ==> WithoutNils(xs)[i].Some?
  {
    if xs != [] {
      WithoutNilsIsSubsequence(DropLast(xs));
      assert xs == DropLast(xs) + [Last(xs)];
      if Last(xs).Some? {
        SubsequenceSnoc(WithoutNils(DropLast(xs)), DropLast(xs), Last(xs));
      } else {
        assert WithoutNils(xs) == WithoutNils(DropLast(xs));
        SubsequenceExtend(WithoutNils(DropLast(xs)), DropLast(xs), Last(xs));
      }
    }
  }

  // ---- application and composition ----

  /** `f § x`. */
  function Application<A, B>(f: A -> B, x: A): B
  {
    f(x)
  }

  /** `f • g` for unary functions. */
  function Compose<A, B, C>(f: B -> C, g: A -> B): A -> C
  {
    x => f(g(x))
  }

  /** `(f • g)(x) == f(g(x))`: composition is associative and `id` is its unit. */
  lemma ComposeLaws<A, B, C, D>(f: C -> D, g: B -> C, h: A -> B, x: A)
    ensures Application(Compose(g, h), x) == g(h(x))
    ensures Compose(Compose(f, g), h)(x) == Compose(f, Compose(g, h))(x)
    ensures Compose(h, Id)(x) == h(x) == Compose(Id, h)(x)
  {
    assert Compose(Compose(f, g), h)(x) == Compose(f, g)(h(x)) == f(g(h(x)));
    assert Compose(f, Compose(g, h))(x) == f(Compose(g, h)(x)) == f(g(h(x)));
    assert Compose(h, Id)(x) == h(Id(x));
    assert Compose(Id, h)(x) == Id(h(x));
  }

  function TimesThree(x: int): int { x * 3 }
  function PlusThree(x: int): int { x + 3 }

  /** The composition test: `{ $0 * 3 } • { $0 + 3 }` applied to 3 gives 18. */
  lemma CompositionSample()
    ensures Application(Compose(TimesThree, PlusThree), 3) == 18
  {
    assert Compose(TimesThree, PlusThree)(3) == TimesThree(PlusThree(3));
  }

  /** `f • g` with a nullary `g` (modelled by its result): evaluates to `f(g())`. */
  function ComposeNullary<B, C>(f: B -> C, g: B): (r: C)
    ensures r == f(g)
  {
    f(g)
  }

  /** `f • g` for two `() -> Void` actions: runs `g`, then `f`. */
  function ComposeActions<T>(f: seq<T>, g: seq<T>): (r: seq<T>)
    ensures |r| == |g| + |f|
    ensures r[..|g|] == g && r[|g|..] == f
  {
    g + f
  }

  /** `f • g` for two mutations of the same variable: applies `g`, then `f`. */
  function ComposeInout<A>(f: A -> A, g: A -> A): A -> A
  {
    x => f(g(x))
  }

  /** `f • g` for throwing unary functions: `try f(g(x))`. */
  function ComposeThrowing<A, B, C, E>(f: B -> Outcome<C, E>, g: A -> Outcome<B, E>): A -> Outcome<C, E>
  {
    x => Then(g(x), f)
  }

  /** `f • g` with a throwing nullary `g`: `try f(g())`. */
  function ComposeThrowingNullary<B, C, E>(f: B -> Outcome<C, E>, g: Outcome<B, E>): Outcome<C, E>
  {
    Then(g, f)
  }

  /** A throwing `() throws -> Void` action: its effects and the error it threw, if any. */
  datatype Run<T, E> = Run(effects: seq<T>, error: Option<E>)

  /** `f • g` for throwing actions: `try g(); try f()`. */
  function ComposeThrowingActions<T, E>(f: Run<T, E>, g: Run<T, E>): Run<T, E>
  {
    if g.error.Some? then g else Run(g.effects + f.effects, f.error)
  }

  /** What a throwing mutation leaves behind: the value in the variable, which keeps the
      writes made before a throw, and the error thrown, if any. */
  datatype Mutated<A, E> = Mutated(value: A, error: Option<E>)

  /** A mutation that never throws. */
  function Nonthrowing<A, E>(f: A -> A): A -> Mutated<A, E>
  {
    x => Mutated(f(x), None)
  }

  /** `f • g` for throwing mutations: `try g(&x); try f(&x)`. */
  function ComposeThrowingInout<A, E>(f: A -> Mutated<A, E>, g: A -> Mutated<A, E>): A -> Mutated<A, E>
  {
    x => AndThen(g(x), f)
  }

  /** `try f(&x)` after a call that left `m`: skipped when that call threw. */
  function AndThen<A, E>(m: Mutated<A, E>, f: A -> Mutated<A, E>): Mutated<A, E>
  {
    if m.error.Some? then m else f(m.value)
  }

  /** The throwing composition of mutations keeps every write: when `g` throws, `f` does
      not run and the variable holds what `g` left in it; otherwise `f` runs on that value
      and the variable holds what `f` left, even if `f` throws. The composite throws
      exactly when one of the two does. */
  lemma ThrowingInoutKeepsWrites<A, E>(f: A -> Mutated<A, E>, g: A -> Mutated<A, E>, x: A)
    ensures g(x).error.Some? ==> ComposeThrowingInout(f, g)(x) == g(x)
    ensures g(x).error.None? ==> ComposeThrowingInout(f, g)(x) == f(g(x).value)
    ensures ComposeThrowingInout(f, g)(x).error.None? <==> g(x).error.None? && f(g(x).value).error.None?
  {
  }

  /** The throwing composition of mutations is associative. */
  lemma ThrowingInoutAssociative<A, E>(f: A -> Mutated<A, E>, g: A -> Mutated<A, E>, h: A -> Mutated<A, E>, x: A)
    ensures ComposeThrowingInout(f, ComposeThrowingInout(g, h))(x)
         == ComposeThrowingInout(ComposeThrowingInout(f, g), h)(x)
  {
    var m := h(x);
    if m.error.None? {
      assert ComposeThrowingInout(g, h)(x) == g(m.value);
      assert ComposeThrowingInout(ComposeThrowingInout(f, g), h)(x) == AndThen(g(m.value), f);
    }
  }

  /** The writes of a throwing call, seen through a copy: the value on success, the error
      on a throw, which drops whatever the call wrote. */
  function OnCopy<A, E>(m: A -> Mutated<A, E>): A -> Outcome<A, E>
  {
    x => if m(x).error.Some? then Threw(m(x).error.value) else Returned(m(x).value)
  }

  /** `modify(&x, f • g)` undoes the partial writes a direct call keeps: when the composite
      throws, `x` holds its old value; otherwise both agree. */
  lemma ModifyDiscardsPartialWrites<A, E>(f: A -> Mutated<A, E>, g: A -> Mutated<A, E>, x: A)
    ensures var direct := ComposeThrowingInout(f, g)(x);
            var viaCopy := ModifyInPlace(x, OnCopy(ComposeThrowingInout(f, g)));
            && viaCopy.1 == direct.error
            && viaCopy.0 == (if direct.error.Some? then x else direct.value)
  {
  }

  /** The throwing compositions run `g` first; when `g` throws, `f` does not run and its
      error is the result; otherwise the result is `f`'s on `g`'s value. */
  lemma ThrowingCompositionOrder<A, B, C, T, E>(f: B -> Outcome<C, E>, g: A -> Outcome<B, E>, x: A,
                                                fa: Run<T, E>, ga: Run<T, E>)
    ensures g(x).Threw? ==> ComposeThrowing(f, g)(x) == Threw(g(x).error)
    ensures g(x).Returned? ==> ComposeThrowing(f, g)(x) == f(g(x).value)
    ensures ga.error.Some? ==> ComposeThrowingActions(fa, ga) == ga
    ensures ga.error.None? ==> ComposeThrowingActions(fa, ga).effects == ga.effects + fa.effects
    ensures ga.error.None? ==> ComposeThrowingActions(fa, ga).error == fa.error
    ensures ComposeThrowingNullary(f, g(x)) == ComposeThrowing(f, g)(x)
  {
  }

  /** The non-throwing compositions are the throwing ones with closures that never throw. */
  lemma ThrowingCompositionExtends<A, T, E>(f: A -> A, g: A -> A, x: A, fa: seq<T>, ga: seq<T>)
    ensures ComposeThrowingInout(Nonthrowing<A, E>(f), Nonthrowing(g))(x) == Mutated(ComposeInout(f, g)(x), None)
    ensures ComposeThrowingActions<T, E>(Run(fa, None), Run(ga, None)) == Run(ComposeActions(fa, ga), None)
  {
  }

  // ---- Fn adapters ----

  /** `Fn.map(f)`: the closure `{ $0.map(f) }`. */
  function FnMap<A, B>(f: A -> B): Option<A> -> Option<B>
  {
    x => Optionals.Map(f, x)
  }

  /** `Fn.flatMap(f)`: the closure `{ $0.flatMap(f) }`. */
  function FnFlatMap<A, B>(f: A -> Option<B>): Option<A> -> Option<B>
  {
    x => Optionals.FlatMap(f, x)
  }

  /** `Fn.modify(f)`: the closure `{ modify($0, f) }`. */
  function FnModify<A, E>(f: A -> Outcome<A, E>): A -> Outcome<A, E>
  {
    x => Modify(x, f)
  }

  /** `Fn.with(f)`: the closure `{ with($0, f) }`. */
  function FnWith<A, E>(f: A -> Outcome<(), E>): A -> (Outcome<A, E>, seq<A>)
  {
    x => With(x, f)
  }

  /** The `Fn` adapters: nil maps to nil, `.some(x)` to `f(x)` wrapped or flattened;
      `modify` returns the mutated copy; `with` returns its input. */
  lemma FnAdapters<A, B, E>(f: A -> B, g: A -> Option<B>, m: A -> Outcome<A, E>, w: A -> Outcome<(), E>, x: A)
    ensures FnMap(f)(None) == None && FnMap(f)(Some(x)) == Some(f(x))
    ensures FnFlatMap(g)(None) == None && FnFlatMap(g)(Some(x)) == g(x)
    ensures FnModify(m)(x) == m(x)
    ensures w(x).Returned? ==> FnWith(w)(x).0 == Returned(x)
  {
  }
}
