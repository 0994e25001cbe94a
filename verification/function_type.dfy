/** The `Function` wrapper (Source/Functions/FunctionType.swift): a closure in a
    struct, composable left to right, and a monoid when input and output agree.

    Closures have no decidable equality, so the laws are stated pointwise: two
    `Function` values agree when their calls agree on every input.
 */
module FunctionTypes {
  import opened Traces
  import opened Monoids

  datatype Function<!I, O> = Function(call: I -> O)

  /** `callAsFunction(_:)`, and the nullary form when the input is `Void`. */
  function CallAsFunction<I, O>(f: Function<I, O>, x: I): O
  {
    f.call(x)
  }

  /** `combined(f, g)`: runs `f`, then `g` on its output. */
  function Combined<I, X, O>(f: Function<I, X>, g: Function<X, O>): Function<I, O>
  {
    Function(x => g.call(f.call(x)))
  }

  /** `id`: returns its input. */
  function Id<I>(): Function<I, I>
  {
    Function(x => x)
  }

  /** `combine(x)`: replaces `self` with `combined(self, x)`. */
  function Combine<I>(self: Function<I, I>, x: Function<I, I>): Function<I, I>
  {
    Combined(self, x)
  }

  /** `lift(c)`: wraps the closure. */
  function Lift<I, O>(c: I -> O): Function<I, O>
  {
    Function(c)
  }

  /** The `Monoid` conformance: `empty` is `id`, `combine` runs `self` first. */
  function FunctionMonoid<I>(): Monoid<Function<I, I>>
  {
    Monoid(Id(), (a: Function<I, I>, b: Function<I, I>) => Combine(a, b))
  }

  /** Calling is applying the wrapped closure; `combined(f, g)` is `g ∘ f`, so `self`
      runs first under `combine`; `lift` and `id` call through; and, pointwise,
      `combine` is associative with `empty` as its identity. */
  lemma FunctionLaws<I, X, Y, O>(f: Function<I, X>, g: Function<X, Y>, h: Function<Y, O>,
                                 c: I -> O, u: Function<I, I>, x: I)
    ensures CallAsFunction(Combined(f, g), x) == g.call(f.call(x))
    ensures Combined(Combined(f, g), h).call(x) == Combined(f, Combined(g, h)).call(x)
    ensures CallAsFunction(Lift(c), x) == c(x)
    ensures CallAsFunction(Id<I>(), x) == x
    ensures Combine(u, FunctionMonoid<I>().empty).call(x) == u.call(x)
    ensures Combine(FunctionMonoid<I>().empty, u).call(x) == u.call(x)
  {
    assert Combined(Combined(f, g), h).call(x) == h.call(Combined(f, g).call(x));
    assert Combined(f, Combined(g, h)).call(x) == Combined(g, h).call(f.call(x));
    assert Combine(u, Id()).call(x) == Id<I>().call(u.call(x));
    assert Combine(Id(), u).call(x) == u.call(Id<I>().call(x));
  }

  /** The functions applied one after another, first element first. */
  function RunAll<I>(fs: seq<Function<I, I>>, x: I): I
  {
    if fs == [] then x else Last(fs).call(RunAll(DropLast(fs), x))
  }

  /** Folding functions into `acc` runs `acc` and then each of them in order. */
  lemma {:induction false} FoldRuns<I>(acc: Function<I, I>, fs: seq<Function<I, I>>, x: I)
    ensures Fold(FunctionMonoid<I>(), acc, fs).call(x) == RunAll(fs, acc.call(x))
  {
    if fs != [] {
      FoldRuns(acc, DropLast(fs), x);
      var m := FunctionMonoid<I>();
      assert Fold(m, acc, fs) == Combine(Fold(m, acc, DropLast(fs)), Last(fs));
    }
  }

  /** Running a non-empty list is running its head and then its tail. */
  lemma {:induction false} RunAllCons<I>(fs: seq<Function<I, I>>, x: I)
    requires fs != []
    ensures RunAll(fs, x) == RunAll(fs[1..], fs[0].call(x))
  {
    if |fs| > 1 {
      RunAllCons(DropLast(fs), x);
      assert DropLast(fs)[1..] == DropLast(fs[1..]);
      assert Last(fs[1..]) == Last(fs);
    } else {
      assert DropLast(fs) == [];
      assert fs[1..] == [];
    }
  }

  /** `∑ fs` for functions is the pipeline that runs them in sequence order. */
  lemma SumRunsInOrder<I>(fs: seq<Function<I, I>>, x: I)
    ensures Sum(FunctionMonoid<I>(), fs).call(x) == RunAll(fs, x)
  {
    if |fs| == 0 {
    } else if |fs| == 1 {
      assert DropLast(fs) == [];
    } else {
      FoldRuns(fs[0], fs[1..], x);
      RunAllCons(fs, x);
    }
  }
}
