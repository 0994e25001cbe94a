/** Vocabulary shared by the models of event streams: source-tagged events,
    subsequences and simple projections of finite traces. */
module Traces {

  /** An event of a binary combinator, tagged with the source that emitted it
      (`Left` for `self`, `Right` for the other signal). */
  datatype Either<+A, +B> = Left(left: A) | Right(right: B)

  function Last<T>(s: seq<T>): T
    requires |s| > 0
  {
    s[|s| - 1]
  }

  function DropLast<T>(s: seq<T>): seq<T>
    requires |s| > 0
  {
    s[..|s| - 1]
  }

  /** A non-empty sequence is its prefix followed by its last element. */
  lemma DropLastThenLast<T>(s: seq<T>)
    requires |s| > 0
    ensures DropLast(s) + [Last(s)] == s
  {
  }

  lemma DropLastSnoc<T>(s: seq<T>, x: T)
    ensures DropLast(s + [x]) == s && Last(s + [x]) == x
  {
  }

  /** `ys` can be obtained from `xs` by deleting elements (greedy match from the end). */
  predicate IsSubsequence<T(==)>(ys: seq<T>, xs: seq<T>)
    decreases |xs|
  {
    if ys == [] then true
    else if xs == [] then false
    else if Last(ys) == Last(xs) then IsSubsequence(DropLast(ys), DropLast(xs))
    else IsSubsequence(ys, DropLast(xs))
  }

  /** Appending the same element to both sides keeps the subsequence relation. */
  lemma SubsequenceSnoc<T>(ys: seq<T>, xs: seq<T>, x: T)
    requires IsSubsequence(ys, xs)
    ensures IsSubsequence(ys + [x], xs + [x])
  {
    assert DropLast(ys + [x]) == ys;
    assert DropLast(xs + [x]) == xs;
  }

  /** Appending an element only to the longer side keeps the subsequence relation. */
  lemma {:induction false} SubsequenceExtend<T>(ys: seq<T>, xs: seq<T>, x: T)
    requires IsSubsequence(ys, xs)
    ensures IsSubsequence(ys, xs + [x])
    decreases |xs|, 1
  {
    assert DropLast(xs + [x]) == xs;
    if ys == [] {
    } else if Last(ys) == x {
      // Matching `x` against the last element of `ys` needs its prefix to be a subsequence of `xs`.
      SubsequenceDropLast(ys, xs);
    } else {
    }
  }

  /** Removing the last element of the shorter side keeps the subsequence relation. */
  lemma {:induction false} SubsequenceDropLast<T>(ys: seq<T>, xs: seq<T>)
    requires |ys| > 0 && IsSubsequence(ys, xs)
    ensures IsSubsequence(DropLast(ys), xs)
    decreases |xs|, 0
  {
    if Last(ys) == Last(xs) {
      SubsequenceExtend(DropLast(ys), DropLast(xs), Last(xs));
      assert DropLast(xs) + [Last(xs)] == xs;
    } else {
      SubsequenceDropLast(ys, DropLast(xs));
      SubsequenceExtend(DropLast(ys), DropLast(xs), Last(xs));
      assert DropLast(xs) + [Last(xs)] == xs;
    }
  }

  /** The values emitted by the `Left` source, in order. */
  function Lefts<A, B>(es: seq<Either<A, B>>): (r: seq<A>)
    ensures |r| <= |es|
  {
    if es == [] then []
    else if Last(es).Left? then Lefts(DropLast(es)) + [Last(es).left]
    else Lefts(DropLast(es))
  }

  /** The values emitted by the `Right` source, in order. */
  function Rights<A, B>(es: seq<Either<A, B>>): (r: seq<B>)
    ensures |r| <= |es|
  {
    if es == [] then []
    else if Last(es).Right? then Rights(DropLast(es)) + [Last(es).right]
    else Rights(DropLast(es))
  }

  /** Every event comes from exactly one source. */
  lemma {:induction false} LeftsRightsPartition<A, B>(es: seq<Either<A, B>>)
    ensures |Lefts(es)| + |Rights(es)| == |es|
  {
    if es != [] {
      LeftsRightsPartition(DropLast(es));
    }
  }

  /** `x` repeated `n` times. */
  function Repeat<T>(x: T, n: nat): (r: seq<T>)
    ensures |r| == n
    ensures forall i :: 0 <= i < n ==> r[i] == x
  {
    if n == 0 then [] else Repeat(x, n - 1) + [x]
  }

  lemma RepeatSnoc<T>(x: T, n: nat)
    ensures Repeat(x, n + 1) == Repeat(x, n) + [x]
  {
  }

  lemma RepeatOne<T>(x: T)
    ensures Repeat(x, 1) == [x]
  {
    assert Repeat(x, 0) == [];
  }

  /** The number of occurrences of `x` in `s`. */
  function Count<T(==)>(x: T, s: seq<T>): nat
  {
    multiset(s)[x]
  }

  /** `s` back to front. */
  function Reverse<T>(s: seq<T>): (r: seq<T>)
    ensures |r| == |s|
    ensures forall i :: 0 <= i < |s| ==> r[i] == s[|s| - 1 - i]
  {
    if s == [] then [] else [Last(s)] + Reverse(DropLast(s))
  }

  lemma ReverseMultiset<T>(s: seq<T>)
    ensures multiset(Reverse(s)) == multiset(s)
  {
    if s != [] {
      ReverseMultiset(DropLast(s));
      assert s == DropLast(s) + [Last(s)];
    }
  }

  // ---- calls of observers ----

  /** Each of `observers`, in order, called with `v`. */
  function Calls<O, A>(observers: seq<O>, v: A): (calls: seq<(O, A)>)
    ensures |calls| == |observers|
    ensures forall i :: 0 <= i < |calls| ==> calls[i] == (observers[i], v)
  {
    if observers == [] then [] else Calls(DropLast(observers), v) + [(Last(observers), v)]
  }

  lemma CallsSnoc<O, A>(observers: seq<O>, x: O, v: A)
    ensures Calls(observers + [x], v) == Calls(observers, v) + [(x, v)]
  {
    assert DropLast(observers + [x]) == observers;
  }

  lemma EmptyAppend<T>(s: seq<T>)
    ensures [] + s == s
  {
  }

  /** The values observer `o` was called with, in order. */
  function Received<O(==), A>(calls: seq<(O, A)>, o: O): seq<A>
  {
    if calls == [] then []
    else Received(DropLast(calls), o) + (if Last(calls).0 == o then [Last(calls).1] else [])
  }

  lemma {:induction false} ReceivedAppend<O, A>(xs: seq<(O, A)>, ys: seq<(O, A)>, o: O)
    ensures Received(xs + ys, o) == Received(xs, o) + Received(ys, o)
    decreases |ys|
  {
    if ys == [] {
      assert xs + ys == xs;
    } else {
      assert DropLast(xs + ys) == xs + DropLast(ys);
      assert Last(xs + ys) == Last(ys);
      ReceivedAppend(xs, DropLast(ys), o);
    }
  }

  /** Appending `y` adds one occurrence of `x` exactly when `y` is `x`. */
  lemma CountSnoc<T>(x: T, s: seq<T>, y: T)
    ensures Count(x, s + [y]) == Count(x, s) + (if x == y then 1 else 0)
  {
    assert multiset(s + [y]) == multiset(s) + multiset{y};
  }

  /** One more call reaches `o` exactly when it is addressed to `o`. */
  lemma ReceivedSnoc<O, A>(calls: seq<(O, A)>, c: (O, A), o: O)
    ensures Received(calls + [c], o) == Received(calls, o) + (if c.0 == o then [c.1] else [])
  {
    assert DropLast(calls + [c]) == calls;
  }

  /** The inductive step of `ReceivedCalls`: one more observer. */
  lemma ReceivedCallsStep<O, A>(init: seq<O>, x: O, v: A, o: O)
    requires Received(Calls(init, v), o) == Repeat(v, Count(o, init))
    ensures Received(Calls(init + [x], v), o) == Repeat(v, Count(o, init + [x]))
  {
    var observers := init + [x];
    assert DropLast(observers) == init;
    ReceivedSnoc(Calls(init, v), (x, v), o);
    CountSnoc(o, init, x);
    if x == o {
      RepeatSnoc(v, Count(o, init));
    }
  }

  lemma {:induction false} ReceivedCalls<O, A>(observers: seq<O>, v: A, o: O)
    ensures Received(Calls(observers, v), o) == Repeat(v, Count(o, observers))
  {
    if observers != [] {
      ReceivedCalls(DropLast(observers), v, o);
      ReceivedCallsStep(DropLast(observers), Last(observers), v, o);
      DropLastThenLast(observers);
    }
  }
}
