/** The promise combinators (Sources/Fx/Promise/PromiseOperations.swift).

    Every combinator builds a new promise whose resolver is called from a
    callback on its source, so what matters about it is the result it
    eventually resolves with. `Eventual<A, E>` is that result: `None` when the
    promise never resolves. A closure returning a promise returns the eventual
    result of that promise.
 */
module PromiseOps {
  import opened Throwing
  import opened Optionals
  import opened Results
  import opened Traces
  import opened Disposables

  type Eventual<A, E> = Option<Result<A, E>>

  /** `mapResult(f)`: once the source resolves with `r`, resolves with `Result { try f(r) }`. */
  function MapResult<A, B, E>(src: Eventual<A, E>, f: Result<A, E> -> Outcome<B, E>): (r: Eventual<B, E>)
    ensures r.Some? <==> src.Some?
    ensures src.Some? ==> r.value == Catching(f(src.value))
  {
    match src
    case None => None
    case Some(x) => Some(Catching(f(x)))
  }

  /** `flatMapResult(f)`: once the source resolves with `r`, follows the promise `f(r)`
      returns; a throw from `f` resolves with `Promise(error:)`. */
  function FlatMapResult<A, B, E>(src: Eventual<A, E>, f: Result<A, E> -> Outcome<Eventual<B, E>, E>): (r: Eventual<B, E>)
    ensures src.None? ==> r.None?
    ensures src.Some? && f(src.value).Returned? ==> r == f(src.value).value
    ensures src.Some? && f(src.value).Threw? ==> r == Some(Error(f(src.value).error))
  {
    match src
    case None => None
    case Some(x) =>
      match f(x)
      case Returned(p) => p
      case Threw(e) => Some(Error(e))
  }

  /** `map(f)`: `mapResult { try f($0.get()) }`. */
  function Map<A, B, E>(src: Eventual<A, E>, f: A -> Outcome<B, E>): (r: Eventual<B, E>)
  {
    MapResult(src, (x: Result<A, E>) => Then(Dematerialize(x), f))
  }

  /** `flatMap(f)`: `flatMapResult { try f($0.get()) }`. */
  function FlatMap<A, B, E>(src: Eventual<A, E>, f: A -> Outcome<Eventual<B, E>, E>): (r: Eventual<B, E>)
  {
    FlatMapResult(src, (x: Result<A, E>) => Then(Dematerialize(x), f))
  }

  /** `map`: a success `x` becomes `f(x)`, an error passes through without calling `f`,
      a throw from `f` becomes the error, and a source that never resolves never resolves. */
  lemma MapCases<A, B, E>(src: Eventual<A, E>, f: A -> Outcome<B, E>)
    ensures src.None? ==> Map(src, f).None?
    ensures src.Some? && src.value.Error? ==> Map(src, f) == Some(Error(src.value.error))
    ensures src.Some? && src.value.Value? ==> Map(src, f) == Some(Catching(f(src.value.value)))
  {
  }

  /** `flatMap`: a success `x` follows `f(x)`, an error short-circuits, a throw becomes the error. */
  lemma FlatMapCases<A, B, E>(src: Eventual<A, E>, f: A -> Outcome<Eventual<B, E>, E>)
    ensures src.None? ==> FlatMap(src, f).None?
    ensures src.Some? && src.value.Error? ==> FlatMap(src, f) == Some(Error(src.value.error))
    ensures src.Some? && src.value.Value? && f(src.value.value).Returned? ==>
              FlatMap(src, f) == f(src.value.value).value
    ensures src.Some? && src.value.Value? && f(src.value.value).Threw? ==>
              FlatMap(src, f) == Some(Error(f(src.value.value).error))
  {
  }

  /** A promise's `map` agrees with `Result.map` on the resolved result. */
  lemma MapAgreesWithResult<A, B, E>(r: Result<A, E>, f: A -> Outcome<B, E>)
    ensures Map(Some(r), f) == Some(Results.Map(r, f))
  {
  }

  /** `flatMapError(f)`: a success resolves unchanged; an error `e` follows `f(e)`. */
  function FlatMapError<A, E>(src: Eventual<A, E>, f: E -> Outcome<Eventual<A, E>, E>): (r: Eventual<A, E>)
    ensures src.None? ==> r.None?
    ensures src.Some? && src.value.Value? ==> r == src
    ensures src.Some? && src.value.Error? && f(src.value.error).Returned? ==> r == f(src.value.error).value
    ensures src.Some? && src.value.Error? && f(src.value.error).Threw? ==> r == Some(Error(f(src.value.error).error))
  {
    FlatMapResult(src, (x: Result<A, E>) => Analysis(x, (v: A) => Returned(Some(Value(v))), f))
  }

  /** `mapError(f)`: a success resolves unchanged; an error `e` resolves with `Result { try f(e) }`. */
  function MapError<A, E>(src: Eventual<A, E>, f: E -> Outcome<A, E>): (r: Eventual<A, E>)
    ensures src.None? ==> r.None?
    ensures src.Some? && src.value.Value? ==> r == src
    ensures src.Some? && src.value.Error? ==> r == Some(Catching(f(src.value.error)))
  {
    MapResult(src, (x: Result<A, E>) => match x case Value(v) => Returned(v) case Error(e) => f(e))
  }

  /** A promise's `mapError` agrees with `Result.mapError` on the resolved result. */
  lemma MapErrorAgreesWithResult<A, E>(r: Result<A, E>, f: E -> Outcome<A, E>)
    ensures MapError(Some(r), f) == Some(Results.MapError(r, f))
  {
  }

  // ---- side effects ----

  /** `withResult(f)`: calls `f` with the result (listed), then resolves with the same result. */
  function WithResult<A, E>(src: Eventual<A, E>): (r: (Eventual<A, E>, seq<Result<A, E>>))
    ensures r.0 == src
    ensures r.1 == OptionToSeq(src)
  {
    var mapped := MapResult(src, (x: Result<A, E>) => Dematerialize(x));
    assert mapped == src by {
      if src.Some? {
        CatchingDematerializeRoundTrip(src.value, Dematerialize(src.value));
      }
    }
    (mapped, OptionToSeq(src))
  }

  /** `with(f)`: calls `f` with a success value (listed) and resolves with the same result. */
  function With<A, E>(src: Eventual<A, E>): (r: (Eventual<A, E>, seq<A>))
    ensures r.0 == src
    ensures src.Some? && src.value.Value? ==> r.1 == [src.value.value]
    ensures !(src.Some? && src.value.Value?) ==> r.1 == []
  {
    var calls := if src.Some? && src.value.Value? then [src.value.value] else [];
    (Map(src, (x: A) => Returned(x)), calls)
  }

  /** `withError(f)`: calls `f` with an error (listed), rethrows it, and so resolves with the same result. */
  function WithError<A, E>(src: Eventual<A, E>): (r: (Eventual<A, E>, seq<E>))
    ensures r.0 == src
    ensures src.Some? && src.value.Error? ==> r.1 == [src.value.error]
    ensures !(src.Some? && src.value.Error?) ==> r.1 == []
  {
    var calls := if src.Some? && src.value.Error? then [src.value.error] else [];
    (MapError(src, (e: E) => Threw(e)), calls)
  }

  /** `onSuccess(f)`: `f` runs only once the source succeeds. */
  function OnSuccess<A, E>(src: Eventual<A, E>): (calls: seq<A>)
    ensures src.Some? && src.value.Value? ==> calls == [src.value.value]
    ensures !(src.Some? && src.value.Value?) ==> calls == []
  {
    match src
    case None => []
    case Some(r) => Results.OnSuccess(r).1
  }

  /** `onFailure(f)`: `f` runs only once the source fails. */
  function OnFailure<A, E>(src: Eventual<A, E>): (calls: seq<E>)
    ensures src.Some? && src.value.Error? ==> calls == [src.value.error]
    ensures !(src.Some? && src.value.Error?) ==> calls == []
  {
    match src
    case None => []
    case Some(r) => Results.OnFailure(r).1
  }

  // ---- zip ----

  /** `zip(that)`: `flatMap { a in that.map { b in (a, b) } }`. */
  function Zip<A, B, E>(p: Eventual<A, E>, q: Eventual<B, E>): (r: Eventual<(A, B), E>)
  {
    FlatMap(p, (a: A) => Returned(Map(q, (b: B) => Returned((a, b)))))
  }

  /** `zip` succeeds with both values iff both succeed; `self`'s error wins over
      `that`'s; it resolves iff `self` fails, or both resolve. */
  lemma ZipCases<A, B, E>(p: Eventual<A, E>, q: Eventual<B, E>)
    ensures Zip(p, q).Some? && Zip(p, q).value.Value? <==>
              p.Some? && p.value.Value? && q.Some? && q.value.Value?
    ensures Zip(p, q).Some? && Zip(p, q).value.Value? ==> Zip(p, q).value.value == (p.value.value, q.value.value)
    ensures p.Some? && p.value.Error? ==> Zip(p, q) == Some(Error(p.value.error))
    ensures p.Some? && p.value.Value? && q.Some? && q.value.Error? ==> Zip(p, q) == Some(Error(q.value.error))
    ensures Zip(p, q).None? <==> p.None? || (p.value.Value? && q.None?)
  {
  }

  // ---- the tests' chains ----

  function Triple(x: int): Outcome<int, int> { Returned(x * 3) }
  function TimesTwelve(x: int): Outcome<int, int> { Returned(x * 12) }
  function PlusFortyOne(x: int): Outcome<int, int> { Returned(x + 41) }
  function ConstZero(x: int): Outcome<int, int> { Returned(0) }

  /** `Promise(value: $0).map { $0 * 12 }`; `delay` resolves with the same result later. */
  function TwelveTimes(x: int): Outcome<Eventual<int, int>, int>
  {
    Returned(Map(Some(Value(x)), TimesTwelve))
  }

  /** `Promise<Int>(error: NSError(code: $0))`, the error modelled by its code. */
  function FailWithCode(x: int): Outcome<Eventual<int, int>, int>
  {
    Returned(Some(Error(x)))
  }

  /** `Promise(value: 42).map { $0 * 3 }.flatMap { Promise(value: $0).map { $0 * 12 } }` resolves with 1512. */
  lemma CompletionChain()
    ensures FlatMap(Map(Some(Value(42)), Triple), TwelveTimes) == Some(Value(1512))
  {
  }

  /** An error raised inside `flatMap` survives a later `map`. */
  lemma ErroredChain()
    ensures Map(FlatMap(Map(Some(Value(1)), PlusFortyOne), FailWithCode), ConstZero) == Some(Error(42))
  {
  }

  // ---- retry ----

  /** `retry(times, task)`: the `n`-th call of `task` (from 1) resolves with `attempt(n)`.
      After a failure, `attempt()` runs again only while the counter is below `times`.
      The result and the number of attempts made. */
  function Retry<A, E>(times: int, attempt: nat -> Eventual<A, E>, n: nat): (r: (Eventual<A, E>, nat))
    requires n >= 1
    decreases if times > n then times - n else 0
  {
    match attempt(n)
    case None => (None, n)
    case Some(Value(x)) => (Some(Value(x)), n)
    case Some(Error(e)) => if n < times then Retry(times, attempt, n + 1) else (Some(Error(e)), n)
  }

  /** The attempts in `[from, to)` all failed. */
  predicate FailedBetween<A, E>(attempt: nat -> Eventual<A, E>, from: nat, to: nat)
  {
    forall k: nat :: from <= k < to ==> attempt(k).Some? && attempt(k).value.Error?
  }

  /** `retry` makes at least one and at most `max(1, times)` attempts, every attempt
      before the last one failed, the result is the last attempt's, and it stops early
      only on a success or an attempt that never resolves. */
  lemma {:induction false} RetryBounds<A, E>(times: int, attempt: nat -> Eventual<A, E>, n: nat)
    requires n >= 1
    ensures var (r, made) := Retry(times, attempt, n);
            && n <= made
            && (made <= times || made == n)
            && FailedBetween(attempt, n, made)
            && r == attempt(made)
            && (r.Some? && r.value.Error? ==> made >= times)
    decreases if times > n then times - n else 0
  {
    match attempt(n)
    case None =>
    case Some(Value(x)) =>
    case Some(Error(e)) =>
      if n < times {
        RetryBounds(times, attempt, n + 1);
      }
  }

  /** From the first attempt: between 1 and `max(1, times)` attempts; a failure
      is propagated only once the budget is spent. */
  lemma RetryFromStart<A, E>(times: int, attempt: nat -> Eventual<A, E>)
    ensures var (r, made) := Retry(times, attempt, 1);
            && 1 <= made <= (if times > 1 then times else 1)
            && FailedBetween(attempt, 1, made)
            && r == attempt(made)
            && (r.Some? && r.value.Error? ==> made == (if times > 1 then times else 1))
  {
    RetryBounds(times, attempt, 1);
  }

  // ---- timeout ----

  /** The state of `timeout`'s `lockResolve`: the lock flag, the serial disposable
      holding the recover timer's cancel action, and the result resolved with. */
  datatype Arbiter<T, A, E> = Arbiter(locked: bool, timer: Serial<T>, resolved: Eventual<A, E>)

  /** `lockResolve(result)`: only the first call disposes the timer and resolves.
      Returns the timer cancellations it caused. */
  function LockResolve<T, A, E>(s: Arbiter<T, A, E>, r: Result<A, E>): (out: (Arbiter<T, A, E>, seq<T>))
    ensures s.locked ==> out == (s, [])
    ensures !s.locked ==> out.0.locked && out.0.resolved == Some(r) && out.0.timer.inner.None?
    ensures !s.locked ==> out.1 == OptionToSeq(s.timer.inner)
  {
    if s.locked then (s, [])
    else
      var (t, cancelled) := DisposeSerial(s.timer);
      (Arbiter(true, t, Some(r)), cancelled)
  }

  /** `lockResolve` called with each of `rs` in turn. */
  function LockResolveAll<T, A, E>(s: Arbiter<T, A, E>, rs: seq<Result<A, E>>): (Arbiter<T, A, E>, seq<T>)
  {
    if rs == [] then (s, [])
    else
      var (s1, out) := LockResolveAll(s, DropLast(rs));
      var (s2, more) := LockResolve(s1, Last(rs));
      (s2, out + more)
  }

  /** With the timer installed and nothing resolved yet: the first result wins, later
      ones are ignored, and the timer is cancelled exactly once, by the first. */
  lemma {:induction false} FirstResultWins<T, A, E>(timer: T, rs: seq<Result<A, E>>)
    ensures var (s, cancelled) := LockResolveAll(Arbiter(false, NewSerial(Some(timer)), None), rs);
            && s.locked == (rs != [])
            && s.resolved == (if rs == [] then None else Some(rs[0]))
            && cancelled == (if rs == [] then [] else [timer])
  {
    if rs != [] {
      FirstResultWins(timer, DropLast(rs));
      if |rs| > 1 {
        assert DropLast(rs)[0] == rs[0];
      }
    }
  }

  /** Once locked, `lockResolve` ignores every later result. */
  lemma {:induction false} LockedIgnoresAll<T, A, E>(s: Arbiter<T, A, E>, rs: seq<Result<A, E>>)
    requires s.locked
    ensures LockResolveAll(s, rs) == (s, [])
  {
    if rs != [] {
      LockedIgnoresAll(s, DropLast(rs));
      assert LockResolve(s, Last(rs)) == (s, []);
      EmptyAppend<T>([]);
    }
  }

  /** The body of `timeout` up to the timer, in the code's order: a fresh serial
      disposable; `onComplete { lockResolve }`, which runs at once when the source
      is already resolved; then the recover timer's cancel action is installed.
      Returns the arbiter and the timer cancellations so far. */
  function TimeoutStart<T, A, E>(src: Eventual<A, E>, timer: T): (Arbiter<T, A, E>, seq<T>)
  {
    var s0: Arbiter<T, A, E> := Arbiter(false, NewSerial(None), None);
    var (s1, early) := if src.Some? then LockResolve(s0, src.value) else (s0, []);
    var (t, replaced) := SetInner(s1.timer, Some(timer));
    (s1.(timer := t), early + replaced)
  }

  /** `timeout` followed by the later `lockResolve` calls `rs` (the source's completion
      if it was pending, and the recover closure's result). An already-resolved source
      wins at once and its timer is installed afterwards and never cancelled; otherwise
      the first later result wins, and the timer is cancelled exactly once, by it. */
  lemma TimeoutFirstWins<T, A, E>(src: Eventual<A, E>, timer: T, rs: seq<Result<A, E>>)
    ensures var (s0, early) := TimeoutStart(src, timer);
            var (s, cancelled) := LockResolveAll(s0, rs);
            && s.locked == (src.Some? || rs != [])
            && s.resolved == (if src.Some? then src else if rs == [] then None else Some(rs[0]))
            && early + cancelled == (if src.None? && rs != [] then [timer] else [])
            && (src.Some? ==> s.timer.inner == Some(timer))
  {
    var (s0, early) := TimeoutStart(src, timer);
    if src.Some? {
      LockedIgnoresAll(s0, rs);
    } else {
      assert s0 == Arbiter(false, NewSerial(Some(timer)), None);
      FirstResultWins(timer, rs);
    }
  }

  // ---- fold and all ----

  /** `fold(zero, f)`: `reduce(Promise(value: zero)) { $0.flatMap { r in $1.map { f(r, $0) } } }`. */
  function Fold<R, A, E>(zero: R, f: (R, A) -> R, ps: seq<Eventual<A, E>>): Eventual<R, E>
  {
    if ps == [] then Some(Value(zero))
    else
      var p := Last(ps);
      FlatMap(Fold(zero, f, DropLast(ps)), (acc: R) => Returned(Map(p, (x: A) => Returned(f(acc, x)))))
  }

  predicate Succeeded<A, E>(p: Eventual<A, E>)
  {
    p.Some? && p.value.Value?
  }

  /** The index of the first element that has not succeeded, or `|ps|`. */
  function FirstUnsuccessful<A, E>(ps: seq<Eventual<A, E>>): (i: nat)
    ensures i <= |ps|
    ensures forall k :: 0 <= k < i ==> Succeeded(ps[k])
    ensures i < |ps| ==> !Succeeded(ps[i])
  {
    if ps == [] then 0
    else if !Succeeded(ps[0]) then 0
    else 1 + FirstUnsuccessful(ps[1..])
  }

  /** The success values, combined left to right with `f`. */
  function FoldValues<R, A, E>(zero: R, f: (R, A) -> R, ps: seq<Eventual<A, E>>): R
    requires forall k :: 0 <= k < |ps| ==> ps[k].Some? && ps[k].value.Value?
  {
    if ps == [] then zero
    else
      assert Succeeded(ps[|ps| - 1]);
      f(FoldValues(zero, f, DropLast(ps)), ps[|ps| - 1].value.value)
  }

  /** `fold` succeeds with the element values combined in sequence order when every
      element succeeds; otherwise it ends as the first element that did not succeed:
      with its error, or never if that element never resolves. */
  lemma {:induction false} FoldCombinesInOrder<R, A, E>(zero: R, f: (R, A) -> R, ps: seq<Eventual<A, E>>)
    ensures var i := FirstUnsuccessful(ps);
            && (i == |ps| ==> Fold(zero, f, ps) == Some(Value(FoldValues(zero, f, ps))))
            && (i < |ps| && ps[i].None? ==> Fold(zero, f, ps).None?)
            && (i < |ps| && ps[i].Some? ==> Fold(zero, f, ps) == Some(Error(ps[i].value.error)))
  {
    if ps != [] {
      var init := DropLast(ps);
      FoldCombinesInOrder(zero, f, init);
      FirstUnsuccessfulSnoc(init, Last(ps));
      assert ps == init + [Last(ps)];
    }
  }

  lemma {:induction false} FirstUnsuccessfulSnoc<A, E>(ps: seq<Eventual<A, E>>, p: Eventual<A, E>)
    ensures FirstUnsuccessful(ps + [p]) == if FirstUnsuccessful(ps) < |ps| then FirstUnsuccessful(ps) else if Succeeded(p) then |ps| + 1 else |ps|
  {
    if ps != [] {
      assert (ps + [p])[1..] == ps[1..] + [p];
      FirstUnsuccessfulSnoc(ps[1..], p);
    }
  }

  function Append<A>(acc: seq<A>, x: A): seq<A>
  {
    acc + [x]
  }

  lemma {:induction false} AppendCollects<A, E>(ps: seq<Eventual<A, E>>)
    requires forall k :: 0 <= k < |ps| ==> ps[k].Some? && ps[k].value.Value?
    ensures |FoldValues([], Append, ps)| == |ps|
    ensures forall k :: 0 <= k < |ps| ==> FoldValues([], Append, ps)[k] == ps[k].value.value
  {
    if ps != [] {
      AppendCollects(DropLast(ps));
    }
  }

  /** `all()`: `fold([]) { $0 + [$1] }` succeeds with every value, in order, when all
      elements succeed. */
  lemma AllCollectsInOrder<A, E>(ps: seq<Eventual<A, E>>)
    requires forall k :: 0 <= k < |ps| ==> ps[k].Some? && ps[k].value.Value?
    ensures Succeeded(Fold([], Append, ps))
    ensures |Fold([], Append, ps).value.value| == |ps|
    ensures forall k :: 0 <= k < |ps| ==> Fold([], Append, ps).value.value[k] == ps[k].value.value
  {
    FoldCombinesInOrder([], Append, ps);
    AppendCollects(ps);
  }
}
