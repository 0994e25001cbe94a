/** `distinctUntilChanged` (Source/SignalType.swift; its `Property` variant is
    in Source/Reactive/Property.swift, lines 144-154).

    Both observers keep the last forwarded value in a captured variable. On a
    signal it starts as nil; on a property it is seeded with the property's
    current value. `DistinctFrom(last, xs)` runs the observer from a given
    captured value over the trace `xs`.
 */
module Distinct {
  import opened Optionals
  import opened Traces

  /** The observer: forward `v` and remember it when nothing was forwarded yet or `v`
      differs from the remembered value. */
  function DistinctStep<A(==)>(last: Option<A>, v: A): (Option<A>, seq<A>)
  {
    if last.None? || last.value != v then (Some(v), [v]) else (last, [])
  }

  function DistinctFrom<A(==)>(last: Option<A>, xs: seq<A>): (Option<A>, seq<A>)
  {
    if xs == [] then (last, [])
    else
      var (st, out) := DistinctFrom(last, DropLast(xs));
      var (st1, more) := DistinctStep(st, Last(xs));
      (st1, out + more)
  }

  /** `distinctUntilChanged()` on a signal. */
  function DistinctUntilChanged<A(==)>(xs: seq<A>): seq<A>
  {
    DistinctFrom(None, xs).1
  }

  /** The value each input is compared with when nothing is remembered: the input
      before it, or the seed for the first input. */
  function Previous<A>(seed: Option<A>, xs: seq<A>): Option<A>
    requires xs != []
  {
    if |xs| >= 2 then Some(xs[|xs| - 2]) else seed
  }

  /** What is forwarded, stated on the trace: every input that differs from the input before it. */
  function DistinctSpec<A(==)>(seed: Option<A>, xs: seq<A>): seq<A>
  {
    if xs == [] then []
    else DistinctSpec(seed, DropLast(xs)) + (if Previous(seed, xs) != Some(Last(xs)) then [Last(xs)] else [])
  }

  /** After each input is processed, the captured value equals that input. */
  lemma {:induction false} DistinctRemembersLastInput<A>(seed: Option<A>, xs: seq<A>)
    ensures DistinctFrom(seed, xs).0 == (if xs == [] then seed else Some(Last(xs)))
  {
    if xs != [] {
      DistinctRemembersLastInput(seed, DropLast(xs));
    }
  }

  /** The observer forwards exactly the inputs that differ from the preceding input. */
  lemma {:induction false} DistinctMatchesSpec<A>(seed: Option<A>, xs: seq<A>)
    ensures DistinctFrom(seed, xs).1 == DistinctSpec(seed, xs)
  {
    if xs != [] {
      DistinctMatchesSpec(seed, DropLast(xs));
      DistinctRemembersLastInput(seed, DropLast(xs));
      if |xs| >= 2 {
        assert Last(DropLast(xs)) == xs[|xs| - 2];
      }
    }
  }

  /** The captured value is the last forwarded value (or the seed before anything was forwarded). */
  lemma {:induction false} DistinctRemembersLastForwarded<A>(seed: Option<A>, xs: seq<A>)
    ensures var (st, out) := DistinctFrom(seed, xs);
            st == (if out == [] then seed else Some(Last(out)))
  {
    if xs != [] {
      DistinctRemembersLastForwarded(seed, DropLast(xs));
    }
  }

  /** A new input is forwarded iff it differs from the last forwarded value. */
  lemma DistinctForwardsIffChanged<A>(seed: Option<A>, xs: seq<A>, v: A)
    ensures var out := DistinctFrom(seed, xs).1;
            var lastForwarded := if out == [] then seed else Some(Last(out));
            DistinctFrom(seed, xs + [v]).1 == out + (if lastForwarded != Some(v) then [v] else [])
  {
    assert DropLast(xs + [v]) == xs;
    DistinctRemembersLastForwarded(seed, xs);
  }

  /** On a signal the first upstream value is always forwarded. */
  lemma DistinctForwardsFirst<A>(xs: seq<A>)
    requires xs != []
    ensures DistinctUntilChanged(xs) != [] && DistinctUntilChanged(xs)[0] == xs[0]
  {
    DistinctMatchesSpec(None, xs);
    DistinctSpecFirst(xs);
  }

  lemma {:induction false} DistinctSpecFirst<A>(xs: seq<A>)
    requires xs != []
    ensures DistinctSpec(None, xs) != [] && DistinctSpec(None, xs)[0] == xs[0]
  {
    if |xs| >= 2 {
      DistinctSpecFirst(DropLast(xs));
    }
  }

  /** The output never repeats a value twice in a row, nor starts with the seed,
      and it is a subsequence of the input. */
  lemma {:induction false} DistinctNoAdjacentRepeats<A>(seed: Option<A>, xs: seq<A>)
    ensures var out := DistinctFrom(seed, xs).1;
            && (forall i :: 0 < i < |out| ==> out[i - 1] != out[i])
            && (out != [] && seed.Some? ==> out[0] != seed.value)
            && IsSubsequence(out, xs)
  {
    if xs != [] {
      var init, v := DropLast(xs), Last(xs);
      DistinctNoAdjacentRepeats(seed, init);
      DistinctRemembersLastForwarded(seed, init);
      var (st, out0) := DistinctFrom(seed, init);
      assert xs == init + [v];
      if st.None? || st.value != v {
        SubsequenceSnoc(out0, init, v);
      } else {
        SubsequenceExtend(out0, init, v);
        assert DistinctFrom(seed, xs).1 == out0;
      }
    }
  }

  /** A trace without adjacent repeats (and not starting with the seed) passes unchanged. */
  lemma {:induction false} DistinctKeepsDistinct<A>(seed: Option<A>, xs: seq<A>)
    requires forall i :: 0 < i < |xs| ==> xs[i - 1] != xs[i]
    requires xs != [] && seed.Some? ==> xs[0] != seed.value
    ensures DistinctFrom(seed, xs).1 == xs
  {
    if xs != [] {
      DistinctKeepsDistinct(seed, DropLast(xs));
      DistinctRemembersLastInput(seed, DropLast(xs));
    }
  }

  /** `distinctUntilChanged` is idempotent. */
  lemma DistinctIdempotent<A>(xs: seq<A>)
    ensures DistinctUntilChanged(DistinctUntilChanged(xs)) == DistinctUntilChanged(xs)
  {
    DistinctNoAdjacentRepeats(None, xs);
    DistinctKeepsDistinct(None, DistinctUntilChanged(xs));
  }
}
