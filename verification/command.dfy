/** `Command` (Sources/Fx/Reactive/Command.swift): a function whose every result is
    also put into a `results` pipe. Observers are the sinks of that pipe.
 */
module Commands {
  import opened Traces
  import opened Bags
  import opened Signals

  datatype Command<!I, O, Ob, D> = Command(f: I -> O, results: Signal<Ob, D>)

  /** `init(_ action:)`: the action over a fresh pipe. */
  function NewCommand<I, O, Ob, D>(action: I -> O): Command<I, O, Ob, D>
  {
    Command(action, Pipe())
  }

  /** A new command runs `action`, and its `results` pipe has no observers. */
  lemma NewCommandIsEmpty<I, O, Ob, D>(action: I -> O)
    ensures NewCommand<I, O, Ob, D>(action).f == action
    ensures Values(NewCommand<I, O, Ob, D>(action).results.sinks) == []
    ensures ValidSignal(NewCommand<I, O, Ob, D>(action).results)
  {
    PipeIsEmpty<Ob, D>();
  }

  /** `execute(x)`: computes `f(x)`, puts it into the pipe, and returns it. */
  function Execute<I, O, Ob, D>(c: Command<I, O, Ob, D>, x: I): (r: (O, seq<(Ob, O)>))
    ensures r.0 == c.f(x)
    ensures |r.1| == |Values(c.results.sinks)|
    ensures forall i :: 0 <= i < |r.1| ==> r.1[i] == (Values(c.results.sinks)[i], c.f(x))
  {
    var result := c.f(x);
    (result, Put(c.results, result))
  }

  /** Executes the inputs in order; returns the results and every observer call. */
  function ExecuteAll<I, O, Ob, D>(c: Command<I, O, Ob, D>, xs: seq<I>): (r: (seq<O>, seq<(Ob, O)>))
    ensures |r.0| == |xs|
    ensures forall i :: 0 <= i < |xs| ==> r.0[i] == c.f(xs[i])
  {
    if xs == [] then ([], [])
    else
      var prev := ExecuteAll(c, DropLast(xs));
      var next := Execute(c, Last(xs));
      (prev.0 + [next.0], prev.1 + next.1)
  }

  /** An observer registered once on `results` receives exactly the values the
      executions returned, in execution order. */
  lemma {:induction false} ResultsArriveInOrder<I, O, Ob, D>(c: Command<I, O, Ob, D>, xs: seq<I>, o: Ob)
    requires Count(o, Values(c.results.sinks)) == 1
    ensures Received(ExecuteAll(c, xs).1, o) == ExecuteAll(c, xs).0
  {
    if xs != [] {
      ResultsArriveInOrder(c, DropLast(xs), o);
      ExecuteAllStep(c, xs, o);
    }
  }

  /** The inductive step of `ResultsArriveInOrder`: one more execution. */
  lemma ExecuteAllStep<I, O, Ob, D>(c: Command<I, O, Ob, D>, xs: seq<I>, o: Ob)
    requires xs != [] && Count(o, Values(c.results.sinks)) == 1
    requires Received(ExecuteAll(c, DropLast(xs)).1, o) == ExecuteAll(c, DropLast(xs)).0
    ensures Received(ExecuteAll(c, xs).1, o) == ExecuteAll(c, xs).0
  {
    var prev := ExecuteAll(c, DropLast(xs));
    var next := Execute(c, Last(xs));
    ReceivedAppend(prev.1, next.1, o);
    ReceivedPut(c.results, next.0, o);
    RepeatOne(next.0);
  }
}
