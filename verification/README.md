# Fx core in Dafny

A model of the sequential semantics of P0ed/Fx, a Swift library of reactive
and functional building blocks, together with proofs about it. The model
covers:

- the reactive plumbing: `Bag`, the `Disposable` family, `Signal` fan-out and
  its combinators, and `Property` / `MutableProperty`;
- `Result` and `Promise` with their combinators;
- the timing helpers `Fn.throttle`, `Fn.debounce` and `Fn.lazy`;
- the small algebra around them: function combinators and composition
  operators, `Optional` and `Bool` helpers, `clamped`, the sequence
  extensions, `Semigroup`/`Monoid` and its instances, the `Function` wrapper,
  `Liftable`, `Command` and `IO`.

Locks, atomics and threads only serialise the transitions, so every component
is a pure state machine. Each transition returns its next state together with
the effects it performs, in order: the actions run, the children disposed,
the observer calls `(observer, value)` and the callbacks run. Signal
combinators are functions from a finite input trace to an output trace.
Events of binary combinators are tagged `Left` (for `self`) or `Right`. Each
combinator has an independent reference definition and a lemma equating the
two. A Swift function that `throws` returns an `Outcome` (`Returned(value)`
or `Threw(error)`). A throwing `(inout A) throws -> Void` called directly
returns a `Mutated` value: what the variable holds afterwards, which keeps the
writes made before a throw, and the error, if any. A promise's eventual result is `Option<Result>`, where
`None` means it never resolves. Times are integer milliseconds.

One file per module, directly in this directory:

| file | module | models |
|---|---|---|
| `traces.dfy` | `Traces` | shared vocabulary: `Last`/`DropLast`, subsequences, `Either`, observer calls |
| `throwing.dfy` | `Throwing` | throwing closures as `Outcome` |
| `optional.dfy` | `Optionals` | `Source/Optional.swift`, `Source/Extensions/Optional.swift` |
| `result.dfy` | `Results` | `Source/Structs/Result.swift` |
| `bag.dfy` | `Bags` | `Source/Bag.swift` |
| `disposable.dfy` | `Disposables` | `Source/Reactive/Disposable.swift` |
| `signal.dfy` | `Signals` | `Sources/Fx/Reactive/Signal.swift`: fan-out, `observe`, `pipe`, `empty` |
| `signal_ops.dfy` | `SignalOps` | the combinators of `Sources/Fx/Reactive/Signal.swift` |
| `distinct.dfy` | `Distinct` | `Source/SignalType.swift` |
| `property.dfy` | `Properties` | `Source/Reactive/Property.swift` |
| `promise.dfy` | `Promises` | `Sources/Fx/Promise/Promise.swift` |
| `promise_ops.dfy` | `PromiseOps` | `Sources/Fx/Promise/PromiseOperations.swift` |
| `timing.dfy` | `Timing` | `throttle`, `debounce`, `lazy` of `Sources/Fx/Functions/FnFunctions.swift` |
| `functions.dfy` | `Functions` | `Sources/Fx/Functions/Functions.swift`, `Source/Operators/Application+Composition.swift`, the `Fn` adapters |
| `sequences.dfy` | `Sequences` | `Sources/Fx/Extensions/Sequences.swift` |
| `monoid.dfy` | `Monoids` | `Source/Functional/Semigroup+Monoid.swift`, `Sources/Fx/Operators/Monoid+Operators.swift`, the instances |
| `function_type.dfy` | `FunctionTypes` | `Source/Functions/FunctionType.swift` |
| `bool.dfy` | `Bools` | `Source/Extensions/Bool.swift` |
| `common.dfy` | `Common` | `Source/Extensions/Common.swift` |
| `lift.dfy` | `Lifts` | `Sources/Fx/Functional/Lift.swift` |
| `command.dfy` | `Commands` | `Sources/Fx/Reactive/Command.swift` |
| `closures.dfy` | `Closures` | `Source/Structs/Closures.swift` |

## Model

| member | source | states |
|---|---|---|
| Bags.EmptyValid | Source/Bag.swift:20-25 | A new bag satisfies the bag invariant: identifiers strictly increase in position order, stay below the counter, and each entry's token carries the entry's identifier. |
| Bags.ReindexLoop | Source/Bag.swift:64-69 | The loop from index `i` on gives element `k` and its token identifier `k`. It leaves earlier elements, values and every other token untouched. The counter ends at the last index. |
| Bags.Reindex | Source/Bag.swift:63-70 | Values and their order are preserved. Element `k` and its token get identifier `k`. The counter is left at `count - 1`, not `count`. |
| Bags.InsertAsWritten | Source/Bag.swift:29-42 | `insert` as written. The value is appended and earlier values keep their order. A new token is allocated. Without overflow the entry and token take the old counter and the counter increments by one. |
| Bags.InsertAsWrittenReusesIdentifier | Source/Bag.swift:30-39 | Counterexample for the overflow path. A valid one-element bag at counter `UInt.max` becomes invalid after one insert: both entries carry identifier 0, and removing the older entry's token removes the newer value. |
| Bags.Insert | Source/Bag.swift:29-42 | Corrected `insert`. The value is appended, the returned token carries the new entry's identifier, and the bag invariant is preserved on every path. Without overflow it equals `InsertAsWritten`. |
| Bags.InsertKeepsValid | Source/Bag.swift:35-39 | The identifier given to a new entry exceeds every live identifier, so appending it keeps the invariant. |
| Bags.LastIndexOf | Source/Bag.swift:50-56 | The backward scan finds the last position carrying the identifier, and finds none exactly when no entry carries it. |
| Bags.Remove | Source/Bag.swift:44-58 | A cleared token, or one whose identifier no entry carries, changes nothing. Otherwise the last entry carrying the identifier is removed, the token is cleared, and the rest keep their order. |
| Bags.RemoveLiveToken | Source/Bag.swift:47-58 | In a valid bag, removing with entry `i`'s token removes exactly position `i` and clears only that token. |
| Bags.RemoveIdempotent | Source/Bag.swift:46-53 | Removing with the same token twice equals removing once. |
| Bags.RemoveKeepsValid | Source/Bag.swift:47-58 | Removal preserves the bag invariant. |
| Bags.InsertRemoveRoundTrip | Source/Bag.swift:29-58 | Removing with the token `insert` returned gives back the earlier values, and the bag stays valid. |
| Bags.At | Source/Bag.swift:93-95 | `subscript(i)` is the value stored at position `i`. |
| Bags.IterationVisitsValues | Source/Bag.swift:79-95 | Stepping with `index(after:)` from `startIndex` (0) to `endIndex` (count) yields every value once, in storage order. |
| Disposables.NewManual | Source/Reactive/Disposable.swift:12-14 | A new manual disposable holds its action. |
| Disposables.DisposeManual | Source/Reactive/Disposable.swift:16-19 | `dispose` runs the held action if there is one, never anything else, and leaves no action behind. |
| Disposables.ManualRunsAtMostOnce | Source/Reactive/Disposable.swift:16-19 | Any number `n` of `dispose` calls runs the action exactly once if `n > 0` and an action was held, and otherwise runs nothing. |
| Disposables.ManualTimesClears | Source/Reactive/Disposable.swift:16-19 | After at least one `dispose` the action is gone. |
| Disposables.NewAction | Source/Reactive/Disposable.swift:27-29 | A new action disposable holds its action in its inner manual disposable. |
| Disposables.DisposeAction | Source/Reactive/Disposable.swift:35-37 | `dispose` is the inner manual disposable's `dispose`. |
| Disposables.ActionRunsExactlyOnce | Source/Reactive/Disposable.swift:23-38 | Over a whole lifetime (any number of explicit `dispose` calls, then `deinit`) the action runs exactly once. |
| Disposables.NewComposite | Source/Reactive/Disposable.swift:46-54 | The composite holds the given children in sequence order and satisfies the bag invariant. |
| Disposables.DisposeComposite | Source/Reactive/Disposable.swift:65-70 | `dispose` empties the composite and disposes every held child exactly once (as a multiset), in reverse insertion order. |
| Disposables.DisposeCompositeTwice | Source/Reactive/Disposable.swift:65-70 | A second `dispose` disposes nothing. |
| Disposables.AddDisposable | Source/Reactive/Disposable.swift:74-86 | The child is appended after the existing children, validity is preserved, and the returned handle's action names the new token. While the bag's counter is below `UInt.max`, the bag, tokens and handle are exactly those of the as-written `Bag.insert`. |
| Disposables.PlusAssign | Source/Reactive/Disposable.swift:97-99 | `+=` with a disposable is `addDisposable`: it appends the child, preserves validity, and returns a handle whose action names the new, live token. |
| Disposables.PlusAssignAction | Source/Reactive/Disposable.swift:102-104 | `+=` with a closure adds a new `ActionDisposable` that holds the closure. |
| Disposables.Detach | Source/Reactive/Disposable.swift:81-85 | The handle's action is `removeValueForToken` on the composite's bag. |
| Disposables.DisposeHandle | Source/Reactive/Disposable.swift:81-85 | Disposing a handle detaches its child at most once, and a second disposal changes nothing. |
| Disposables.AddThenDetach | Source/Reactive/Disposable.swift:74-86 | Detaching through the handle removes exactly the added child, without disposing it. A later composite `dispose` disposes only the earlier children, back to front. Disposing the handle again changes nothing. |
| Disposables.StaleHandleDetachesLaterChild | Source/Reactive/Disposable.swift:65-86 | `dispose` swaps in a fresh bag whose identifiers start again at 0. So the handle of a child added before the dispose detaches the first child added after it. |
| Disposables.SetInner | Source/Reactive/Disposable.swift:121-129 | The setter installs the new value and disposes the previous occupant exactly once, even when the same value is assigned again. |
| Disposables.NewSerial | Source/Reactive/Disposable.swift:133-135 | `init(d)` installs `d` and disposes nothing. |
| Disposables.DisposeSerial | Source/Reactive/Disposable.swift:141-143 | `dispose` disposes the current occupant and leaves `innerDisposable == nil`. |
| Disposables.SerialDisposesEachOccupantOnce | Source/Reactive/Disposable.swift:117-143 | Over a sequence of assignments followed by `dispose`, every occupant ever installed is disposed exactly once, in installation order. |
| Disposables.SetInnerAllLast | Source/Reactive/Disposable.swift:121-129 | After a sequence of assignments, the last value assigned is installed. |
| Signals.NewSignalIsEmpty | Sources/Fx/Reactive/Signal.swift:8-24 | `init(generator:)` starts with no observers and installs what the generator returned in the signal's serial disposable. |
| Signals.PipeIsEmpty | Sources/Fx/Reactive/Signal.swift:45-52 | A pipe starts with no observers and nothing to dispose. |
| Signals.EmptySignalIsEmpty | Sources/Fx/Reactive/Signal.swift:181 | `empty` has no observers and nothing to dispose. |
| Signals.Put | Sources/Fx/Reactive/Signal.swift:13-21 | The sink calls every registered observer once with the value, in bag order. |
| Signals.ReceivedPut | Sources/Fx/Reactive/Signal.swift:13-21 | `put(v)` reaches observer `o` exactly once per registration of `o`, each time with `v`. |
| Signals.Sink | Sources/Fx/Reactive/Signal.swift:26-28 | `sink(f)` appends `f` to the observers and preserves validity. While the bag's counter is below `UInt.max`, the bag and tokens are exactly those of the as-written `Bag.insert`. |
| Signals.Observe | Sources/Fx/Reactive/Signal.swift:30-43 | `observe(f)` appends `f` to the observers and preserves validity. The returned handle's action names the new token. |
| Signals.ObserveAgreesWithSource | Sources/Fx/Reactive/Signal.swift:30-43 | While the bag's counter is below `UInt.max`, `observe` leaves exactly the bag and tokens of the as-written `Bag.insert`, and its handle names that insert's token. |
| Signals.DisposeObservation | Sources/Fx/Reactive/Signal.swift:36-42 | The first disposal of an observation handle removes its token from the bag; later disposals change nothing. |
| Signals.DisposeSignal | Sources/Fx/Reactive/Signal.swift:6-23 | At end of life the serial disposable disposes exactly what the generator returned. |
| Signals.ObserveAll | Sources/Fx/Reactive/Signal.swift:30-43 | Observing several observers in turn appends them in order and returns one handle per observer, naming consecutive new tokens. |
| Signals.PipeDeliversInOrder | Sources/Fx/Reactive/Signal.swift:45-52 | After observers subscribe to a pipe, `put(v)` calls each of them exactly once with `v`, in registration order. |
| Signals.DisposeObservationRemovesOnlyIt | Sources/Fx/Reactive/Signal.swift:30-43 | Disposing the handle `observe` returned removes exactly that observer. Every other observer keeps receiving values, in the same order. A second disposal changes nothing. |
| Signals.PutSeesOnlyValues | Sources/Fx/Reactive/Signal.swift:13-21 | What `put` does depends only on the registered observers, not on tokens or identifiers. |
| Signals.DisposeObservationAt | Sources/Fx/Reactive/Signal.swift:36-42 | Disposing the handle of the observer at position `i` removes position `i` and nothing else. The signal stays valid and `put` makes one call fewer. |
| SignalOps.ForwardAppend | Sources/Fx/Reactive/Signal.swift:63-77 | A stateless observer's output on a concatenated trace is the concatenation of its outputs. |
| SignalOps.ForwardOneEach | Sources/Fx/Reactive/Signal.swift:63-67 | An observer that sends exactly one value per input sends, at position `i`, the value for input `i`. |
| SignalOps.Map | Sources/Fx/Reactive/Signal.swift:63-67 | `map(f)` sends `f(x)` for each upstream `x`, in order. |
| SignalOps.MapFusion | Sources/Fx/Reactive/Signal.swift:63-67 | `map(f).map(g)` sends what `map(g • f)` sends, and `map` with the identity sends its input unchanged. |
| SignalOps.MapDoubles | Tests/FxTests/FxSignalTests.swift:50-60 | Mapping `[0, 1, 2, 3, 4]` by doubling gives `[0, 2, 4, 6, 8]`. |
| SignalOps.FilterExact | Sources/Fx/Reactive/Signal.swift:69-77 | `filter(p)` sends a subsequence of its input. Every value sent satisfies `p`, and each value satisfying `p` is sent as often as it arrived. |
| SignalOps.FilterAppend | Sources/Fx/Reactive/Signal.swift:69-77 | Filtering a concatenation filters each part. |
| SignalOps.FilterSnoc | Sources/Fx/Reactive/Signal.swift:71-75 | One more input is sent exactly when it satisfies `p`. |
| SignalOps.FilterEvens | Tests/FxTests/FxSignalTests.swift:62-72 | Filtering `[0, 1, 2, 3, 4, 5]` for even values gives `[0, 2, 4]`. |
| SignalOps.IgnoringNilsUnwraps | Sources/Fx/Reactive/Signal.swift:149-157 | `ignoringNils` sends exactly the payloads of the non-nil values, in order. |
| SignalOps.Merge | Sources/Fx/Reactive/Signal.swift:79-86 | `merge` sends every value of either source at the moment it arrives. |
| SignalOps.MergeKeepsEveryValue | Sources/Fx/Reactive/Signal.swift:79-86 | The merged output, as a multiset, is the union of both sources' values. |
| SignalOps.MergeWithSilent | Sources/Fx/Reactive/Signal.swift:79-86 | Merging with a source that never sends, such as `empty`, forwards the other source unchanged. |
| SignalOps.CombineLatestCorrect | Sources/Fx/Reactive/Signal.swift:88-109 | The captured variables hold each side's last value. The pairs sent equal an independent trace definition: after every event at which both sides have values, the pair of latest values. |
| SignalOps.CombineLatestWaitsForBoth | Sources/Fx/Reactive/Signal.swift:94-105 | Nothing is sent until both sides have emitted. |
| SignalOps.CombineLatestPairsEachEvent | Sources/Fx/Reactive/Signal.swift:94-105 | Once both sides have emitted, each event sends exactly one pair: the new value with the other side's latest value. |
| SignalOps.ZipSpec | Sources/Fx/Reactive/Signal.swift:111-136 | The reference pairing has `min(#left, #right)` pairs. |
| SignalOps.ZipFifo | Sources/Fx/Reactive/Signal.swift:111-136 | `zip` pairs values strictly first-in first-out. The `i`-th pair is the `i`-th value of each side, and the unmatched values stay buffered in arrival order. |
| SignalOps.ZipStepLeft | Sources/Fx/Reactive/Signal.swift:125-128 | A value from `self` keeps the buffers equal to the unmatched suffixes and sends a pair exactly when the other buffer was non-empty. |
| SignalOps.ZipStepRight | Sources/Fx/Reactive/Signal.swift:129-132 | A value from the other signal keeps the buffers equal to the unmatched suffixes and sends a pair exactly when `self`'s buffer was non-empty. |
| SignalOps.FlattenForwardsInner | Sources/Fx/Reactive/Signal.swift:162-170 | `flatten` keeps every inner signal it received as a subscription. It forwards each inner emission once per earlier receipt of that inner signal, matching an independent trace definition. |
| SignalOps.OutersMapOuter | Sources/Fx/Reactive/Signal.swift:175-177 | The subscriptions of `map(f).flatten()` are `f` of the outer values, in order. |
| SignalOps.FlatMapForwardsInner | Sources/Fx/Reactive/Signal.swift:175-177 | In `flatMap`, an inner emission of signal `s` is forwarded once for every earlier outer value that `f` mapped to `s`. |
| SignalOps.FlattenOnlyOuters | Sources/Fx/Reactive/Signal.swift:162-170 | Before any inner signal sends, `flatten` sends nothing and only collects subscriptions. |
| SignalOps.FlatMapPassesEach | Sources/Fx/Reactive/Signal.swift:175-177 | Emissions of inner signals that were each received once are forwarded one for one and add no subscriptions. |
| SignalOps.PassingOuterSendsNothing | Tests/FxTests/FxSignalTests.swift:9-18 | In the passing-values test, the outer sends alone produce nothing and subscribe to signals 0 to 4. |
| SignalOps.PassingSubscriptions | Tests/FxTests/FxSignalTests.swift:9-18 | In the passing-values test, each of the signals 0 to 4 is subscribed exactly once. |
| SignalOps.PassingInnerValues | Tests/FxTests/FxSignalTests.swift:19-28 | The inner signals of the passing-values test send `n` and then `2 * n`, for `n` from 0 to 4. |
| SignalOps.FlatMapPassesValues | Tests/FxTests/FxSignalTests.swift:6-48 | The passing-values test: `flatMap` forwards 0, 0, 1, 2, 2, 4, 3, 6, 4, 8. |
| Distinct.DistinctRemembersLastInput | Source/SignalType.swift:13-15 | After each input is processed, the captured `lastValue` equals that input. |
| Distinct.DistinctMatchesSpec | Source/SignalType.swift:10-18 | The observer forwards exactly the inputs that differ from the input before them (or from the seed, for the first input), matching an independent trace definition. |
| Distinct.DistinctRemembersLastForwarded | Source/SignalType.swift:13-15 | The captured value is the last forwarded value, or the seed before anything was forwarded. |
| Distinct.DistinctForwardsIffChanged | Source/SignalType.swift:13-16 | A new input is forwarded if and only if it differs from the last forwarded value. |
| Distinct.DistinctForwardsFirst | Source/SignalType.swift:11-16 | On a signal the first upstream value is always forwarded. |
| Distinct.DistinctSpecFirst | Source/SignalType.swift:11-16 | With no seed, the reference definition keeps the first input. |
| Distinct.DistinctNoAdjacentRepeats | Source/SignalType.swift:10-18 | The output never has two equal adjacent values and never starts with the seed. It is a subsequence of the input. |
| Distinct.DistinctKeepsDistinct | Source/SignalType.swift:10-18 | A trace without adjacent repeats, whose first value is not the seed, passes through unchanged. |
| Distinct.DistinctIdempotent | Source/SignalType.swift:9-19 | Applying `distinctUntilChanged` twice gives the same output as applying it once. |
| Properties.WrapReadsLatest | Source/Reactive/Property.swift:14-23 | `Property(value:signal:)` reads the initial value until the wrapped signal sends, and the last value sent afterwards. It re-sends exactly what the wrapped signal sends. |
| Properties.NewMutableIsEmpty | Source/Reactive/Property.swift:49-64 | `MutableProperty(initialValue)` and `init(wrappedValue:)` hold the initial value over a fresh pipe with no observers. |
| Properties.Set | Source/Reactive/Property.swift:56-59 | The setter stores the new value, leaves the signal unchanged, and makes one observer call per registration. |
| Properties.SetReachesObservers | Source/Reactive/Property.swift:56-59 | Setting `v` reaches each observer once per registration, each time with `v`. The returned state already holds `v`. |
| Properties.SetAll | Source/Reactive/Property.swift:43-46 | After a series of sets, `value` reads the last value set. |
| Properties.SetAllReachesObserver | Source/Reactive/Property.swift:56-59 | An observer registered once receives every value set, in order. |
| Properties.SetAllStep | Source/Reactive/Property.swift:56-59 | One more set appends exactly that value to what a once-registered observer has received. |
| Properties.Modify | Source/Reactive/Property.swift:202-204 | `modify(f)` leaves the property holding `f` of its previous value, and the signal is the same. |
| Properties.ModifyReachesObservers | Source/Reactive/Property.swift:202-204 | `modify(f)` pushes the modified value to each observer once per registration. |
| Properties.ObserveProperty | Source/Reactive/Property.swift:80-83 | `observe(sink)` calls `sink(value)` at once and then registers `sink` on the signal. |
| Properties.ObserveSeesValueThenChanges | Source/Reactive/Property.swift:80-83 | Observing a mutable property delivers its current value once, then every later change, with nothing missed. |
| Properties.HasUnbindSnoc | Source/Reactive/Property.swift:73-75 | The binding's handle has been disposed after one more event exactly when it had been before or the event disposes it. |
| Properties.HasUnbindCons | Source/Reactive/Property.swift:73-75 | A non-empty event list contains a disposal exactly when its head is one or its tail contains one. |
| Properties.SentWhileBoundSnoc | Source/Reactive/Property.swift:73-75 | Once the handle is disposed, later sends are not followed. Before that, each send is followed. |
| Properties.BindFollowsUntilDisposed | Source/Reactive/Property.swift:73-75 | With `bind(s)`, each value `s` sends becomes the property's value and is re-sent, until the handle is disposed. From then on the value stays pinned. |
| Properties.MapPropertyTracksSource | Source/Reactive/Property.swift:85-87 | A mapped property always reads `f` of the source's value and sends `f(x)` for each change. |
| Properties.MapPropertyDoubles | FxTests/FxPropertyTests.swift:6-19 | A property starting at 0 and set to 1 through 9, mapped by doubling and observed, delivers 0, 2, ..., 18. |
| Properties.FlatMapFollowsLatest | Source/Reactive/Property.swift:89-98 | The subscription `flatMap` keeps is always to the inner property of the latest source value. |
| Properties.FlatMapSwitches | Source/Reactive/Property.swift:92-96 | Each source value sends the new inner property's current value. An inner value is sent exactly when it comes from the inner property of the latest source value, so replaced inner properties never get through. |
| Properties.FlatMapPropertyReadsInner | Source/Reactive/Property.swift:89-98 | The flat-mapped property starts at `f(value)`'s value, then reads the last value sent. After a source value `x` it reads `f(x)`'s value. |
| Properties.MapCombineKeepsLatest | Source/Reactive/Property.swift:103-124 | The captured pair holds both sides' latest values, and every event sends exactly one value. |
| Properties.MapCombineSendsLatest | Source/Reactive/Property.swift:109-116 | A change on either side sends `f` of the new value and the other side's latest value. |
| Properties.MapCombineReadsBoth | Source/Reactive/Property.swift:103-124 | `mapCombine` starts at `f(a, b)` and always reads `f` of both sides' latest values. |
| Properties.CombinePairsLatest | Source/Reactive/Property.swift:126-128 | `combine(other)` reads the pair of both sides' latest values and sends one pair per change. |
| Properties.FlatCombineFlattens | Source/Reactive/Property.swift:130-132 | `flatCombine(other)` reads the triple made of the latest left pair and the latest right value. |
| Properties.DistinctPropertyAgreesWithSource | Source/Reactive/Property.swift:144-154 | The distinct property reads the same value as its source. It sends only values that differ from the one sent before, and the first differs from the value it was seeded with. |
| Properties.DistinctOptionalSwitchesOnCase | Source/Reactive/Property.swift:173-197 | The outer property sends exactly on `some`/`none` transitions: the cases of its emissions are the case changes of the input. The inner state always holds the latest value, and each input causes at most one emission. |
| Properties.DistinctOptionalInnerContinuesRuns | Source/Reactive/Property.swift:173-197 | Successive `some` values become one stream of inner values: the inner property is set to exactly the `some` inputs whose predecessor (the initial value, for the first input) is also `some`, in input order. |
| Properties.SplitStepCases | Source/Reactive/Property.swift:181-194 | One input makes it the state and emits on the outer signal exactly when its case differs from the previous state's. |
| Properties.Const | Source/Reactive/Property.swift:137-139 | `const(v)` reads `v` and never sends; it is `Property(value: v, signal: .empty)`. |
| Properties.AllCollectsValues | Source/Reactive/Property.swift:157-170 | `all()` reads the elements' current values, in sequence order. |
| Promises.FromResultIsResolved | Sources/Fx/Promise/Promise.swift:25-27 | `init(result:)` gives a promise that is already resolved with that result and has no queued callbacks. |
| Promises.ValueErrorInits | Sources/Fx/Promise/Promise.swift:112-126 | `value(_:)` and `init(value:)` give a promise resolved with the success; `error(_:)` and `init(error:)` one resolved with the failure. |
| Promises.ThrowingInit | Sources/Fx/Promise/Promise.swift:128-130 | `init(_ f:)` is resolved, and succeeds exactly when `f` returns: with its value if it does, otherwise with the error it threw. |
| Promises.PendingIsEmpty | Sources/Fx/Promise/Promise.swift:106-110 | `pending()` gives an unresolved promise with an empty queue. |
| Promises.Resolve | Sources/Fx/Promise/Promise.swift:29-39 | On a pending promise, `resolve` stores the result, runs every queued callback once in order with it, and empties the queue. On a completed promise the assertion fails and nothing changes. |
| Promises.OnComplete | Sources/Fx/Promise/Promise.swift:83-99 | A callback runs at once with the stored result when the promise is completed. Otherwise it is appended to the queue. The result itself is never changed. |
| Promises.IsCompleted | Sources/Fx/Promise/Promise.swift:132 | `isCompleted` holds exactly when a result is stored. |
| Promises.IsSuccess | Sources/Fx/Promise/Promise.swift:134-136 | `isSuccess` holds exactly when the stored result is a success. |
| Promises.IsFailure | Sources/Fx/Promise/Promise.swift:138-140 | `isFailure` holds exactly when the stored result is a failure. |
| Promises.StatusExclusive | Sources/Fx/Promise/Promise.swift:132-140 | `isSuccess` and `isFailure` never hold together. Both are false while the promise is pending, and one holds once it is completed. |
| Promises.PromiseValue | Sources/Fx/Promise/Promise.swift:142 | `value` is present exactly when the promise succeeded, and it is the stored success value. |
| Promises.PromiseError | Sources/Fx/Promise/Promise.swift:143 | `error` is present exactly when the promise failed, and it is the stored error. |
| Promises.FirstResolutionWins | Sources/Fx/Promise/Promise.swift:29-99 | From `pending()`, for any sequence of resolutions and registrations: the first resolution is kept, and callbacks wait in registration order until then. Once resolved, every callback registered at any time has run exactly once, with that result, in registration order. |
| Promises.RunPromiseStep | Sources/Fx/Promise/Promise.swift:29-99 | The property of `FirstResolutionWins` survives one more resolution or registration. |
| Promises.CallbacksRunOncePerRegistration | Sources/Fx/Promise/Promise.swift:83-99 | After any history, a callback has been called once per registration with the stored result, or not at all while the promise is pending. |
| PromiseOps.MapResult | Sources/Fx/Promise/PromiseOperations.swift:24-30 | `mapResult(f)` stays pending while its source is pending. Once the source resolves with `r`, it resolves with `f(r)`'s value, or with the error `f` threw. |
| PromiseOps.FlatMapResult | Sources/Fx/Promise/PromiseOperations.swift:15-23 | `flatMapResult(f)` stays pending while its source is pending. Once the source resolves, it ends as the promise `f` returns, or fails with the error `f` threw. |
| PromiseOps.MapCases | Sources/Fx/Promise/PromiseOperations.swift:35-37 | `map(f)` passes a source failure through unchanged and runs `f` only on a success. A throw from `f` becomes the failure. |
| PromiseOps.FlatMapCases | Sources/Fx/Promise/PromiseOperations.swift:32-34 | `flatMap(f)` passes a source failure through. On a success it ends as the promise `f` returns, or fails with `f`'s error. |
| PromiseOps.MapAgreesWithResult | Sources/Fx/Promise/PromiseOperations.swift:35-37 | Once resolved, a promise's `map` is `Result.map` applied to the source's result. |
| PromiseOps.FlatMapError | Sources/Fx/Promise/PromiseOperations.swift:39-41 | `flatMapError(f)` keeps a success. A failure is replaced by the promise `f` returns, or by `f`'s error when `f` throws. |
| PromiseOps.MapError | Sources/Fx/Promise/PromiseOperations.swift:42-49 | `mapError(f)` keeps a success and recovers a failure with `f`'s value, or fails with the error `f` threw. |
| PromiseOps.MapErrorAgreesWithResult | Sources/Fx/Promise/PromiseOperations.swift:42-49 | A resolved promise's `mapError` agrees with the result-level recovery. |
| PromiseOps.WithResult | Sources/Fx/Promise/PromiseOperations.swift:51-56 | `withResult(f)` resolves with the source's own result. `f` sees that result once, or never while the source is pending. |
| PromiseOps.With | Sources/Fx/Promise/PromiseOperations.swift:58-60 | `with(f)` resolves like its source. `f` runs once with the value on success and never otherwise. |
| PromiseOps.WithError | Sources/Fx/Promise/PromiseOperations.swift:62-64 | `withError(f)` resolves like its source. `f` runs once with the error on failure (which is rethrown) and never otherwise. |
| PromiseOps.OnSuccess | Sources/Fx/Promise/PromiseOperations.swift:6-8 | `onSuccess(f)` calls `f` exactly once with the value when the promise succeeds, and never otherwise. |
| PromiseOps.OnFailure | Sources/Fx/Promise/PromiseOperations.swift:11-13 | `onFailure(f)` calls `f` exactly once with the error when the promise fails, and never otherwise. |
| PromiseOps.ZipCases | Sources/Fx/Promise/PromiseOperations.swift:65-71 | `zip` succeeds exactly when both succeed, with the pair of values. It fails with the first side's error, or else the second's. It stays pending while the first is pending, or the first succeeded and the second is pending. |
| PromiseOps.CompletionChain | FxTests/FxPromiseTests.swift:6-24 | `Promise(value: 42).map { $0 * 3 }.flatMap { Promise(value: $0).map { $0 * 12 } }` resolves with 1512. |
| PromiseOps.ErroredChain | FxTests/FxPromiseTests.swift:26-39 | An error produced inside `flatMap` survives the later `map(const(0))`. |
| PromiseOps.RetryBounds | Sources/Fx/Promise/PromiseOperations.swift:208-221 | From attempt `n`: every attempt before the last one made failed, and the result is the last attempt's. The run stops at a success, at a promise that never resolves, or once the counter reaches `times`. A failure is returned only when the budget is spent. |
| PromiseOps.RetryFromStart | Sources/Fx/Promise/PromiseOperations.swift:208-221 | `retry(times, task)` makes between 1 and `max(1, times)` attempts and returns the first success. It fails, with the last error, only after exactly `max(1, times)` failures. |
| PromiseOps.LockResolve | Sources/Fx/Promise/PromiseOperations.swift:183-190 | The first call of `lockResolve` sets the lock, cancels the pending recover timer and resolves. Every later call changes nothing. |
| PromiseOps.FirstResultWins | Sources/Fx/Promise/PromiseOperations.swift:183-190 | Starting with the timer installed and nothing resolved, the first `lockResolve` call resolves and cancels the timer. Later calls are ignored, so the timer is cancelled exactly once. |
| PromiseOps.LockedIgnoresAll | Sources/Fx/Promise/PromiseOperations.swift:184-185 | Once the lock is set, every later `lockResolve` call changes nothing and cancels nothing. |
| PromiseOps.TimeoutFirstWins | Sources/Fx/Promise/PromiseOperations.swift:180-205 | `timeout` in the code's order: register `onComplete`, then install the timer. A source that is already resolved wins at once, and its timer is installed afterwards and never cancelled. Otherwise the first later result wins, and the timer is cancelled exactly once, by that result. |
| PromiseOps.FirstUnsuccessful | Sources/Fx/Promise/PromiseOperations.swift:234-242 | The index of the first element that did not succeed. Everything before it succeeded. |
| PromiseOps.FoldCombinesInOrder | Sources/Fx/Promise/PromiseOperations.swift:234-242 | When every element succeeds, `fold(zero, f)` succeeds with the values combined left to right, in sequence order. Otherwise it fails with the first failing element's error, or stays pending if that element never resolves. |
| PromiseOps.FirstUnsuccessfulSnoc | Sources/Fx/Promise/PromiseOperations.swift:234-242 | Appending a promise moves the first unsuccessful index only when every earlier element succeeded. |
| PromiseOps.AppendCollects | Sources/Fx/Promise/PromiseOperations.swift:244-246 | Folding with `{ $0 + [$1] }` from `[]` collects exactly the element values, in order. |
| PromiseOps.AllCollectsInOrder | Sources/Fx/Promise/PromiseOperations.swift:244-246 | When every element succeeds, `all()` succeeds with the array of their values, in sequence order. |
| Results.Catching | Source/Structs/Result.swift:5-7 | `Result(f)` is `.value` exactly when `f` returns, carrying what it returned. Otherwise it is `.error` carrying the thrown error. |
| Results.Dematerialize | Source/Structs/Result.swift:9-14 | `dematerialize()` returns the value of `.value` and throws the error of `.error`. |
| Results.CatchingDematerializeRoundTrip | Source/Structs/Result.swift:5-14 | `Result { try r.dematerialize() }` is `r`, and dematerializing `Result(f)` behaves like `f`: the two are inverse. |
| Results.GetValue | Source/Structs/Result.swift:19-21 | `value` is present exactly for `.value`, and carries its payload. |
| Results.GetError | Source/Structs/Result.swift:23-25 | `error` is present exactly for `.error`, and carries its payload. |
| Results.ExactlyOneAccessor | Source/Structs/Result.swift:19-25 | For every result, exactly one of `value` and `error` is present. |
| Results.MapResult | Source/Structs/Result.swift:27-29 | `mapResult(f)` succeeds exactly when `f(self)` returns, with its value. Otherwise it fails with `f`'s error. |
| Results.Map | Source/Structs/Result.swift:31-33 | `map(f)` keeps an error and applies `f` to a value, catching what `f` throws. |
| Results.FlatMap | Source/Structs/Result.swift:35-37 | `flatMap(f)` keeps an error. On a value it is `f`'s result, or an error when `f` throws. |
| Results.Analysis | Source/Structs/Result.swift:46-51 | `analysis` applies `ifSuccess` to a value and `ifFailure` to an error. |
| Results.MapError | Source/Structs/Result.swift:39-41 | `mapError(f)` leaves a value unchanged and recovers an error with `f`, catching what `f` throws. |
| Results.OnSuccess | Source/Structs/Result.swift:53-59 | `onSuccess(f)` returns `self` unchanged. `f` is called once with the value, or not at all for an error. |
| Results.OnFailure | Source/Structs/Result.swift:61-67 | `onFailure(f)` returns `self` unchanged. `f` is called once with the error, or not at all for a value. |
| Results.MapLaws | Source/Structs/Result.swift:31-33 | `map` with non-throwing closures is a functor: mapping the identity changes nothing, and two maps fuse into one. |
| Results.FlatMapLaws | Source/Structs/Result.swift:31-37 | `flatMap` obeys the left and right identity laws. `map(g)` is `flatMap` of `Result { try g($0) }`. |
| Optionals.Pure | Source/Optional.swift:3-5 | `pure(x)` is `.some(x)`. |
| Optionals.Map | Source/Optional.swift:8-10 | `map(f)` maps `nil` to `nil` and `.some(a)` to `.some(f(a))`. |
| Optionals.FlatMap | Source/Optional.swift:13-15 | `flatMap(f)` maps `nil` to `nil` and `.some(a)` to `f(a)`. |
| Optionals.MapOp | Source/Optional.swift:18-20 | `f <^> a` is the free `map(f)` applied to `a`. |
| Optionals.Apply | Source/Optional.swift:23-25 | `f <*> a` is present exactly when both are, and then it is `f` applied to `a`. |
| Optionals.BindLeft | Source/Optional.swift:28-30 | `a >>- f` is `flatMap(f)` applied to `a`. |
| Optionals.BindRight | Source/Optional.swift:33-35 | `f -<< a` is `flatMap(f)` applied to `a`. |
| Optionals.BindOperatorsAgree | Source/Optional.swift:27-35 | `>>-` and `-<<` are the same operation with its arguments flipped. |
| Optionals.MonadLaws | Source/Optional.swift:3-15 | `pure` and `flatMap` satisfy the left and right identity laws, and `map(g)` is `flatMap` of `pure ∘ g`. |
| Optionals.ApplyPure | Source/Optional.swift:3-25 | `pure(g) <*> a` is `g <^> a`. |
| Optionals.MapFusion | Source/Optional.swift:8-10 | Mapping the identity changes nothing, and two maps fuse into one. |
| Optionals.OptionalConformanceRoundTrip | Source/Extensions/Optional.swift:8-11 | `Optional`'s `OptionalType` conformance is the identity in both directions. |
| Optionals.Try | Source/Extensions/Optional.swift:15-17 | `Optional(f)` is `nil` exactly when `f` throws, and otherwise holds what it returned. |
| Optionals.With | Source/Extensions/Optional.swift:21-24 | `with(f)` returns `self`. `f` runs once with the payload when there is one, and never for `nil`. |
| Timing.ThrottleRemembersLastFired | Sources/Fx/Functions/FnFunctions.swift:81-97 | The captured state is `notFired` until something fires, and then `firedAt` the time of the last forwarded call. |
| Timing.ThrottleFiresIff | Sources/Fx/Functions/FnFunctions.swift:91-96 | The first call always fires. A later call fires exactly when at least `interval` has passed since the last call that fired. |
| Timing.ThrottleSpacesCalls | Sources/Fx/Functions/FnFunctions.swift:77-99 | Forwarded calls are a subsequence of the calls made, starting with the first. Any two consecutive forwarded calls are at least `interval` apart. |
| Timing.ThrottleExtend | Sources/Fx/Functions/FnFunctions.swift:83-98 | One more call extends the forwarded calls by what that call's step forwards from the current state. |
| Timing.ThrottleSample | Tests/FxTests/FxSignalTests.swift:74-94 | Calls at 0, 0.5, 0.9, 1.1, 2.2, 3, 3.4, 3.7 and 4.5 s with a 1 s interval forward exactly those at 0, 1.1, 2.2, 3.4 and 4.5 s. |
| Timing.Values | Sources/Fx/Functions/FnFunctions.swift:111-125 | The values of the calls, in call order. |
| Timing.DebounceKeepsEveryValue | Sources/Fx/Functions/FnFunctions.swift:111-125 | A flush is pending exactly when the accumulator is non-empty. The batches `f` has received, followed by the accumulator, are every value passed so far, in order. No batch is empty. |
| Timing.DebounceDeliversAll | Sources/Fx/Functions/FnFunctions.swift:111-125 | Once the last timer has fired, `f` has received every value exactly once, in call order, in non-empty batches. |
| Timing.DebounceLast | Sources/Fx/Functions/FnFunctions.swift:130-132 | The single-value `debounce` passes `f` the last value of each batch, at the batch's time. |
| Timing.DebounceBurst | Sources/Fx/Functions/FnFunctions.swift:115-123 | Calls each made before the previous call's timer is due form one batch. It holds all their values and is due `interval` after the last call. |
| Timing.DebounceAfterQuiet | Sources/Fx/Functions/FnFunctions.swift:115-123 | A burst that starts once the pending timer is due leaves the earlier batches flushed and starts a fresh accumulator. |
| Timing.DebounceSample | Tests/FxTests/FxSignalTests.swift:96-113 | Calls at 0, 0.5, 1, 1.5, 2, 3.5 and 4 s with a 1 s interval flush twice, at 3 s with 2 and at 5 s with 4. |
| Timing.LazyRunsOnce | Sources/Fx/Functions/FnFunctions.swift:148-158 | The generator runs exactly once if the closure is called at all (never otherwise), and every call returns that run's value. |
| Functions.Id | Sources/Fx/Functions/Functions.swift:4 | `id(x)` is `x`. |
| Functions.Const | Sources/Fx/Functions/Functions.swift:7-13 | `const(x)` ignores its argument and returns `x`. |
| Functions.CurryFlipLaws | Sources/Fx/Functions/Functions.swift:19-42 | `curry(f)(x)(y)` is `f(x, y)`. Both forms of `flip` swap the arguments and are involutions. Flipping a curried function is currying the flipped one. |
| Functions.CurriedMultiplication | Tests/FxTests/FxFunctions.swift:14-18 | Applying `curry(*)` to 2 and then to 3 with the application operator gives 6. |
| Functions.IgnoreOutput | Sources/Fx/Functions/Functions.swift:49-51 | `ignoreOutput(f)(x)` calls `f(x)` exactly once and discards its result. |
| Functions.IgnoreInputIgnores | Sources/Fx/Functions/Functions.swift:45-47 | `ignoreInput(f)` returns `f()` whatever its argument, so any two arguments give the same result. |
| Functions.Modify | Sources/Fx/Functions/Functions.swift:66-70 | `modify(value, f)` returns the copy `f` mutated, or rethrows `f`'s error. |
| Functions.ModifyInPlace | Sources/Fx/Functions/Functions.swift:59-63 | `modify(&value, f)` assigns the mutated copy only when `f` returns. When `f` throws, the variable keeps its old value and the error propagates. |
| Functions.With | Sources/Fx/Functions/Functions.swift:74-77 | `with(x, f)` calls `f(x)` exactly once and returns `x` itself. A throw from `f` propagates instead. |
| Functions.CompactKeepsPayloads | Sources/Fx/Functions/Functions.swift:87-89 | `compact` returns as many elements as there are non-nil inputs: exactly their payloads, in order. |
| Functions.WrapAll | Sources/Fx/Functions/Functions.swift:87-89 | Wrapping each element in `.some`, position by position. This is the inverse direction of `compact`. |
| Functions.WrapAllAppend | Sources/Fx/Functions/Functions.swift:87-89 | Wrapping distributes over concatenation. |
| Functions.WithoutNilsIsSubsequence | Sources/Fx/Functions/Functions.swift:87-89 | The non-nil inputs form a subsequence of the input, and every element of it is non-nil. |
| Functions.ComposeLaws | Source/Operators/Application+Composition.swift:1-11 | `(g • h) § x` is `g(h(x))`. Composition is associative, and `id` is its unit on both sides. |
| Functions.CompositionSample | Tests/FxTests/FxFunctions.swift:7-12 | Applying `{ $0 * 3 } • { $0 + 3 }` to 3 with the application operator gives 18. |
| Functions.ComposeNullary | Source/Operators/Application+Composition.swift:14-16 | `f • g` with a nullary `g` evaluates to `f(g())`. |
| Functions.ComposeActions | Source/Operators/Application+Composition.swift:19-21 | `f • g` for actions performs all of `g`'s effects, then all of `f`'s. |
| Functions.ThrowingCompositionOrder | Source/Operators/Application+Composition.swift:28-42 | Throwing compositions run `g` first. When `g` throws, `f` does not run and `g`'s error is the result. Otherwise `f` runs on `g`'s output, or after `g`'s effects for actions. The nullary form agrees with the unary one. |
| Functions.ThrowingCompositionExtends | Source/Operators/Application+Composition.swift:19-47 | The throwing compositions of mutations and actions, given closures that never throw, agree with the non-throwing ones. |
| Functions.ThrowingInoutKeepsWrites | Source/Operators/Application+Composition.swift:45-46 | `try g(&x); try f(&x)` keeps every write. When `g` throws, `f` does not run and `x` holds what `g` left in it. Otherwise `f` runs on that value and `x` holds what `f` left, even when `f` throws. The composite throws exactly when `g` or `f` does. |
| Functions.ThrowingInoutAssociative | Source/Operators/Application+Composition.swift:45-46 | The throwing composition of mutations is associative. |
| Functions.ModifyDiscardsPartialWrites | Sources/Fx/Functions/Functions.swift:59-63 | `modify(&x, f • g)` undoes the writes that a direct call of a throwing composite keeps. When the composite throws, `x` keeps its old value and the error propagates. Otherwise `x` holds the composite's result. |
| Functions.FnAdapters | Sources/Fx/Functions/FnFunctions.swift:10-36 | `Fn.map` and `Fn.flatMap` send `nil` to `nil` and act on a payload. `Fn.modify(f)` is `modify($0, f)`, and `Fn.with(f)` returns its argument after running `f`. |
| Sequences.Next | Sources/Fx/Extensions/Sequences.swift:6-9 | `next()` returns the current payload and leaves the optional `nil`. |
| Sequences.OptionArray | Sources/Fx/Extensions/Sequences.swift:24-26 | `array` of an optional is empty for `nil` and the one payload otherwise. |
| Sequences.IteratorYieldsOnce | Sources/Fx/Extensions/Sequences.swift:1-26 | An optional used as an iterator yields its payload once and then stops. Its `array` is exactly what it yields. |
| Sequences.FlattenConcatenates | Sources/Fx/Extensions/Sequences.swift:20-22 | `flatten` (`flatMap(id)`) is the concatenation of the inner arrays, in order. It equals their monoid sum `∑`, and its length is the sum of their lengths. |
| Sequences.FlattenAgrees | Sources/Fx/Extensions/Sequences.swift:20-22 | `flatMap(id)` and concatenation give the same array and the same total length. |
| Sequences.ConcatCons | Sources/Fx/Extensions/Sequences.swift:20-22 | Concatenating a non-empty list is its head followed by the concatenation of its tail. |
| Sequences.Nonempty | Sources/Fx/Extensions/Sequences.swift:32-34 | `nonempty` is `nil` exactly for an empty collection, and otherwise the collection itself. |
| Sequences.SafeIndex | Sources/Fx/Extensions/Sequences.swift:77-79 | `self[safe: i]` is `nil` exactly when `i` is out of range, and otherwise the element at `i`. |
| Sequences.SafeIndexRecovers | Sources/Fx/Extensions/Sequences.swift:77-79 | Reading every index with `[safe:]` and compacting the results gives back the array. |
| Sequences.CompactSomes | Sources/Fx/Extensions/Sequences.swift:16-18 | Compacting an array of `.some` wrappers recovers the payloads. |
| Sequences.TotalSizeRemove | Sources/Fx/Extensions/Sequences.swift:36-53 | The total size of a grouping splits into one group and the rest. |
| Sequences.TotalSizeUpdate | Sources/Fx/Extensions/Sequences.swift:36-53 | Replacing one group changes the total size by the difference of the two groups' sizes. |
| Sequences.GroupWithPartitions | Sources/Fx/Extensions/Sequences.swift:36-71 | The keys of the grouping are exactly the keys that occur. Each group is the non-empty subsequence of elements with that key. The group sizes add up to the element count. |
| Sequences.GroupWithSnoc | Sources/Fx/Extensions/Sequences.swift:40-50 | One more element is appended to its key's group, which is created when missing. Every other group stays the same. |
| Sequences.SelectIsSubsequence | Sources/Fx/Extensions/Sequences.swift:36-71 | A group keeps its elements in array order. |
| Sequences.SelectCounts | Sources/Fx/Extensions/Sequences.swift:36-71 | A group has one element per occurrence of its key. |
| Sequences.GroupByIndex | Sources/Fx/Extensions/Sequences.swift:37-53 | The loop builds the grouping of the elements by `f` of their index. |
| Sequences.GroupByElement | Sources/Fx/Extensions/Sequences.swift:55-71 | The loop builds the grouping of the elements by `f` of the element. |
| Sequences.GroupByElementPartitions | Sources/Fx/Extensions/Sequences.swift:55-71 | Grouping by element puts `e` in group `f(e)`. Each group holds exactly the elements mapped to its key, in order, and the group sizes add up to the count. |
| Sequences.GroupByIndexPartitions | Sources/Fx/Extensions/Sequences.swift:37-53 | Grouping by index puts the element at `i` in group `f(i)`. Each group holds exactly the elements whose index maps to its key, one per such index, in order, and the group sizes add up to the count. |
| Sequences.SelectContains | Sources/Fx/Extensions/Sequences.swift:36-71 | Every element belongs to the group of its own key. |
| Monoids.Combined | Source/Functional/Semigroup+Monoid.swift:18-24 | `combined([])` is `empty` and `combined([x])` is `x`. Longer arrays fold the tail into the first element, left to right. |
| Monoids.FoldFromEmpty | Source/Functional/Semigroup+Monoid.swift:1-9 | For a lawful monoid, folding from any start `a` is `a` combined with the fold from `empty`. |
| Monoids.FoldAppend | Source/Functional/Semigroup+Monoid.swift:1-9 | For a lawful monoid, folding a concatenation combines the two folds. |
| Monoids.CombinedIsFold | Source/Functional/Semigroup+Monoid.swift:17-24 | For a lawful monoid, `combined`'s three cases agree with one fold from `empty`, and `combined` is a homomorphism from array concatenation. |
| Monoids.CombinedFold | Source/Functional/Semigroup+Monoid.swift:17-24 | For a lawful monoid, `combined(xs)` is the fold of `xs` from `empty`. |
| Monoids.Unwrapped | Sources/Fx/Operators/Monoid+Operators.swift:8-10 | `unwrapped` (and `compact` of an optional monoid) is the payload, or `empty` for `nil`. |
| Monoids.OperatorsAgree | Sources/Fx/Operators/Monoid+Operators.swift:1-12 | `a + b` is `∑[a, b]`, `∑[a]` is `a`, and `∑[]` is `empty`. |
| Monoids.MakeFromEmpty | Source/Functional/Semigroup+Monoid.swift:28-30 | For a lawful monoid, `make { $0.combine(a) }` is `a`, and `make` with the identity mutation is `empty`. |
| Monoids.SumDisposables | Sources/Fx/Operators/Monoid+Operators.swift:4-6 | `∑` over disposables builds a composite holding exactly those disposables, in order, with consistent tokens. |
| Monoids.ArrayLawful | Sources/Fx/Extensions/Sequences.swift:82-85 | Arrays with `[]` and appending satisfy the monoid laws. |
| Monoids.StringLawful | Sources/Fx/Extensions/Sequences.swift:94-97 | Strings with `""` and appending satisfy the monoid laws. |
| Monoids.SetLawful | Sources/Fx/Extensions/Sequences.swift:90-93 | Sets with `[]` and union satisfy the monoid laws. |
| Monoids.DictionaryLawful | Sources/Fx/Extensions/Sequences.swift:86-89 | Dictionaries with `[:]` and right-biased merge satisfy the monoid laws. |
| Monoids.SumArrays | Sources/Fx/Extensions/Sequences.swift:82-85 | `∑` of arrays is their concatenation in order. |
| Monoids.FoldArrays | Sources/Fx/Extensions/Sequences.swift:82-85 | Folding arrays from `[]` concatenates them in order. |
| Monoids.SumDictionaries | Sources/Fx/Extensions/Sequences.swift:86-89 | In `∑` of dictionaries, the keys are the union of all keys. Each key's value comes from the right-most operand holding it. |
| Monoids.FoldDictionaries | Sources/Fx/Extensions/Sequences.swift:86-89 | Merging from `[:]`, left to right, keeps each key's right-most value. |
| Monoids.SumSets | Sources/Fx/Extensions/Sequences.swift:90-93 | An element is in `∑` of sets exactly when it is in one of them. |
| Monoids.FoldSets | Sources/Fx/Extensions/Sequences.swift:90-93 | An element is in the fold of sets from `[]` exactly when it is in one of them. |
| FunctionTypes.FunctionLaws | Source/Functions/FunctionType.swift:11-43 | Calling runs the wrapped closure, and `combined(f, g)` runs `f` and then `g`. `lift` and `id` call through. Pointwise, `combine` is associative and has `empty` as its identity. |
| FunctionTypes.FoldRuns | Source/Functions/FunctionType.swift:29-35 | Combining functions into an accumulator gives a pipeline that runs the accumulator, then each function in order. |
| FunctionTypes.RunAllCons | Source/Functions/FunctionType.swift:20-22 | Running a list of functions runs its head first, then the rest. |
| FunctionTypes.SumRunsInOrder | Source/Functions/FunctionType.swift:29-35 | `∑` of functions is the pipeline that runs them in array order, first element first. |
| Bools.Choose | Source/Extensions/Bool.swift:3-9 | `map(ifTrue:ifFalse:)` is the `ifTrue` branch for `true` and the `ifFalse` branch for `false`. |
| Bools.MapIfTrue | Source/Extensions/Bool.swift:11-21 | `map(ifTrue:)` is present exactly for `true`, holding the branch's value. |
| Bools.MapIfFalse | Source/Extensions/Bool.swift:15-25 | `map(ifFalse:)` is present exactly for `false`, holding the branch's value. |
| Bools.FlatMapIfTrue | Source/Extensions/Bool.swift:30-40 | `flatMap(ifTrue:)` is `nil` for `false` and the branch's optional for `true`. |
| Bools.FlatMapIfFalse | Source/Extensions/Bool.swift:34-44 | `flatMap(ifFalse:)` is `nil` for `true` and the branch's optional for `false`. |
| Bools.BoolOverloadsAgree | Source/Extensions/Bool.swift:1-45 | The `ifFalse` forms are the `ifTrue` forms on the negated flag. Two-branch `map` is one-branch `map` with a fallback. `flatMap` of a branch that always returns `.some` is `map`. |
| Common.Clamped | Source/Extensions/Common.swift:3-5 | `clamped(to:)` lies within the bounds. It is the value itself when inside them, and the nearer bound otherwise. |
| Common.Clamp | Source/Extensions/Common.swift:7-9 | `clamp(to:)` leaves the variable holding `clamped(to:)`: a value within the bounds, equal to the old one when that was already within them. |
| Common.ClampedProjects | Source/Extensions/Common.swift:3-5 | Clamping is idempotent and monotone. No point within the bounds is closer to the input than the clamped value. |
| Lifts.LiftArray | Sources/Fx/Functional/Lift.swift:8-10 | `Array.lift(x)` is the one-element array `[x]`. |
| Lifts.LiftOptional | Sources/Fx/Functional/Lift.swift:12-14 | `Optional.lift(x)` is `.some(x)`. |
| Lifts.LiftSucceeds | Sources/Fx/Functional/Lift.swift:16-22 | `Result.lift(x)` is `.success(x)`, and `Promise.lift(x)` is a promise already succeeded with `x`. |
| Lifts.LiftProperty | Sources/Fx/Functional/Lift.swift:24-26 | `Property.lift(x)` reads `x` and never sends. |
| Lifts.LiftIsNatural | Sources/Fx/Functional/Lift.swift:8-29 | Each `lift` agrees with that type's own `pure`, `.value` or `const`, and commutes with mapping a function over it. |
| Commands.NewCommandIsEmpty | Sources/Fx/Reactive/Command.swift:10-12 | A new command runs `action`, and its `results` signal has no observers. |
| Commands.Execute | Sources/Fx/Reactive/Command.swift:14-18 | `execute(x)` returns `f(x)` and delivers that same result once to each observer of `results`, in registration order. |
| Commands.ExecuteAll | Sources/Fx/Reactive/Command.swift:14-18 | Executing several inputs returns `f` of each, in order. |
| Commands.ResultsArriveInOrder | Sources/Fx/Reactive/Command.swift:1-18 | An observer registered once on `results` receives exactly the values the calls of `execute` returned, in order. |
| Commands.ExecuteAllStep | Sources/Fx/Reactive/Command.swift:14-18 | One more `execute` extends a once-registered observer's history by exactly its return value. |
| Closures.Copy | Source/Structs/Closures.swift:42-45 | `IO(copy:)` captures a fresh variable holding the value, and no other variable changes. |
| Closures.InitWrappedValue | Source/Structs/Closures.swift:19-21 | `IO(wrappedValue:)` is `IO(copy:)`. |
| Closures.SetValue | Source/Structs/Closures.swift:7-10 | Setting `value` makes the captured variable hold the new value, and every other variable keeps its value. |
| Closures.IOBehavesAsVariable | Source/Structs/Closures.swift:1-45 | An `IO` reads back the last value written through it, and a fresh copy reads its initial value. A write through one `IO` leaves other variables alone, and `readonly` sees every write made through its `IO`. |
| Closures.CopiesAreIndependent | Source/Structs/Closures.swift:42-45 | Two copies of one value start equal and are independent: writing one leaves the other holding the original. |
| Traces.Calls | Sources/Fx/Reactive/Signal.swift:17-19 | Delivering one value calls each sink once with it, in the order the bag lists them. |
| Traces.ReceivedCalls | Sources/Fx/Reactive/Signal.swift:17-19 | Across one delivery, an observer receives the value once per registration. |
| Traces.ReceivedAppend | Sources/Fx/Reactive/Signal.swift:13-21 | What an observer receives over two runs of deliveries is what it received in the first, then in the second. |
| Traces.Reverse | Source/Reactive/Disposable.swift:67-70 | `reversed()` lists the elements last to first. |
| Traces.ReverseMultiset | Source/Reactive/Disposable.swift:67-70 | Reversing keeps exactly the same elements, each as often, so every disposable is disposed. |

## Left out

- Locks, atomics and semaphores are not modelled: `Atomic`, `UnfairLock`, the per-signal `NSLock`, and the semaphore around each `onComplete` callback. They only serialise the transitions, so the model is single-threaded.
- `Promise.sendable`, `get()` and every `isolated*`/`Task` operation are not modelled. They only move work onto other executors.
- The async-throwing `Promise` initializer is not modelled, because its body is commented out and it never resolves.
- `delay`, `DispatchQueue.promise`, `run(after:)`, the Timer extensions and the dispatch scheduling inside `timeout` and `debounce` are not modelled. They need a real clock. `timeout` is modelled through its first-wins `lockResolve` and the order in which it registers `onComplete` and installs the timer, and `debounce` through timers that fire at their deadlines.
- Timing.ThrottleFiresIff: `throttle` reads `CACurrentMediaTime` in seconds and rounds the elapsed time to milliseconds. Here timestamps are whole milliseconds, so that rounding is the identity and floating point does not appear.
- The debug `print` inside `throttle` is left out. It is output only.
- `ExecutionContext`, `Signal.observe(ctx, f)` and `Fn.runTask`/`runSink`/`run`/`flatRun` are not modelled. They only choose where code runs.
- `Signal.throttled` and `Signal.debounced` are not modelled as signal operators. They wrap `Fn.throttle` and `Fn.debounce`, which are modelled.
- `Signal.asVoid` and `Promise.asVoid` are not modelled separately. Each is `map` with a constant closure.
- NotificationCenter, KVO and Timer bridges are not modelled. They are OS APIs.
- Weak and unowned references are not modelled: `weakify`, boxes, `capture`, and the `[weak self]` guard in the signal sink. A released signal is not modelled.
- `deinit` of the disposables is modelled as an explicit `dispose` call.
- `MutableProperty.readonly`, `projectedValue`, `wrappedValue` and `Property.init(_ property:)` are not modelled as members. They are views that share the same getter and signal, so they read and send exactly what the property does.
- `SignalPipe`, `cast`, `FunctionAliases`, the operator precedence declarations and `Package.swift` are not modelled. They are thin wrappers, runtime casts or build metadata.
- Properties.FoldValue: `fold` is modelled by the value it reads. The subscriptions it chains through `flatMap` are covered by the `flatMap` model of a single property.
- Properties.FlatMapSwitches: the value an inner property holds when it is observed is given by `f`, and each inner property's later values are events tagged with its number.
- Bags.Insert, and every member that inserts into a bag: requires fewer than `Int.max` elements, because a Swift array traps before holding more.
- Signals.Sink: inserts through the corrected `Bags.Insert` of the `Source/Bag.swift:30-39` finding. When the bag's counter is `UInt.max`, the source gives the new entry the last existing identifier instead, and an older handle can then remove it. Below `UInt.max` its contract states agreement with the as-written insert.
- Signals.Observe: inserts through the corrected `Bags.Insert` of the `Source/Bag.swift:30-39` finding. When the bag's counter is `UInt.max`, the source gives the new entry the last existing identifier instead, and an older handle can then remove it. Below `UInt.max`, `Signals.ObserveAgreesWithSource` proves that it agrees with the as-written insert.
- Signals.ObserveAll: inserts through the corrected `Bags.Insert` of the `Source/Bag.swift:30-39` finding. When the bag's counter is `UInt.max`, the source gives the new entry the last existing identifier instead, and an older handle can then remove it. It is built from `Signals.Observe`.
- Signals.DisposeObservationRemovesOnlyIt: inserts through the corrected `Bags.Insert` of the `Source/Bag.swift:30-39` finding. When the bag's counter is `UInt.max`, the source gives the new entry the last existing identifier instead, and an older handle can then remove it. Its validity conclusion holds for the corrected insert only.
- Disposables.AddDisposable: inserts through the corrected `Bags.Insert` of the `Source/Bag.swift:30-39` finding. When the bag's counter is `UInt.max`, the source gives the new entry the last existing identifier instead, and an older handle can then remove it. Below `UInt.max` its contract states agreement with the as-written insert.
- Disposables.PlusAssign: inserts through the corrected `Bags.Insert` of the `Source/Bag.swift:30-39` finding. When the bag's counter is `UInt.max`, the source gives the new entry the last existing identifier instead, and an older handle can then remove it. It is `Disposables.AddDisposable`.
- Disposables.PlusAssignAction: inserts through the corrected `Bags.Insert` of the `Source/Bag.swift:30-39` finding. When the bag's counter is `UInt.max`, the source gives the new entry the last existing identifier instead, and an older handle can then remove it. It goes through `Disposables.AddDisposable`.
- Disposables.AddThenDetach: inserts through the corrected `Bags.Insert` of the `Source/Bag.swift:30-39` finding. When the bag's counter is `UInt.max`, the source gives the new entry the last existing identifier instead, and an older handle can then remove it. Its validity conclusion holds for the corrected insert only.
- Properties.ObserveProperty: inserts through the corrected `Bags.Insert` of the `Source/Bag.swift:30-39` finding. When the bag's counter is `UInt.max`, the source gives the new entry the last existing identifier instead, and an older handle can then remove it. It registers through `Signals.Observe`.
- Properties.ObserveSeesValueThenChanges: inserts through the corrected `Bags.Insert` of the `Source/Bag.swift:30-39` finding. When the bag's counter is `UInt.max`, the source gives the new entry the last existing identifier instead, and an older handle can then remove it. It registers through `Properties.ObserveProperty`.
- Sequences.GroupWithPartitions: Swift dictionaries are unordered, so only the contents of a grouping are stated, not its iteration order.
- Monoids.DictionaryLawful: the merge is modelled as right-biased map union. Hash-table order is not modelled.
- The `Bool` overloads taking `@autoclosure` are modelled by the same members as the closure overloads. A branch is a thunk evaluated only when it is chosen.
- `Optional.compact` on a monoid payload is `Monoids.Unwrapped`. `Sequence.compact` is `Functions.Compact`.
- The superseded copies of the library are not modelled. These are everything under `Fx/`, and the older `Source/` files that `Sources/Fx/` or other `Source/` files replace: `Source/Signal.swift`, `Source/SignalPipe.swift`, `Source/Promise.swift`, `Source/PromiseOperations.swift`, `Source/Promise/`, `Source/Reactive/Signal.swift`, `Source/Reactive/Command.swift`, `Source/Reactive/Signal Operators/`, `Source/Command.swift`, `Source/Property.swift`, `Source/Stream.swift`, `Source/Throttle.swift`, `Source/Result.swift`, `Source/ResultType.swift`, `Source/Functions.swift`, `Source/FnFunctions.swift`, `Source/Operators.swift` and `Source/Application+Composition.swift`. They redefine the same types, and the older "throttle" is a trailing-edge debounce.
- `SerialDisposable` installs the new occupant and then disposes the old one. The model returns the new state together with the disposal, and the returned state already holds the new occupant. It does not state the order of the two steps.
- A child added to a composite that was already disposed is not disposed at once. The model keeps this, as the code does. `dispose` also restarts the identifiers at 0, so a handle returned before the dispose can detach a child added after it. `Disposables.StaleHandleDetachesLaterChild` shows this, and the model keeps it too.
- `IO(get:set:)` and `Readonly(get:)` over arbitrary closures are not modelled. Only `IO`s that capture a variable are, made by `IO(copy:)` or `IO(wrappedValue:)`, with `readonly` over their getter. Arbitrary closures would need code outside the model.
- Common.Clamped: modelled on `int` only. The source is generic over any `Comparable`, and the model does not state the generic version.

## Findings

| source | as written | input that shows it | evidently intended | confidence | as-written member | corrected member |
|---|---|---|---|---|---|---|
| Source/Bag.swift:30-39 | On counter overflow, `insert` calls `reindex`, which leaves `currentIdentifier` at `count - 1`, the last element's new identifier. `insert` then gives the new element that same identifier and stores the wrapped counter 0. | A bag holding `x` with identifier 5 and counter `UInt.max`; insert `y`. Both entries get identifier 0, and removing `x`'s token removes `y`. | After reindexing, the new element gets the fresh identifier `count`, so live identifiers stay unique and strictly increasing. | not executed | Bags.InsertAsWritten, Bags.InsertAsWrittenReusesIdentifier | Bags.Insert |
