# Utilities: Option/Result algebra and reactive properties, in Dafny

This project models two parts of the C# `Utilities` library and proves properties of
the models.

- **`Utilities.Functional`.** `Option<T>` (`Some`, and one shared `None`),
  `Result<TSuccess, TFailure>` (`Success` / `Failure`) and the sequence helpers
  `Choose`, `TryFind` and `Get` from `LinqExtensions`. C# `null` is explicit: the
  `Nullable<T> = Null | Val(v)` wrapper. A delegate that may throw is an
  `Outcome<T, X> = Returned(v) | Threw(e)`.
- **`Utilities.Reactive`.** The value cell `ReactivePropertyBase<T>` and its two thin
  subclasses `ReactiveProperty<T>` and `ReadonlyReactiveProperty<T>`, plus the command
  gate `ReactiveCommand<T>`. Each is a deterministic state machine. An event stands
  for a call or a value arriving (a write, a source value, a subscription, a
  validator output, a dispose). `Run` folds a sequence of events from the end, so
  proofs about traces go by induction on prefixes.

Modules, one file each:

| module | file | models |
|---|---|---|
| `Runtime` | runtime.dfy | C# null, throwing calls, `Last`, `LatestOf`, `Count` |
| `Options` | options.dfy | Option.cs, Some.cs, None.cs |
| `Results` | results.dfy | Result.cs, Success.cs, Failure.cs |
| `Linq` | linq.dfy | LinqExtensions.cs |
| `Distinct` | distinct.dfy | Rx `DistinctUntilChanged` as a reference function on sequences |
| `Multicast` | multicast.dfy | an Rx `Subject`: the values published, and what each subscriber received |
| `Validation` | validation.dfy | the error aggregation of `SetValidateNotifyError` |
| `ReactivePropertyBase` | reactive_property_base.dfy | the value cell |
| `ReactiveProperty` | reactive_property.dfy | the read/write wrapper |
| `ReadonlyReactiveProperty` | readonly_reactive_property.dfy | the read-only wrapper |
| `ReactiveCommand` | reactive_command.dfy | the command gate |

The main results:

- **The value cell is its pipeline.** Source values and direct writes are merged,
  deduplicated under `DistinctUntilChanged` and published. For any trace,
  `RunIsPipeline` proves two things. The accepted stream equals `Pipeline(mode,
  Inputs(es))`, that is, the merged inputs up to the first dispose, passed through the
  reference `DistinctUntilChanged`. The value is the last accepted value, or the
  initial value when nothing has been accepted. The invariant `Inv` holds in every
  reachable state. It says every subscriber received its replay followed by every
  value accepted after it joined. It also says there is exactly one pending
  `PropertyChanged` per accepted value and one `ErrorsChanged` per aggregate, whether it
  was published or, after dispose, its publication threw.
- **The command gate follows its references.** `RunFollows` proves that `CanExecute`,
  the `CanExecuteChanged` log and the parameters forwarded to the trigger all equal
  reference functions of the trace. `Signals` is the deduplicated source values before
  dispose. `Fired` is every `Execute` call, plus every `ICommand.Execute` call made
  while the flag was up.
- **Error aggregation is a stable partition.** The aggregate is the in-place flattening
  of all validator outputs with the messages moved first. It is therefore a
  permutation of that flattening.

Four behaviours of the code worth knowing:

- Disposing the value cell does not complete its value stream. The code only
  disconnects the source. A subscriber that joins afterwards still gets the current
  value when the cell replays.
- Adding a validator rebuilds the `CombineLatest` join over all validators. No new
  aggregate is produced until every validator, old and new, has emitted into the new
  join.
- Calling the command's `Execute(T)` after `Dispose` throws. The trigger `Subject` has
  been disposed, and using a disposed Rx `Subject` throws `ObjectDisposedException`.
  It is not a silent no-op.
- Dispose completes and disposes the error `Subject`. Subscribing to `ObserveErrorChanged`
  afterwards throws `ObjectDisposedException`. A validator added afterwards still
  subscribes a join, but Dispose already disposed the holder of that subscription, so
  the join is torn down as soon as `SetValidateNotifyError` has subscribed it. Only
  outputs the validators deliver synchronously during that call reach it. If they
  complete it, the errors are updated and `ErrorsChanged` is queued. Then publishing
  the aggregate throws, and the exception ends the call. Outputs arriving after the
  call has returned change nothing.

## Model

| member | source | states |
|---|---|---|
| Options.Option.Get | Utilities.Functional/Some.cs:19-22 | `Get` is defined only on a present option and returns the value it wraps; `None.Get` throws, so it is a precondition |
| Options.Option.Select | Utilities.Functional/Some.cs:24-27 | `Select` keeps presence and applies the selector to the payload; a present option stays present whatever the selector returns, null included |
| Options.Option.SelectMany | Utilities.Functional/Some.cs:14-17 | `SelectMany` on `Some(v)` is the selector's option for `v`; on `None` it is `None` |
| Options.Option.Where | Utilities.Functional/Some.cs:29-32 | the result is present exactly when the option is present and its payload satisfies the predicate, and is then the same option |
| Options.Option.Iter | Utilities.Functional/Some.cs:34-37 | the action is called exactly once, with the payload, on `Some`, and never on `None` |
| Options.Option.Match | Utilities.Functional/None.cs:43-46 | `Match` applies the `some` branch to the payload when present and returns the `none` thunk's value when absent |
| Options.Option.Or | Utilities.Functional/None.cs:48-51 | `Or(fallback)` is the payload when present and the fallback's value when absent |
| Options.Option.OrOption | Utilities.Functional/None.cs:53-56 | `Or(fallbackOption)` is the option itself when present and the fallback option when absent |
| Options.Option.OfType | Utilities.Functional/None.cs:58-61 | the result is present exactly when the payload passes the runtime type test, and then holds the converted payload; `None` gives `None` |
| Options.Option.NoneEquals | Utilities.Functional/None.cs:9-12 | `None.Equals(obj)` is true exactly when `obj` is the (shared) `None` |
| Options.AsOption | Utilities.Functional/Option.cs:23-26 | `AsOption` is present exactly for a non-null value and then holds that value |
| Options.Try | Utilities.Functional/Option.cs:28-38 | `Try` is present exactly when the selector returned, and then holds its return value without a null test; a throw gives `None` |
| Options.NoneIsShared | Utilities.Functional/None.cs:9-17 | any two `None`s are the same value, equal to each other, and hash to 0 |
| Options.MatchDefinesTheRest | Utilities.Functional/Option.cs:9-21 | `Select`, `SelectMany`, `Where`, both `Or`s and the identity are each an instance of `Match` |
| Options.SelectFunctor | Utilities.Functional/Some.cs:24-27 | `Select` preserves identity and composition |
| Options.SelectManyMonad | Utilities.Functional/Some.cs:14-17 | `Some` is a left and right identity of `SelectMany`, and `SelectMany` is associative |
| Options.SelectAndWhereViaSelectMany | Utilities.Functional/Some.cs:24-32 | `Select` and `Where` are `SelectMany` with `Some` of the mapped value and with a guarded `Some` |
| Options.WhereComposes | Utilities.Functional/Some.cs:29-32 | two `Where`s filter by the conjunction, and `Where` is idempotent |
| Options.OfTypeIsWhereThenSelect | Utilities.Functional/None.cs:58-61 | `OfType` equals filtering on the type test and then converting |
| Options.IterAgreesWithGet | Utilities.Functional/Some.cs:19-37 | `Iter` passes the action exactly what `Get` returns, once; on `None` it calls nothing |
| Options.OrOptionMonoid | Utilities.Functional/None.cs:53-56 | `Or(fallbackOption)` is associative with `None` as left and right unit |
| Options.AsOptionRoundTrip | Utilities.Functional/Option.cs:23-26 | `AsOption(x).Or(() => null)` and the matching `Match` give back `x` |
| Options.TryAndSelectKeepNull | Utilities.Functional/Option.cs:28-33 | a selector returning null makes `Try` give `Some(null)` where `AsOption` gives `None`, and `Select` to null keeps an option present |
| Results.Result.Get | Utilities.Functional/Success.cs:24-27 | `Get` is defined only on a success and returns its value; `Failure.Get` throws, so it is a precondition |
| Results.Result.Select | Utilities.Functional/Success.cs:19-22 | `Select` keeps success or failure, applies the selector to a success value and keeps a failure's message |
| Results.Result.SelectMany | Utilities.Functional/Success.cs:29-32 | on a success it is the selector's result; on a failure it is a failure with the same message |
| Results.Result.Where | Utilities.Functional/Success.cs:34-37 | a success passing the predicate and any failure are returned unchanged; a success failing it becomes a failure with the thunk's message |
| Results.Result.Iter | Utilities.Functional/Success.cs:39-42 | the action is called exactly once, with the value, on a success, and never on a failure |
| Results.Result.Match | Utilities.Functional/Success.cs:44-47 | `Match` applies the success branch to the value, or the failure branch to the message |
| Results.Result.Or | Utilities.Functional/Success.cs:49-52 | `Or(fallback)` is the success value, or the fallback's value on a failure |
| Results.Result.OrResult | Utilities.Functional/Success.cs:54-57 | `Or(fallbackResult)` is the result itself on a success, or the fallback's result on a failure |
| Results.Result.OfType | Utilities.Functional/Success.cs:59-63 | a success passing the type test becomes a success of the converted value; one failing it becomes a failure with the thunk's message; a failure keeps its message |
| Results.AsResult | Utilities.Functional/Result.cs:29-32 | `AsResult` succeeds exactly for a non-null value and holds it; for null it is a failure with the given message |
| Results.FailCarriesMessage | Utilities.Functional/Result.cs:34-37 | `Fail` is a failure carrying exactly the given message |
| Results.Try | Utilities.Functional/Result.cs:39-49 | `Try` succeeds exactly when the selector returned, with its value and no null test; on a throw the message is `failure` applied to the exception |
| Results.MatchDefinesTheRest | Utilities.Functional/Result.cs:10-24 | `Select`, `SelectMany`, `Where`, both `Or`s and the identity are each an instance of `Match` |
| Results.SelectFunctor | Utilities.Functional/Success.cs:19-22 | `Select` preserves identity and composition |
| Results.SelectManyMonad | Utilities.Functional/Success.cs:29-32 | `Success` is a left and right identity of `SelectMany`, and `SelectMany` is associative |
| Results.FailurePropagates | Utilities.Functional/Failure.cs:19-41 | a failure passes through `Select`, `SelectMany`, `Where` and `OfType` with its message intact, and `Iter` calls nothing |
| Results.OfTypeIsWhereThenSelect | Utilities.Functional/Success.cs:59-63 | `OfType` equals `Where` on the type test followed by `Select` of the conversion |
| Results.AsResultAgreesWithAsOption | Utilities.Functional/Result.cs:29-32 | `AsResult` succeeds exactly when `AsOption` is present, and `Or(() => null)` gives the value back |
| Results.TryKeepsNull | Utilities.Functional/Result.cs:39-43 | a selector returning null makes `Try` a success of null, while `AsResult(null)` is a failure |
| Linq.Choose | Utilities.Functional/LinqExtensions.cs:10-15 | `Choose` yields at most as many elements as its input |
| Linq.TryFind | Utilities.Functional/LinqExtensions.cs:17-24 | the result is `AsOption` of the first element satisfying the predicate, and `None` when no element does; so a present result is a non-null matching element of the input |
| Linq.WhereStartsAtFirstMatch | Utilities.Functional/LinqExtensions.cs:19-21 | when position i holds the first match, the filtered sequence is non-empty and starts with that element |
| Linq.Get | Utilities.Functional/LinqExtensions.cs:26-36 | `Get(index)` is `AsOption` of the element for an index in range, and `None` for any other index (the exception is caught) |
| Linq.ChooseIsPresentPayloadsInOrder | Utilities.Functional/LinqExtensions.cs:10-15 | the k-th result is the payload of the k-th position whose selector result is present; those positions increase and include every present one |
| Linq.ChooseConcat | Utilities.Functional/LinqExtensions.cs:10-15 | `Choose` distributes over concatenation |
| Linq.ChooseAsOptionDropsNulls | Utilities.Functional/LinqExtensions.cs:10-15 | `Choose` with `AsOption` keeps exactly the non-null elements, in order |
| Linq.TryFindFirstMatch | Utilities.Functional/LinqExtensions.cs:17-24 | when position i holds the first match, `TryFind` is `AsOption` of that element, so a null first match gives `None` even if a later match exists |
| Linq.TryFindNoMatch | Utilities.Functional/LinqExtensions.cs:17-24 | with no match, `TryFind` is `None` |
| Linq.GetFirstIsTryFindAny | Utilities.Functional/LinqExtensions.cs:26-36 | `Get(0)` equals `TryFind` with a predicate every element satisfies |
| Distinct.DistinctUntilChanged | Utilities.Reactive/ReactivePropertyBase.cs:97-98 | the deduplicated stream is no longer than its input, and starts and ends with the input's first and last values |
| Distinct.DistinctHasNoRepeats | Utilities.Reactive/ReactivePropertyBase.cs:97-98 | the deduplicated stream never has two equal neighbours |
| Distinct.DistinctCons | Utilities.Reactive/ReactivePropertyBase.cs:98 | a value put in front of the input appears in front of the output unless it equals the input's old first value |
| Distinct.DistinctSnoc | Utilities.Reactive/ReactivePropertyBase.cs:98 | a new value extends the deduplicated stream exactly when it differs from the previous input value; the stage has no seed |
| Distinct.DistinctIdempotent | Utilities.Reactive/ReactiveCommand.cs:103-104 | deduplicating twice is the same as deduplicating once |
| Validation.OfStringKeepsText | Utilities.Reactive/ReactivePropertyBase.cs:234-237 | a string validator output is null exactly when the string is null, and otherwise is one message carrying that string |
| Validation.Aggregate | Utilities.Reactive/ReactivePropertyBase.cs:204-217 | the aggregate is null exactly when every validator output is null, including when there are no validators |
| Validation.Strings | Utilities.Reactive/ReactivePropertyBase.cs:209-211 | the string part holds only messages |
| Validation.Others | Utilities.Reactive/ReactivePropertyBase.cs:212-215 | the collection part holds only collection elements |
| Validation.PartsAreKindsOfFlatten | Utilities.Reactive/ReactivePropertyBase.cs:209-215 | the string part is the messages of the in-place flattening of all outputs, and the collection part is its elements, each in validator order |
| Validation.AggregateIsStablePartition | Utilities.Reactive/ReactivePropertyBase.cs:204-217 | with some non-null output, the aggregate is every message in order followed by every collection element in order |
| Validation.AggregateKeepsEveryEntry | Utilities.Reactive/ReactivePropertyBase.cs:204-217 | the aggregate is a permutation of all entries of all outputs: nothing is lost or duplicated |
| Validation.EmptyCollectionIsAnError | Utilities.Reactive/ReactivePropertyBase.cs:286-289 | a validator returning an empty, non-null collection yields an empty, non-null aggregate, so `HasErrors` is true |
| ReactivePropertyBase.NewIsFresh | Utilities.Reactive/ReactivePropertyBase.cs:91-127 | a new cell holds the initial value with the given mode, is live, has published nothing on either stream, has no validators, no errors and no pending notification |
| ReactivePropertyBase.NewKeepsInv | Utilities.Reactive/ReactivePropertyBase.cs:91-127 | a new cell satisfies the invariant every reachable cell keeps |
| ReactivePropertyBase.StepWhenDisposed | Utilities.Reactive/ReactivePropertyBase.cs:137-166 | on a disposed cell no event changes the value, the accepted stream or the error stream; a subscription to the error stream changes nothing else; adding a validator opens a late join, any other call closes it, and an output keeps it open only until it completes the join; only an output into an open late join changes the errors or the notifications |
| ReactivePropertyBase.RunIsPipeline | Utilities.Reactive/ReactivePropertyBase.cs:97-104 | after any events, the accepted stream is the merged writes and source values before the first dispose, deduplicated when the mode says so; the value is the last accepted value or the initial value |
| ReactivePropertyBase.AcceptIsPipelineStep | Utilities.Reactive/ReactivePropertyBase.cs:97-104 | one write or source value extends the accepted stream exactly as the merge-then-dedupe pipeline does, and updates the value to match |
| ReactivePropertyBase.DedupedStreamHasNoRepeats | Utilities.Reactive/ReactivePropertyBase.cs:97-98 | with `DistinctUntilChanged`, no two consecutive accepted values are equal |
| ReactivePropertyBase.NoFlagsAcceptsEverything | Utilities.Reactive/ReactivePropertyBase.cs:97-98 | with mode `None`, every write and source value before dispose is accepted, repeats included |
| ReactivePropertyBase.ValueIsSomeInput | Utilities.Reactive/ReactivePropertyBase.cs:99-104 | no more values are accepted than arrived, and the value is the initial value or the last input |
| ReactivePropertyBase.FirstWriteOfInitialIsAccepted | Utilities.Reactive/ReactivePropertyBase.cs:93-98 | dedupe has no seed: writing the initial value to a fresh cell is accepted and queues one `PropertyChanged` |
| ReactivePropertyBase.RepeatIsDropped | Utilities.Reactive/ReactivePropertyBase.cs:97-104 | under `DistinctUntilChanged`, a repeat of the last accepted value, written or from the source, leaves the cell unchanged except that, like every call, it closes a join opened after dispose |
| ReactivePropertyBase.WriteIsAccepted | Utilities.Reactive/ReactivePropertyBase.cs:135-141 | an accepted write becomes the value, is delivered to every current subscriber and queues one `PropertyChanged` |
| ReactivePropertyBase.StepKeepsInv | Utilities.Reactive/ReactivePropertyBase.cs:91-166 | every event preserves the invariant and leaves the mode and source kind unchanged |
| ReactivePropertyBase.RunKeepsInv | Utilities.Reactive/ReactivePropertyBase.cs:91-166 | every cell reachable from the constructor satisfies the invariant |
| ReactivePropertyBase.SubscriberSeesReplayThenLaterValues | Utilities.Reactive/ReactivePropertyBase.cs:107-110 | a subscriber receives the value current when it joined if the mode replays, and then exactly the values accepted after it joined |
| ReactivePropertyBase.NotificationsMatchChanges | Utilities.Reactive/ReactivePropertyBase.cs:113-123 | exactly one `PropertyChanged` per accepted value and one `ErrorsChanged` per aggregate, published or rejected after dispose; the errors are the last aggregate; without dispose nothing is rejected, and with nothing rejected `HasErrors` holds exactly when the last published aggregate is non-null |
| ReactivePropertyBase.DisposeIdempotent | Utilities.Reactive/ReactivePropertyBase.cs:155-159 | a second `Dispose` changes nothing |
| ReactivePropertyBase.DisposedCellIsFrozen | Utilities.Reactive/ReactivePropertyBase.cs:155-166 | after `Dispose` no events change the value, the accepted stream or the error stream; unless some validator added after dispose is directly followed by an output, that is, receives an output during its own call, the errors and the notifications stay as they were, and a late join is open only right after `AddValidator` |
| ReactivePropertyBase.OutputAfterLateAddIsIgnored | Utilities.Reactive/ReactivePropertyBase.cs:155-203 | dispose, add a validator, make another call, then deliver a message output: the join was torn down when the add returned, so the errors stay null and nothing is queued or published |
| ReactivePropertyBase.ObserveErrorChanged | Utilities.Reactive/ReactivePropertyBase.cs:155-183 | subscribing to the error stream throws exactly when the cell is disposed; otherwise it adds one subscriber and publishes nothing |
| ReactivePropertyBase.LateJoinThrows | Utilities.Reactive/ReactivePropertyBase.cs:196-225 | when a join started after dispose completes, the errors become the aggregate and `ErrorsChanged` is queued, but nothing is published: the aggregate is recorded as rejected because the disposed `Subject` throws, and the join is closed because the exception ends the call |
| ReactivePropertyBase.ValidatorAfterDisposeScenario | Utilities.Reactive/ReactivePropertyBase.cs:155-227 | dispose, then one validator reporting a message: the errors hold that message and `HasErrors` is true, one `ErrorsChanged` is queued, and the completed error stream published nothing |
| ReactivePropertyBase.AddValidatorRestartsJoin | Utilities.Reactive/ReactivePropertyBase.cs:196-203 | adding a validator appends one and restarts the join with no validator emitted yet; the current errors stay as they were |
| ReactivePropertyBase.UnsetIsEmpty | Utilities.Reactive/ReactivePropertyBase.cs:196-203 | the restarted join has exactly one slot per validator and none of them holds an output yet |
| ReactivePropertyBase.EmitCompletingJoinRecomputes | Utilities.Reactive/ReactivePropertyBase.cs:202-225 | when the last missing validator emits, the errors become the aggregate over every validator's latest output, old and new; they are published and one `ErrorsChanged` is queued |
| ReactivePropertyBase.EmitIncompleteJoinWaits | Utilities.Reactive/ReactivePropertyBase.cs:202-203 | while some validator has not emitted into the join, an output only updates its own slot |
| ReactivePropertyBase.SingleValidatorEmit | Utilities.Reactive/ReactivePropertyBase.cs:218-225 | with one validator, each of its outputs replaces the errors with that output's aggregate and publishes it |
| ReactivePropertyBase.GetErrorsIgnoresName | Utilities.Reactive/ReactivePropertyBase.cs:279-289 | `GetErrors` gives the same errors for every property name, and `HasErrors` is "the errors are non-null" |
| ReactivePropertyBase.ReplayThenUnseededRepeat | Utilities.Reactive/ReactivePropertyBase.cs:93-110 | a replaying subscriber of a fresh cell that then sees the initial value written receives that value twice |
| ReactivePropertyBase.ValidatedFreshCell | Utilities.Reactive/ReactivePropertyBase.cs:196-227 | a new cell given one validator that reports no error has published one null error state, no value, and has no errors |
| ReactivePropertyBase.WriteThenValidate | Utilities.Reactive/ReactivePropertyBase.cs:196-227 | with one validator, a fresh write and the validator's output for it leave the written value current and that output's aggregate as the published errors |
| ReactivePropertyBase.MessageAggregate | Utilities.Reactive/ReactivePropertyBase.cs:206-216 | the aggregate of one string output is a single message carrying that string |
| ReactivePropertyBase.NullAggregate | Utilities.Reactive/ReactivePropertyBase.cs:206-207 | the aggregate of one null output is null |
| ReactivePropertyBase.NegativeValidatorScenario | Utilities.Reactive/ReactivePropertyBase.cs:274-277 | a string validator whose outputs for 0, -1 and 2 are null, a message, null publishes error states null, one message, null, and leaves no errors |
| ReactiveProperty.ConstructorsStartAtInitial | Utilities.Reactive/ReactiveProperty.cs:24-64 | every constructor gives a live cell satisfying the invariant that holds the initial value (`default(T)` for the parameterless one, which also sets both `DistinctUntilChanged` and `RaiseLatestValueOnSubscribe`) with the given mode; only the internal ones follow a source |
| ReactiveProperty.SetValue | Utilities.Reactive/ReactiveProperty.cs:15 | after dispose the setter changes nothing but closing a join opened after dispose; an accepted value becomes `Value` and queues one `PropertyChanged`; a repeat under dedupe changes nothing |
| ReactiveProperty.ReadYourWrite | Utilities.Reactive/ReactiveProperty.cs:12-16 | on a live property, reading `Value` after setting it returns the value set |
| ReactiveProperty.PublicPropertyIgnoresSource | Utilities.Reactive/ReactiveProperty.cs:40-46 | a publicly constructed property is unaffected by the source channel, apart from the closing of a join opened after dispose that every call causes |
| ReactiveProperty.SubscribersAgreeAfterJoin | Utilities.Reactive/ReactiveProperty.cs:24-28 | two subscribers that joined a default property at the same point receive the same values: the replayed value plus every later accepted one |
| ReadonlyReactiveProperty.ConstructorsStartAtInitial | Utilities.Reactive/ReadonlyReactiveProperty.cs:24-64 | every constructor gives a live cell holding the initial value (`default(T)` for the parameterless one, which also sets both `DistinctUntilChanged` and `RaiseLatestValueOnSubscribe` and equals the parameterless `ReactiveProperty`) with the given mode; only the internal one follows a source |
| ReadonlyReactiveProperty.InputsWithoutWrites | Utilities.Reactive/ReadonlyReactiveProperty.cs:12-16 | without direct writes, the merged input is the source's values before dispose, or nothing on a never-emitting source |
| ReadonlyReactiveProperty.PublicReadonlyIsConstant | Utilities.Reactive/ReadonlyReactiveProperty.cs:40-46 | a publicly constructed read-only property keeps its initial value forever and never raises `PropertyChanged` |
| ReadonlyReactiveProperty.SourcedReadonlyFollowsSource | Utilities.Reactive/ReadonlyReactiveProperty.cs:49-64 | a source-backed read-only property publishes the source's values before dispose, deduplicated under the mode, and holds the last of them or the initial value |
| ReactiveCommand.NewIsIdle | Utilities.Reactive/ReactiveCommand.cs:99-121 | a new command's `CanExecute` is the initial value; it is live and has raised nothing; its trigger is open, and its only observer is the action when one was given |
| ReactiveCommand.AlwaysEnabledStartsEnabled | Utilities.Reactive/ReactiveCommand.cs:70-73 | the parameterless command starts executable, with no source and no action |
| ReactiveCommand.CanExecuteFor | Utilities.Reactive/ReactiveCommand.cs:126-129 | `ICommand.CanExecute(parameter)` is `CanExecute()`, whatever the parameter |
| ReactiveCommand.CanExecuteIgnoresParameter | Utilities.Reactive/ReactiveCommand.cs:125-129 | any two parameters give the same `CanExecute` answer |
| ReactiveCommand.Deliver | Utilities.Reactive/ReactiveCommand.cs:103-111 | a source value is dropped after dispose or when equal to the last one let through; otherwise it becomes `CanExecute` and raises `CanExecuteChanged` once |
| ReactiveCommand.Execute | Utilities.Reactive/ReactiveCommand.cs:182-185 | `Execute(T)` pushes its parameter whatever `CanExecute` says and changes no flag; it throws exactly when the command is disposed |
| ReactiveCommand.CommandExecute | Utilities.Reactive/ReactiveCommand.cs:132-138 | `ICommand.Execute` is `Execute` while `CanExecute` holds, and otherwise does nothing |
| ReactiveCommand.ExecuteWithoutParameter | Utilities.Reactive/ReactiveCommand.cs:51-55 | the non-generic `Execute()` pushes null |
| ReactiveCommand.Subscribe | Utilities.Reactive/ReactiveCommand.cs:170-173 | subscribing adds one observer and publishes nothing; it throws exactly when the command is disposed |
| ReactiveCommand.Dispose | Utilities.Reactive/ReactiveCommand.cs:143-167 | a second dispose changes nothing; the first completes the trigger, leaves `CanExecute` false and raises `CanExecuteChanged(false)` exactly when the flag was up |
| ReactiveCommand.RunFollows | Utilities.Reactive/ReactiveCommand.cs:99-185 | after any calls, the flag, the dedupe memory, the `CanExecuteChanged` log, the forwarded parameters and the trigger's completion are the reference functions of the trace |
| ReactiveCommand.CanExecuteFollowsSource | Utilities.Reactive/ReactiveCommand.cs:103-111 | `CanExecute` holds exactly when not disposed and the last delivered source value (or the initial value) is true; the change log is the deduplicated source values, plus a final false when dispose dropped the flag |
| ReactiveCommand.DisposedIsNotExecutable | Utilities.Reactive/ReactiveCommand.cs:157-162 | once disposed, the command is not executable and its trigger is completed, whatever happens afterwards |
| ReactiveCommand.ActionSeesEveryExecution | Utilities.Reactive/ReactiveCommand.cs:114-121 | the action is called with exactly the forwarded parameters: every `Execute` before dispose and every `ICommand.Execute` while executable |
| ReactiveCommand.AlwaysEnabledUntilDisposed | Utilities.Reactive/ReactiveCommand.cs:70-73 | without a source the command stays executable and raises nothing until dispose, which raises one `false` |
| ReactiveCommand.FirstSignalAlwaysRaises | Utilities.Reactive/ReactiveCommand.cs:103-104 | the source's first value raises `CanExecuteChanged` even when it equals the initial value |
| ReactiveCommand.DisposeIdempotent | Utilities.Reactive/ReactiveCommand.cs:143-147 | disposing twice equals disposing once |

## Left out

- Scheduling and threads: `ObserveOn(scheduler)`, `raiseEventScheduler.Schedule` and `UIDispatcherScheduler` are not modelled. A notification is appended to an ordered queue (`pending`, `changes`) when it is scheduled. A command's source value is one event at the moment it is delivered. Concurrent writers are one interleaved sequence of events.
- Event-handler null checks: the model assumes a `PropertyChanged`, `ErrorsChanged` or `CanExecuteChanged` handler is attached. With none attached the source schedules nothing. Handler attachment is not part of the state.
- What validators compute: a validator is a function of the value stream and cannot be seen here. Its outputs are `ValidatorEmit` events supplied by the caller. The Task-based overloads (ReactivePropertyBase.cs lines 244-257) therefore reduce to the same events. So do the `Func<T, …>` overloads and the immediate re-emission when the value replays on subscription.
- Unsubscribing: the `IDisposable` returned by `Subscribe` is not modelled. A subscriber stays subscribed.
- Errors raised by sources (`OnError`) and exceptions thrown by delegates other than the selectors of `Try`: not modelled. Delegates are pure functions. `Iter`'s side effect is the list of calls it makes.
- `ReactivePropertyBase.ToString` (lines 168-173) and the `object`-typed `IReactiveProperty.Value`: left out, because they are presentation only.
- ICommand's `(T)parameter` cast: left out. The parameter already has type `T`, so the cast's `InvalidCastException` cannot occur.
- The `ToReactiveCommand` extension methods (ReactiveCommand.cs lines 188-236) and `ReactiveExtensions.cs`, `ReactivePropertyExtensions.cs`, `Unit.cs`: left out, because they only forward to the modelled constructors or lie outside this core.
- `_isValueChanged` in the value cell: left out, because it is written but never read.
- `default(T)`: passed in as a parameter (`CreateDefault(defaultValue)`).
- Equality: C# `Some` and `Success` have no `Equals` override and compare by reference. The model compares values structurally.
- Options.Option.OfType / Results.Result.OfType: the runtime type test `is R` and the conversion are parameters (`isR`, `convert`). Nothing ties them to the CLR type system; in particular `isR(Null)` is not constrained to be false, although C# `null is R` is false.
- Linq.Choose: its own contract states only the length bound. The full characterisation is `Linq.ChooseIsPresentPayloadsInOrder`.
- ReactiveProperty.SetValue: its acceptance clause also requires the value stream to be open. That holds in every cell reachable from a constructor, because `Inv` includes it.
- Results.FailCarriesMessage: the success type is fixed by the caller, as in C#'s `Result<TSuccess, TFailure>.Fail`.
- ReactivePropertyBase.LateJoinThrows: the `ObjectDisposedException` that ends `SetValidateNotifyError` on a disposed cell is recorded in `rejected`, not returned to its caller. The synchronous outputs during that call are separate `ValidatorEmit` events after `AddValidator`, so no single step carries the call's result.
