/**
 The value cell behind `ReactiveProperty` and `ReadonlyReactiveProperty`, as a
 deterministic state machine. Values arrive on two channels — direct writes and an
 upstream source — merged into one stream in the order the caller interleaves them.
 With `DistinctUntilChanged` a value equal to the last accepted one is dropped
 outright. An accepted value becomes the latest value, is broadcast to subscribers
 and queues one `PropertyChanged` notification. Validators are represented by their
 latest output in the current join; once all of them have emitted, the aggregate
 becomes the current errors, is published on the error stream and queues one
 `ErrorsChanged` notification. Dispose stops both input channels and the validation,
 and completes and disposes the error stream: subscribing to it afterwards throws
 `ObjectDisposedException`. A validator added after Dispose still subscribes a join
 to the (disconnected, possibly replaying) value stream, but the already-disposed
 subscription holder tears that join down as soon as `SetValidateNotifyError` has
 subscribed it: only outputs the validators deliver synchronously during that call
 reach it. When such a join completes, the errors are updated and `ErrorsChanged`
 is queued; then publishing the aggregate on the disposed error stream throws, and
 the exception ends the call.
 */
module ReactivePropertyBase {
  import opened Runtime
  import opened Options
  import opened Distinct
  import opened Multicast
  import opened Validation

  /** The two `ReactivePropertyMode` flags. */
  datatype Mode = Mode(distinctUntilChanged: bool, raiseLatestValueOnSubscribe: bool)

  /** `ReactivePropertyMode.None`. */
  const NoFlags := Mode(false, false)

  /** `DistinctUntilChanged | RaiseLatestValueOnSubscribe`, the default of every constructor. */
  const DefaultMode := Mode(true, true)

  /** A notification handed to the scheduler, in the order it was scheduled. */
  datatype Notice = PropertyChanged | ErrorsChanged

  datatype Cell<T, E> = Cell(
    mode: Mode,
    sourced: bool,                                      // built on a real source, not `Observable.Never`
    latest: T,
    disposed: bool,
    stream: Channel<T>,                                 // the published stream; `published` is every accepted value
    validators: seq<Option<Nullable<ErrorOutput<E>>>>,  // latest output of each validator in the current join
    lateJoin: bool,                                     // a join started after `Dispose` is still inside its call
    errors: Errors<E>,
    errorStream: Channel<Errors<E>>,                    // `ObserveErrorChanged`
    rejected: seq<Errors<E>>,                           // aggregates of late joins; publishing each one threw
    pending: seq<Notice>)

  datatype Event<T, E> =
    | Write(value: T)                                   // the `InternalValue` setter
    | SourceEmit(value: T)                              // the upstream source produced a value
    | Subscribe                                         // a new observer of the value stream
    | SubscribeErrors                                   // a new observer of `ObserveErrorChanged`
    | AddValidator                                      // `SetValidateNotifyError`
    | ValidatorEmit(index: nat, output: Nullable<ErrorOutput<E>>)
    | Dispose

  /** The constructor: `sourced` is false for the public constructors, whose source never emits. */
  function New<T, E>(initialValue: T, mode: Mode, sourced: bool): Cell<T, E>
  {
    Cell(mode, sourced, initialValue, false, Empty(), [], false, Null, Empty(), [], [])
  }

  /**
   A new cell holds the initial value with the given mode, is live, has published
   nothing on either stream, and has no validators, no errors and nothing pending.
   */
  lemma NewIsFresh<T, E>(initialValue: T, mode: Mode, sourced: bool)
    ensures var c := New<T, E>(initialValue, mode, sourced);
      && c.mode == mode && c.sourced == sourced
      && c.latest == initialValue && !c.disposed && !HasErrors(c.errors) && c.pending == []
      && c.stream.published == [] && c.errorStream.published == [] && c.validators == []
      && !c.stream.completed && !c.errorStream.completed
  {
  }

  /** The value the dedupe stage compares against: the last accepted one, if any (no seed). */
  function LastAccepted<T, E>(c: Cell<T, E>): Option<T>
  {
    if |c.stream.published| == 0 then None else Some(Last(c.stream.published))
  }

  /** What a new subscriber is handed first: the current value when the mode replays it. */
  function Replay<T>(mode: Mode, current: T): seq<T>
  {
    if mode.raiseLatestValueOnSubscribe then [current] else []
  }

  /** A value reaching the merged stream: dropped after dispose or as a repeat, otherwise accepted. */
  function Accept<T(==), E>(c: Cell<T, E>, v: T): Cell<T, E>
  {
    if c.disposed then c
    else if c.mode.distinctUntilChanged && LastAccepted(c) == Some(v) then c
    else c.(latest := v, stream := Publish(c.stream, v), pending := c.pending + [PropertyChanged])
  }

  /** The outputs of a join in which every validator has emitted. */
  function Outputs<E>(slots: seq<Option<Nullable<ErrorOutput<E>>>>): (r: seq<Nullable<ErrorOutput<E>>>)
    requires forall k :: 0 <= k < |slots| ==> slots[k].IsSome()
    ensures |r| == |slots| && forall k :: 0 <= k < |slots| ==> slots[k] == Some(r[k])
  {
    seq(|slots|, k requires 0 <= k < |slots| && slots[k].IsSome() => slots[k].Get())
  }

  /** A join of `n` validators none of which has emitted yet. */
  function Unset<E>(n: nat): seq<Option<Nullable<ErrorOutput<E>>>>
  {
    if n == 0 then [] else Unset(n - 1) + [None]
  }

  /** A restarted join has one slot per validator, and none of them holds an output. */
  lemma {:induction false} UnsetIsEmpty<E>(n: nat)
    ensures |Unset<E>(n)| == n && forall k :: 0 <= k < n ==> Unset<E>(n)[k] == None
  {
    if n > 0 {
      UnsetIsEmpty<E>(n - 1);
    }
  }

  /**
   Validator `i` produced `output`: the join recomputes once every validator has emitted.
   Dispose tears the join down; a join started after Dispose takes outputs only while
   its `SetValidateNotifyError` call lasts. Publishing its aggregate on the disposed
   error stream throws, which `rejected` records, and the exception ends that call.
   */
  function Emit<T, E>(c: Cell<T, E>, i: nat, output: Nullable<ErrorOutput<E>>): Cell<T, E>
  {
    if (c.disposed && !c.lateJoin) || i >= |c.validators| then c
    else
      var slots := c.validators[i := Some(output)];
      if forall k | 0 <= k < |slots| :: slots[k].IsSome() then
        var errs := Aggregate(Outputs(slots));
        if c.disposed then
          c.(validators := slots, lateJoin := false, errors := errs, rejected := c.rejected + [errs],
             pending := c.pending + [ErrorsChanged])
        else
          c.(validators := slots, errors := errs, errorStream := Publish(c.errorStream, errs),
             pending := c.pending + [ErrorsChanged])
      else c.(validators := slots)
  }

  /**
   One event. Every event but a validator output is a new call on the cell, so the
   `SetValidateNotifyError` call that opened a join after Dispose has returned by
   then: that join is closed (`call`) before the event takes effect.
   */
  function Step<T(==), E>(c: Cell<T, E>, e: Event<T, E>): Cell<T, E>
  {
    var call := c.(lateJoin := false);
    match e
    case Write(v) => Accept(call, v)
    case SourceEmit(v) => if c.sourced then Accept(call, v) else call
    case Subscribe => call.(stream := Multicast.Subscribe(c.stream, Replay(c.mode, c.latest)))
    case SubscribeErrors => if c.disposed then call else call.(errorStream := Multicast.Subscribe(c.errorStream, []))
    case AddValidator => c.(validators := Unset(|c.validators| + 1), lateJoin := c.disposed)
    case ValidatorEmit(i, output) => Emit(c, i, output)
    case Dispose => if c.disposed then call else call.(disposed := true, errorStream := Complete(c.errorStream))
  }

  /**
   `ObserveErrorChanged.Subscribe(observer)`: a new observer of later aggregates, or
   `ObjectDisposedException` once the error stream has been disposed.
   */
  function ObserveErrorChanged<T(==), E>(c: Cell<T, E>): (r: Outcome<Cell<T, E>, ObjectDisposedException>)
    ensures r.Threw? <==> c.disposed
    ensures r.Returned? ==> |r.value.errorStream.subscribers| == |c.errorStream.subscribers| + 1
                            && r.value.errorStream.published == c.errorStream.published
                            && r.value.errors == c.errors && r.value.latest == c.latest
  {
    if c.disposed then Threw(ObjectDisposed) else Returned(Step(c, SubscribeErrors))
  }

  /** The state after the events `es`, in order. */
  function Run<T(==), E>(c: Cell<T, E>, es: seq<Event<T, E>>): Cell<T, E>
  {
    if |es| == 0 then c else Step(Run(c, es[..|es| - 1]), Last(es))
  }

  /** The `InternalValue` getter. */
  function Value<T, E>(c: Cell<T, E>): T
  {
    c.latest
  }

  /** `GetErrors(propertyName)`: the current aggregate, whatever property is asked about. */
  function GetErrors<T, E, P>(c: Cell<T, E>, propertyName: P): Errors<E>
  {
    c.errors
  }

  // ---------------------------------------------------------------------------
  // The reference pipeline: merge, then dedupe.

  predicate DisposedIn<T, E>(es: seq<Event<T, E>>)
  {
    exists i | 0 <= i < |es| :: es[i].Dispose?
  }

  /** The merged input: written values and (on a real source) source values, up to the first dispose. */
  function Inputs<T, E>(sourced: bool, es: seq<Event<T, E>>): seq<T>
  {
    if |es| == 0 then []
    else
      var init := es[..|es| - 1];
      if DisposedIn(init) then Inputs(sourced, init)
      else match Last(es)
        case Write(v) => Inputs(sourced, init) + [v]
        case SourceEmit(v) => Inputs(sourced, init) + (if sourced then [v] else [])
        case _ => Inputs(sourced, init)
  }

  /** What the merged stream lets through under `mode`. */
  function Pipeline<T(==)>(mode: Mode, vs: seq<T>): seq<T>
  {
    if mode.distinctUntilChanged then DistinctUntilChanged(vs) else vs
  }

  lemma DisposedInSnoc<T, E>(es: seq<Event<T, E>>)
    requires |es| > 0
    ensures DisposedIn(es) <==> DisposedIn(es[..|es| - 1]) || Last(es).Dispose?
  {
    var init := es[..|es| - 1];
    if DisposedIn(es) && !Last(es).Dispose? {
      var i :| 0 <= i < |es| && es[i].Dispose?;
      assert init[i] == es[i];
    }
    if DisposedIn(init) {
      var i :| 0 <= i < |init| && init[i].Dispose?;
      assert es[i] == init[i];
    }
  }

  /**
   On a disposed cell no event changes the value, the accepted stream or the error
   stream, and subscribing to the error stream (which throws) changes nothing but
   closing a late join. Only an output that reaches a join started after Dispose can
   change the errors and the notifications. Only a new validator opens such a join,
   and it stays open only through further outputs that do not complete it.
   */
  lemma StepWhenDisposed<T, E>(c: Cell<T, E>, e: Event<T, E>)
    requires c.disposed
    ensures var d := Step(c, e);
      d.disposed && d.latest == c.latest && d.stream.published == c.stream.published
      && d.errorStream == c.errorStream && d.mode == c.mode && d.sourced == c.sourced
      && (e.SubscribeErrors? ==> d == c.(lateJoin := false))
      && d.lateJoin == (e.AddValidator? || (e.ValidatorEmit? && c.lateJoin && d.rejected == c.rejected))
      && (!(e.ValidatorEmit? && c.lateJoin) ==> d.errors == c.errors && d.pending == c.pending && d.rejected == c.rejected)
  {
  }

  /**
   The cell is the pipeline: after any events, the accepted stream is the merged
   input up to the first dispose, deduped when the mode says so, and the value is
   the last accepted one or the initial value when nothing was accepted.
   */
  lemma {:induction false} RunIsPipeline<T, E>(initialValue: T, mode: Mode, sourced: bool, es: seq<Event<T, E>>)
    ensures OnPipeline(Run(New(initialValue, mode, sourced), es), initialValue, mode, sourced, es)
  {
    if |es| > 0 {
      var init := es[..|es| - 1];
      assert es == init + [Last(es)];
      RunIsPipeline(initialValue, mode, sourced, init);
      PipelineStep(Run(New<T, E>(initialValue, mode, sourced), init), initialValue, mode, sourced, init, Last(es));
    }
  }

  /** The state a cell reached through `es` is the reference pipeline's. */
  ghost predicate OnPipeline<T, E>(c: Cell<T, E>, initialValue: T, mode: Mode, sourced: bool, es: seq<Event<T, E>>)
  {
    && c.stream.published == Pipeline(mode, Inputs(sourced, es))
    && c.latest == LatestOf(initialValue, c.stream.published)
    && c.disposed == DisposedIn(es) && !c.stream.completed
    && c.mode == mode && c.sourced == sourced
  }

  lemma PipelineStep<T, E>(c: Cell<T, E>, initialValue: T, mode: Mode, sourced: bool, es: seq<Event<T, E>>, e: Event<T, E>)
    requires OnPipeline(c, initialValue, mode, sourced, es)
    ensures OnPipeline(Step(c, e), initialValue, mode, sourced, es + [e])
  {
    var es' := es + [e];
    assert es'[..|es|] == es;
    DisposedInSnoc(es');
    if DisposedIn(es) {
      assert Inputs(sourced, es') == Inputs(sourced, es);
      StepWhenDisposed(c, e);
    } else if e.Write? || e.SourceEmit? {
      ValuePipelineStep(c, initialValue, mode, sourced, es, e);
    } else {
      assert Inputs(sourced, es') == Inputs(sourced, es);
    }
  }

  lemma ValuePipelineStep<T, E>(c: Cell<T, E>, initialValue: T, mode: Mode, sourced: bool, es: seq<Event<T, E>>, e: Event<T, E>)
    requires OnPipeline(c, initialValue, mode, sourced, es) && !DisposedIn(es)
    requires e.Write? || e.SourceEmit?
    ensures OnPipeline(Step(c, e), initialValue, mode, sourced, es + [e])
  {
    var es' := es + [e];
    assert es'[..|es|] == es;
    DisposedInSnoc(es');
    var ins := Inputs(sourced, es);
    if e.Write? || sourced {
      assert Inputs(sourced, es') == ins + [e.value];
      assert Step(c, e) == Accept(c.(lateJoin := false), e.value);
      AcceptIsPipelineStep(c.(lateJoin := false), initialValue, ins, e.value);
    } else {
      assert Inputs(sourced, es') == ins + [];
      assert ins + [] == ins;
    }
  }

  /** One accepted-or-dropped input extends the pipeline by exactly what the dedupe rule allows. */
  lemma AcceptIsPipelineStep<T, E>(c: Cell<T, E>, initialValue: T, ins: seq<T>, v: T)
    requires !c.disposed && !c.stream.completed
    requires c.stream.published == Pipeline(c.mode, ins)
    requires c.latest == LatestOf(initialValue, c.stream.published)
    ensures Accept(c, v).stream.published == Pipeline(c.mode, ins + [v])
    ensures Accept(c, v).latest == LatestOf(initialValue, Accept(c, v).stream.published)
    ensures !Accept(c, v).disposed && !Accept(c, v).stream.completed
  {
    if c.mode.distinctUntilChanged {
      DistinctSnoc(ins, v);
      var out := DistinctUntilChanged(ins);
      assert |out| == 0 <==> |ins| == 0;
      assert |ins| > 0 ==> Last(out) == Last(ins);
    }
  }

  // ---------------------------------------------------------------------------
  // Consequences of the pipeline.

  /** With `DistinctUntilChanged`, the accepted stream never holds two equal neighbours. */
  lemma DedupedStreamHasNoRepeats<T, E>(initialValue: T, mode: Mode, sourced: bool, es: seq<Event<T, E>>)
    requires mode.distinctUntilChanged
    ensures NoRepeats(Run(New(initialValue, mode, sourced), es).stream.published)
  {
    RunIsPipeline(initialValue, mode, sourced, es);
    DistinctHasNoRepeats(Inputs(sourced, es));
  }

  /** With mode `None`, every input before dispose is accepted, repeats included. */
  lemma NoFlagsAcceptsEverything<T, E>(initialValue: T, sourced: bool, es: seq<Event<T, E>>)
    ensures Run(New(initialValue, NoFlags, sourced), es).stream.published == Inputs(sourced, es)
  {
    RunIsPipeline(initialValue, NoFlags, sourced, es);
  }

  /** Under concurrent writers: no more values are accepted than were written, and the value is one of them or the initial one. */
  lemma ValueIsSomeInput<T, E>(initialValue: T, mode: Mode, sourced: bool, es: seq<Event<T, E>>)
    ensures var c := Run(New(initialValue, mode, sourced), es);
      |c.stream.published| <= |Inputs(sourced, es)|
      && (c.latest == initialValue || (|Inputs(sourced, es)| > 0 && c.latest == Last(Inputs(sourced, es))))
  {
    RunIsPipeline(initialValue, mode, sourced, es);
  }

  /** Dedupe has no seed: writing the initial value to a fresh cell is accepted and notified. */
  lemma FirstWriteOfInitialIsAccepted<T, E>(initialValue: T, mode: Mode, sourced: bool)
    ensures var c := Step(New<T, E>(initialValue, mode, sourced), Write(initialValue));
      c.stream.published == [initialValue] && c.pending == [PropertyChanged]
  {
  }

  /**
   A repeated value is dropped entirely under `DistinctUntilChanged`: nothing about the
   cell changes, except that, as with every call, a join opened after Dispose is closed.
   */
  lemma RepeatIsDropped<T, E>(c: Cell<T, E>, v: T)
    requires c.mode.distinctUntilChanged && LastAccepted(c) == Some(v)
    ensures Step(c, Write(v)) == c.(lateJoin := false)
    ensures c.sourced ==> Step(c, SourceEmit(v)) == c.(lateJoin := false)
  {
  }

  /**
   An accepted write is recorded as the value and delivered to every subscriber,
   with one `PropertyChanged` queued; without dedupe every write before dispose is accepted.
   */
  lemma WriteIsAccepted<T, E>(c: Cell<T, E>, v: T)
    requires !c.disposed
    requires !c.mode.distinctUntilChanged || LastAccepted(c) != Some(v)
    requires !c.stream.completed
    ensures var d := Step(c, Write(v));
      && d.latest == v && LastAccepted(d) == Some(v)
      && d.stream.published == c.stream.published + [v]
      && (forall i :: 0 <= i < |c.stream.subscribers| ==>
            d.stream.subscribers[i].received == c.stream.subscribers[i].received + [v])
      && d.pending == c.pending + [PropertyChanged]
  {
  }

  // ---------------------------------------------------------------------------
  // The invariant of every reachable cell.

  ghost predicate Inv<T, E>(c: Cell<T, E>, initialValue: T)
  {
    && c.latest == LatestOf(initialValue, c.stream.published)
    && Valid(c.stream) && !c.stream.completed
    && (forall i :: 0 <= i < |c.stream.subscribers| ==>
          var s := c.stream.subscribers[i];
          s.joinedAt <= |c.stream.published|
          && s.replayed == Replay(c.mode, LatestOf(initialValue, c.stream.published[..s.joinedAt])))
    && Valid(c.errorStream) && c.errorStream.completed == c.disposed
    && c.errors == LatestOf(LatestOf(Null, c.errorStream.published), c.rejected)
    && (c.lateJoin || |c.rejected| > 0 ==> c.disposed)
    && Count(c.pending, PropertyChanged) == |c.stream.published|
    && Count(c.pending, ErrorsChanged) == |c.errorStream.published| + |c.rejected|
  }

  /** A new cell satisfies the invariant. */
  lemma NewKeepsInv<T, E>(initialValue: T, mode: Mode, sourced: bool)
    ensures Inv(New<T, E>(initialValue, mode, sourced), initialValue)
  {
  }

  lemma CountSnoc<X>(s: seq<X>, x: X, y: X)
    ensures Count(s + [x], y) == Count(s, y) + (if x == y then 1 else 0)
  {
    assert multiset(s + [x]) == multiset(s) + multiset{x};
  }

  lemma AcceptKeepsInv<T, E>(c: Cell<T, E>, initialValue: T, v: T)
    requires Inv(c, initialValue)
    ensures Inv(Accept(c, v), initialValue)
  {
    var d := Accept(c, v);
    if d != c {
      CountSnoc(c.pending, PropertyChanged, PropertyChanged);
      CountSnoc(c.pending, PropertyChanged, ErrorsChanged);
      forall i | 0 <= i < |d.stream.subscribers|
        ensures d.stream.subscribers[i].joinedAt <= |d.stream.published|
        ensures d.stream.subscribers[i].replayed
             == Replay(d.mode, LatestOf(initialValue, d.stream.published[..d.stream.subscribers[i].joinedAt]))
      {
        var j := c.stream.subscribers[i].joinedAt;
        assert d.stream.published[..j] == c.stream.published[..j];
      }
    }
  }

  lemma EmitKeepsInv<T, E>(c: Cell<T, E>, initialValue: T, i: nat, output: Nullable<ErrorOutput<E>>)
    requires Inv(c, initialValue)
    ensures Inv(Emit(c, i, output), initialValue)
  {
    if !((c.disposed && !c.lateJoin) || i >= |c.validators|) {
      var slots := c.validators[i := Some(output)];
      if forall k | 0 <= k < |slots| :: slots[k].IsSome() {
        var errs := Aggregate(Outputs(slots));
        if c.disposed {
          assert Emit(c, i, output) == c.(validators := slots, lateJoin := false, errors := errs, rejected := c.rejected + [errs],
                                          pending := c.pending + [ErrorsChanged]);
          RejectKeepsInv(c, initialValue, slots, errs);
        } else {
          assert Emit(c, i, output) == c.(validators := slots, errors := errs, errorStream := Publish(c.errorStream, errs),
                                          pending := c.pending + [ErrorsChanged]);
          PublishErrorsKeepsInv(c, initialValue, slots, errs);
        }
      } else {
        assert Emit(c, i, output) == c.(validators := slots);
        SlotsKeepInv(c, initialValue, slots);
      }
    }
  }

  lemma SlotsKeepInv<T, E>(c: Cell<T, E>, initialValue: T, slots: seq<Option<Nullable<ErrorOutput<E>>>>)
    requires Inv(c, initialValue)
    ensures Inv(c.(validators := slots), initialValue)
  {
  }

  lemma SubscribeErrorsKeepsInv<T, E>(c: Cell<T, E>, initialValue: T)
    requires Inv(c, initialValue)
    ensures Inv(c.(errorStream := Multicast.Subscribe(c.errorStream, [])), initialValue)
  {
  }

  lemma AddValidatorKeepsInv<T, E>(c: Cell<T, E>, initialValue: T, slots: seq<Option<Nullable<ErrorOutput<E>>>>)
    requires Inv(c, initialValue)
    ensures Inv(c.(validators := slots, lateJoin := c.disposed), initialValue)
  {
  }

  lemma DisposeKeepsInv<T, E>(c: Cell<T, E>, initialValue: T)
    requires Inv(c, initialValue) && !c.disposed
    ensures Inv(c.(disposed := true, lateJoin := false, errorStream := Complete(c.errorStream)), initialValue)
  {
  }

  lemma RejectKeepsInv<T, E>(c: Cell<T, E>, initialValue: T, slots: seq<Option<Nullable<ErrorOutput<E>>>>, errs: Errors<E>)
    requires Inv(c, initialValue) && c.disposed
    ensures Inv(c.(validators := slots, lateJoin := false, errors := errs, rejected := c.rejected + [errs],
                   pending := c.pending + [ErrorsChanged]), initialValue)
  {
    CountSnoc(c.pending, ErrorsChanged, PropertyChanged);
    CountSnoc(c.pending, ErrorsChanged, ErrorsChanged);
  }

  lemma PublishErrorsKeepsInv<T, E>(c: Cell<T, E>, initialValue: T, slots: seq<Option<Nullable<ErrorOutput<E>>>>, errs: Errors<E>)
    requires Inv(c, initialValue) && !c.disposed
    ensures Inv(c.(validators := slots, errors := errs, errorStream := Publish(c.errorStream, errs),
                   pending := c.pending + [ErrorsChanged]), initialValue)
  {
    CountSnoc(c.pending, ErrorsChanged, PropertyChanged);
    CountSnoc(c.pending, ErrorsChanged, ErrorsChanged);
  }

  lemma CloseKeepsInv<T, E>(c: Cell<T, E>, initialValue: T)
    requires Inv(c, initialValue)
    ensures Inv(c.(lateJoin := false), initialValue)
  {
  }

  lemma SubscribeKeepsInv<T, E>(c: Cell<T, E>, initialValue: T)
    requires Inv(c, initialValue)
    ensures Inv(c.(stream := Multicast.Subscribe(c.stream, Replay(c.mode, c.latest))), initialValue)
  {
    assert c.stream.published[..|c.stream.published|] == c.stream.published;
  }

  lemma StepKeepsInv<T, E>(c: Cell<T, E>, initialValue: T, e: Event<T, E>)
    requires Inv(c, initialValue)
    ensures Inv(Step(c, e), initialValue)
    ensures Step(c, e).mode == c.mode && Step(c, e).sourced == c.sourced
  {
    var call := c.(lateJoin := false);
    CloseKeepsInv(c, initialValue);
    match e
    case Write(v) => AcceptKeepsInv(call, initialValue, v);
    case SourceEmit(v) => if c.sourced { AcceptKeepsInv(call, initialValue, v); }
    case Subscribe => SubscribeKeepsInv(call, initialValue);
    case SubscribeErrors => if !c.disposed { SubscribeErrorsKeepsInv(call, initialValue); }
    case AddValidator => AddValidatorKeepsInv(c, initialValue, Unset(|c.validators| + 1));
    case ValidatorEmit(i, output) => EmitKeepsInv(c, initialValue, i, output);
    case Dispose => if !c.disposed { DisposeKeepsInv(call, initialValue); }
  }

  /** Every cell reachable from the constructor satisfies the invariant. */
  lemma {:induction false} RunKeepsInv<T, E>(initialValue: T, mode: Mode, sourced: bool, es: seq<Event<T, E>>)
    ensures Inv(Run(New(initialValue, mode, sourced), es), initialValue)
    ensures Run(New<T, E>(initialValue, mode, sourced), es).mode == mode
  {
    if |es| == 0 {
      NewKeepsInv<T, E>(initialValue, mode, sourced);
    } else {
      RunKeepsInv(initialValue, mode, sourced, es[..|es| - 1]);
      StepKeepsInv(Run(New<T, E>(initialValue, mode, sourced), es[..|es| - 1]), initialValue, Last(es));
    }
  }

  /**
   What a subscriber sees: with `RaiseLatestValueOnSubscribe`, first the value the
   cell held when it subscribed, then every value accepted afterwards; without it,
   only the values accepted afterwards.
   */
  lemma SubscriberSeesReplayThenLaterValues<T, E>(initialValue: T, mode: Mode, sourced: bool,
                                                      es: seq<Event<T, E>>, i: int)
    requires 0 <= i < |Run(New<T, E>(initialValue, mode, sourced), es).stream.subscribers|
    ensures var c := Run(New<T, E>(initialValue, mode, sourced), es);
      var s := c.stream.subscribers[i];
      && s.joinedAt <= |c.stream.published|
      && s.received == Replay(mode, LatestOf(initialValue, c.stream.published[..s.joinedAt]))
                       + c.stream.published[s.joinedAt..]
  {
    RunKeepsInv(initialValue, mode, sourced, es);
    var c := Run(New<T, E>(initialValue, mode, sourced), es);
    assert SawFromJoin(c.stream.subscribers[i], c.stream.published);
    SinceIsSuffix(c.stream.published, c.stream.subscribers[i].joinedAt);
  }

  /**
   Notifications: one `PropertyChanged` per accepted value and one `ErrorsChanged`
   per recomputed aggregate, published or (after Dispose) rejected; the current
   errors are the last aggregate (null before the first). Before Dispose nothing is
   rejected, and `HasErrors` holds exactly when the last published aggregate is non-null.
   */
  lemma NotificationsMatchChanges<T, E>(initialValue: T, mode: Mode, sourced: bool, es: seq<Event<T, E>>)
    ensures var c := Run(New<T, E>(initialValue, mode, sourced), es);
      && Count(c.pending, PropertyChanged) == |c.stream.published|
      && Count(c.pending, ErrorsChanged) == |c.errorStream.published| + |c.rejected|
      && c.errors == LatestOf(LatestOf(Null, c.errorStream.published), c.rejected)
      && (!DisposedIn(es) ==> c.rejected == [])
      && (c.rejected == [] ==>
            (HasErrors(c.errors) <==> |c.errorStream.published| > 0 && Last(c.errorStream.published).Val?))
  {
    RunKeepsInv(initialValue, mode, sourced, es);
    RunIsPipeline(initialValue, mode, sourced, es);
  }

  // ---------------------------------------------------------------------------
  // Dispose and validators.

  /** A second `Dispose` changes nothing. */
  lemma DisposeIdempotent<T, E>(c: Cell<T, E>)
    ensures Step(Step(c, Dispose), Dispose) == Step(c, Dispose)
  {
  }

  /**
   No validator added in `es` receives an output during its own `SetValidateNotifyError`
   call: no `AddValidator` is directly followed by a validator output.
   */
  predicate NoOutputDuringAdd<T, E>(es: seq<Event<T, E>>)
  {
    forall k :: 0 < k < |es| && es[k].ValidatorEmit? ==> !es[k - 1].AddValidator?
  }

  /**
   After `Dispose`, no sequence of events changes the value, the accepted stream or
   the error stream. The errors and the notifications stay as they were too, unless
   a validator added afterwards receives an output during its own call: an output
   that arrives after that call has returned changes nothing.
   */
  lemma {:induction false} DisposedCellIsFrozen<T, E>(c: Cell<T, E>, es: seq<Event<T, E>>)
    requires c.disposed
    ensures var d := Run(c, es);
      && d.disposed && d.latest == c.latest && d.stream.published == c.stream.published
      && d.errorStream == c.errorStream
      && (!c.lateJoin && NoOutputDuringAdd(es) ==>
            (d.lateJoin ==> |es| > 0 && Last(es).AddValidator?)
            && d.errors == c.errors && d.pending == c.pending && d.rejected == c.rejected)
  {
    if |es| > 0 {
      var init := es[..|es| - 1];
      assert forall k :: 0 <= k < |init| ==> init[k] == es[k];
      DisposedCellIsFrozen(c, init);
      var d0 := Run(c, init);
      StepWhenDisposed(d0, Last(es));
      if !c.lateJoin && NoOutputDuringAdd(es) && Last(es).ValidatorEmit? && d0.lateJoin {
        assert false;
      }
    }
  }

  /**
   An output that arrives after the `SetValidateNotifyError` call on a disposed cell
   has returned finds the join torn down: the errors, the notifications and the
   error stream are as Dispose left them.
   */
  lemma OutputAfterLateAddIsIgnored(msg: string)
    ensures var c := Step(Step(Step(Step(New<int, int>(0, DefaultMode, false), Dispose), AddValidator), Subscribe),
                          ValidatorEmit(0, OfString(Val(msg))));
      && c.errors == Null && !HasErrors(c.errors) && c.rejected == [] && c.pending == []
      && c.errorStream.published == [] && c.errorStream.completed && !c.lateJoin
  {
  }

  /**
   A join started after `Dispose`: when its last missing validator emits, the errors
   become the aggregate and `ErrorsChanged` is queued, but the disposed error stream
   publishes nothing, since publishing throws; the aggregate is recorded as rejected.
   */
  lemma LateJoinThrows<T, E>(c: Cell<T, E>, i: nat, output: Nullable<ErrorOutput<E>>)
    requires c.disposed && c.lateJoin && i < |c.validators|
    requires forall k :: 0 <= k < |c.validators| && k != i ==> c.validators[k].IsSome()
    ensures var d := Step(c, ValidatorEmit(i, output));
      && d.validators == c.validators[i := Some(output)]
      && d.errors == Aggregate(Outputs(d.validators)) && d.rejected == c.rejected + [d.errors]
      && d.pending == c.pending + [ErrorsChanged]
      && d.errorStream == c.errorStream && d.latest == c.latest && d.stream == c.stream
      && !d.lateJoin
  {
  }

  /** `SetValidateNotifyError` appends a validator and restarts the join: no validator has emitted into it yet, and the errors stay as they were. */
  lemma AddValidatorRestartsJoin<T, E>(c: Cell<T, E>)
    ensures var d := Step(c, AddValidator);
      |d.validators| == |c.validators| + 1
      && (forall k :: 0 <= k < |d.validators| ==> !d.validators[k].IsSome())
      && d.errors == c.errors && d.pending == c.pending
  {
    UnsetIsEmpty<E>(|c.validators| + 1);
  }

  /**
   When the last validator still missing from the join emits, the errors become the
   aggregate over all validators' latest outputs, old and new, and are published and notified.
   */
  lemma EmitCompletingJoinRecomputes<T, E>(c: Cell<T, E>, i: nat, output: Nullable<ErrorOutput<E>>)
    requires !c.disposed && i < |c.validators|
    requires forall k :: 0 <= k < |c.validators| && k != i ==> c.validators[k].IsSome()
    ensures var d := Step(c, ValidatorEmit(i, output));
      var outs := Outputs(d.validators);
      && outs[i] == output
      && (forall k :: 0 <= k < |c.validators| && k != i ==> c.validators[k] == Some(outs[k]))
      && d.errors == Aggregate(outs)
      && (HasErrors(d.errors) <==> exists k :: 0 <= k < |outs| && outs[k].Val?)
      && d.errorStream.published == c.errorStream.published + (if c.errorStream.completed then [] else [d.errors])
      && d.pending == c.pending + [ErrorsChanged]
  {
  }

  /** While some validator has not emitted into the join, an output only updates its slot. */
  lemma EmitIncompleteJoinWaits<T, E>(c: Cell<T, E>, i: nat, j: nat, output: Nullable<ErrorOutput<E>>)
    requires i < |c.validators| && j < |c.validators| && j != i && !c.validators[j].IsSome()
    ensures var d := Step(c, ValidatorEmit(i, output));
      d.errors == c.errors && d.pending == c.pending && d.errorStream == c.errorStream
      && (!c.disposed ==> d.validators == c.validators[i := Some(output)])
  {
    var slots := c.validators[i := Some(output)];
    assert !slots[j].IsSome();
  }

  /** `GetErrors` ignores its argument, and `HasErrors` is exactly "the errors are non-null". */
  lemma GetErrorsIgnoresName<T, E, P>(c: Cell<T, E>, a: P, b: P)
    ensures GetErrors(c, a) == GetErrors(c, b)
    ensures HasErrors(GetErrors(c, a)) <==> c.errors != Null
  {
  }

  // ---------------------------------------------------------------------------
  // Scenarios.

  /** With replay, a subscriber that joins a fresh cell and then sees the initial value written gets it twice. */
  lemma ReplayThenUnseededRepeat<E>()
    ensures var c := Run(New<int, E>(0, DefaultMode, false), [Subscribe, Write(0)]);
      c.stream.subscribers[0].received == [0, 0]
  {
    var es: seq<Event<int, E>> := [Subscribe, Write(0)];
    assert es[..1] == [Subscribe];
    assert es[..1][..0] == [];
  }

  /** With a single validator, each of its outputs replaces the errors with that output's aggregate. */
  lemma SingleValidatorEmit<T, E>(c: Cell<T, E>, output: Nullable<ErrorOutput<E>>)
    requires !c.disposed && |c.validators| == 1 && !c.errorStream.completed
    ensures var d := Step(c, ValidatorEmit(0, output));
      d.validators == [Some(output)] && d.errors == Aggregate([output])
      && d.errorStream.published == c.errorStream.published + [Aggregate([output])]
      && d.latest == c.latest && d.disposed == c.disposed && d.stream == c.stream
      && !d.errorStream.completed
  {
    assert Outputs([Some(output)]) == [output];
  }

  /** The aggregate of a single null output is null. */
  lemma NullAggregate<E>()
    ensures Aggregate<E>([Null]) == Null
  {
    var xs: seq<Nullable<ErrorOutput<E>>> := [Null];
    assert xs[0].Null?;
  }

  /** A fresh cell given one validator that reports no error has published one null error state and no value. */
  lemma ValidatedFreshCell<T, E>(initialValue: T, mode: Mode, sourced: bool)
    ensures var c := Step(Step(New<T, E>(initialValue, mode, sourced), AddValidator), ValidatorEmit(0, Null));
      && c.validators == [Some(Null)] && c.errorStream.published == [Null] && c.errors == Null
      && c.stream.published == [] && LastAccepted(c) == None && c.latest == initialValue
      && !c.disposed && !c.errorStream.completed && !c.stream.completed
  {
    var c0 := New<T, E>(initialValue, mode, sourced);
    var c1 := Step(c0, AddValidator);
    assert Unset<E>(0 + 1) == [None];
    assert c1 == c0.(validators := [None]);
    SingleValidatorEmit(c1, Null);
    NullAggregate<E>();
  }

  /**
   With a single validator, a fresh write followed by the validator's output for it
   leaves the written value current and the output's aggregate as the errors.
   */
  lemma WriteThenValidate<T, E>(c: Cell<T, E>, v: T, output: Nullable<ErrorOutput<E>>)
    requires !c.disposed && |c.validators| == 1 && !c.errorStream.completed && !c.stream.completed
    requires LastAccepted(c) != Some(v)
    ensures var d := Step(Step(c, Write(v)), ValidatorEmit(0, output));
      && d.latest == v && LastAccepted(d) == Some(v)
      && d.errors == Aggregate([output])
      && d.errorStream.published == c.errorStream.published + [Aggregate([output])]
      && d.validators == [Some(output)] && !d.disposed && !d.errorStream.completed && !d.stream.completed
  {
    var w := Step(c, Write(v));
    assert w.validators == c.validators && w.errorStream == c.errorStream && !w.disposed;
    assert w.latest == v && w.stream.published == c.stream.published + [v] && !w.stream.completed;
    SingleValidatorEmit(w, output);
  }

  /** The aggregate of a single string output is that one message. */
  lemma MessageAggregate<E>(msg: string)
    ensures Aggregate<E>([OfString(Val(msg))]) == Val([Message(msg)])
  {
    var out: Nullable<ErrorOutput<E>> := OfString(Val(msg));
    assert [out][..0] == [] && Last([out]) == Val(Text(msg));
    assert Strings([out]) == [Message(msg)];
    assert Others([out]) == [];
    assert [out][0].Val?;
    assert Aggregate([out]) == Val(Strings([out]) + Others([out]));
    assert Strings([out]) + Others([out]) == [Message(msg)];
  }

  /**
   A validator reporting negative values: its output for 0, then -1, then 2 yields
   error states null, non-null, null on the error stream.
   */
  lemma NegativeValidatorScenario(msg: string)
    ensures var neg: Nullable<ErrorOutput<int>> := OfString(Val(msg));
      var c := Step(Step(Step(Step(Step(Step(New<int, int>(0, DefaultMode, false),
                 AddValidator), ValidatorEmit(0, Null)), Write(-1)), ValidatorEmit(0, neg)),
                 Write(2)), ValidatorEmit(0, Null));
      && c.latest == 2
      && c.errorStream.published == [Null, Val([Message(msg)]), Null]
      && !HasErrors(c.errors)
  {
    var neg: Nullable<ErrorOutput<int>> := OfString(Val(msg));
    ValidatedFreshCell<int, int>(0, DefaultMode, false);
    var c2 := Step(Step(New<int, int>(0, DefaultMode, false), AddValidator), ValidatorEmit(0, Null));
    WriteThenValidate(c2, -1, neg);
    MessageAggregate<int>(msg);
    var c4 := Step(Step(c2, Write(-1)), ValidatorEmit(0, neg));
    WriteThenValidate(c4, 2, Null);
  }

  /**
   A validator given to a disposed default cell reports a message: `HasErrors`
   becomes true and `ErrorsChanged` is queued, while the error stream stays as
   Dispose left it (completed, nothing published) because the publication throws.
   */
  lemma ValidatorAfterDisposeScenario(msg: string)
    ensures var c := Step(Step(Step(New<int, int>(0, DefaultMode, false), Dispose), AddValidator),
                          ValidatorEmit(0, OfString(Val(msg))));
      && c.errors == Val([Message(msg)]) && HasErrors(c.errors)
      && c.rejected == [c.errors] && c.errorStream.published == [] && c.errorStream.completed
      && c.pending == [ErrorsChanged] && c.latest == 0 && !c.lateJoin
  {
    var c1 := Step(Step(New<int, int>(0, DefaultMode, false), Dispose), AddValidator);
    assert Unset<int>(0 + 1) == [None];
    assert c1.validators == [None] && c1.lateJoin && c1.disposed;
    LateJoinThrows(c1, 0, OfString(Val(msg)));
    assert c1.validators[0 := Some(OfString<int>(Val(msg)))] == [Some(OfString(Val(msg)))];
    assert Outputs([Some(OfString<int>(Val(msg)))]) == [OfString(Val(msg))];
    MessageAggregate<int>(msg);
  }
}
