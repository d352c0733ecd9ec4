/**
 `ReactiveProperty<T>`: the value cell with a public getter and setter. The public
 constructors build it on a source that never emits; the internal ones (used by
 `ToReactiveProperty`) on a real source. C#'s `default(T)` is passed in explicitly.
 */
module ReactiveProperty {
  import opened Runtime
  import opened Options
  import opened Multicast
  import opened ReactivePropertyBase

  /** The public constructors: `initialValue` and `mode`, on a source that never emits. */
  function Create<T, E>(initialValue: T, mode: Mode): Cell<T, E>
  {
    New(initialValue, mode, false)
  }

  /** The parameterless constructor: `default(T)` with both mode flags. */
  function CreateDefault<T, E>(defaultValue: T): Cell<T, E>
  {
    Create(defaultValue, DefaultMode)
  }

  /** The internal constructors behind `ToReactiveProperty`: the cell follows `source` as well. */
  function FromSource<T, E>(initialValue: T, mode: Mode): Cell<T, E>
  {
    New(initialValue, mode, true)
  }

  /**
   Every constructor gives a live cell, satisfying the invariant, that holds its
   initial value (`default(T)` for the parameterless one) with the requested mode;
   only the internal ones follow a source.
   */
  lemma ConstructorsStartAtInitial<T, E>(initialValue: T, mode: Mode)
    ensures var c := Create<T, E>(initialValue, mode);
      Value(c) == initialValue && c.mode == mode && !c.sourced
      && Inv(c, initialValue) && !c.disposed && c.pending == []
    ensures var c := CreateDefault<T, E>(initialValue);
      Value(c) == initialValue && c.mode.distinctUntilChanged && c.mode.raiseLatestValueOnSubscribe
      && !c.sourced
    ensures var c := FromSource<T, E>(initialValue, mode);
      Value(c) == initialValue && c.mode == mode && c.sourced
      && Inv(c, initialValue) && !c.disposed
  {
    NewKeepsInv<T, E>(initialValue, mode, false);
    NewKeepsInv<T, E>(initialValue, mode, true);
  }

  /** The `Value` setter. */
  function SetValue<T(==), E>(c: Cell<T, E>, v: T): (r: Cell<T, E>)
    ensures c.disposed ==> r == c.(lateJoin := false)
    ensures !c.disposed && !c.stream.completed && (!c.mode.distinctUntilChanged || LastAccepted(c) != Some(v)) ==>
              Value(r) == v && LastAccepted(r) == Some(v) && r.pending == c.pending + [PropertyChanged]
    ensures c.mode.distinctUntilChanged && LastAccepted(c) == Some(v) ==> r == c.(lateJoin := false)
  {
    Step(c, Write(v))
  }

  /** Reading after writing returns the written value, on any live property reachable from a constructor. */
  lemma ReadYourWrite<T, E>(initialValue: T, mode: Mode, sourced: bool, es: seq<Event<T, E>>, v: T)
    requires !DisposedIn(es)
    ensures Value(SetValue(Run(New(initialValue, mode, sourced), es), v)) == v
  {
    RunIsPipeline(initialValue, mode, sourced, es);
  }

  /** A property built by a public constructor ignores the (never-emitting) source channel. */
  lemma PublicPropertyIgnoresSource<T, E>(c: Cell<T, E>, v: T)
    requires !c.sourced
    ensures Step(c, SourceEmit(v)) == c.(lateJoin := false)
  {
  }

  /** Two subscribers joining a default property back to back both get its current value and then the same later values. */
  lemma SubscribersAgreeAfterJoin<T, E>(defaultValue: T, es: seq<Event<T, E>>, i: int, j: int)
    requires var c := Run(CreateDefault<T, E>(defaultValue), es);
      0 <= i < |c.stream.subscribers| && 0 <= j < |c.stream.subscribers|
      && c.stream.subscribers[i].joinedAt == c.stream.subscribers[j].joinedAt
    ensures var c := Run(CreateDefault<T, E>(defaultValue), es);
      c.stream.subscribers[i].received == c.stream.subscribers[j].received
      && |c.stream.subscribers[i].received| == |c.stream.published| - c.stream.subscribers[i].joinedAt + 1
  {
    SubscriberSeesReplayThenLaterValues(defaultValue, DefaultMode, false, es, i);
    SubscriberSeesReplayThenLaterValues(defaultValue, DefaultMode, false, es, j);
  }
}
