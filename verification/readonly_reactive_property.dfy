/**
 `ReadonlyReactiveProperty<T>`: the value cell with a public getter only. Its setter
 is private and nothing in the class calls it, so no `Write` ever reaches the cell:
 its value moves only with its source.
 */
module ReadonlyReactiveProperty {
  import opened Runtime
  import opened Distinct
  import opened ReactivePropertyBase
  import ReactiveProperty

  /** The events a read-only property can see: anything but a direct write. */
  predicate NoWrites<T, E>(es: seq<Event<T, E>>)
  {
    forall i | 0 <= i < |es| :: !es[i].Write?
  }

  /** The public constructors: `initialValue` and `mode`, on a source that never emits. */
  function Create<T, E>(initialValue: T, mode: Mode): Cell<T, E>
  {
    New(initialValue, mode, false)
  }

  /** The parameterless constructor: `default(T)` with both mode flags. */
  function CreateDefault<T, E>(defaultValue: T): Cell<T, E>
  {
    Create(defaultValue, DefaultMode)
  }

  /** The internal constructors behind `ToReadonlyReactiveProperty`: the value follows `source`. */
  function FromSource<T, E>(initialValue: T, mode: Mode): Cell<T, E>
  {
    New(initialValue, mode, true)
  }

  /**
   Every constructor gives a live cell holding its initial value (`default(T)` for the
   parameterless one, with the same two mode flags as `ReactiveProperty`'s) with the
   requested mode; only the internal one follows a source.
   */
  lemma ConstructorsStartAtInitial<T, E>(initialValue: T, mode: Mode)
    ensures var c := Create<T, E>(initialValue, mode);
      Value(c) == initialValue && c.mode == mode && !c.sourced && !c.disposed
    ensures var c := CreateDefault<T, E>(initialValue);
      Value(c) == initialValue && c.mode.distinctUntilChanged && c.mode.raiseLatestValueOnSubscribe
      && !c.sourced && !c.disposed
    ensures CreateDefault<T, E>(initialValue) == ReactiveProperty.CreateDefault<T, E>(initialValue)
    ensures var c := FromSource<T, E>(initialValue, mode);
      Value(c) == initialValue && c.mode == mode && c.sourced && !c.disposed
  {
  }

  /** The values the source emitted before the first dispose. */
  function SourceValues<T, E>(es: seq<Event<T, E>>): seq<T>
  {
    if |es| == 0 then []
    else
      var init := es[..|es| - 1];
      if DisposedIn(init) then SourceValues(init)
      else match Last(es)
        case SourceEmit(v) => SourceValues(init) + [v]
        case _ => SourceValues(init)
  }

  lemma {:induction false} InputsWithoutWrites<T, E>(sourced: bool, es: seq<Event<T, E>>)
    requires NoWrites(es)
    ensures Inputs(sourced, es) == if sourced then SourceValues(es) else []
  {
    if |es| > 0 {
      var init := es[..|es| - 1];
      assert NoWrites(init) by {
        forall i | 0 <= i < |init| ensures !init[i].Write? {
          assert init[i] == es[i];
        }
      }
      assert !es[|es| - 1].Write?;
      InputsWithoutWrites(sourced, init);
    }
  }

  /** A read-only property from a public constructor keeps its initial value forever and never raises `PropertyChanged`. */
  lemma PublicReadonlyIsConstant<T, E>(initialValue: T, mode: Mode, es: seq<Event<T, E>>)
    requires NoWrites(es)
    ensures var c := Run(Create<T, E>(initialValue, mode), es);
      Value(c) == initialValue && c.stream.published == [] && Count(c.pending, PropertyChanged) == 0
  {
    InputsWithoutWrites(false, es);
    RunIsPipeline(initialValue, mode, false, es);
    NotificationsMatchChanges(initialValue, mode, false, es);
  }

  /**
   A source-backed read-only property publishes the source's values up to dispose,
   deduped under `DistinctUntilChanged`, and holds the last of them (or the initial
   value while the source has not emitted).
   */
  lemma SourcedReadonlyFollowsSource<T, E>(initialValue: T, mode: Mode, es: seq<Event<T, E>>)
    requires NoWrites(es)
    ensures var c := Run(FromSource<T, E>(initialValue, mode), es);
      && c.stream.published == Pipeline(mode, SourceValues(es))
      && Value(c) == LatestOf(initialValue, SourceValues(es))
  {
    InputsWithoutWrites(true, es);
    RunIsPipeline(initialValue, mode, true, es);
    var vs := SourceValues(es);
    if mode.distinctUntilChanged {
      var out := DistinctUntilChanged(vs);
      assert |out| == 0 <==> |vs| == 0;
    }
  }
}
