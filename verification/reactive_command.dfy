/**
 `ReactiveCommand<T>`: an `ICommand` whose `CanExecute` follows a boolean source and
 whose executions are pushed, as parameters, to the observers of a trigger `Subject`.
 The source passes through `DistinctUntilChanged` (no seed: its first value always
 gets through, even when it equals the initial flag) and is delivered on a scheduler;
 a delivery is one event here. The optional action is the trigger's first observer.
 `Dispose` completes the trigger, stops the source and, when the flag was up, drops
 it and raises `CanExecuteChanged` once more.
 */
module ReactiveCommand {
  import opened Runtime
  import opened Options
  import opened Distinct
  import opened Multicast

  datatype Command<T> = Command(
    sourced: bool,            // built on a real source, not `Observable.Never`
    canExecute: bool,
    disposed: bool,
    lastSeen: Option<bool>,   // the last value the `DistinctUntilChanged` stage let through
    trigger: Channel<T>,
    hasAction: bool,          // an action was passed: it is the trigger's first observer
    changes: seq<bool>)       // each `CanExecuteChanged` raised, with the flag at that moment

  /**
   The constructors: `sourced` is false for the ones without a source (`Observable.Never`,
   flag up), and `hasAction` says whether a non-null action was given.
   */
  function New<T>(sourced: bool, initialValue: bool, hasAction: bool): Command<T>
  {
    var trigger := if hasAction then Multicast.Subscribe(Empty(), []) else Empty();
    Command(sourced, initialValue, false, None, trigger, hasAction, [])
  }

  /**
   A new command's `CanExecute` is the initial value; it is live and has raised nothing;
   its trigger is open, and its only observer is the action when one was given.
   */
  lemma NewIsIdle<T>(sourced: bool, initialValue: bool, hasAction: bool)
    ensures var c := New<T>(sourced, initialValue, hasAction);
      && CanExecute(c) == initialValue && !c.disposed && c.changes == []
      && c.trigger.published == [] && !c.trigger.completed && Valid(c.trigger)
      && |c.trigger.subscribers| == (if hasAction then 1 else 0)
  {
  }

  /** `new ReactiveCommand<T>()`: no source, always executable until disposed. */
  function CreateAlwaysEnabled<T>(): Command<T>
  {
    New(false, true, false)
  }

  /** The parameterless command starts executable, with no source and no action. */
  lemma AlwaysEnabledStartsEnabled<T>()
    ensures var c := CreateAlwaysEnabled<T>();
      CanExecute(c) && !c.sourced && !c.hasAction
  {
  }

  /** `CanExecute()`. */
  function CanExecute<T>(c: Command<T>): bool
  {
    c.canExecute
  }

  /** `ICommand.CanExecute(parameter)`: the parameter plays no part. */
  function CanExecuteFor<T, P>(c: Command<T>, parameter: P): (r: bool)
    ensures r == CanExecute(c)
  {
    c.canExecute
  }

  /** Asking about two different parameters gives the same answer. */
  lemma CanExecuteIgnoresParameter<T, P>(c: Command<T>, a: P, b: P)
    ensures CanExecuteFor(c, a) == CanExecuteFor(c, b)
  {
  }

  /** The source's value `b` is delivered: dropped after dispose or when equal to the last one let through. */
  function Deliver<T>(c: Command<T>, b: bool): (r: Command<T>)
    ensures c.disposed || !c.sourced || c.lastSeen == Some(b) ==> r == c
    ensures !c.disposed && c.sourced && c.lastSeen != Some(b) ==>
              CanExecute(r) == b && r.changes == c.changes + [b] && r.trigger == c.trigger
  {
    if c.disposed || !c.sourced || c.lastSeen == Some(b) then c
    else c.(canExecute := b, lastSeen := Some(b), changes := c.changes + [b])
  }

  /** `Execute(parameter)`: ungated; the disposed trigger throws. */
  function Execute<T>(c: Command<T>, parameter: T): (r: Outcome<Command<T>, ObjectDisposedException>)
    ensures r.Threw? <==> c.disposed
    ensures !c.disposed && !c.trigger.completed ==>
              r.value.trigger.published == c.trigger.published + [parameter]
              && r.value.canExecute == c.canExecute && r.value.changes == c.changes
  {
    if c.disposed then Threw(ObjectDisposed)
    else Returned(c.(trigger := Publish(c.trigger, parameter)))
  }

  /** `ICommand.Execute(parameter)`: forwards only while `CanExecute` holds. */
  function CommandExecute<T>(c: Command<T>, parameter: T): (r: Outcome<Command<T>, ObjectDisposedException>)
    ensures !c.canExecute ==> r == Returned(c)
    ensures c.canExecute ==> r == Execute(c, parameter)
  {
    if c.canExecute then Execute(c, parameter) else Returned(c)
  }

  /** The non-generic command's `Execute()`: pushes null. */
  function ExecuteWithoutParameter<U>(c: Command<Nullable<U>>): (r: Outcome<Command<Nullable<U>>, ObjectDisposedException>)
    ensures r.Threw? <==> c.disposed
    ensures !c.disposed && !c.trigger.completed ==> r.value.trigger.published == c.trigger.published + [Null]
  {
    Execute(c, Null)
  }

  /** `Subscribe(observer)`: a new observer of later executions; the disposed trigger throws. */
  function Subscribe<T>(c: Command<T>): (r: Outcome<Command<T>, ObjectDisposedException>)
    ensures r.Threw? <==> c.disposed
    ensures r.Returned? ==> |r.value.trigger.subscribers| == |c.trigger.subscribers| + 1
                            && r.value.trigger.published == c.trigger.published
  {
    if c.disposed then Threw(ObjectDisposed)
    else Returned(c.(trigger := Multicast.Subscribe(c.trigger, [])))
  }

  /** `Dispose()`. */
  function Dispose<T>(c: Command<T>): (r: Command<T>)
    ensures r.disposed && r.trigger.published == c.trigger.published
    ensures c.disposed ==> r == c
    ensures !c.disposed ==> !CanExecute(r) && r.trigger.completed
                            && r.changes == c.changes + (if c.canExecute then [false] else [])
  {
    if c.disposed then c
    else
      var d := c.(disposed := true, trigger := Complete(c.trigger));
      if c.canExecute then d.(canExecute := false, changes := c.changes + [false]) else d
  }

  /** The parameters the action has been called with. */
  function ActionCalls<T>(c: Command<T>): seq<T>
  {
    if c.hasAction && |c.trigger.subscribers| > 0 then c.trigger.subscribers[0].received else []
  }

  // ---------------------------------------------------------------------------
  // Traces

  datatype Event<T> =
    | SourceSignal(flag: bool)
    | ExecuteCall(parameter: T)
    | CommandExecuteCall(parameter: T)
    | SubscribeCall
    | DisposeCall

  /** A call that throws leaves the command as it was. */
  function Settle<T>(o: Outcome<Command<T>, ObjectDisposedException>, c: Command<T>): Command<T>
  {
    match o
    case Returned(d) => d
    case Threw(_) => c
  }

  function Step<T>(c: Command<T>, e: Event<T>): Command<T>
  {
    match e
    case SourceSignal(b) => Deliver(c, b)
    case ExecuteCall(p) => Settle(Execute(c, p), c)
    case CommandExecuteCall(p) => Settle(CommandExecute(c, p), c)
    case SubscribeCall => Settle(Subscribe(c), c)
    case DisposeCall => Dispose(c)
  }

  function Run<T>(c: Command<T>, es: seq<Event<T>>): Command<T>
  {
    if |es| == 0 then c else Step(Run(c, es[..|es| - 1]), Last(es))
  }

  predicate DisposedIn<T>(es: seq<Event<T>>)
  {
    exists i | 0 <= i < |es| :: es[i].DisposeCall?
  }

  /** The source's values delivered before the first dispose (none without a source). */
  function Signals<T>(sourced: bool, es: seq<Event<T>>): seq<bool>
  {
    if |es| == 0 || !sourced then []
    else
      var init := es[..|es| - 1];
      if DisposedIn(init) then Signals(sourced, init)
      else match Last(es)
        case SourceSignal(b) => Signals(sourced, init) + [b]
        case _ => Signals(sourced, init)
  }

  /** The parameters pushed to the trigger: every `Execute` before dispose, and every `ICommand.Execute` made while the flag was up. */
  function Fired<T>(sourced: bool, initialValue: bool, es: seq<Event<T>>): seq<T>
  {
    if |es| == 0 then []
    else
      var init := es[..|es| - 1];
      if DisposedIn(init) then Fired(sourced, initialValue, init)
      else match Last(es)
        case ExecuteCall(p) => Fired(sourced, initialValue, init) + [p]
        case CommandExecuteCall(p) =>
          Fired(sourced, initialValue, init)
          + (if LatestOf(initialValue, Signals(sourced, init)) then [p] else [])
        case _ => Fired(sourced, initialValue, init)
  }

  lemma DisposedInSnoc<T>(es: seq<Event<T>>)
    requires |es| > 0
    ensures DisposedIn(es) <==> DisposedIn(es[..|es| - 1]) || Last(es).DisposeCall?
  {
    var init := es[..|es| - 1];
    if DisposedIn(es) && !Last(es).DisposeCall? {
      var i :| 0 <= i < |es| && es[i].DisposeCall?;
      assert init[i] == es[i];
    }
    if DisposedIn(init) {
      var i :| 0 <= i < |init| && init[i].DisposeCall?;
      assert es[i] == init[i];
    }
  }

  /** The state a command reached through `es` is determined by the reference sequences. */
  ghost predicate Follows<T>(c: Command<T>, sourced: bool, initialValue: bool, hasAction: bool, es: seq<Event<T>>)
  {
    var s := Signals(sourced, es);
    && c.sourced == sourced && c.hasAction == hasAction
    && c.disposed == DisposedIn(es)
    && c.lastSeen == (if |s| == 0 then None else Some(Last(s)))
    && c.canExecute == (!DisposedIn(es) && LatestOf(initialValue, s))
    && c.changes == DistinctUntilChanged(s) + (if DisposedIn(es) && LatestOf(initialValue, s) then [false] else [])
    && c.trigger.published == Fired(sourced, initialValue, es)
    && c.trigger.completed == DisposedIn(es)
    && Valid(c.trigger)
    && (hasAction ==> |c.trigger.subscribers| > 0
                      && c.trigger.subscribers[0].joinedAt == 0 && c.trigger.subscribers[0].replayed == [])
  }

  /** The dedupe stage's memory decides whether a delivered value extends the change log. */
  lemma DedupeStep(s: seq<bool>, b: bool, initialValue: bool, lastSeen: Option<bool>)
    requires lastSeen == (if |s| == 0 then None else Some(Last(s)))
    ensures DistinctUntilChanged(s + [b])
         == if lastSeen == Some(b) then DistinctUntilChanged(s) else DistinctUntilChanged(s) + [b]
    ensures Last(s + [b]) == b && LatestOf(initialValue, s + [b]) == b
    ensures lastSeen == Some(b) ==> LatestOf(initialValue, s) == b
  {
    DistinctSnoc(s, b);
  }

  lemma SignalsGrowOnSignal<T>(sourced: bool, es: seq<Event<T>>, b: bool)
    requires !DisposedIn(es) && sourced
    ensures Signals(sourced, es + [SourceSignal(b)]) == Signals(sourced, es) + [b]
  {
    var es' := es + [SourceSignal(b)];
    assert es'[..|es|] == es;
  }

  lemma FiredIgnoresSignal<T>(sourced: bool, initialValue: bool, es: seq<Event<T>>, b: bool)
    requires !DisposedIn(es)
    ensures Fired(sourced, initialValue, es + [SourceSignal(b)]) == Fired(sourced, initialValue, es)
  {
    var es' := es + [SourceSignal(b)];
    assert es'[..|es|] == es;
  }

  lemma SignalStep<T>(c: Command<T>, sourced: bool, initialValue: bool, hasAction: bool, es: seq<Event<T>>, b: bool)
    requires Follows(c, sourced, initialValue, hasAction, es) && !DisposedIn(es)
    ensures Follows(Deliver(c, b), sourced, initialValue, hasAction, es + [SourceSignal(b)])
  {
    var es' := es + [SourceSignal(b)];
    DisposedInSnoc(es');
    FiredIgnoresSignal(sourced, initialValue, es, b);
    if sourced {
      SourcedSignalStep(c, initialValue, hasAction, es, b);
    } else {
      assert Signals(sourced, es') == [] == Signals(sourced, es);
      assert Deliver(c, b) == c;
    }
  }

  lemma SourcedSignalStep<T>(c: Command<T>, initialValue: bool, hasAction: bool, es: seq<Event<T>>, b: bool)
    requires Follows(c, true, initialValue, hasAction, es) && !DisposedIn(es)
    ensures var d, es' := Deliver(c, b), es + [SourceSignal(b)];
      var s' := Signals(true, es');
      && d.lastSeen == Some(Last(s'))
      && d.canExecute == LatestOf(initialValue, s')
      && d.changes == DistinctUntilChanged(s')
      && d.trigger == c.trigger && d.disposed == c.disposed
      && d.sourced == c.sourced && d.hasAction == c.hasAction
  {
    SignalsGrowOnSignal(true, es, b);
    DedupeStep(Signals(true, es), b, initialValue, c.lastSeen);
  }

  /** Once disposed, no event changes anything the reference sequences describe. */
  lemma DisposedStep<T>(c: Command<T>, sourced: bool, initialValue: bool, hasAction: bool, es: seq<Event<T>>, e: Event<T>)
    requires Follows(c, sourced, initialValue, hasAction, es) && DisposedIn(es)
    ensures Follows(Step(c, e), sourced, initialValue, hasAction, es + [e])
  {
    var es' := es + [e];
    assert es'[..|es|] == es;
    DisposedInSnoc(es');
    assert Signals(sourced, es') == Signals(sourced, es);
    assert Fired(sourced, initialValue, es') == Fired(sourced, initialValue, es);
    assert Step(c, e) == c;
  }

  /** `Execute`, `ICommand.Execute` and `Subscribe` before dispose leave the flag and the change log alone. */
  lemma CallStep<T>(c: Command<T>, sourced: bool, initialValue: bool, hasAction: bool, es: seq<Event<T>>, e: Event<T>)
    requires Follows(c, sourced, initialValue, hasAction, es) && !DisposedIn(es)
    requires e.ExecuteCall? || e.CommandExecuteCall? || e.SubscribeCall?
    ensures Follows(Step(c, e), sourced, initialValue, hasAction, es + [e])
  {
    var es' := es + [e];
    assert es'[..|es|] == es;
    DisposedInSnoc(es');
    assert Signals(sourced, es') == Signals(sourced, es);
    var d := Step(c, e);
    if e.SubscribeCall? {
      assert Fired(sourced, initialValue, es') == Fired(sourced, initialValue, es);
      assert d == c.(trigger := Multicast.Subscribe(c.trigger, []));
      if hasAction {
        assert Multicast.Subscribe(c.trigger, []).subscribers[0] == c.trigger.subscribers[0] by {
          assert Multicast.Subscribe(c.trigger, []).subscribers[..|c.trigger.subscribers|] == c.trigger.subscribers;
        }
      }
    } else if e.ExecuteCall? || c.canExecute {
      assert Fired(sourced, initialValue, es') == Fired(sourced, initialValue, es) + [e.parameter];
      assert d == c.(trigger := Publish(c.trigger, e.parameter));
    } else {
      assert Fired(sourced, initialValue, es') == Fired(sourced, initialValue, es) + [];
      assert d == c;
    }
  }

  /** The first `Dispose` completes the trigger and drops the flag, logging the drop. */
  lemma DisposeStep<T>(c: Command<T>, sourced: bool, initialValue: bool, hasAction: bool, es: seq<Event<T>>)
    requires Follows(c, sourced, initialValue, hasAction, es) && !DisposedIn(es)
    ensures Follows(Step(c, DisposeCall), sourced, initialValue, hasAction, es + [DisposeCall])
  {
    var es' := es + [DisposeCall];
    assert es'[..|es|] == es;
    DisposedInSnoc(es');
    assert Signals(sourced, es') == Signals(sourced, es);
    assert Fired(sourced, initialValue, es') == Fired(sourced, initialValue, es);
  }

  lemma {:induction false} RunFollows<T>(sourced: bool, initialValue: bool, hasAction: bool, es: seq<Event<T>>)
    ensures Follows(Run(New<T>(sourced, initialValue, hasAction), es), sourced, initialValue, hasAction, es)
  {
    if |es| == 0 {
      if hasAction {
        assert New<T>(sourced, initialValue, hasAction).trigger.subscribers[0].joinedAt == 0;
      }
    } else {
      var init := es[..|es| - 1];
      var e := Last(es);
      assert es == init + [e];
      RunFollows(sourced, initialValue, hasAction, init);
      var c := Run(New<T>(sourced, initialValue, hasAction), init);
      if DisposedIn(init) {
        DisposedStep(c, sourced, initialValue, hasAction, init, e);
      } else if e.SourceSignal? {
        SignalStep(c, sourced, initialValue, hasAction, init, e.flag);
      } else if e.DisposeCall? {
        DisposeStep(c, sourced, initialValue, hasAction, init);
      } else {
        CallStep(c, sourced, initialValue, hasAction, init, e);
      }
    }
  }

  // ---------------------------------------------------------------------------
  // Properties

  /**
   After any calls: the command is executable exactly when it is not disposed and
   the last source value delivered (or the initial flag) is true, and each
   `CanExecuteChanged` corresponds to a delivered value that differs from the one
   before it, plus a final `false` when disposing dropped the flag.
   */
  lemma CanExecuteFollowsSource<T>(sourced: bool, initialValue: bool, hasAction: bool, es: seq<Event<T>>)
    ensures var c := Run(New<T>(sourced, initialValue, hasAction), es);
      var s := Signals(sourced, es);
      && CanExecute(c) == (!DisposedIn(es) && LatestOf(initialValue, s))
      && c.changes == DistinctUntilChanged(s) + (if DisposedIn(es) && LatestOf(initialValue, s) then [false] else [])
  {
    RunFollows(sourced, initialValue, hasAction, es);
  }

  /** A disposed command never reports itself executable. */
  lemma DisposedIsNotExecutable<T>(sourced: bool, initialValue: bool, hasAction: bool, es: seq<Event<T>>)
    requires DisposedIn(es)
    ensures !CanExecute(Run(New<T>(sourced, initialValue, hasAction), es))
    ensures Run(New<T>(sourced, initialValue, hasAction), es).trigger.completed
  {
    RunFollows(sourced, initialValue, hasAction, es);
  }

  /**
   The action, when given, is called with exactly the parameters pushed: every
   `Execute` before dispose and every `ICommand.Execute` made while executable.
   */
  lemma ActionSeesEveryExecution<T>(sourced: bool, initialValue: bool, es: seq<Event<T>>)
    ensures ActionCalls(Run(New<T>(sourced, initialValue, true), es)) == Fired(sourced, initialValue, es)
  {
    RunFollows(sourced, initialValue, true, es);
    var c := Run(New<T>(sourced, initialValue, true), es);
    EarlySubscriberSeesAll(c.trigger, 0);
  }

  /** Without a source, `CanExecute` stays up and no `CanExecuteChanged` is raised until dispose. */
  lemma AlwaysEnabledUntilDisposed<T>(es: seq<Event<T>>)
    ensures var c := Run(CreateAlwaysEnabled<T>(), es);
      CanExecute(c) == !DisposedIn(es) && c.changes == (if DisposedIn(es) then [false] else [])
  {
    RunFollows<T>(false, true, false, es);
  }

  /** The source's first value is raised even when it equals the initial flag, because the dedupe has no seed. */
  lemma FirstSignalAlwaysRaises<T>(initialValue: bool)
    ensures Step(New<T>(true, initialValue, false), SourceSignal(initialValue)).changes == [initialValue]
  {
  }

  /** A second `Dispose` changes nothing. */
  lemma DisposeIdempotent<T>(c: Command<T>)
    ensures Dispose(Dispose(c)) == Dispose(c)
  {
  }
}
