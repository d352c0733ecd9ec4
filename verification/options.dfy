/**
 The Option algebra: a value that is either present (`Some`) or absent (the single
 shared `None`). The payload type `T` is the C# type parameter, so it may itself be
 nullable; only `AsOption` looks at null, while `Select` and `Try` wrap whatever
 they are given, null included.
 */
module Options {
  import opened Runtime

  datatype Option<T> = None | Some(value: T) {

    predicate IsSome() {
      Some?
    }

    /** The wrapped value; absent on `None`, whose `Get` throws. */
    function Get(): (r: T)
      requires IsSome()
      ensures Some(r) == this
    {
      value
    }

    /** Maps the payload; a present option stays present even when `f` yields null. */
    function Select<R>(f: T -> R): (r: Option<R>)
      ensures r.IsSome() == IsSome()
      ensures IsSome() ==> r.Get() == f(Get())
    {
      match this
      case Some(v) => Some(f(v))
      case None => None
    }

    /** Chains an optional computation; `None` never calls `f`. */
    function SelectMany<R>(f: T -> Option<R>): (r: Option<R>)
      ensures IsSome() ==> r == f(Get())
      ensures !IsSome() ==> r == None
    {
      match this
      case Some(v) => f(v)
      case None => None
    }

    /** Keeps the option exactly when it is present and its payload satisfies `p`. */
    function Where(p: T -> bool): (r: Option<T>)
      ensures r.IsSome() <==> IsSome() && p(Get())
      ensures r.IsSome() ==> r == this
    {
      match this
      case Some(v) => if p(v) then this else None
      case None => None
    }

    /** The arguments the action passed to `Iter` is called with, in call order. */
    function Iter(): (calls: seq<T>)
      ensures |calls| == (if IsSome() then 1 else 0)
      ensures forall k :: 0 <= k < |calls| ==> Some(calls[k]) == this
    {
      match this
      case Some(v) => [v]
      case None => []
    }

    /** Case analysis: `some` on the payload, or the `none` thunk. */
    function Match<R>(some: T -> R, none: () -> R): (r: R)
      ensures IsSome() ==> r == some(Get())
      ensures !IsSome() ==> r == none()
    {
      match this
      case Some(v) => some(v)
      case None => none()
    }

    /** The payload, or the fallback thunk's value when absent. */
    function Or(fallback: () -> T): (r: T)
      ensures IsSome() ==> r == Get()
      ensures !IsSome() ==> r == fallback()
    {
      match this
      case Some(v) => v
      case None => fallback()
    }

    /** This option when present, otherwise the fallback thunk's option. */
    function OrOption(fallback: () -> Option<T>): (r: Option<T>)
      ensures IsSome() ==> r == this
      ensures !IsSome() ==> r == fallback()
    {
      match this
      case Some(_) => this
      case None => fallback()
    }

    /**
     The payload converted to `R` when it passes the runtime type test `isR`, and
     `None` otherwise; `convert` is the reference conversion the test licenses.
     */
    function OfType<R>(isR: T -> bool, convert: T -> R): (r: Option<R>)
      ensures r.IsSome() <==> IsSome() && isR(Get())
      ensures r.IsSome() ==> r.Get() == convert(Get())
    {
      match this
      case Some(v) => if isR(v) then Some(convert(v)) else None
      case None => None
    }

    /** `None.Equals(obj)`: true exactly for another `None`. */
    function NoneEquals(other: Option<T>): (r: bool)
      requires !IsSome()
      ensures r <==> other == this
    {
      other.None?
    }

    /** `None.GetHashCode()`. */
    function NoneHashCode(): int
      requires !IsSome()
    {
      0
    }
  }

  /** `Option.AsOption`: `None` for null, `Some` of the (non-null) value otherwise. */
  function AsOption<T>(x: Nullable<T>): (r: Option<Nullable<T>>)
    ensures r.IsSome() <==> x.Val?
    ensures r.IsSome() ==> r.Get() == x
  {
    if x.Val? then Some(x) else None
  }

  /** `Option.Try`: the selector's result wrapped in `Some` without a null test; `None` if it threw. */
  function Try<T, X>(call: Outcome<T, X>): (r: Option<T>)
    ensures r.IsSome() <==> call.Returned?
    ensures r.IsSome() ==> r.Get() == call.value
  {
    match call
    case Returned(v) => Some(v)
    case Threw(_) => None
  }

  // ---------------------------------------------------------------------------
  // Laws relating the operations to one another.

  /** There is one `None`: every `None` equals every other one and hashes to 0. */
  lemma NoneIsShared<T>(a: Option<T>, b: Option<T>)
    requires !a.IsSome() && !b.IsSome()
    ensures a == b && a.NoneEquals(b) && a.NoneHashCode() == 0
  {
  }

  /** `Match` is the universal eliminator: every other operation is one of its instances. */
  lemma MatchDefinesTheRest<T, R>(o: Option<T>, f: T -> R, g: T -> Option<R>, p: T -> bool,
                                   fallback: () -> T, other: () -> Option<T>)
    ensures o.Select(f) == o.Match(v => Some(f(v)), () => None)
    ensures o.SelectMany(g) == o.Match(g, () => None)
    ensures o.Where(p) == o.Match(v => if p(v) then Some(v) else None, () => None)
    ensures o.Or(fallback) == o.Match(v => v, fallback)
    ensures o.OrOption(other) == o.Match(v => Some(v), other)
    ensures o.Match(v => Some(v), () => None) == o
  {
  }

  /** Functor laws for `Select`. */
  lemma SelectFunctor<T, R, S>(o: Option<T>, f: T -> R, g: R -> S)
    ensures o.Select(v => v) == o
    ensures o.Select(f).Select(g) == o.Select(v => g(f(v)))
  {
  }

  /** Monad laws: `Some` is a left and right identity of `SelectMany`, which is associative. */
  lemma SelectManyMonad<T, R, S>(v: T, o: Option<T>, f: T -> Option<R>, g: R -> Option<S>)
    ensures Some(v).SelectMany(f) == f(v)
    ensures o.SelectMany(x => Some(x)) == o
    ensures o.SelectMany(f).SelectMany(g) == o.SelectMany(x => f(x).SelectMany(g))
  {
  }

  /** `Select` is `SelectMany` followed by `Some`, and `Where` is `SelectMany` with a guard. */
  lemma SelectAndWhereViaSelectMany<T, R>(o: Option<T>, f: T -> R, p: T -> bool)
    ensures o.Select(f) == o.SelectMany(v => Some(f(v)))
    ensures o.Where(p) == o.SelectMany(v => if p(v) then Some(v) else None)
  {
  }

  /** Filtering twice filters by the conjunction; filtering is idempotent. */
  lemma WhereComposes<T>(o: Option<T>, p: T -> bool, q: T -> bool)
    ensures o.Where(p).Where(q) == o.Where(v => p(v) && q(v))
    ensures o.Where(p).Where(p) == o.Where(p)
  {
  }

  /** `OfType` is a `Where` on the type test followed by the conversion. */
  lemma OfTypeIsWhereThenSelect<T, R>(o: Option<T>, isR: T -> bool, convert: T -> R)
    ensures o.OfType(isR, convert) == o.Where(isR).Select(convert)
  {
  }

  /** `Iter` hands the action exactly what `Get` returns, once; on `None` it does nothing. */
  lemma IterAgreesWithGet<T>(o: Option<T>)
    ensures o.IsSome() ==> o.Iter() == [o.Get()]
    ensures !o.IsSome() ==> o.Iter() == []
  {
  }

  /** `OrOption` makes options a monoid with `None` as unit. */
  lemma OrOptionMonoid<T>(a: Option<T>, b: Option<T>, c: Option<T>)
    ensures a.OrOption(() => None) == a
    ensures None.OrOption(() => a) == a
    ensures a.OrOption(() => b).OrOption(() => c) == a.OrOption(() => b.OrOption(() => c))
  {
  }

  /** `Or(() => null)` undoes `AsOption`: no information about the value is lost. */
  lemma AsOptionRoundTrip<T>(x: Nullable<T>)
    ensures AsOption(x).Or(() => Null) == x
    ensures AsOption(x).Match(v => v, () => Null) == x
  {
  }

  /**
   `Try` and `AsOption` differ on null: a selector returning null gives `Some(null)`,
   and mapping a present value to null with `Select` keeps it present.
   */
  lemma TryAndSelectKeepNull<T, X>(o: Option<T>)
    ensures Try<Nullable<T>, X>(Returned(Null)) == Some(Null)
    ensures AsOption<T>(Null) == None
    ensures o.IsSome() ==> o.Select<Nullable<T>>(_ => Null) == Some(Null)
  {
  }
}
