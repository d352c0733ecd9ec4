/**
 The Result algebra: a computation that either succeeded with a value of type `S`
 or failed with a message of type `F`. Every operation on a `Failure` carries the
 same message along and only changes the success type; like `Option`, only
 `AsResult` tests for null.
 */
module Results {
  import opened Runtime
  import opened Options

  datatype Result<S, F> = Success(value: S) | Failure(message: F) {

    predicate IsSuccess() {
      Success?
    }

    /** The success value; a `Failure`'s `Get` throws. */
    function Get(): (r: S)
      requires IsSuccess()
      ensures Success(r) == this
    {
      value
    }

    /** Maps the success value; a failure keeps its message. */
    function Select<R>(f: S -> R): (r: Result<R, F>)
      ensures r.IsSuccess() == IsSuccess()
      ensures IsSuccess() ==> r.Get() == f(Get())
      ensures !IsSuccess() ==> r.message == message
    {
      match this
      case Success(v) => Success(f(v))
      case Failure(m) => Failure(m)
    }

    /** Chains a fallible computation; a failure never calls `f` and keeps its message. */
    function SelectMany<R>(f: S -> Result<R, F>): (r: Result<R, F>)
      ensures IsSuccess() ==> r == f(Get())
      ensures !IsSuccess() ==> r == Failure(message)
    {
      match this
      case Success(v) => f(v)
      case Failure(m) => Failure(m)
    }

    /**
     Keeps a success whose value satisfies `p`; a success that does not becomes a
     failure with the `failure` thunk's message; a failure is returned unchanged.
     */
    function Where(p: S -> bool, failure: () -> F): (r: Result<S, F>)
      ensures r.IsSuccess() <==> IsSuccess() && p(Get())
      ensures r.IsSuccess() || !IsSuccess() ==> r == this
      ensures IsSuccess() && !p(Get()) ==> r == Failure(failure())
    {
      match this
      case Success(v) => if p(v) then this else Failure(failure())
      case Failure(_) => this
    }

    /** The arguments the action passed to `Iter` is called with, in call order. */
    function Iter(): (calls: seq<S>)
      ensures |calls| == (if IsSuccess() then 1 else 0)
      ensures forall k :: 0 <= k < |calls| ==> Success(calls[k]) == this
    {
      match this
      case Success(v) => [v]
      case Failure(_) => []
    }

    /** Case analysis: `success` on the value or `failure` on the message. */
    function Match<R>(success: S -> R, failure: F -> R): (r: R)
      ensures IsSuccess() ==> r == success(Get())
      ensures !IsSuccess() ==> r == failure(message)
    {
      match this
      case Success(v) => success(v)
      case Failure(m) => failure(m)
    }

    /** The success value, or the fallback thunk's value on failure. */
    function Or(fallback: () -> S): (r: S)
      ensures IsSuccess() ==> r == Get()
      ensures !IsSuccess() ==> r == fallback()
    {
      match this
      case Success(v) => v
      case Failure(_) => fallback()
    }

    /** This result when it succeeded, otherwise the fallback thunk's result. */
    function OrResult(fallback: () -> Result<S, F>): (r: Result<S, F>)
      ensures IsSuccess() ==> r == this
      ensures !IsSuccess() ==> r == fallback()
    {
      match this
      case Success(_) => this
      case Failure(_) => fallback()
    }

    /**
     The success value converted to `R` when it passes the runtime type test `isR`;
     a success that fails the test becomes a failure with the thunk's message; a
     failure keeps its message.
     */
    function OfType<R>(isR: S -> bool, convert: S -> R, failure: () -> F): (r: Result<R, F>)
      ensures r.IsSuccess() <==> IsSuccess() && isR(Get())
      ensures r.IsSuccess() ==> r.Get() == convert(Get())
      ensures !IsSuccess() ==> r == Failure(message)
      ensures IsSuccess() && !isR(Get()) ==> r == Failure(failure())
    {
      match this
      case Success(v) => if isR(v) then Success(convert(v)) else Failure(failure())
      case Failure(m) => Failure(m)
    }
  }

  /** `Result.AsResult`: a success for a non-null value, a failure with `failure` for null. */
  function AsResult<S, F>(success: Nullable<S>, failure: F): (r: Result<Nullable<S>, F>)
    ensures r.IsSuccess() <==> success.Val?
    ensures r.IsSuccess() ==> r.Get() == success
    ensures !r.IsSuccess() ==> r.message == failure
  {
    if success.Val? then Success(success) else Failure(failure)
  }

  /** `Result.Fail`: a failure carrying exactly `failure`. */
  function Fail<S, F>(failure: F): Result<S, F>
  {
    Failure(failure)
  }

  /** `Fail` builds a failure whose message is exactly the one given. */
  lemma FailCarriesMessage<S, F>(failure: F)
    ensures !Fail<S, F>(failure).IsSuccess() && Fail<S, F>(failure).message == failure
  {
  }

  /**
   `Result.Try`: the selector's value as a success, without a null test, or the
   thrown exception turned into a failure message by `failure`.
   */
  function Try<S, X, F>(call: Outcome<S, X>, failure: X -> F): (r: Result<S, F>)
    ensures r.IsSuccess() <==> call.Returned?
    ensures r.IsSuccess() ==> r.Get() == call.value
    ensures !r.IsSuccess() ==> r.message == failure(call.error)
  {
    match call
    case Returned(v) => Success(v)
    case Threw(e) => Fail(failure(e))
  }

  // ---------------------------------------------------------------------------
  // Laws relating the operations to one another.

  /** `Match` is the universal eliminator: every other operation is one of its instances. */
  lemma MatchDefinesTheRest<S, F, R>(r: Result<S, F>, f: S -> R, g: S -> Result<R, F>,
                                      p: S -> bool, failure: () -> F,
                                      fallback: () -> S, other: () -> Result<S, F>)
    ensures r.Select(f) == r.Match(v => Success(f(v)), m => Failure(m))
    ensures r.SelectMany(g) == r.Match(g, m => Failure(m))
    ensures r.Where(p, failure) == r.Match(v => if p(v) then Success(v) else Failure(failure()), m => Failure(m))
    ensures r.Or(fallback) == r.Match(v => v, _ => fallback())
    ensures r.OrResult(other) == r.Match(v => Success(v), _ => other())
    ensures r.Match(v => Success(v), m => Failure(m)) == r
  {
  }

  /** Functor laws for `Select`. */
  lemma SelectFunctor<S, F, R, T>(r: Result<S, F>, f: S -> R, g: R -> T)
    ensures r.Select(v => v) == r
    ensures r.Select(f).Select(g) == r.Select(v => g(f(v)))
  {
  }

  /** Monad laws: `Success` is a left and right identity of `SelectMany`, which is associative. */
  lemma SelectManyMonad<S, F, R, T>(v: S, r: Result<S, F>, f: S -> Result<R, F>, g: R -> Result<T, F>)
    ensures Success(v).SelectMany(f) == f(v)
    ensures r.SelectMany(x => Success(x)) == r
    ensures r.SelectMany(f).SelectMany(g) == r.SelectMany(x => f(x).SelectMany(g))
  {
  }

  /** A failure passes through every value-changing operation with its message intact. */
  lemma FailurePropagates<S, F, R>(m: F, f: S -> R, g: S -> Result<R, F>, p: S -> bool,
                                   failure: () -> F, isR: S -> bool, convert: S -> R)
    ensures Result<S, F>.Failure(m).Select(f) == Failure(m)
    ensures Result<S, F>.Failure(m).SelectMany(g) == Failure(m)
    ensures Result<S, F>.Failure(m).Where(p, failure) == Failure(m)
    ensures Result<S, F>.Failure(m).OfType(isR, convert, failure) == Failure(m)
    ensures Result<S, F>.Failure(m).Iter() == []
  {
  }

  /** `OfType` is a `Where` on the type test followed by the conversion. */
  lemma OfTypeIsWhereThenSelect<S, F, R>(r: Result<S, F>, isR: S -> bool, convert: S -> R, failure: () -> F)
    ensures r.OfType(isR, convert, failure) == r.Where(isR, failure).Select(convert)
  {
  }

  /** `AsResult` succeeds exactly when `AsOption` is present, and `Or(() => null)` undoes it. */
  lemma AsResultAgreesWithAsOption<S, F>(x: Nullable<S>, failure: F)
    ensures AsResult(x, failure).IsSuccess() == AsOption(x).IsSome()
    ensures AsResult(x, failure).Or(() => Null) == x
  {
  }

  /** `Try` wraps a null return as a success, where `AsResult` would fail. */
  lemma TryKeepsNull<S, X, F>(failure: X -> F, m: F)
    ensures Try<Nullable<S>, X, F>(Returned(Null), failure) == Success(Null)
    ensures AsResult<S, F>(Null, m) == Failure(m)
  {
  }
}
