/**
 The two runtime notions the library's helpers react to: a reference that may be
 `null`, and a call that either returns a value or throws an exception.
 */
module Runtime {

  /** A C# value of a reference (or nullable) type: either `null` or a real value. */
  datatype Nullable<+T> = Null | Val(value: T)

  /** What happened when a delegate was invoked: it returned `value`, or it threw `error`. */
  datatype Outcome<+T, +X> = Returned(value: T) | Threw(error: X)

  /** The exception an Rx `Subject` throws once it has been disposed. */
  datatype ObjectDisposedException = ObjectDisposed

  /** The last element of a non-empty sequence. */
  function Last<T>(s: seq<T>): T
    requires |s| > 0
  {
    s[|s| - 1]
  }

  /** The most recent of `history`, or `initial` when nothing has happened yet. */
  function LatestOf<T>(initial: T, history: seq<T>): T
  {
    if |history| == 0 then initial else Last(history)
  }

  /** How many times `x` occurs in `s`. */
  function Count<T(==)>(s: seq<T>, x: T): nat
  {
    multiset(s)[x]
  }
}
