/**
 The three sequence helpers built on `Option`: `Choose` (map to options and keep
 the present payloads), `TryFind` (the first element satisfying a predicate) and
 `Get` (the element at an index). An `IEnumerable<T>` is a finite sequence here;
 `TryFind` and `Get` pass the element through `AsOption`, so null elements count
 as absent.
 */
module Linq {
  import opened Runtime
  import opened Options

  /** The exception `ElementAt` throws for an index outside the sequence. */
  datatype Exception = ArgumentOutOfRange

  /** LINQ `Where`: the elements satisfying `p`, in order. */
  function Where<T>(s: seq<T>, p: T -> bool): (r: seq<T>)
    ensures |r| <= |s|
    ensures forall k :: 0 <= k < |r| ==> p(r[k]) && r[k] in s
  {
    if |s| == 0 then []
    else Where(s[..|s| - 1], p) + (if p(Last(s)) then [Last(s)] else [])
  }

  /** LINQ `Take(n)` for `n >= 0`: the first `n` elements, or all of them when fewer. */
  function Take<T>(s: seq<T>, n: nat): seq<T>
  {
    if |s| <= n then s else s[..n]
  }

  /** LINQ `ElementAt`: the element at `index`, or the exception for an index out of range. */
  function ElementAt<T>(s: seq<T>, index: int): Outcome<T, Exception>
  {
    if 0 <= index < |s| then Returned(s[index]) else Threw(ArgumentOutOfRange)
  }

  /**
   `Choose`: `selector` applied to every element, the present results kept, their
   payloads extracted — `Select(selector).Where(IsSome).Select(Get)`.
   */
  function Choose<T, U>(s: seq<T>, selector: T -> Option<U>): (r: seq<U>)
    ensures |r| <= |s|
  {
    if |s| == 0 then []
    else Choose(s[..|s| - 1], selector) + selector(Last(s)).Iter()
  }

  /**
   `TryFind`: take at most one element satisfying `p` and pass it through `AsOption`.
   The result is the first match as an option (absent when that match is null), and
   absent when nothing matches.
   */
  function TryFind<T>(s: seq<Nullable<T>>, p: Nullable<T> -> bool): (r: Option<Nullable<T>>)
    ensures r.IsSome() ==> r.Get().Val? && p(r.Get()) && r.Get() in s
    ensures (forall i :: 0 <= i < |s| ==> !p(s[i])) ==> r == None
    ensures forall i :: 0 <= i < |s| && p(s[i]) && (forall j :: 0 <= j < i ==> !p(s[j])) ==> r == AsOption(s[i])
  {
    WhereEmpty(s, p);
    assert forall i :: 0 <= i < |s| && p(s[i]) && (forall j :: 0 <= j < i ==> !p(s[j])) ==>
             |Where(s, p)| > 0 && Where(s, p)[0] == s[i] by {
      forall i | 0 <= i < |s| && p(s[i]) && (forall j :: 0 <= j < i ==> !p(s[j]))
        ensures |Where(s, p)| > 0 && Where(s, p)[0] == s[i]
      {
        WhereStartsAtFirstMatch(s, p, i);
      }
    }
    var list := Take(Where(s, p), 1);
    if |list| == 1 then AsOption(list[0]) else None
  }

  /** `Get(index)`: `AsOption` of `ElementAt(index)`, with the thrown exception caught as `None`. */
  function Get<T>(s: seq<Nullable<T>>, index: int): (r: Option<Nullable<T>>)
    ensures 0 <= index < |s| ==> r == AsOption(s[index])
    ensures !(0 <= index < |s|) ==> r == None
  {
    match ElementAt(s, index)
    case Returned(x) => AsOption(x)
    case Threw(_) => None
  }

  // ---------------------------------------------------------------------------
  // Choose

  /** The positions whose selector result is present, in increasing order. */
  function ChosenIndices<T, U>(s: seq<T>, selector: T -> Option<U>): seq<int>
  {
    if |s| == 0 then []
    else
      ChosenIndices(s[..|s| - 1], selector)
      + (if selector(Last(s)).IsSome() then [|s| - 1] else [])
  }

  /**
   `Choose` returns exactly the payloads of the present selector results, in input
   order: its k-th element comes from the k-th position whose result is present,
   the positions increase, and every position with a present result is used.
   */
  lemma {:induction false} ChooseIsPresentPayloadsInOrder<T, U>(s: seq<T>, selector: T -> Option<U>)
    ensures var r, idx := Choose(s, selector), ChosenIndices(s, selector);
      && |r| == |idx|
      && (forall k :: 0 <= k < |idx| ==> 0 <= idx[k] < |s| && selector(s[idx[k]]) == Some(r[k]))
      && (forall k, l :: 0 <= k < l < |idx| ==> idx[k] < idx[l])
      && (forall i :: 0 <= i < |s| ==> (selector(s[i]).IsSome() <==> i in idx))
  {
    if |s| > 0 {
      var init := s[..|s| - 1];
      ChooseIsPresentPayloadsInOrder(init, selector);
      var r0, idx0 := Choose(init, selector), ChosenIndices(init, selector);
      assert forall i :: 0 <= i < |init| ==> init[i] == s[i];
      var r, idx := Choose(s, selector), ChosenIndices(s, selector);
      if selector(Last(s)).IsSome() {
        assert r == r0 + [selector(Last(s)).Get()];
        assert idx == idx0 + [|s| - 1];
      } else {
        assert r == r0 && idx == idx0;
      }
    }
  }

  /** `Choose` distributes over concatenation. */
  lemma {:induction false} ChooseConcat<T, U>(a: seq<T>, b: seq<T>, selector: T -> Option<U>)
    ensures Choose(a + b, selector) == Choose(a, selector) + Choose(b, selector)
    decreases |b|
  {
    if |b| == 0 {
      assert a + b == a;
    } else {
      var b0 := b[..|b| - 1];
      assert (a + b)[..|a + b| - 1] == a + b0;
      assert Last(a + b) == Last(b);
      ChooseConcat(a, b0, selector);
    }
  }

  /** `Choose` with `AsOption` is `Where` on non-null: it drops exactly the null elements. */
  lemma {:induction false} ChooseAsOptionDropsNulls<T>(s: seq<Nullable<T>>)
    ensures Choose(s, AsOption) == Where(s, (x: Nullable<T>) => x.Val?)
  {
    if |s| > 0 {
      ChooseAsOptionDropsNulls(s[..|s| - 1]);
    }
  }

  // ---------------------------------------------------------------------------
  // Where, TryFind, Get

  /** `Where` distributes over concatenation. */
  lemma {:induction false} WhereConcat<T>(a: seq<T>, b: seq<T>, p: T -> bool)
    ensures Where(a + b, p) == Where(a, p) + Where(b, p)
    decreases |b|
  {
    if |b| == 0 {
      assert a + b == a;
    } else {
      var b0 := b[..|b| - 1];
      assert (a + b)[..|a + b| - 1] == a + b0;
      assert Last(a + b) == Last(b);
      WhereConcat(a, b0, p);
    }
  }

  /** `Where` starts with the first element satisfying the predicate. */
  lemma WhereStartsAtFirstMatch<T>(s: seq<T>, p: T -> bool, i: int)
    requires 0 <= i < |s| && p(s[i])
    requires forall j :: 0 <= j < i ==> !p(s[j])
    ensures |Where(s, p)| > 0 && Where(s, p)[0] == s[i]
  {
    assert s == s[..i] + ([s[i]] + s[i + 1..]);
    WhereConcat(s[..i], [s[i]] + s[i + 1..], p);
    WhereConcat([s[i]], s[i + 1..], p);
    WhereEmpty(s[..i], p);
    assert Where([s[i]], p) == [s[i]] by {
      assert [s[i]][..0] == [];
    }
  }

  /** `Where` is empty exactly when no element satisfies the predicate. */
  lemma {:induction false} WhereEmpty<T>(s: seq<T>, p: T -> bool)
    ensures Where(s, p) == [] <==> forall i :: 0 <= i < |s| ==> !p(s[i])
  {
    if |s| > 0 {
      var init := s[..|s| - 1];
      WhereEmpty(init, p);
      assert forall i :: 0 <= i < |init| ==> init[i] == s[i];
      if Where(s, p) == [] {
        assert Where(init, p) == [];
      }
    }
  }

  /**
   When position `i` holds the first element satisfying `p`, `TryFind` is `AsOption`
   of that element — `None` if it is null, even when a later non-null element matches.
   */
  lemma TryFindFirstMatch<T>(s: seq<Nullable<T>>, p: Nullable<T> -> bool, i: int)
    requires 0 <= i < |s| && p(s[i])
    requires forall j :: 0 <= j < i ==> !p(s[j])
    ensures TryFind(s, p) == AsOption(s[i])
  {
  }

  /** When no element satisfies `p`, `TryFind` is `None`. */
  lemma TryFindNoMatch<T>(s: seq<Nullable<T>>, p: Nullable<T> -> bool)
    requires forall i :: 0 <= i < |s| ==> !p(s[i])
    ensures TryFind(s, p) == None
  {
  }

  /** `Get(0)` is `TryFind` with a predicate every element satisfies. */
  lemma GetFirstIsTryFindAny<T>(s: seq<Nullable<T>>)
    ensures Get(s, 0) == TryFind(s, _ => true)
  {
    if |s| > 0 {
      TryFindFirstMatch(s, _ => true, 0);
    } else {
      TryFindNoMatch(s, _ => true);
    }
  }
}
