/**
 Rx's `DistinctUntilChanged` as a reference function on finished sequences: a value
 equal to the one just let through is dropped. It keeps no seed, so the first value
 always passes. Both the value cell and the command gate dedupe this way, and their
 step functions are proved to agree with it.
 */
module Distinct {
  import opened Runtime

  /** No two neighbouring elements are equal. */
  ghost predicate NoRepeats<T>(s: seq<T>) {
    forall i, j :: 0 <= i && j == i + 1 && j < |s| ==> s[i] != s[j]
  }

  /** The sequence with every run of equal neighbours collapsed to its first element. */
  function DistinctUntilChanged<T(==)>(s: seq<T>): (r: seq<T>)
    ensures |r| <= |s|
    ensures |s| > 0 ==> |r| > 0 && r[0] == s[0] && Last(r) == Last(s)
  {
    if |s| <= 1 then s
    else if s[0] == s[1] then DistinctUntilChanged(s[1..])
    else [s[0]] + DistinctUntilChanged(s[1..])
  }

  /** The output never holds two equal neighbours. */
  lemma {:induction false} DistinctHasNoRepeats<T>(s: seq<T>)
    ensures NoRepeats(DistinctUntilChanged(s))
  {
    if |s| > 1 {
      var t := DistinctUntilChanged(s[1..]);
      DistinctHasNoRepeats(s[1..]);
      if s[0] != s[1] {
        var r := [s[0]] + t;
        forall i, j | 0 <= i && j == i + 1 && j < |r|
          ensures r[i] != r[j]
        {
          if i > 0 {
            assert r[i] == t[i - 1] && r[j] == t[j - 1];
          }
        }
      }
    }
  }

  /**
   Extending the input by one value extends the output by that value unless it
   equals the input's last value — the incremental rule a running operator follows.
   */
  lemma {:induction false} DistinctSnoc<T>(s: seq<T>, v: T)
    ensures DistinctUntilChanged(s + [v])
         == if |s| > 0 && Last(s) == v then DistinctUntilChanged(s)
            else DistinctUntilChanged(s) + [v]
    decreases |s|
  {
    if |s| > 0 {
      var x, t := s[0], s[1..];
      assert s == [x] + t;
      assert s + [v] == [x] + (t + [v]);
      DistinctCons(x, t);
      DistinctCons(x, t + [v]);
      if |t| == 0 {
        assert t + [v] == [v];
      } else {
        DistinctSnoc(t, v);
        assert (t + [v])[0] == t[0] && Last(s) == Last(t);
        if t[0] != x {
          assert [x] + (DistinctUntilChanged(t) + [v]) == ([x] + DistinctUntilChanged(t)) + [v];
        }
      }
    }
  }

  /** Putting a value in front adds it to the output unless it equals the old first input. */
  lemma DistinctCons<T>(x: T, t: seq<T>)
    ensures DistinctUntilChanged([x] + t)
         == if |t| > 0 && t[0] == x then DistinctUntilChanged(t)
            else [x] + DistinctUntilChanged(t)
  {
    assert ([x] + t)[1..] == t;
  }

  /** A sequence that already has no repeats passes through unchanged. */
  lemma {:induction false} DistinctOfNoRepeats<T>(s: seq<T>)
    requires NoRepeats(s)
    ensures DistinctUntilChanged(s) == s
  {
    if |s| > 1 {
      var t := s[1..];
      NoRepeatsTail(s);
      DistinctOfNoRepeats(t);
      assert s[0] != s[1];
      assert DistinctUntilChanged(s) == [s[0]] + DistinctUntilChanged(t);
      assert s == [s[0]] + t;
    }
  }

  lemma NoRepeatsTail<T>(s: seq<T>)
    requires |s| > 0 && NoRepeats(s)
    ensures NoRepeats(s[1..])
  {
    var t := s[1..];
    forall i, j | 0 <= i && j == i + 1 && j < |t|
      ensures t[i] != t[j]
    {
      assert t[i] == s[i + 1] && t[j] == s[j + 1];
    }
  }

  /** Deduping is idempotent. */
  lemma DistinctIdempotent<T>(s: seq<T>)
    ensures DistinctUntilChanged(DistinctUntilChanged(s)) == DistinctUntilChanged(s)
  {
    DistinctHasNoRepeats(s);
    DistinctOfNoRepeats(DistinctUntilChanged(s));
  }
}
