/**
 The error aggregation a value cell applies to the latest outputs of its validators.
 A validator output is a nullable `IEnumerable`: null means "no error"; a string is
 one message (even though a string is itself enumerable); any other collection holds
 error objects. The aggregate is null when there are no validators or every output
 is null; otherwise it lists every string output, in validator order, followed by
 the elements of the other collections flattened one level.
 */
module Validation {
  import opened Runtime

  datatype ErrorOutput<E> = Text(text: string) | Items(items: seq<E>)

  /** One entry of an aggregate: a string message, or an element of a non-string collection. */
  datatype ErrorItem<E> = Message(text: string) | Item(item: E)

  /** What `GetErrors` returns: null, or the aggregated entries. */
  type Errors<E> = Nullable<seq<ErrorItem<E>>>

  /** A `Func<T, string>` validator's output seen as an `IEnumerable` (the string overloads). */
  function OfString<E>(s: Nullable<string>): Nullable<ErrorOutput<E>>
  {
    match s
    case Null => Null
    case Val(t) => Val(Text(t))
  }

  /** A string validator's output is null exactly when the string is, and otherwise is that string as text. */
  lemma OfStringKeepsText<E>(s: Nullable<string>)
    ensures OfString<E>(s).Null? <==> s.Null?
    ensures s.Val? ==> OfString<E>(s).value.Text? && OfString<E>(s).value.text == s.value
  {
  }

  /** The string outputs, as messages, in order (`OfType<string>()`). */
  function Strings<E>(xs: seq<Nullable<ErrorOutput<E>>>): (r: seq<ErrorItem<E>>)
    ensures forall k :: 0 <= k < |r| ==> r[k].Message?
  {
    if |xs| == 0 then []
    else
      Strings(xs[..|xs| - 1])
      + (match Last(xs) case Val(Text(t)) => [Message(t)] case _ => [])
  }

  /** The elements of the non-null, non-string outputs, in order (`SelectMany(Cast<object>)`). */
  function Others<E>(xs: seq<Nullable<ErrorOutput<E>>>): (r: seq<ErrorItem<E>>)
    ensures forall k :: 0 <= k < |r| ==> r[k].Item?
  {
    if |xs| == 0 then []
    else
      Others(xs[..|xs| - 1])
      + (match Last(xs) case Val(Items(es)) => AsItems(es) case _ => [])
  }

  function AsItems<E>(es: seq<E>): (r: seq<ErrorItem<E>>)
    ensures |r| == |es| && forall k :: 0 <= k < |es| ==> r[k] == Item(es[k])
  {
    seq(|es|, k requires 0 <= k < |es| => Item(es[k]))
  }

  /** The `Select` over the joined validator outputs. */
  function Aggregate<E>(xs: seq<Nullable<ErrorOutput<E>>>): (r: Errors<E>)
    ensures r.Null? <==> forall i :: 0 <= i < |xs| ==> xs[i].Null?
  {
    if |xs| == 0 then Null
    else if forall i | 0 <= i < |xs| :: xs[i].Null? then Null
    else Val(Strings(xs) + Others(xs))
  }

  /** `HasErrors`: the aggregate is non-null (an empty collection still counts). */
  predicate HasErrors<E>(errors: Errors<E>) {
    errors.Val?
  }

  // ---------------------------------------------------------------------------
  // A reference reading: flatten every output in place, then move the messages first.

  /** The entries one output contributes, in its own order. */
  function Entries<E>(x: Nullable<ErrorOutput<E>>): seq<ErrorItem<E>>
  {
    match x
    case Null => []
    case Val(Text(t)) => [Message(t)]
    case Val(Items(es)) => AsItems(es)
  }

  /** All outputs' entries, in validator order. */
  function Flatten<E>(xs: seq<Nullable<ErrorOutput<E>>>): seq<ErrorItem<E>>
  {
    if |xs| == 0 then [] else Flatten(xs[..|xs| - 1]) + Entries(Last(xs))
  }

  /** The entries of `s` whose kind is a message (`messages` true) or an item (`messages` false), in order. */
  function OfKind<E>(s: seq<ErrorItem<E>>, messages: bool): (r: seq<ErrorItem<E>>)
    ensures |r| <= |s|
  {
    if |s| == 0 then []
    else OfKind(s[..|s| - 1], messages) + (if Last(s).Message? == messages then [Last(s)] else [])
  }

  lemma {:induction false} OfKindConcat<E>(a: seq<ErrorItem<E>>, b: seq<ErrorItem<E>>, messages: bool)
    ensures OfKind(a + b, messages) == OfKind(a, messages) + OfKind(b, messages)
    decreases |b|
  {
    if |b| == 0 {
      assert a + b == a;
    } else {
      var b0 := b[..|b| - 1];
      assert (a + b)[..|a + b| - 1] == a + b0;
      assert Last(a + b) == Last(b);
      OfKindConcat(a, b0, messages);
    }
  }

  /** Selecting one kind from a sequence that holds only that kind keeps it; the other kind yields nothing. */
  lemma {:induction false} OfKindUniform<E>(s: seq<ErrorItem<E>>, messages: bool)
    requires forall k :: 0 <= k < |s| ==> s[k].Message? == messages
    ensures OfKind(s, messages) == s
    ensures OfKind(s, !messages) == []
  {
    if |s| > 0 {
      OfKindUniform(s[..|s| - 1], messages);
      assert s == s[..|s| - 1] + [Last(s)];
    }
  }

  /** The string part is the messages of the flattening, and the rest is its items. */
  lemma {:induction false} PartsAreKindsOfFlatten<E>(xs: seq<Nullable<ErrorOutput<E>>>)
    ensures Strings(xs) == OfKind(Flatten(xs), true)
    ensures Others(xs) == OfKind(Flatten(xs), false)
  {
    if |xs| > 0 {
      var init := xs[..|xs| - 1];
      PartsAreKindsOfFlatten(init);
      OfKindConcat(Flatten(init), Entries(Last(xs)), true);
      OfKindConcat(Flatten(init), Entries(Last(xs)), false);
      match Last(xs)
      case Null =>
      case Val(Text(t)) =>
        OfKindUniform<E>([Message(t)], true);
      case Val(Items(es)) =>
        OfKindUniform(AsItems(es), false);
    }
  }

  /**
   The aggregate is a stable partition of the in-place flattening: all messages in
   validator order, then all collection elements in validator order.
   */
  lemma AggregateIsStablePartition<E>(xs: seq<Nullable<ErrorOutput<E>>>)
    requires exists i :: 0 <= i < |xs| && xs[i].Val?
    ensures Aggregate(xs) == Val(OfKind(Flatten(xs), true) + OfKind(Flatten(xs), false))
  {
    PartsAreKindsOfFlatten(xs);
  }

  /** A stable partition by kind only reorders: it keeps every entry, as often as it occurs. */
  lemma {:induction false} PartitionIsPermutation<E>(s: seq<ErrorItem<E>>)
    ensures multiset(OfKind(s, true) + OfKind(s, false)) == multiset(s)
  {
    if |s| > 0 {
      var init := s[..|s| - 1];
      PartitionIsPermutation(init);
      assert s == init + [Last(s)];
    }
  }

  /** Consequently the aggregate holds exactly the entries of all outputs. */
  lemma AggregateKeepsEveryEntry<E>(xs: seq<Nullable<ErrorOutput<E>>>)
    requires exists i :: 0 <= i < |xs| && xs[i].Val?
    ensures multiset(Aggregate(xs).value) == multiset(Flatten(xs))
  {
    AggregateIsStablePartition(xs);
    PartitionIsPermutation(Flatten(xs));
  }

  /** A validator returning an empty, non-null collection still puts the property in error. */
  lemma EmptyCollectionIsAnError<E>()
    ensures Aggregate<E>([Val(Items([]))]) == Val([])
    ensures HasErrors(Aggregate<E>([Val(Items([]))]))
  {
    assert Strings<E>([Val(Items([]))]) == [];
  }
}
