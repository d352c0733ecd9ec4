/**
 A hot multicast channel (an Rx `Subject`), kept as a record of what it did: every
 value published, and for each subscriber what it has received. A subscriber may
 be handed a replay prefix when it joins (a `BehaviorSubject` hands over its
 current value); after that it receives exactly the values published later. Once
 completed the channel publishes nothing, and a late subscriber receives nothing.
 */
module Multicast {
  import opened Runtime

  datatype Subscriber<T> = Subscriber(joinedAt: nat, replayed: seq<T>, received: seq<T>)

  datatype Channel<T> = Channel(published: seq<T>, subscribers: seq<Subscriber<T>>, completed: bool)

  /** Each subscriber received its replay and then everything published since it joined. */
  ghost predicate Valid<T>(ch: Channel<T>) {
    forall i :: 0 <= i < |ch.subscribers| ==> SawFromJoin(ch.subscribers[i], ch.published)
  }

  ghost predicate SawFromJoin<T>(sub: Subscriber<T>, published: seq<T>) {
    sub.joinedAt <= |published| && sub.received == sub.replayed + Since(published, sub.joinedAt)
  }

  /** The values published at or after position `n`: the suffix `published[n..]`, element by element. */
  function Since<T>(published: seq<T>, n: nat): (r: seq<T>)
    requires n <= |published|
    ensures |r| == |published| - n
    decreases |published| - n
  {
    if n == |published| then [] else [published[n]] + Since(published, n + 1)
  }

  /** `Since` is the suffix from `n` on. */
  lemma {:induction false} SinceIsSuffix<T>(published: seq<T>, n: nat)
    requires n <= |published|
    ensures Since(published, n) == published[n..]
    decreases |published| - n
  {
    if n < |published| {
      SinceIsSuffix(published, n + 1);
      assert published[n..] == [published[n]] + published[n + 1..];
    }
  }

  /** Publishing `v` adds exactly `v` to what every earlier joiner has seen since. */
  lemma {:induction false} SinceSnoc<T>(published: seq<T>, n: nat, v: T)
    requires n <= |published|
    ensures Since(published + [v], n) == Since(published, n) + [v]
    decreases |published| - n
  {
    if n < |published| {
      SinceSnoc(published, n + 1, v);
      assert (published + [v])[n] == published[n];
    } else {
      assert Since(published + [v], n + 1) == [];
    }
  }

  /** A fresh, open channel with no subscribers. */
  function Empty<T>(): Channel<T>
  {
    Channel([], [], false)
  }

  /** A new subject is live, has published nothing and has no subscribers yet. */
  lemma EmptyIsValid<T>()
    ensures Valid(Empty<T>()) && !Empty<T>().completed
    ensures Empty<T>().published == [] && Empty<T>().subscribers == []
  {
  }

  /** Adds a subscriber that is first handed `replay` (nothing, once completed). */
  function Subscribe<T>(ch: Channel<T>, replay: seq<T>): (r: Channel<T>)
    ensures r.published == ch.published && r.completed == ch.completed
    ensures |r.subscribers| == |ch.subscribers| + 1
    ensures r.subscribers[..|ch.subscribers|] == ch.subscribers
    ensures Last(r.subscribers).received == (if ch.completed then [] else replay)
    ensures Valid(ch) ==> Valid(r)
  {
    var given := if ch.completed then [] else replay;
    var sub := Subscriber(|ch.published|, given, given);
    assert given + Since(ch.published, |ch.published|) == given;
    ch.(subscribers := ch.subscribers + [sub])
  }

  /** Delivers `v` to every current subscriber; a completed channel ignores it. */
  function Publish<T>(ch: Channel<T>, v: T): (r: Channel<T>)
    ensures ch.completed ==> r == ch
    ensures !ch.completed ==> r.published == ch.published + [v]
    ensures r.completed == ch.completed && |r.subscribers| == |ch.subscribers|
    ensures forall i :: 0 <= i < |ch.subscribers| ==>
              r.subscribers[i].joinedAt == ch.subscribers[i].joinedAt
              && r.subscribers[i].replayed == ch.subscribers[i].replayed
              && r.subscribers[i].received
                 == ch.subscribers[i].received + (if ch.completed then [] else [v])
    ensures Valid(ch) ==> Valid(r)
  {
    if ch.completed then ch
    else
      var subs := seq(|ch.subscribers|, i requires 0 <= i < |ch.subscribers| =>
                        var s := ch.subscribers[i];
                        s.(received := s.received + [v]));
      var r := Channel(ch.published + [v], subs, false);
      assert Valid(ch) ==> Valid(r) by {
        if Valid(ch) {
          forall i | 0 <= i < |subs|
            ensures SawFromJoin(subs[i], r.published)
          {
            var s := ch.subscribers[i];
            assert SawFromJoin(s, ch.published);
            SinceSnoc(ch.published, s.joinedAt, v);
          }
        }
      }
      r
  }

  /** Completes the channel: nothing is published to anyone afterwards. */
  function Complete<T>(ch: Channel<T>): (r: Channel<T>)
    ensures r.completed
    ensures r.published == ch.published && r.subscribers == ch.subscribers
    ensures Valid(ch) ==> Valid(r)
  {
    ch.(completed := true)
  }

  /** A subscriber that joined a channel before anything was published, without replay, saw everything. */
  lemma EarlySubscriberSeesAll<T>(ch: Channel<T>, i: int)
    requires Valid(ch) && 0 <= i < |ch.subscribers|
    requires ch.subscribers[i].joinedAt == 0 && ch.subscribers[i].replayed == []
    ensures ch.subscribers[i].received == ch.published
  {
    assert SawFromJoin(ch.subscribers[i], ch.published);
    SinceIsSuffix(ch.published, 0);
  }
}
