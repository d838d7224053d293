/** `ft::Observer` of old/include/observer.hpp: a map from events to
    listener lists with `subscribe` and `notify` only. Listeners are opaque
    identifiers and notifying returns the calls made, in order. */
module OldObserver {
  import Obs = Observer

  datatype Observer<E(==)> = Observer(observers: map<E, seq<nat>>)

  function New<E(==,!new)>(): Observer<E> {
    Observer(map[])
  }

  /** A new observer maps no event, so notifying it calls nobody. */
  lemma NewHasNoListeners<E(!new)>(o: Observer<E>, e: E)
    requires o == New()
    ensures o.observers == map[] && Notify(o, e) == []
  {
  }

  /** `subscribe`: `_observers[event].push_back(lambda)`. */
  function Subscribe<E(==,!new)>(o: Observer<E>, e: E, listener: nat): (r: Observer<E>)
    ensures e in r.observers
    ensures r.observers[e] == (if e in o.observers then o.observers[e] else []) + [listener]
    ensures forall f :: f != e ==> (f in r.observers <==> f in o.observers)
    ensures forall f :: f != e && f in o.observers ==> r.observers[f] == o.observers[f]
  {
    var ls := if e in o.observers then o.observers[e] else [];
    Observer(o.observers[e := ls + [listener]])
  }

  /** `notify`: the event's listeners in order, none for an event never
      subscribed to. */
  function Notify<E(==,!new)>(o: Observer<E>, e: E): (r: seq<nat>)
    ensures e !in o.observers ==> r == []
    ensures e in o.observers ==> r == o.observers[e]
  {
    if e in o.observers then o.observers[e] else []
  }

  function SubscribeAll<E(==,!new)>(o: Observer<E>, subs: seq<(E, nat)>): Observer<E>
    decreases |subs|
  {
    if |subs| == 0 then o
    else SubscribeAll(Subscribe(o, subs[0].0, subs[0].1), subs[1..])
  }

  /** After the same subscriptions the old observer notifies exactly as the
      current one's specialisation without an argument. */
  lemma {:induction false} AgreesWithCurrent<E(!new)>(o: Observer<E>, c: Obs.Observer<E>, subs: seq<(E, nat)>, e: E)
    requires forall f :: Notify(o, f) == Obs.NotifyPlain(c, f)
    ensures Notify(SubscribeAll(o, subs), e) == Obs.NotifyPlain(Obs.SubscribeAll(c, subs), e)
    decreases |subs|
  {
    if |subs| > 0 {
      var o1 := Subscribe(o, subs[0].0, subs[0].1);
      var c1 := Obs.Subscribe(c, subs[0].0, subs[0].1);
      forall f
        ensures Notify(o1, f) == Obs.NotifyPlain(c1, f)
      {
        assert Notify(o, f) == Obs.NotifyPlain(c, f);
      }
      AgreesWithCurrent(o1, c1, subs[1..], e);
    }
  }

  /** The counter a trace leaves, when listener i adds `step[i]`. */
  function Total(trace: seq<nat>, step: seq<int>): int
    decreases |trace|
  {
    if |trace| == 0 then 0
    else (if trace[0] < |step| then step[trace[0]] else 0) + Total(trace[1..], step)
  }

  /** old/tests/observer_test.cpp: listeners 0 and 1 on event 1 add 1 and
      10, listener 2 on event 2 adds 100; notifying 1, 2 and then 999 takes
      the counter to 11, 111 and 111. */
  lemma CounterTest()
    ensures var o := Subscribe(Subscribe(Subscribe(New(), 1, 0), 1, 1), 2, 2);
            var step := [1, 10, 100];
            && Total(Notify(o, 1), step) == 11
            && Total(Notify(o, 1), step) + Total(Notify(o, 2), step) == 111
            && Notify(o, 999) == []
  {
    var o := Subscribe(Subscribe(Subscribe(New(), 1, 0), 1, 1), 2, 2);
    assert Notify(o, 1) == [0, 1];
    assert Notify(o, 2) == [2];
    var step := [1, 10, 100];
    assert Total([1], step) == 10 + Total([], step);
    assert Total([0, 1], step) == 1 + Total([1], step);
    assert Total([2], step) == 100 + Total([], step);
  }
}
