/** The publish/subscribe registry declared in
    includes/design_patterns/observer.hpp, with and without an argument.
    Its bodies live in observer.tpp, which is not part of this model, so
    the operations follow the declared contracts. A listener is an opaque
    identifier; notifying returns the calls made, in order, instead of
    making them. */
module Observer {

  datatype Observer<E(==)> = Observer(subscribers: map<E, seq<nat>>)

  /** One call of a listener with the notified argument. */
  datatype Call<A> = Call(listener: nat, arg: A)

  function New<E(==,!new)>(): Observer<E> {
    Observer(map[])
  }

  /** A new observer has no listener for any event, so notifying it calls
      nobody. */
  lemma NewHasNoListeners<E(!new)>(o: Observer<E>, e: E)
    requires o == New()
    ensures Listeners(o, e) == [] && !HasSubscribers(o, e) && NotifyPlain(o, e) == []
  {
  }

  /** The listeners of `e` in subscription order; none for an event never
      subscribed to. */
  function Listeners<E(==,!new)>(o: Observer<E>, e: E): seq<nat> {
    if e in o.subscribers then o.subscribers[e] else []
  }

  /** `subscribe`: adds the listener after those already on the event;
      every other event keeps its listeners. */
  function Subscribe<E(==,!new)>(o: Observer<E>, e: E, listener: nat): (r: Observer<E>)
    ensures Listeners(r, e) == Listeners(o, e) + [listener]
    ensures forall f :: f != e ==> Listeners(r, f) == Listeners(o, f)
    ensures GetSubscriberCount(r, e) == GetSubscriberCount(o, e) + 1
  {
    Observer(o.subscribers[e := Listeners(o, e) + [listener]])
  }

  /** `notify(event, arg)`: every listener of the event, in subscription
      order, called with `arg`; nothing for an event without listeners. */
  function Notify<E(==,!new), A>(o: Observer<E>, e: E, arg: A): (r: seq<Call<A>>)
    ensures |r| == GetSubscriberCount(o, e)
    ensures forall i :: 0 <= i < |r| ==> r[i] == Call(Listeners(o, e)[i], arg)
    ensures !HasSubscribers(o, e) ==> r == []
  {
    var ls := Listeners(o, e);
    seq(|ls|, i requires 0 <= i < |ls| => Call(ls[i], arg))
  }

  /** `notify(event)` of the specialisation without an argument: the
      listeners called, in subscription order. */
  function NotifyPlain<E(==,!new)>(o: Observer<E>, e: E): (r: seq<nat>)
    ensures |r| == GetSubscriberCount(o, e)
    ensures forall i :: 0 <= i < |r| ==> r[i] == Listeners(o, e)[i]
    ensures !HasSubscribers(o, e) ==> r == []
  {
    Listeners(o, e)
  }

  /** `unsubscribe`: drops every listener of the event and no other. */
  function Unsubscribe<E(==,!new)>(o: Observer<E>, e: E): (r: Observer<E>)
    ensures Listeners(r, e) == [] && !HasSubscribers(r, e)
    ensures forall f :: f != e ==> Listeners(r, f) == Listeners(o, f)
  {
    Observer(o.subscribers - {e})
  }

  function GetSubscriberCount<E(==,!new)>(o: Observer<E>, e: E): nat {
    |Listeners(o, e)|
  }

  /** `has_subscribers`: at least one listener. */
  function HasSubscribers<E(==,!new)>(o: Observer<E>, e: E): (r: bool)
    ensures r <==> GetSubscriberCount(o, e) > 0
  {
    Listeners(o, e) != []
  }

  /** `subscribe` for each (event, listener) pair in turn. */
  function SubscribeAll<E(==,!new)>(o: Observer<E>, subs: seq<(E, nat)>): Observer<E>
    decreases |subs|
  {
    if |subs| == 0 then o
    else SubscribeAll(Subscribe(o, subs[0].0, subs[0].1), subs[1..])
  }

  /** The listeners of an event, after a run of subscriptions, in the order
      the run subscribed them. */
  function Filter<E(==,!new)>(subs: seq<(E, nat)>, e: E): seq<nat>
    decreases |subs|
  {
    if |subs| == 0 then []
    else (if subs[0].0 == e then [subs[0].1] else []) + Filter(subs[1..], e)
  }

  /** Notifying after a run of subscriptions calls the earlier listeners,
      then exactly that event's new ones in the order they came. */
  lemma {:induction false} NotifyAfterSubscribing<E(!new)>(o: Observer<E>, subs: seq<(E, nat)>, e: E)
    ensures NotifyPlain(SubscribeAll(o, subs), e) == NotifyPlain(o, e) + Filter(subs, e)
    decreases |subs|
  {
    if |subs| > 0 {
      var o1 := Subscribe(o, subs[0].0, subs[0].1);
      NotifyAfterSubscribing(o1, subs[1..], e);
      if subs[0].0 == e {
        assert Listeners(o, e) + [subs[0].1] + Filter(subs[1..], e)
            == Listeners(o, e) + ([subs[0].1] + Filter(subs[1..], e));
      } else {
        assert Filter(subs, e) == Filter(subs[1..], e);
      }
    }
  }

  /** Both specialisations call the same listeners in the same order; the
      one with an argument hands each the notified value. */
  lemma NotifyCarriesArg<E(!new), A>(o: Observer<E>, e: E, arg: A)
    ensures |Notify(o, e, arg)| == |NotifyPlain(o, e)|
    ensures forall i :: 0 <= i < |Notify(o, e, arg)| ==>
              Notify(o, e, arg)[i].listener == NotifyPlain(o, e)[i] && Notify(o, e, arg)[i].arg == arg
  {
  }

  /** Unsubscribing and subscribing again starts the event's list afresh. */
  lemma ResubscribeAfterUnsubscribe<E(!new)>(o: Observer<E>, e: E, listener: nat)
    ensures NotifyPlain(Subscribe(Unsubscribe(o, e), e, listener), e) == [listener]
  {
  }
}
