/**
 * SwiftUtils/Event.swift: an `Event<T>` keeps an ordered list of
 * `EventListener<T>`s; firing the event dispatches the data to every listener
 * that is still alive. Each listener holds a weak reference to the object that
 * listens (`owner` here, `listener` in the source), an optional filter, an
 * accumulator over the data it saw last, a fire count and an optional limit on
 * it. Callbacks are recorded in `deliveries` instead of being run.
 */
module Events {
  import opened Wrappers
  import opened Collections

  /** Which of the three `listen` overloads registered the callback. */
  datatype CallbackKind = NoArguments | WithData | WithDataAndListener

  /** The default accumulator: the data that just arrived wins. */
  function Newest<T>(older: T, justArrived: T): T {
    justArrived
  }

  /** An EventListener's fields, as a value. */
  datatype ListenerState<!T> = ListenerState(
    owner: object?,
    fireCount: int,
    savedData: Option<T>,
    accumulator: (T, T) -> T,
    filter: Option<T -> bool>,
    maxFireCount: Option<int>,
    deliveries: seq<T>)

  /** Whether a dispatch of `data` gets past the liveness check and the filter. */
  predicate Accepts<T>(s: ListenerState<T>, data: T) {
    s.owner != null && (s.filter.None? || s.filter.value(data))
  }

  /** The value an accepted dispatch hands to the callback. */
  function Delivered<T>(s: ListenerState<T>, data: T): T {
    if s.savedData.Some? then s.accumulator(s.savedData.value, data) else data
  }

  /** What one non-delayed `dispatch(data)` does to a listener. */
  function DispatchStep<T>(s: ListenerState<T>, data: T): ListenerState<T> {
    if !Accepts(s, data) then s
    else
      var value := Delivered(s, data);
      var count := s.fireCount + 1;
      s.(savedData := Some(value),
         deliveries := s.deliveries + [value],
         fireCount := count,
         owner := if s.maxFireCount.Some? && count >= s.maxFireCount.value then null else s.owner)
  }

  /** A listener after a series of dispatches. */
  function DispatchAll<T>(s: ListenerState<T>, data: seq<T>): ListenerState<T>
    decreases |data|
  {
    if data == [] then s else DispatchAll(DispatchStep(s, data[0]), data[1..])
  }

  // ---------------------------------------------------------------------------
  // Properties of a single listener

  /**
   * A rejected dispatch (listener gone, or filter says no) changes nothing;
   * an accepted one calls back once with the accumulated value, saves it,
   * counts it, and cancels the listener when the limit is reached.
   */
  lemma DispatchOutcome<T>(s: ListenerState<T>, data: T)
    ensures !Accepts(s, data) ==> DispatchStep(s, data) == s
    ensures Accepts(s, data) ==>
      var t := DispatchStep(s, data);
      && t.deliveries == s.deliveries + [Delivered(s, data)]
      && t.savedData == Some(Delivered(s, data))
      && t.fireCount == s.fireCount + 1
      && (t.owner == null <==> s.maxFireCount.Some? && s.fireCount + 1 >= s.maxFireCount.value)
  {
  }

  /** With the default accumulator, or after `reset`, the callback gets the data itself. */
  lemma DeliversNewestData<T>(s: ListenerState<T>, data: T)
    requires s.savedData.None? || forall a, b :: s.accumulator(a, b) == b
    ensures Delivered(s, data) == data
  {
  }

  /** Each callback comes with one increment of the fire count, over any series of dispatches. */
  lemma {:induction false} FireCountMatchesDeliveries<T>(s: ListenerState<T>, data: seq<T>)
    ensures DispatchAll(s, data).fireCount - |DispatchAll(s, data).deliveries| == s.fireCount - |s.deliveries|
    ensures |DispatchAll(s, data).deliveries| >= |s.deliveries|
    decreases |data|
  {
    if data != [] {
      FireCountMatchesDeliveries(DispatchStep(s, data[0]), data[1..]);
    }
  }

  /** A cancelled listener never calls back again. */
  lemma {:induction false} CancelledStaysSilent<T>(s: ListenerState<T>, data: seq<T>)
    requires s.owner == null
    ensures DispatchAll(s, data) == s
    decreases |data|
  {
    if data != [] {
      CancelledStaysSilent(DispatchStep(s, data[0]), data[1..]);
    }
  }

  /**
   * With a limit of m, a live listener whose count is `f` calls back at most
   * max(1, m - f) more times, however often the event fires.
   */
  lemma {:induction false} MaxFireCountBound<T>(s: ListenerState<T>, data: seq<T>, m: int)
    requires s.maxFireCount == Some(m)
    ensures |DispatchAll(s, data).deliveries| - |s.deliveries| <= if m - s.fireCount > 1 then m - s.fireCount else 1
    decreases |data|
  {
    if data != [] {
      var t := DispatchStep(s, data[0]);
      if !Accepts(s, data[0]) {
        MaxFireCountBound(t, data[1..], m);
      } else if t.owner == null {
        CancelledStaysSilent(t, data[1..]);
      } else {
        MaxFireCountBound(t, data[1..], m);
      }
    }
  }

  /** `once()`: at most one callback, however often the event fires. */
  lemma OnceCallsBackAtMostOnce<T>(s: ListenerState<T>, data: seq<T>)
    requires s.maxFireCount == Some(1) && s.fireCount >= 0
    ensures |DispatchAll(s, data).deliveries| <= |s.deliveries| + 1
  {
    MaxFireCountBound(s, data, 1);
  }

  // ---------------------------------------------------------------------------
  // Listener lists

  /** The listeners whose listening object is still alive, in order (the `filter` on `listener != nil`). */
  function LiveOnly<T>(ls: seq<EventListener<T>>): (r: seq<EventListener<T>>)
    reads ls
    ensures |r| <= |ls|
    ensures forall l :: l in r ==> l in ls && l.owner != null
    ensures forall l :: l in ls && l.owner != null ==> l in r
  {
    if ls == [] then []
    else (if ls[0].owner != null then [ls[0]] else []) + LiveOnly(ls[1..])
  }

  /** The listening objects of listeners that all still have one. */
  function OwnersOf<T>(live: seq<EventListener<T>>): (r: seq<object>)
    reads live
    requires forall l :: l in live ==> l.owner != null
    ensures |r| == |live| && forall k :: 0 <= k < |r| ==> r[k] == live[k].owner
  {
    if live == [] then [] else [live[0].owner] + OwnersOf(live[1..])
  }

  /** `listeners`: the live listening objects, in registration order. */
  function LiveOwners<T>(ls: seq<EventListener<T>>): (r: seq<object>)
    reads ls
    ensures |r| == |LiveOnly(ls)|
    ensures forall k :: 0 <= k < |r| ==> r[k] == LiveOnly(ls)[k].owner
    ensures forall o :: o in r ==> exists l :: l in ls && l.owner == o
    ensures forall l :: l in ls && l.owner != null ==> l.owner in r
  {
    OwnersOf(LiveOnly(ls))
  }

  /** The entries `removeListener` keeps as written: those whose live listener IS the argument. */
  function OwnedBy<T>(ls: seq<EventListener<T>>, o: object): (r: seq<EventListener<T>>)
    reads ls
    ensures forall l :: l in r ==> l in ls && l.owner == o
    ensures forall l :: l in ls && l.owner == o ==> l in r
  {
    if ls == [] then []
    else (if ls[0].owner == o then [ls[0]] else []) + OwnedBy(ls[1..], o)
  }

  /** The entries a removal of `o`'s listeners should keep: live ones listened to by another object. */
  function NotOwnedBy<T>(ls: seq<EventListener<T>>, o: object): (r: seq<EventListener<T>>)
    reads ls
    ensures forall l :: l in r ==> l in ls && l.owner != null && l.owner != o
    ensures forall l :: l in ls && l.owner != null && l.owner != o ==> l in r
  {
    if ls == [] then []
    else (if ls[0].owner != null && ls[0].owner != o then [ls[0]] else []) + NotOwnedBy(ls[1..], o)
  }

  /** Filtering is order-preserving: the live part of a concatenation is the concatenation of live parts. */
  lemma {:induction false} LiveOnlyConcat<T>(a: seq<EventListener<T>>, b: seq<EventListener<T>>)
    ensures LiveOnly(a + b) == LiveOnly(a) + LiveOnly(b)
  {
    if a == [] {
      assert a + b == b;
    } else {
      assert (a + b)[1..] == a[1..] + b;
      LiveOnlyConcat(a[1..], b);
    }
  }

  /** A list whose listeners are all alive is its own live part. */
  lemma {:induction false} LiveOnlyOfLive<T>(ls: seq<EventListener<T>>)
    requires forall l :: l in ls ==> l.owner != null
    ensures LiveOnly(ls) == ls
  {
    if ls != [] {
      LiveOnlyOfLive(ls[1..]);
    }
  }

  /** Dropping cancelled listeners keeps a list free of duplicates. */
  lemma {:induction false} LiveOnlyDistinct<T>(ls: seq<EventListener<T>>)
    requires Distinct(ls)
    ensures Distinct(LiveOnly(ls))
  {
    if ls != [] {
      DistinctTail(ls);
      LiveOnlyDistinct(ls[1..]);
    }
  }

  /**
   * As written, `removeListener(o)` throws away the listeners of every other
   * object and keeps o's own: with one listener of o and one of another
   * object, only o's survives.
   */
  lemma RemoveListenerAsWrittenKeepsTheWrongOnes<T>(a: EventListener<T>, b: EventListener<T>, o: object)
    requires a.owner == o && b.owner != null && b.owner != o
    ensures OwnedBy([a, b], o) == [a]
    ensures NotOwnedBy([a, b], o) == [b]
  {
    assert [a, b][1..] == [b];
    assert [b][1..] == [];
    assert OwnedBy([b], o) == [];
    assert NotOwnedBy([b], o) == [b];
    assert NotOwnedBy([a, b], o) == [] + NotOwnedBy([b], o);
  }

  // ---------------------------------------------------------------------------
  // The classes

  class EventListener<T> {
    /** The weakly held listening object; nil once it is gone or the listener is cancelled. */
    var owner: object?
    var fireCount: int
    var savedData: Option<T>
    var accumulator: (T, T) -> T
    var filter: Option<T -> bool>
    var maxFireCount: Option<int>
    /** The values the callback has been called with, oldest first. */
    var deliveries: seq<T>
    const callback: CallbackKind

    ghost function State(): ListenerState<T>
      reads this
    {
      ListenerState(owner, fireCount, savedData, accumulator, filter, maxFireCount, deliveries)
    }

    constructor (owner: object, callback: CallbackKind)
      ensures State() == ListenerState(owner, 0, None, Newest, None, None, [])
      ensures this.callback == callback
    {
      this.owner := owner;
      this.callback := callback;
      fireCount := 0;
      savedData := None;
      accumulator := Newest;
      filter := None;
      maxFireCount := None;
      deliveries := [];
    }

    /** `dispatch` without a delay. */
    method Dispatch(data: T)
      modifies this
      ensures State() == DispatchStep(old(State()), data)
    {
      if owner == null {
        return;
      }
      if filter.Some? && !filter.value(data) {
        return;
      }
      var newData := data;
      if savedData.Some? {
        newData := accumulator(savedData.value, data);
      }
      savedData := Some(newData);
      CallWithData(newData);
      fireCount := fireCount + 1;
      if maxFireCount.Some? && fireCount >= maxFireCount.value {
        owner := null;
      }
    }

    /** Runs the callback with `data` (whichever of the three shapes it has). */
    method CallWithData(data: T)
      modifies this
      ensures State() == old(State()).(deliveries := old(deliveries) + [data])
    {
      deliveries := deliveries + [data];
    }

    method MaxFireCount(count: int) returns (r: EventListener<T>)
      modifies this
      ensures r == this && State() == old(State()).(maxFireCount := Some(count))
    {
      maxFireCount := Some(count);
      r := this;
    }

    method Once() returns (r: EventListener<T>)
      modifies this
      ensures r == this && State() == old(State()).(maxFireCount := Some(1))
    {
      maxFireCount := Some(1);
      r := this;
    }

    method Forever() returns (r: EventListener<T>)
      modifies this
      ensures r == this && State() == old(State()).(maxFireCount := None)
    {
      maxFireCount := None;
      r := this;
    }

    method Filter(f: T -> bool) returns (r: EventListener<T>)
      modifies this
      ensures r == this && State() == old(State()).(filter := Some(f))
    {
      filter := Some(f);
      r := this;
    }

    method Accumulate(f: (T, T) -> T) returns (r: EventListener<T>)
      modifies this
      ensures r == this && State() == old(State()).(accumulator := f)
    {
      accumulator := f;
      r := this;
    }

    /** Forgets the saved data: the next accepted dispatch delivers its own data. */
    method Reset()
      modifies this
      ensures State() == old(State()).(savedData := None)
      ensures forall data :: Delivered(State(), data) == data
    {
      savedData := None;
    }

    /** Drops the listening object: no callback happens after this (see CancelledStaysSilent). */
    method Cancel()
      modifies this
      ensures State() == old(State()).(owner := null)
      ensures forall data: seq<T> :: DispatchAll(State(), data) == State()
    {
      owner := null;
      forall data: seq<T> ensures DispatchAll(State(), data) == State() {
        CancelledStaysSilent(State(), data);
      }
    }
  }

  class Event<T> {
    var eventListeners: seq<EventListener<T>>
    var fireCount: int

    /** No listener is registered twice. */
    ghost predicate Valid()
      reads this
    {
      Distinct(eventListeners)
    }

    constructor ()
      ensures Valid() && eventListeners == [] && fireCount == 0
    {
      eventListeners := [];
      fireCount := 0;
    }

    /** The live listening objects, in registration order. */
    function Listeners(): (r: seq<object>)
      reads this, eventListeners
      ensures |r| <= |eventListeners|
      ensures forall o :: o in r ==> exists l :: l in eventListeners && l.owner == o
      ensures forall l :: l in eventListeners && l.owner != null ==> l.owner in r
    {
      LiveOwners(eventListeners)
    }

    method FilterCancelledListeners()
      requires Valid()
      modifies this
      ensures Valid() && fireCount == old(fireCount)
      ensures eventListeners == LiveOnly(old(eventListeners))
    {
      LiveOnlyDistinct(eventListeners);
      eventListeners := LiveOnly(eventListeners);
    }

    method AddListener(listener: EventListener<T>) returns (r: EventListener<T>)
      requires Valid() && listener !in eventListeners
      modifies this
      ensures Valid() && r == listener && fireCount == old(fireCount)
      ensures eventListeners == old(LiveOnly(eventListeners)) + [listener]
    {
      FilterCancelledListeners();
      eventListeners := eventListeners + [listener];
      r := listener;
    }

    /** The three `listen` overloads, which differ only in the callback's shape. */
    method Listen(owner: object, callback: CallbackKind) returns (r: EventListener<T>)
      requires Valid()
      modifies this
      ensures Valid() && fresh(r) && fireCount == old(fireCount)
      ensures r.State() == ListenerState(owner, 0, None, Newest, None, None, []) && r.callback == callback
      ensures eventListeners == old(LiveOnly(eventListeners)) + [r]
    {
      var listener := new EventListener(owner, callback);
      r := AddListener(listener);
    }

    method Fire(data: T)
      requires Valid()
      modifies this, eventListeners
      ensures Valid()
      ensures fireCount == old(fireCount) + 1
      ensures forall l :: l in old(eventListeners) ==>
        l.State() == if old(l.owner) != null then DispatchStep(old(l.State()), data) else old(l.State())
      ensures eventListeners == LiveOnly(old(LiveOnly(eventListeners)))
      ensures forall l :: l in eventListeners ==> l.owner != null
      ensures |Listeners()| == |eventListeners|
    {
      fireCount := fireCount + 1;
      FilterCancelledListeners();
      ghost var live := eventListeners;
      assert forall l :: l in old(eventListeners) && old(l.owner) != null ==> l in live;
      DispatchEach(eventListeners, data);
      FilterCancelledListeners();
      LiveOnlyOfLive(eventListeners);
    }

    /** `removeListener` as written: keeps only the listeners of `listener` itself. */
    method RemoveListenerAsWritten(listener: object)
      requires Valid()
      modifies this
      ensures Valid() && fireCount == old(fireCount)
      ensures eventListeners == OwnedBy(old(eventListeners), listener)
    {
      OwnedByDistinct(eventListeners, listener);
      eventListeners := OwnedBy(eventListeners, listener);
    }

    /** `removeListener` as intended: drops the listeners of `listener` (and cancelled ones). */
    method RemoveListener(listener: object)
      requires Valid()
      modifies this
      ensures Valid() && fireCount == old(fireCount)
      ensures eventListeners == NotOwnedBy(old(eventListeners), listener)
      ensures listener !in Listeners()
    {
      NotOwnedByDistinct(eventListeners, listener);
      eventListeners := NotOwnedBy(eventListeners, listener);
    }

    method RemoveAllListeners()
      modifies this
      ensures Valid() && eventListeners == [] && Listeners() == [] && fireCount == old(fireCount)
    {
      eventListeners := [];
    }
  }

  /** Dispatches `data` to each listener of `ls`, in order. */
  method DispatchEach<T>(ls: seq<EventListener<T>>, data: T)
    requires Distinct(ls)
    modifies set l | l in ls
    ensures forall k :: 0 <= k < |ls| ==> ls[k].State() == DispatchStep(old(ls[k].State()), data)
    ensures forall l :: l in ls ==> l.State() == DispatchStep(old(l.State()), data)
  {
    for i := 0 to |ls|
      invariant forall k :: 0 <= k < i ==> ls[k].State() == DispatchStep(old(ls[k].State()), data)
      invariant forall k :: i <= k < |ls| ==> ls[k].State() == old(ls[k].State())
    {
      ls[i].Dispatch(data);
    }
  }

  lemma {:induction false} OwnedByDistinct<T>(ls: seq<EventListener<T>>, o: object)
    requires Distinct(ls)
    ensures Distinct(OwnedBy(ls, o))
  {
    if ls != [] {
      DistinctTail(ls);
      OwnedByDistinct(ls[1..], o);
    }
  }

  lemma {:induction false} NotOwnedByDistinct<T>(ls: seq<EventListener<T>>, o: object)
    requires Distinct(ls)
    ensures Distinct(NotOwnedBy(ls, o))
  {
    if ls != [] {
      DistinctTail(ls);
      NotOwnedByDistinct(ls[1..], o);
    }
  }
}
