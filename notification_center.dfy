/**
 * SwiftUtils/NotificationCenter.swift: a notification centre keeps, per
 * notification key, the list of `NotificationObserver`s registered for it.
 * An observer holds weak references to the object that observes and to the
 * sender it listens to, an optional block, a filter on the notification's
 * user info, a fire count and an optional limit on it. Running the block is
 * recorded in `deliveries` instead.
 */
module Notifications {
  import opened Wrappers
  import opened Collections

  /** A notification's `userInfo` dictionary, which may be absent. */
  type UserInfo = Option<map<string, string>>

  /** A NotificationObserver's fields, as a value. */
  datatype ObserverState = ObserverState(
    sender: object?,
    observer: object?,
    hasBlock: bool,
    filter: UserInfo -> bool,
    maxFireCount: Option<int>,
    fireCount: int,
    deliveries: seq<(object?, UserInfo)>)

  /** What the observer does with one posted notification. */
  datatype Decision = Ignore | RemoveSelf | Deliver

  /** An observer with no sender set takes any sender; one with a sender takes only that sender. */
  predicate SenderMatches(s: ObserverState, notificationSender: object?) {
    s.sender == null || s.sender == notificationSender
  }

  /** The handler registered with the platform notification centre. */
  function Decide(s: ObserverState, notificationSender: object?, userInfo: UserInfo): Decision {
    if s.sender != null && (notificationSender == null || s.sender != notificationSender) then Ignore
    else if s.observer == null then RemoveSelf
    else if s.hasBlock && s.filter(userInfo) then Deliver
    else Ignore
  }

  /** The block is run, and counted. */
  function Fired(s: ObserverState, notificationSender: object?, userInfo: UserInfo): ObserverState {
    s.(deliveries := s.deliveries + [(notificationSender, userInfo)], fireCount := s.fireCount + 1)
  }

  predicate LimitReached(s: ObserverState) {
    s.maxFireCount.Some? && s.fireCount >= s.maxFireCount.value
  }

  /**
   * The three outcomes, each characterised on its own: a foreign or missing
   * sender is ignored; a gone observer removes itself; otherwise the block runs
   * exactly when one is set and the filter accepts.
   */
  lemma DecisionCases(s: ObserverState, notificationSender: object?, userInfo: UserInfo)
    ensures !SenderMatches(s, notificationSender) ==> Decide(s, notificationSender, userInfo) == Ignore
    ensures Decide(s, notificationSender, userInfo) == RemoveSelf <==>
      SenderMatches(s, notificationSender) && s.observer == null
    ensures Decide(s, notificationSender, userInfo) == Deliver <==>
      SenderMatches(s, notificationSender) && s.observer != null && s.hasBlock && s.filter(userInfo)
  {
  }

  /** Once the observed object is gone, a notification from an accepted sender makes the observer remove itself. */
  lemma ReleasedObserverRemovesItself(s: ObserverState, notificationSender: object?, userInfo: UserInfo)
    requires SenderMatches(s, notificationSender)
    ensures Decide(s.(observer := null), notificationSender, userInfo) == RemoveSelf
  {
  }

  /**
   * The observer after a series of posted notifications, for as long as it
   * stays registered: it stops at its first `RemoveSelf` and at the delivery
   * that reaches its limit, since both take it out of the centre.
   */
  function ReceiveAll(s: ObserverState, posts: seq<(object?, UserInfo)>): ObserverState
    decreases |posts|
  {
    if posts == [] then s
    else match Decide(s, posts[0].0, posts[0].1)
      case Ignore => ReceiveAll(s, posts[1..])
      case RemoveSelf => s
      case Deliver =>
        var t := Fired(s, posts[0].0, posts[0].1);
        if LimitReached(t) then t else ReceiveAll(t, posts[1..])
  }

  /** `once()`: over any series of notifications, the block runs at most once. */
  lemma {:induction false} OnceDeliversAtMostOnce(s: ObserverState, posts: seq<(object?, UserInfo)>)
    requires s.maxFireCount == Some(1) && s.fireCount >= 0
    ensures |ReceiveAll(s, posts).deliveries| <= |s.deliveries| + 1
    decreases |posts|
  {
    if posts != [] && Decide(s, posts[0].0, posts[0].1) == Ignore {
      OnceDeliversAtMostOnce(s, posts[1..]);
    }
  }

  /**
   * `forever()`: an observer of a live object, with a block, no sender and a
   * filter that accepts everything, runs its block for every notification,
   * in order.
   */
  lemma {:induction false} ForeverDeliversEveryPost(s: ObserverState, posts: seq<(object?, UserInfo)>)
    requires s.maxFireCount.None? && s.sender == null && s.observer != null && s.hasBlock
    requires forall u :: s.filter(u)
    ensures ReceiveAll(s, posts).deliveries == s.deliveries + posts
    ensures ReceiveAll(s, posts).fireCount == s.fireCount + |posts|
    decreases |posts|
  {
    if posts == [] {
      assert s.deliveries + posts == s.deliveries;
    } else {
      var t := Fired(s, posts[0].0, posts[0].1);
      assert Decide(s, posts[0].0, posts[0].1) == Deliver;
      ForeverDeliversEveryPost(t, posts[1..]);
      assert t.deliveries + posts[1..] == s.deliveries + posts;
    }
  }

  /** Every entry of a key's list is an observer registered for that key. */
  predicate KeyedBy(s: seq<NotificationObserver>, key: string) {
    forall i :: 0 <= i < |s| ==> s[i].key == key
  }

  /** The position of the last entry whose (live) observed object is `o`. */
  function LastIndexObservedBy(s: seq<NotificationObserver>, o: object): (r: Option<nat>)
    reads s
    ensures r.Some? ==> r.value < |s| && s[r.value].observer == o
    ensures r.Some? ==> forall j :: r.value < j < |s| ==> s[j].observer != o
    ensures r.None? ==> forall j :: 0 <= j < |s| ==> s[j].observer != o
  {
    if s == [] then None
    else if s[|s| - 1].observer == o then Some(|s| - 1)
    else LastIndexObservedBy(s[..|s| - 1], o)
  }

  /** `observers` after `dumpNotificationObserver(o)`. */
  function Dumped(observers: map<string, seq<NotificationObserver>>, o: NotificationObserver): (r: map<string, seq<NotificationObserver>>)
    requires o.key in observers
    ensures r.Keys == observers.Keys
    ensures forall k :: k in observers && k != o.key ==> r[k] == observers[k]
    ensures |r[o.key]| >= |observers[o.key]| - 1
  {
    observers[o.key := RemoveAt(observers[o.key], LastIndexOf(observers[o.key], o))]
  }

  /** `observers` after `remove(observer:forKey:)`. */
  function WithoutObserver(observers: map<string, seq<NotificationObserver>>, o: object, key: string): (r: map<string, seq<NotificationObserver>>)
    requires key in observers
    reads observers[key]
    ensures r.Keys == observers.Keys
    ensures forall k :: k in observers && k != key ==> r[k] == observers[k]
    ensures |r[key]| >= |observers[key]| - 1
  {
    observers[key := RemoveAt(observers[key], LastIndexObservedBy(observers[key], o))]
  }

  /** Removing entries by identity keeps each list keyed by its key and free of duplicates. */
  lemma RemoveAtKeepsKey(s: seq<NotificationObserver>, key: string, i: Option<nat>)
    requires i.Some? ==> i.value < |s|
    requires KeyedBy(s, key) && Distinct(s)
    ensures KeyedBy(RemoveAt(s, i), key) && Distinct(RemoveAt(s, i))
  {
    RemoveAtDistinct(s, i);
    var r := RemoveAt(s, i);
    forall k | 0 <= k < |r| ensures r[k].key == key {
      assert r[k] in s;
    }
  }

  /** A dumped observer is no longer registered, because no list holds it twice. */
  lemma DumpedIsGone(observers: map<string, seq<NotificationObserver>>, o: NotificationObserver)
    requires o.key in observers && Distinct(observers[o.key])
    ensures o !in Dumped(observers, o)[o.key]
  {
    var i := LastIndexOf(observers[o.key], o);
    RemoveAtDistinct(observers[o.key], i);
  }

  class NotificationObserver {
    var sender: object?
    var observer: object?
    var hasBlock: bool
    var filter: UserInfo -> bool
    var maxFireCount: Option<int>
    var fireCount: int
    /** The (sender, userInfo) pairs the block has been called with, oldest first. */
    var deliveries: seq<(object?, UserInfo)>
    const key: string
    /** The shared notification centre the observer is registered with. */
    const center: NotificationCenter

    ghost function State(): ObserverState
      reads this
    {
      ObserverState(sender, observer, hasBlock, filter, maxFireCount, fireCount, deliveries)
    }

    constructor (center: NotificationCenter, observer: object, key: string)
      ensures this.center == center && this.key == key
      ensures State() == ObserverState(null, observer, false, AcceptAll, None, 0, [])
    {
      this.center := center;
      this.key := key;
      this.observer := observer;
      sender := null;
      hasBlock := false;
      filter := AcceptAll;
      maxFireCount := None;
      fireCount := 0;
      deliveries := [];
    }

    /** A posted notification reaches the observer (the body of the registered handler). */
    method Receive(notificationSender: object?, userInfo: UserInfo)
      requires center.Valid() && key in center.observers
      modifies this, center
      ensures center.Valid() && center.observers.Keys == old(center.observers.Keys)
      ensures Decide(old(State()), notificationSender, userInfo) == Ignore ==>
        State() == old(State()) && center.observers == old(center.observers)
      ensures Decide(old(State()), notificationSender, userInfo) == RemoveSelf ==>
        State() == old(State()) && center.observers == Dumped(old(center.observers), this)
      ensures Decide(old(State()), notificationSender, userInfo) == Deliver ==>
        && State() == Fired(old(State()), notificationSender, userInfo)
        && center.observers == if LimitReached(State()) then Dumped(old(center.observers), this) else old(center.observers)
    {
      if sender != null {
        if notificationSender == null {
          return;
        }
        if sender != notificationSender {
          return;
        }
      }
      if observer != null {
        if hasBlock {
          if filter(userInfo) {
            Dispatch(notificationSender, userInfo);
          }
        }
      } else {
        Remove();
      }
    }

    /** Runs the block, counts it, and removes the observer once the limit is reached. */
    method Dispatch(notificationSender: object?, userInfo: UserInfo)
      requires center.Valid() && key in center.observers
      modifies this, center
      ensures center.Valid() && center.observers.Keys == old(center.observers.Keys)
      ensures State() == Fired(old(State()), notificationSender, userInfo)
      ensures center.observers == if LimitReached(State()) then Dumped(old(center.observers), this) else old(center.observers)
      ensures LimitReached(State()) ==> this !in center.observers[key]
    {
      deliveries := deliveries + [(notificationSender, userInfo)];
      fireCount := fireCount + 1;
      if maxFireCount.Some? {
        if fireCount >= maxFireCount.value {
          Remove();
        }
      }
    }

    /** The observed object is deallocated: the weak reference reads nil from now on. */
    method ObservedObjectReleased()
      modifies this
      ensures State() == old(State()).(observer := null)
    {
      observer := null;
    }

    method SetSender(sender: object?) returns (r: NotificationObserver)
      modifies this
      ensures r == this && State() == old(State()).(sender := sender)
    {
      this.sender := sender;
      r := this;
    }

    /** Sets the block; which block it is does not matter to the model. */
    method SetBlock() returns (r: NotificationObserver)
      modifies this
      ensures r == this && State() == old(State()).(hasBlock := true)
    {
      hasBlock := true;
      r := this;
    }

    method Filter(f: UserInfo -> bool) returns (r: NotificationObserver)
      modifies this
      ensures r == this && State() == old(State()).(filter := f)
    {
      filter := f;
      r := this;
    }

    method MaxFireCount(count: int) returns (r: NotificationObserver)
      modifies this
      ensures r == this && State() == old(State()).(maxFireCount := Some(count))
    {
      maxFireCount := Some(count);
      r := this;
    }

    method Once() returns (r: NotificationObserver)
      modifies this
      ensures r == this && State() == old(State()).(maxFireCount := Some(1))
    {
      maxFireCount := Some(1);
      r := this;
    }

    method Forever() returns (r: NotificationObserver)
      modifies this
      ensures r == this && State() == old(State()).(maxFireCount := None)
    {
      maxFireCount := None;
      r := this;
    }

    /** Takes this observer out of the centre's list for its key. */
    method Remove()
      requires center.Valid() && key in center.observers
      modifies center
      ensures center.Valid() && center.observers == Dumped(old(center.observers), this)
      ensures this !in center.observers[key]
    {
      center.DumpNotificationObserver(this);
      DumpedIsGone(old(center.observers), this);
    }
  }

  /** The default filter. */
  function AcceptAll(userInfo: UserInfo): bool {
    true
  }

  class NotificationCenter {
    var observers: map<string, seq<NotificationObserver>>

    /** Each list holds observers for its own key, none of them twice. */
    ghost predicate Valid()
      reads this
    {
      forall k :: k in observers ==> KeyedBy(observers[k], k) && Distinct(observers[k])
    }

    constructor ()
      ensures Valid() && observers == map[]
    {
      observers := map[];
    }

    /** Removes the last entry that is `toRemove` itself from the list of its key. */
    method DumpNotificationObserver(toRemove: NotificationObserver)
      requires Valid() && toRemove.key in observers
      modifies this
      ensures Valid() && observers == Dumped(old(observers), toRemove)
    {
      var observersForKey := observers[toRemove.key];
      var index: Option<nat> := None;
      for i := 0 to |observersForKey|
        invariant index == LastIndexOf(observersForKey[..i], toRemove)
      {
        assert observersForKey[..i + 1][..i] == observersForKey[..i];
        if observersForKey[i] == toRemove {
          index := Some(i);
        }
      }
      assert observersForKey[..|observersForKey|] == observersForKey;
      RemoveAtKeepsKey(observersForKey, toRemove.key, index);
      observers := observers[toRemove.key := RemoveAt(observersForKey, index)];
    }

    /** `remove(observer:forKey:)`: removes the last entry whose observed object is `toRemove`. */
    method RemoveObserver(toRemove: object, key: string)
      requires Valid() && key in observers
      modifies this
      ensures Valid() && observers == WithoutObserver(old(observers), toRemove, key)
    {
      var observersForKey := observers[key];
      var index: Option<nat> := None;
      for i := 0 to |observersForKey|
        invariant index == LastIndexObservedBy(observersForKey[..i], toRemove)
      {
        assert observersForKey[..i + 1][..i] == observersForKey[..i];
        if observersForKey[i].observer == toRemove {
          index := Some(i);
        }
      }
      assert observersForKey[..|observersForKey|] == observersForKey;
      RemoveAtKeepsKey(observersForKey, key, index);
      observers := observers[key := RemoveAt(observersForKey, index)];
    }

    /** Registers a new observer of `observer` at the end of the list for `key`. */
    method Observe(observer: object, key: string) returns (r: NotificationObserver)
      requires Valid()
      modifies this
      ensures Valid() && fresh(r)
      ensures r.key == key && r.center == this
      ensures r.State() == ObserverState(null, observer, false, AcceptAll, None, 0, [])
      ensures observers == old(observers)[key := (if key in old(observers) then old(observers[key]) else []) + [r]]
    {
      r := new NotificationObserver(this, observer, key);
      if key !in observers {
        observers := observers[key := []];
      }
      observers := observers[key := observers[key] + [r]];
    }

    /** `remove(observer)`: applies the single-entry removal to the list of every key. */
    method RemoveObserverEverywhere(toRemove: object)
      requires Valid()
      modifies this
      ensures Valid() && observers.Keys == old(observers.Keys)
      ensures forall k :: k in observers ==>
        observers[k] == RemoveAt(old(observers[k]), LastIndexObservedBy(old(observers[k]), toRemove))
    {
      var keys := observers.Keys;
      ghost var done: set<string> := {};
      while keys != {}
        invariant Valid() && observers.Keys == old(observers.Keys)
        invariant keys !! done && keys + done == old(observers.Keys)
        invariant forall k :: k in done ==>
          observers[k] == RemoveAt(old(observers[k]), LastIndexObservedBy(old(observers[k]), toRemove))
        invariant forall k :: k in keys ==> observers[k] == old(observers[k])
        decreases keys
      {
        var key :| key in keys;
        label before:
        RemoveObserver(toRemove, key);
        assert observers[key] == RemoveAt(old(observers[key]), LastIndexObservedBy(old(observers[key]), toRemove));
        assert forall k :: k in observers && k != key ==> observers[k] == old@before(observers[k]);
        keys := keys - {key};
        done := done + {key};
      }
    }
  }
}
