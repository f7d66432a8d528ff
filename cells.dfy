/** The reactive cells of pulse/state.ts: `state`, `computed`, the shared
    stack of computed cells under construction (`computedStack`), and the
    `reactive` marker on functions.

    A subscriber is either a user callback or the re-evaluation hook of a
    computed cell. Calling a subscriber is recorded in the cell's `log`
    instead of being run; whether it throws is a parameter (`throws`), and
    what else it does is not visible here. A computed cell's re-evaluation
    is the separate method `Computed.Reevaluate`. */
module State {
  import opened Common
  import opened Values

  datatype Subscriber = Callback(id: nat) | Recompute(computed: nat)

  /** What a call of `fn` did: returned a value, or threw. */
  datatype Evaluation<V> = Returned(value: V) | Raised

  /** One call `subscriber(newValue, oldValue)`. */
  datatype Notification<V> = Notification(to: Subscriber, newValue: V, oldValue: Option<V>)

  /** The calls `subscribers.forEach(s => s(newValue, oldValue))` makes. */
  function NotifyAll<V>(subscribers: seq<Subscriber>, newValue: V, oldValue: Option<V>): (r: seq<Notification<V>>)
    ensures |r| == |subscribers|
    ensures forall i :: 0 <= i < |r| ==> r[i] == Notification(subscribers[i], newValue, oldValue)
    decreases |subscribers|
  {
    if subscribers == [] then []
    else
      var n := |subscribers| - 1;
      NotifyAll(subscribers[..n], newValue, oldValue) + [Notification(subscribers[n], newValue, oldValue)]
  }

  /** The subscribers `forEach` calls when `throws` says which of them
      throw: every one up to and including the first that throws, whose
      exception ends the loop. */
  function CalledUntilThrow(subscribers: seq<Subscriber>, throws: Subscriber -> bool): (r: seq<Subscriber>)
    decreases |subscribers|
  {
    if subscribers == [] then []
    else if throws(subscribers[0]) then [subscribers[0]]
    else [subscribers[0]] + CalledUntilThrow(subscribers[1..], throws)
  }

  /** The called subscribers are a prefix of the set, and none but the
      last of them throws. */
  lemma {:induction false} CalledUntilThrowPrefix(subscribers: seq<Subscriber>, throws: Subscriber -> bool)
    ensures var r := CalledUntilThrow(subscribers, throws);
      r <= subscribers && forall k :: 0 <= k < |r| - 1 ==> !throws(r[k])
    decreases |subscribers|
  {
    if subscribers != [] && !throws(subscribers[0]) {
      CalledUntilThrowPrefix(subscribers[1..], throws);
      var rest := CalledUntilThrow(subscribers[1..], throws);
      var r := [subscribers[0]] + rest;
      assert CalledUntilThrow(subscribers, throws) == r;
      assert subscribers == [subscribers[0]] + subscribers[1..];
      forall k | 0 <= k < |r| - 1
        ensures !throws(r[k])
      {
        if k > 0 {
          assert r[k] == rest[k - 1];
        }
      }
    }
  }

  /** The last called subscriber throws exactly when some subscriber does,
      and when none does, all are called. */
  lemma {:induction false} CalledUntilThrowStops(subscribers: seq<Subscriber>, throws: Subscriber -> bool)
    ensures var r := CalledUntilThrow(subscribers, throws);
      ((exists s :: s in subscribers && throws(s)) <==> r != [] && throws(r[|r| - 1])) &&
      ((forall s :: s in subscribers ==> !throws(s)) ==> r == subscribers)
    decreases |subscribers|
  {
    if subscribers != [] && !throws(subscribers[0]) {
      CalledUntilThrowStops(subscribers[1..], throws);
      var rest := CalledUntilThrow(subscribers[1..], throws);
      var r := [subscribers[0]] + rest;
      assert CalledUntilThrow(subscribers, throws) == r;
      assert subscribers == [subscribers[0]] + subscribers[1..];
      assert rest != [] ==> r[|r| - 1] == rest[|rest| - 1];
      assert (exists s :: s in subscribers && throws(s)) <==> (exists s :: s in subscribers[1..] && throws(s));
    }
  }

  /** The first `n` subscribers are the ones called when the `n`-th is the
      first that throws, or when none of the `n`, which are all, throws. */
  lemma {:induction false} CalledPrefix(subscribers: seq<Subscriber>, throws: Subscriber -> bool, n: nat)
    requires n <= |subscribers|
    requires forall k :: 0 <= k < n - 1 ==> !throws(subscribers[k])
    requires (0 < n && throws(subscribers[n - 1])) ||
      (n == |subscribers| && forall k :: 0 <= k < n ==> !throws(subscribers[k]))
    ensures CalledUntilThrow(subscribers, throws) == subscribers[..n]
    decreases |subscribers|
  {
    if subscribers != [] && !throws(subscribers[0]) {
      var rest := subscribers[1..];
      assert forall k :: 0 <= k < n - 2 ==> !throws(rest[k]) by {
        forall k | 0 <= k < n - 2
          ensures !throws(rest[k])
        {
          assert rest[k] == subscribers[k + 1];
        }
      }
      if 0 < n && throws(subscribers[n - 1]) {
        assert rest[n - 2] == subscribers[n - 1];
      } else {
        forall k | 0 <= k < n - 1
          ensures !throws(rest[k])
        {
          assert rest[k] == subscribers[k + 1];
        }
      }
      CalledPrefix(rest, throws, n - 1);
      assert subscribers[..n] == [subscribers[0]] + rest[..n - 1];
    }
  }

  /** Notifying one more subscriber appends one call. */
  lemma NotifyNext<V>(subscribers: seq<Subscriber>, i: nat, newValue: V, oldValue: Option<V>)
    requires i < |subscribers|
    ensures NotifyAll(subscribers[..i + 1], newValue, oldValue) ==
      NotifyAll(subscribers[..i], newValue, oldValue) + [Notification(subscribers[i], newValue, oldValue)]
  {
    assert subscribers[..i + 1][..i] == subscribers[..i];
  }

  /** `subscribers.forEach(s => s(newValue, oldValue))` when `throws` says
      which subscribers throw: the calls made, and whether the loop ended
      on an exception. */
  method CallEach<V>(subscribers: seq<Subscriber>, newValue: V, oldValue: Option<V>, throws: Subscriber -> bool)
    returns (calls: seq<Notification<V>>, threw: bool)
    ensures calls == NotifyAll(CalledUntilThrow(subscribers, throws), newValue, oldValue)
    ensures threw <==> exists s :: s in subscribers && throws(s)
  {
    calls := [];
    threw := false;
    var i := 0;
    while i < |subscribers| && !threw
      invariant 0 <= i <= |subscribers|
      invariant calls == NotifyAll(subscribers[..i], newValue, oldValue)
      invariant threw <==> i > 0 && throws(subscribers[i - 1])
      invariant forall k :: 0 <= k < i - 1 ==> !throws(subscribers[k])
      invariant !threw ==> forall k :: 0 <= k < i ==> !throws(subscribers[k])
    {
      NotifyNext(subscribers, i, newValue, oldValue);
      calls := calls + [Notification(subscribers[i], newValue, oldValue)];
      threw := throws(subscribers[i]);
      i := i + 1;
    }
    CalledPrefix(subscribers, throws, i);
    if threw {
      assert subscribers[i - 1] in subscribers;
    }
  }

  // ---------------------------------------------------------------------
  // Batched writes

  /** What a `state` cell remembers between writes: its value, and the value
      it had before the first write of the batch that is waiting to be
      flushed (`None` when no flush is queued). */
  datatype Pending<V> = Pending(value: V, saved: Option<V>)

  /** The setter: an identical value changes nothing; otherwise the first
      write of a batch saves the value it replaces. */
  function Assign<V(==)>(p: Pending<V>, v: V): Pending<V>
  {
    if p.value == v then p
    else Pending(v, if p.saved.Some? then p.saved else Some(p.value))
  }

  function AssignAll<V(==)>(p: Pending<V>, vs: seq<V>): Pending<V>
    decreases |vs|
  {
    if vs == [] then p else Assign(AssignAll(p, vs[..|vs| - 1]), vs[|vs| - 1])
  }

  /** Any run of writes starting with nothing queued ends on the last value
      written, and queues a flush exactly when some write differs from the
      starting value; the old value handed to the subscribers is then the
      one from before the whole batch. */
  lemma {:induction false} BatchedAssignments<V>(p: Pending<V>, vs: seq<V>)
    requires p.saved == None
    ensures AssignAll(p, vs).value == if vs == [] then p.value else vs[|vs| - 1]
    ensures (forall i :: 0 <= i < |vs| ==> vs[i] == p.value) ==> AssignAll(p, vs) == p
    ensures (exists i :: 0 <= i < |vs| && vs[i] != p.value) ==> AssignAll(p, vs).saved == Some(p.value)
    decreases |vs|
  {
    if vs != [] {
      var init := vs[..|vs| - 1];
      BatchedAssignments(p, init);
      if exists i :: 0 <= i < |vs| && vs[i] != p.value {
        if forall i :: 0 <= i < |init| ==> init[i] == p.value {
          assert AssignAll(p, init) == p;
          assert vs[|vs| - 1] != p.value;
        } else {
          assert AssignAll(p, init).saved == Some(p.value);
        }
      } else {
        assert forall i :: 0 <= i < |init| ==> init[i] == p.value;
      }
    }
  }

  // ---------------------------------------------------------------------
  // Keyed subscriptions

  /** A cell's subscriber set and its map from subscription key to the
      callback registered under it. */
  datatype Registry = Registry(subscribers: seq<Subscriber>, keyed: map<string, Subscriber>)

  /** `opts?.key` taken as a condition: absent and "" are both falsy. */
  predicate HasKey(key: Option<string>)
  {
    key.Some? && key.value != ""
  }

  /** `subscribe(cb, { key })`: under a key seen before, the callback first
      registered under it is (re-)added instead of `cb`. Returns the new
      registry and the callback the returned unsubscribe function removes. */
  function Register(r: Registry, cb: Subscriber, key: Option<string>): (out: (Registry, Subscriber))
    ensures out.1 in out.0.subscribers && out.0.subscribers == SetAdd(r.subscribers, out.1)
    ensures HasKey(key) ==> key.value in out.0.keyed && out.0.keyed[key.value] == out.1
    ensures HasKey(key) && key.value in r.keyed ==> out.1 == r.keyed[key.value] && out.0.keyed == r.keyed
    ensures !(HasKey(key) && key.value in r.keyed) ==> out.1 == cb
    ensures !HasKey(key) ==> out.0.keyed == r.keyed
  {
    var chosen := if HasKey(key) && key.value in r.keyed then r.keyed[key.value] else cb;
    var keyed := if HasKey(key) then r.keyed[key.value := chosen] else r.keyed;
    (Registry(SetAdd(r.subscribers, chosen), keyed), chosen)
  }

  function RegisterAll(r: Registry, cbs: seq<Subscriber>, key: Option<string>): Registry
    decreases |cbs|
  {
    if cbs == [] then r else Register(RegisterAll(r, cbs[..|cbs| - 1], key), cbs[|cbs| - 1], key).0
  }

  /** Subscribing again and again under one key leaves the cell as the first
      subscription left it: one callback, the first one, however many times
      a component re-subscribes. */
  lemma {:induction false} RepeatedKeyedSubscribe(r: Registry, cbs: seq<Subscriber>, key: Option<string>)
    requires HasKey(key) && |cbs| >= 1
    ensures RegisterAll(r, cbs, key) == Register(r, cbs[0], key).0
    decreases |cbs|
  {
    if |cbs| > 1 {
      RepeatedKeyedSubscribe(r, cbs[..|cbs| - 1], key);
      assert cbs[..|cbs| - 1][0] == cbs[0];
    } else {
      assert cbs[..0] == [];
    }
  }

  // ---------------------------------------------------------------------
  // Dependency tracking

  /** The re-evaluation hooks of the computed cells `ids`. */
  function Recomputes(ids: seq<nat>): (r: seq<Subscriber>)
    ensures |r| == |ids| && forall i :: 0 <= i < |ids| ==> r[i] == Recompute(ids[i])
    decreases |ids|
  {
    if ids == [] then [] else Recomputes(ids[..|ids| - 1]) + [Recompute(ids[|ids| - 1])]
  }

  function Count(m: map<nat, nat>, id: nat): nat
  {
    if id in m then m[id] else 0
  }

  /** `subscriptions++` on the hook of computed cell `id`. */
  function BumpOne(m: map<nat, nat>, id: nat): map<nat, nat>
  {
    m[id := Count(m, id) + 1]
  }

  /** The counters after one tracked read: every computed cell under
      construction gets one more. */
  function Bump(m: map<nat, nat>, ids: seq<nat>): map<nat, nat>
    decreases |ids|
  {
    if ids == [] then m else BumpOne(Bump(m, ids[..|ids| - 1]), ids[|ids| - 1])
  }

  lemma {:induction false} BumpCounts(m: map<nat, nat>, ids: seq<nat>)
    requires Distinct(ids)
    ensures forall id :: id in ids ==> Count(Bump(m, ids), id) == Count(m, id) + 1
    ensures forall id :: id !in ids ==> Count(Bump(m, ids), id) == Count(m, id)
    decreases |ids|
  {
    if ids != [] {
      var init := ids[..|ids| - 1];
      assert Distinct(init);
      BumpCounts(m, init);
      forall id | id in ids
        ensures Count(Bump(m, ids), id) == Count(m, id) + 1
      {
        if id != ids[|ids| - 1] {
          assert id in init;
        }
      }
    }
  }

  /** One more computed cell of the stack handled by `Tracker.Track`. */
  lemma TrackStep(subscribers: seq<Subscriber>, m: map<nat, nat>, ids: seq<nat>, i: nat)
    requires i < |ids|
    ensures SetAddAll(subscribers, Recomputes(ids[..i + 1]))
         == SetAdd(SetAddAll(subscribers, Recomputes(ids[..i])), Recompute(ids[i]))
    ensures Bump(m, ids[..i + 1]) == BumpOne(Bump(m, ids[..i]), ids[i])
  {
    assert ids[..i + 1][..i] == ids[..i];
    assert Recomputes(ids[..i + 1])[..i] == Recomputes(ids[..i]);
  }

  /** `computedStack` and the `subscriptions` counter of each computed
      cell's re-evaluation hook. `created` hands out the identities of
      computed cells, since each `computed(...)` call makes a new hook. */
  class Tracker {
    var active: seq<nat>
    var subscriptions: map<nat, nat>
    var created: nat

    ghost predicate Valid()
      reads this
    {
      Distinct(active) && forall id :: id in active ==> id < created
    }

    constructor()
      ensures Valid() && active == [] && subscriptions == map[] && created == 0
    {
      active := [];
      subscriptions := map[];
      created := 0;
    }

    /** `updateSubscribers(subscribers)`: every computed cell under
        construction subscribes to the cell being read, and counts the read. */
    method Track(subscribers: seq<Subscriber>) returns (r: seq<Subscriber>)
      modifies this`subscriptions
      ensures r == SetAddAll(subscribers, Recomputes(active))
      ensures subscriptions == Bump(old(subscriptions), active)
    {
      r := subscribers;
      var ids := active;
      var counts := subscriptions;
      var i := 0;
      assert ids[..0] == [];
      while i < |ids|
        invariant 0 <= i <= |ids|
        invariant r == SetAddAll(subscribers, Recomputes(ids[..i]))
        invariant counts == Bump(old(subscriptions), ids[..i])
      {
        TrackStep(subscribers, old(subscriptions), ids, i);
        counts := BumpOne(counts, ids[i]);
        r := SetAdd(r, Recompute(ids[i]));
        i := i + 1;
      }
      assert ids[..i] == ids;
      subscriptions := counts;
    }
  }

  // ---------------------------------------------------------------------
  // state(initialValue)

  class Cell<V(==)> {
    var value: V
    var subscribers: seq<Subscriber>
    var keyed: map<string, Subscriber>
    var scheduled: bool
    var oldVal: Option<V>
    /** Flush callbacks waiting in the scheduler's micro tier. */
    var queued: nat
    var log: seq<Notification<V>>

    /** The batch waiting to be flushed. A flush cut short by a throwing
        subscriber leaves `oldVal` set; no batch is waiting then, and the
        next first write replaces it. */
    function Batch(): Pending<V>
      reads this
    {
      Pending(value, if scheduled then oldVal else None)
    }

    ghost predicate Valid()
      reads this
    {
      Distinct(subscribers) && queued == (if scheduled then 1 else 0) && (scheduled ==> oldVal.Some?)
    }

    constructor(initial: V)
      ensures Valid() && value == initial && subscribers == [] && keyed == map[]
      ensures !scheduled && queued == 0 && log == []
    {
      value := initial;
      subscribers := [];
      keyed := map[];
      scheduled := false;
      oldVal := None;
      queued := 0;
      log := [];
    }

    /** The `value` getter: tracked by every computed cell under
        construction. */
    method Read(tracker: Tracker) returns (v: V)
      requires Valid()
      modifies this`subscribers, tracker`subscriptions
      ensures Valid() && v == value
      ensures subscribers == SetAddAll(old(subscribers), Recomputes(tracker.active))
      ensures tracker.subscriptions == Bump(old(tracker.subscriptions), tracker.active)
    {
      subscribers := tracker.Track(subscribers);
      v := value;
    }

    /** `peek()`: the value, untracked. */
    method Peek() returns (v: V)
      ensures v == value
    {
      v := value;
    }

    /** The `value` setter: at most one flush is queued per batch. */
    method Write(newValue: V)
      requires Valid()
      modifies this`value, this`scheduled, this`oldVal, this`queued
      ensures Valid() && value == newValue
      ensures Batch() == Assign(old(Batch()), newValue)
      ensures old(value) != newValue ==> scheduled
      ensures old(value) == newValue ==> scheduled == old(scheduled)
    {
      if value != newValue {
        if !scheduled {
          oldVal := Some(value);
        }
        value := newValue;
        Notify();
      }
    }

    /** `notify()`: queues the flush unless one is already queued. */
    method Notify()
      requires oldVal.Some? && queued == (if scheduled then 1 else 0)
      modifies this`scheduled, this`queued
      ensures scheduled && queued == 1
    {
      if !scheduled {
        scheduled := true;
        queued := queued + 1;
      }
    }

    /** The queued flush callback: every subscriber is called once with the
        current value and the value from before the batch, in set order,
        until one throws (`throws` says which do). The exception ends the
        loop and skips the clearing of `oldVal`; `threw` reports it to the
        scheduler, which catches it. */
    method Flush(throws: Subscriber -> bool) returns (threw: bool)
      requires Valid() && queued > 0
      modifies this`scheduled, this`oldVal, this`queued, this`log
      ensures Valid() && !scheduled && queued == 0
      ensures threw <==> exists s :: s in subscribers && throws(s)
      ensures log == old(log) + NotifyAll(CalledUntilThrow(subscribers, throws), value, old(oldVal))
      ensures oldVal == if threw then old(oldVal) else None
    {
      queued := queued - 1;
      scheduled := false;
      var calls;
      calls, threw := CallEach(subscribers, value, oldVal, throws);
      log := log + calls;
      if !threw {
        oldVal := None;
      }
    }

    /** `subscribe(cb, { key })`; returns the callback the returned
        unsubscribe function removes. */
    method Subscribe(cb: Subscriber, key: Option<string>) returns (registered: Subscriber)
      requires Valid()
      modifies this`subscribers, this`keyed
      ensures Valid()
      ensures (Registry(subscribers, keyed), registered) == Register(Registry(old(subscribers), old(keyed)), cb, key)
    {
      var out := Register(Registry(subscribers, keyed), cb, key);
      subscribers, keyed, registered := out.0.subscribers, out.0.keyed, out.1;
    }

    /** The unsubscribe function: `subscribers.delete(registered)`. The key
        map keeps its entry. */
    method Unsubscribe(registered: Subscriber) returns (removed: bool)
      requires Valid()
      modifies this`subscribers
      ensures Valid()
      ensures removed == (registered in old(subscribers))
      ensures subscribers == SetDelete(old(subscribers), registered)
    {
      removed := registered in subscribers;
      subscribers := SetDelete(subscribers, registered);
    }
  }

  // ---------------------------------------------------------------------
  // computed(fn)

  /** A computed cell. Its constructor is the part of `computed(fn)` before
      `fn` runs; the reads `fn` makes are calls to `Cell.Read` and
      `Computed.Read` by the caller; `Finish` is the part after `fn`
      returns, and `Abort` the cleanup when `fn` throws. */
  class Computed<V(==)> {
    const id: nat
    var result: Option<V>
    var oldValue: Option<V>
    var subscribers: seq<Subscriber>
    var keyed: map<string, Subscriber>
    var isReactive: bool
    var log: seq<Notification<V>>

    ghost predicate Valid()
      reads this
    {
      Distinct(subscribers)
    }

    /** Pushes the new re-evaluation hook, with a zero counter. */
    constructor(tracker: Tracker)
      requires tracker.Valid()
      modifies tracker
      ensures Valid() && id == old(tracker.created) && result == None && oldValue == None
      ensures subscribers == [] && keyed == map[] && !isReactive && log == []
      ensures tracker.Valid() && tracker.created == old(tracker.created) + 1
      ensures tracker.active == old(tracker.active) + [id]
      ensures tracker.subscriptions == old(tracker.subscriptions)[id := 0]
    {
      id := tracker.created;
      result := None;
      oldValue := None;
      subscribers := [];
      keyed := map[];
      isReactive := false;
      log := [];
      new;
      assert id !in tracker.active;
      tracker.subscriptions := tracker.subscriptions[id := 0];
      tracker.active := SetAdd(tracker.active, id);
      tracker.created := tracker.created + 1;
    }

    /** `fn` returned `r`: the cell is reactive exactly when some tracked read
        happened while its hook was on the stack; the hook is popped. */
    method Finish(tracker: Tracker, r: V)
      requires tracker.Valid()
      modifies this`result, this`isReactive, tracker`active
      ensures tracker.Valid() && result == Some(r)
      ensures isReactive == (Count(tracker.subscriptions, id) > 0)
      ensures tracker.active == SetDelete(old(tracker.active), id)
    {
      result := Some(r);
      isReactive := Count(tracker.subscriptions, id) > 0;
      tracker.active := SetDelete(tracker.active, id);
    }

    /** `fn` threw: pops the hook so that later reads no longer subscribe it
        (the corrected behaviour; see `AbandonedEvaluationScenario`). */
    method Abort(tracker: Tracker)
      requires tracker.Valid()
      modifies tracker`active
      ensures tracker.Valid() && id !in tracker.active
      ensures tracker.active == SetDelete(old(tracker.active), id)
    {
      tracker.active := SetDelete(tracker.active, id);
    }

    /** The `value` getter: tracked like a state cell. */
    method Read(tracker: Tracker) returns (v: Option<V>)
      requires Valid()
      modifies this`subscribers, tracker`subscriptions
      ensures Valid() && v == result
      ensures subscribers == SetAddAll(old(subscribers), Recomputes(tracker.active))
      ensures tracker.subscriptions == Bump(old(tracker.subscriptions), tracker.active)
    {
      subscribers := tracker.Track(subscribers);
      v := result;
    }

    method Peek() returns (v: Option<V>)
      ensures v == result
    {
      v := result;
    }

    /** The re-evaluation hook, run when a cell it read notifies it; `e`
        is what `fn` did and `throws` says which subscribers throw. The
        previous result is saved first. A throwing `fn` leaves the result
        as it was and propagates (`threw`); otherwise subscribers hear of
        the new result only when it changed, in set order, until one
        throws. */
    method Reevaluate(e: Evaluation<V>, throws: Subscriber -> bool) returns (threw: bool)
      requires Valid()
      modifies this`result, this`oldValue, this`log
      ensures Valid() && oldValue == old(result)
      ensures e.Raised? ==> threw && result == old(result) && log == old(log)
      ensures e.Returned? ==> result == Some(e.value)
      ensures e.Returned? && old(result) == Some(e.value) ==> !threw && log == old(log)
      ensures e.Returned? && old(result) != Some(e.value) ==>
        log == old(log) + NotifyAll(CalledUntilThrow(subscribers, throws), e.value, old(result)) &&
        (threw <==> exists s :: s in subscribers && throws(s))
    {
      var previous := result;
      oldValue := previous;
      match e
      case Raised =>
        threw := true;
      case Returned(r) =>
        result := Some(r);
        threw := false;
        if Some(r) != previous {
          var calls;
          calls, threw := CallEach(subscribers, r, previous, throws);
          log := log + calls;
        }
    }

    method Subscribe(cb: Subscriber, key: Option<string>) returns (registered: Subscriber)
      requires Valid()
      modifies this`subscribers, this`keyed
      ensures Valid()
      ensures (Registry(subscribers, keyed), registered) == Register(Registry(old(subscribers), old(keyed)), cb, key)
    {
      var out := Register(Registry(subscribers, keyed), cb, key);
      subscribers, keyed, registered := out.0.subscribers, out.0.keyed, out.1;
    }

    method Unsubscribe(registered: Subscriber) returns (removed: bool)
      requires Valid()
      modifies this`subscribers
      ensures Valid()
      ensures removed == (registered in old(subscribers))
      ensures subscribers == SetDelete(old(subscribers), registered)
    {
      removed := registered in subscribers;
      subscribers := SetDelete(subscribers, registered);
    }
  }

  // ---------------------------------------------------------------------
  // Markers

  /** `reactive(fn)`: marks the function. */
  function Reactive(fn: Value): (r: Value)
    requires fn.Function?
    ensures IsReactiveFunction(r) && r.fn == fn.fn
  {
    Function(fn.fn, true)
  }

  predicate IsReactiveFunction(v: Value)
  {
    v.Function? && v.tagged
  }

  predicate IsReactiveState(v: Value)
  {
    v.Cell?
  }

  // ---------------------------------------------------------------------
  // Scenarios

  /** Three increments before the flush reach a subscriber as one call,
      with the final value and the value from before the batch. */
  method ThreeWritesOneNotification() returns (log: seq<Notification<int>>, queuedBeforeFlush: nat)
    ensures queuedBeforeFlush == 1
    ensures log == [Notification(Callback(7), 3, Some(0))]
  {
    var count := new Cell<int>(0);
    var _ := count.Subscribe(Callback(7), None);
    count.Write(1);
    count.Write(2);
    count.Write(3);
    queuedBeforeFlush := count.queued;
    var _ := count.Flush(s => false);
    log := count.log;
  }

  /** A cell holding 0 with the callbacks 1 and 2 subscribed, in order. */
  method TwoSubscribers() returns (count: Cell<int>)
    ensures fresh(count) && count.Valid() && count.value == 0 && !count.scheduled && count.log == []
    ensures count.subscribers == [Callback(1), Callback(2)]
  {
    count := new Cell<int>(0);
    var _ := count.Subscribe(Callback(1), None);
    var _ := count.Subscribe(Callback(2), None);
  }

  /** A subscriber that throws during a flush stops it: the subscriber
      after it is not called, and the saved old value is not cleared. The
      stale value does no harm: the next batch saves its own. */
  method ThrowingSubscriberScenario() returns (threw: bool, first: seq<Notification<int>>, stale: Option<int>, log: seq<Notification<int>>)
    ensures threw && first == [Notification(Callback(1), 1, Some(0))] && stale == Some(0)
    ensures log == first + [Notification(Callback(1), 2, Some(1)), Notification(Callback(2), 2, Some(1))]
  {
    var count := TwoSubscribers();
    ThrowingSubscriberCalls();
    count.Write(1);
    threw := count.Flush(FirstThrows);
    first, stale := count.log, count.oldVal;
    count.Write(2);
    var _ := count.Flush(NoneThrows);
    log := count.log;
  }

  /** The subscriber that throws in `ThrowingSubscriberScenario`. */
  predicate FirstThrows(s: Subscriber)
  {
    s == Callback(1)
  }

  predicate NoneThrows(s: Subscriber)
  {
    false
  }

  /** The calls of the two flushes of `ThrowingSubscriberScenario`. */
  lemma ThrowingSubscriberCalls()
    ensures NotifyAll(CalledUntilThrow([Callback(1), Callback(2)], FirstThrows), 1, Some(0)) == [Notification(Callback(1), 1, Some(0))]
    ensures NotifyAll(CalledUntilThrow([Callback(1), Callback(2)], NoneThrows), 2, Some(1)) ==
      [Notification(Callback(1), 2, Some(1)), Notification(Callback(2), 2, Some(1))]
    ensures FirstThrows(Callback(1)) && !FirstThrows(Callback(2))
  {
    assert CalledUntilThrow([Callback(1), Callback(2)], FirstThrows) == [Callback(1)];
    assert CalledUntilThrow([Callback(1), Callback(2)], NoneThrows) == [Callback(1), Callback(2)];
  }

  /** A tracked read with exactly one computed cell under construction. */
  lemma OneActive(m: map<nat, nat>, subscribers: seq<Subscriber>, id: nat)
    ensures Bump(m, [id]) == m[id := Count(m, id) + 1]
    ensures SetAddAll(subscribers, Recomputes([id])) == SetAdd(subscribers, Recompute(id))
  {
    assert [id][..0] == [];
    assert Recomputes([id]) == [Recompute(id)];
    assert Recomputes([id])[..0] == [];
  }

  /** A computed cell that reads a state cell becomes reactive and is
      subscribed to it; writing the same value again queues nothing. */
  method TrackedComputed() returns (isReactive: bool, subscribed: bool, queued: nat, stackEmpty: bool)
    ensures isReactive && subscribed && queued == 0 && stackEmpty
  {
    var tracker := new Tracker();
    var count := new Cell<int>(1);
    var doubled := new Computed<int>(tracker);
    OneActive(tracker.subscriptions, count.subscribers, doubled.id);
    var v := count.Read(tracker);
    doubled.Finish(tracker, 2 * v);
    count.Write(1);
    isReactive := doubled.isReactive;
    subscribed := Recompute(doubled.id) in count.subscribers;
    queued := count.queued;
    stackEmpty := tracker.active == [];
  }

  /** A computed cell whose function only peeks is not reactive and is not
      subscribed to anything. */
  method PeekingComputed() returns (isReactive: bool, subscribers: seq<Subscriber>)
    ensures !isReactive && subscribers == []
  {
    var tracker := new Tracker();
    var count := new Cell<int>(1);
    var doubled := new Computed<int>(tracker);
    var v := count.Peek();
    doubled.Finish(tracker, 2 * v);
    isReactive := doubled.isReactive;
    subscribers := count.subscribers;
  }

  /** As written, `computed(fn)` pops its hook only after `fn` returns: when
      `fn` throws, the hook stays on the stack, and every later tracked read
      anywhere subscribes the abandoned cell. */
  method AbandonedEvaluationScenario() returns (leaked: bool, subscribedLater: bool)
    ensures leaked && subscribedLater
  {
    var tracker := new Tracker();
    var count := new Cell<int>(0);
    var failing := new Computed<int>(tracker);
    // `fn` throws here: nothing after line 207 of state.ts runs.
    var _ := count.Read(tracker);
    leaked := failing.id in tracker.active;
    subscribedLater := Recompute(failing.id) in count.subscribers;
  }

  /** With the hook popped when `fn` throws, a later read subscribes
      nothing. */
  method AbortedEvaluationScenario() returns (stack: seq<nat>, subscribers: seq<Subscriber>)
    ensures stack == [] && subscribers == []
  {
    var tracker := new Tracker();
    var count := new Cell<int>(0);
    var failing := new Computed<int>(tracker);
    failing.Abort(tracker);
    var _ := count.Read(tracker);
    stack := tracker.active;
    subscribers := count.subscribers;
  }
}
