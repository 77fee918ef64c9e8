// The expiring cache over a hierarchical timing wheel, refined against CacheSpec. One method call is one atomic step.
module CacheMap {
  import opened Wrappers
  import opened Hiding
  import opened TimingWheel
  import opened CacheSpec

  /** Timeout callbacks and tasks run so far; the order within one tick is unspecified. */
  datatype Log<K> = Log(fired: multiset<K>, ran: multiset<nat>)

  /** What runs when the last reference to a task dies. */
  datatype Callback<K> = EraseKey(key: K) | RunTask

  /** weak is the task whose death erases the entry, observed without keeping it alive. */
  datatype MapValue<V> = MapValue(value: V, timeout: nat, hasCallback: bool, weak: Option<nat>)

  lemma Twice<K, X>(m: map<K, X>, k: K, x: X, y: X)
    ensures m[k := x][k := y] == m[k := y]
  {
  }

  /** All keys but k have the entries they had. */
  ghost predicate OnlyEntry<K, V>(before: map<K, MapValue<V>>, after: map<K, MapValue<V>>, k: K) {
    after - {k} == before - {k}
  }

  /** Some bucket or wrapper holds a reference to the task. */
  predicate Strong(ws: Wheels, id: nat) {
    exists i, j, x :: 0 <= i < |ws| && 0 <= j < |ws[i]| && x in ws[i][j] && IdOf(x) == id
  }

  ghost predicate Scheduled(a: set<(nat, nat)>, id: nat) {
    exists f :: (id, f) in a
  }

  lemma StrongIffScheduled(ws: Wheels, pops: seq<nat>, b: nat, id: nat)
    requires b > 0 && Arranged(ws, |pops|, b)
    ensures Strong(ws, id) <==> Scheduled(Agenda(ws, pops, b), id)
  {
    if Strong(ws, id) {
      var i: nat, j: nat, x :| i < |ws| && j < |ws[i]| && x in ws[i][j] && IdOf(x) == id;
      InAgenda(ws, pops, b, i, j, x);
      assert (id, FireTick(x, i, pops[i] + j + 1, b)) in Agenda(ws, pops, b);
    }
    if Scheduled(Agenda(ws, pops, b), id) {
      var f :| (id, f) in Agenda(ws, pops, b);
      var i, j, x := FromAgenda(ws, pops, b, (id, f));
      assert x in ws[i][j] && IdOf(x) == id;
    }
  }

  /** The last tick at which a reference to the task is dropped. */
  ghost predicate IsLast(a: set<(nat, nat)>, id: nat, f: nat) {
    && (id, f) in a
    && forall g {:trigger (id, g) in a} :: (id, g) in a ==> g <= f
  }

  lemma LastScheduled(a: set<(nat, nat)>, id: nat, f: nat)
    requires IsLast(a, id, f)
    ensures Scheduled(a, id)
  {
  }

  /** The map entry and its abstract item agree; the item expires when the entry's task dies. */
  ghost predicate Tracks<V>(mv: MapValue<V>, item: Item<V>, a: set<(nat, nat)>) {
    && mv.value == item.value
    && mv.timeout == item.timeout
    && (mv.timeout > 0 ==> mv.weak.Some? && IsLast(a, mv.weak.value, item.deadline))
  }

  ghost predicate Tracking<K, V>(entries: map<K, MapValue<V>>, items: map<K, Item<V>>, a: set<(nat, nat)>) {
    && entries.Keys == items.Keys
    && forall d {:trigger Opened(d)} :: Opened(d) ==> forall k :: k in entries ==> Tracks(entries[k], items[k], a)
  }

  lemma TracksAt<K, V>(entries: map<K, MapValue<V>>, items: map<K, Item<V>>, a: set<(nat, nat)>, k: K)
    requires Tracking(entries, items, a) && k in entries
    ensures Tracks(entries[k], items[k], a)
  {
    assert Opened(true);
  }

  /** As Tracking, but the key may have been put in just now and have no task yet. */
  ghost predicate AlmostTracking<K, V>(entries: map<K, MapValue<V>>, items: map<K, Item<V>>, a: set<(nat, nat)>, key: K)
    requires key in entries
  {
    && entries.Keys == items.Keys
    && entries[key].value == items[key].value
    && entries[key].timeout == items[key].timeout
    && (Tracks(entries[key], items[key], a) || (entries[key].weak.None? && items[key].deadline == 0))
    && forall d {:trigger Opened(d)} :: Opened(d) ==>
         forall k :: k in entries && k != key ==> Tracks(entries[k], items[k], a)
  }

  lemma PutNew<K, V>(entries: map<K, MapValue<V>>, items: map<K, Item<V>>, a: set<(nat, nat)>, key: K, v: V,
                     timeout: nat, hasCallback: bool)
    requires Tracking(entries, items, a) && key !in entries
    ensures var entries', items' := entries[key := MapValue(v, timeout, hasCallback, None)], items[key := Item(v, timeout, 0)];
            AlmostTracking(entries', items', a, key) && (timeout == 0 ==> Tracking(entries', items', a))
  {
    forall k | k in entries
      ensures Tracks(entries[k], items[k], a)
    {
      TracksAt(entries, items, a, k);
    }
  }

  lemma PutValue<K, V>(entries: map<K, MapValue<V>>, items: map<K, Item<V>>, a: set<(nat, nat)>, key: K, v: V)
    requires Tracking(entries, items, a) && key in entries
    ensures var entries', items' := entries[key := entries[key].(value := v)], items[key := items[key].(value := v)];
            Tracking(entries', items', a) && Tracks(entries'[key], items'[key], a)
  {
    forall k | k in entries
      ensures Tracks(entries[k], items[k], a)
    {
      TracksAt(entries, items, a, k);
    }
  }

  lemma Almost<K, V>(entries: map<K, MapValue<V>>, items: map<K, Item<V>>, a: set<(nat, nat)>, key: K)
    requires Tracking(entries, items, a) && key in entries
    ensures AlmostTracking(entries, items, a, key)
  {
    TracksAt(entries, items, a, key);
  }

  lemma DropTracks<K, V>(entries: map<K, MapValue<V>>, items: map<K, Item<V>>, a: set<(nat, nat)>, key: K)
    requires Tracking(entries, items, a)
    ensures Tracking(entries - {key}, items - {key}, a)
  {
    assert Opened(true);
  }

  /** Every observed task exists and erases the key that observes it. */
  ghost predicate Linked<K, V>(entries: map<K, MapValue<V>>, callbacks: seq<Callback<K>>) {
    forall k :: k in entries && entries[k].weak.Some? ==>
      entries[k].weak.value < |callbacks| && callbacks[entries[k].weak.value] == EraseKey(k)
  }

  ghost predicate Known<K>(a: set<(nat, nat)>, callbacks: seq<Callback<K>>) {
    forall q :: q in a ==> q.0 < |callbacks|
  }

  /** Every delayed task that has not run yet has one reference, dropped at the tick it is to run at. */
  ghost predicate Awaiting<K>(callbacks: seq<Callback<K>>, pending: map<nat, nat>, a: set<(nat, nat)>) {
    forall d {:trigger Opened(d)} :: Opened(d) ==>
      && (forall q :: q in a && q.0 < |callbacks| && callbacks[q.0].RunTask? ==> q.0 in pending && pending[q.0] == q.1)
      && (forall id :: id in pending ==> id < |callbacks| && callbacks[id].RunTask? && (id, pending[id]) in a)
  }

  /** Scheduling an erasing task, existing or new, leaves the delayed ones alone. */
  lemma AwaitingEraser<K>(callbacks: seq<Callback<K>>, pending: map<nat, nat>, a: set<(nat, nat)>, k: K, id: nat, f: nat)
    requires Awaiting(callbacks, pending, a) && Known(a, callbacks)
    ensures id < |callbacks| && callbacks[id].EraseKey? ==> Awaiting(callbacks, pending, a + {(id, f)})
    ensures id == |callbacks| ==> Awaiting(callbacks + [EraseKey(k)], pending, a + {(id, f)})
  {
    assert Opened(true);
  }

  lemma AwaitingTask<K>(callbacks: seq<Callback<K>>, pending: map<nat, nat>, a: set<(nat, nat)>, f: nat)
    requires Awaiting(callbacks, pending, a) && Known(a, callbacks)
    ensures |callbacks| !in pending
    ensures Awaiting(callbacks + [RunTask], pending, a)
    ensures Awaiting(callbacks + [RunTask], pending[|callbacks| := f], a + {(|callbacks|, f)})
  {
    assert Opened(true);
  }

  /** Tasks that lost their last reference. */
  ghost function Finished<K>(callbacks: seq<Callback<K>>, done: set<Entry>, a: set<(nat, nat)>): set<nat> {
    set x | x in done && x.Task? && x.id < |callbacks| && callbacks[x.id].RunTask? && !Scheduled(a, x.id) :: x.id
  }

  /** Exactly the delayed tasks due at the new tick run. */
  lemma TickAwaiting<K>(callbacks: seq<Callback<K>>, pending: map<nat, nat>, a: set<(nat, nat)>, now: nat,
                        done: set<Entry>)
    requires Awaiting(callbacks, pending, a)
    requires forall id: nat :: (id, now + 1) in a <==> Task(id) in done
    requires forall q :: q in a ==> q.1 > now
    requires forall x :: x in done ==> x.Task? && x.id < |callbacks|
    ensures Awaiting(callbacks, Waiting(pending, now + 1), Later(a, now + 1))
    ensures Finished(callbacks, done, Later(a, now + 1)) == pending.Keys - Waiting(pending, now + 1).Keys
  {
    assert Opened(true);
    var pending' := Waiting(pending, now + 1);
    forall id | id in pending.Keys - pending'.Keys
      ensures id in Finished(callbacks, done, Later(a, now + 1))
    {
      assert Task(id) in done;
    }
    forall id | id in Finished(callbacks, done, Later(a, now + 1))
      ensures id in pending.Keys - pending'.Keys
    {
      assert (id, now + 1) in a;
    }
  }

  // ---------------------------------------------------------------------------------------------------------
  // Scheduling one more reference

  /** A further reference to the task of key k postpones k's deadline and no other. */
  lemma TouchTracks<K, V>(entries: map<K, MapValue<V>>, items: map<K, Item<V>>, a: set<(nat, nat)>, k: K, id: nat,
                          f: nat, callbacks: seq<Callback<K>>)
    requires Linked(entries, callbacks) && k in entries && entries[k].weak == Some(id)
    requires entries.Keys == items.Keys && forall j :: j in entries && j != k ==> Tracks(entries[j], items[j], a)
    requires entries[k].value == items[k].value && entries[k].timeout == items[k].timeout
    requires entries[k].timeout > 0 ==>
               IsLast(a, id, items[k].deadline) || (!Scheduled(a, id) && items[k].deadline == 0)
    ensures Tracking(entries, items[k := Extended(items[k], f)], a + {(id, f)})
  {
    var a', item := a + {(id, f)}, Extended(items[k], f);
    forall j | j in entries
      ensures Tracks(entries[j], items[k := item][j], a')
    {
      if j == k {
        assert forall g :: (id, g) in a ==> Scheduled(a, id);
      } else if entries[j].timeout > 0 {
        assert entries[j].weak.value != id;
      }
    }
  }

  function Extended<V>(item: Item<V>, f: nat): Item<V> {
    if item.timeout > 0 then item.(deadline := Max(item.deadline, f)) else item
  }

  /** The key already has a living task. */
  lemma ExtendLiving<K, V>(entries: map<K, MapValue<V>>, items: map<K, Item<V>>, a: set<(nat, nat)>, k: K, f: nat,
                           callbacks: seq<Callback<K>>)
    requires Linked(entries, callbacks) && k in entries && AlmostTracking(entries, items, a, k) && entries[k].weak.Some?
    ensures Tracking(entries, items[k := Extended(items[k], f)], a + {(entries[k].weak.value, f)})
  {
    assert Opened(true);
    TouchTracks(entries, items, a, k, entries[k].weak.value, f, callbacks);
  }

  /** The key gets a new task. */
  lemma ExtendFresh<K, V>(entries: map<K, MapValue<V>>, items: map<K, Item<V>>, a: set<(nat, nat)>, k: K, f: nat,
                          callbacks: seq<Callback<K>>)
    requires Linked(entries, callbacks) && Known(a, callbacks) && k in entries && AlmostTracking(entries, items, a, k)
    requires entries[k].weak.None? || !Scheduled(a, entries[k].weak.value)
    ensures var entries' := entries[k := entries[k].(weak := Some(|callbacks|))];
            Tracking(entries', items[k := Extended(items[k], f)], a + {(|callbacks|, f)})
            && Linked(entries', callbacks + [EraseKey(k)])
  {
    assert Opened(true);
    var entries' := entries[k := entries[k].(weak := Some(|callbacks|))];
    assert !Scheduled(a, |callbacks|);
    if entries[k].timeout > 0 && Tracks(entries[k], items[k], a) {
      LastScheduled(a, entries[k].weak.value, items[k].deadline);
    }
    TouchTracks(entries', items, a, k, |callbacks|, f, callbacks + [EraseKey(k)]);
  }

  // ---------------------------------------------------------------------------------------------------------
  // A tick: which tasks die, which keys go

  /** The entry's task lost its last reference when the buckets in `done` were dropped. */
  ghost predicate Doomed<V>(mv: MapValue<V>, done: set<Entry>, a: set<(nat, nat)>) {
    mv.timeout > 0 && mv.weak.Some? && Task(mv.weak.value) in done && !Scheduled(a, mv.weak.value)
  }

  ghost function Survivors<K, V>(entries: map<K, MapValue<V>>, done: set<Entry>, a: set<(nat, nat)>): map<K, MapValue<V>> {
    map k | k in entries && !Doomed(entries[k], done, a) :: entries[k]
  }

  /** Exactly the items whose deadline is the new tick lose their entries. */
  lemma TickTracks<K, V>(entries: map<K, MapValue<V>>, items: map<K, Item<V>>, a: set<(nat, nat)>, now: nat,
                         done: set<Entry>)
    requires Tracking(entries, items, a)
    requires forall id: nat :: (id, now + 1) in a <==> Task(id) in done
    requires forall q :: q in a ==> q.1 > now
    ensures Tracking(Survivors(entries, done, Later(a, now + 1)), Unexpired(items, now + 1), Later(a, now + 1))
  {
    assert Opened(true);
    var a', items' := Later(a, now + 1), Unexpired(items, now + 1);
    forall k | k in entries
      ensures Doomed(entries[k], done, a') <==> items[k].timeout > 0 && items[k].deadline <= now + 1
      ensures k in items' ==> Tracks(entries[k], items[k], a')
    {
      DoomedIffDue(entries[k], items[k], a, now, done);
    }
  }

  lemma DoomedIffDue<V>(mv: MapValue<V>, item: Item<V>, a: set<(nat, nat)>, now: nat, done: set<Entry>)
    requires Tracks(mv, item, a)
    requires forall id: nat :: (id, now + 1) in a <==> Task(id) in done
    requires forall q :: q in a ==> q.1 > now
    ensures Doomed(mv, done, Later(a, now + 1)) <==> item.timeout > 0 && item.deadline <= now + 1
    ensures !(item.timeout > 0 && item.deadline <= now + 1) ==> Tracks(mv, item, Later(a, now + 1))
  {
    if mv.timeout > 0 {
      var id := mv.weak.value;
      if item.deadline > now + 1 {
        assert (id, item.deadline) in Later(a, now + 1);
      }
    }
  }

  class Cache<K(==), V> {
    const n: nat
    const b: nat
    var wheels: Wheels
    var ticks: nat
    var entries: map<K, MapValue<V>>
    var callbacks: seq<Callback<K>>
    var log: Log<K>
    ghost var pops: seq<nat>
    ghost var spec: State<K, V>

    ghost predicate WheelsOk()
      reads this
    {
      && n > 0 && |pops| == n
      && Counting(ticks, pops, b)
      && Arranged(wheels, n, b)
      && Known(Agenda(wheels, pops, b), callbacks)
    }

    ghost predicate Valid()
      reads this
    {
      && WheelsOk()
      && spec.now == ticks
      && Linked(entries, callbacks)
      && Tracking(entries, spec.items, Agenda(wheels, pops, b))
      && Awaiting(callbacks, spec.pending, Agenda(wheels, pops, b))
    }

    function Shape(): Shape {
      CacheSpec.Shape.Shape(n, b)
    }

    constructor (n: nat, b: nat)
      requires n > 0 && b > 0
      ensures Valid() && spec == Empty() && this.n == n && this.b == b
      ensures callbacks == [] && log == Log(multiset{}, multiset{})
    {
      this.n, this.b := n, b;
      wheels := seq(n, _ => seq(b, _ => {}));
      ticks, entries, callbacks, log := 0, map[], [], Log(multiset{}, multiset{});
      pops := seq(n, _ => 0);
      spec := Empty();
      new;
      forall q | q in Agenda(wheels, pops, b)
        ensures false
      {
        var _, _, _ := FromAgenda(wheels, pops, b, q);
      }
    }

    /** Choose wheel and bucket for a delay, wrapping the task once per wheel skipped. */
    method Wrap(delay0: nat, id: nat) returns (entry: Entry, i: nat, j: nat)
      requires b > 0 && n > 0 && |pops| == n && Counting(ticks, pops, b)
      ensures i < n && j < b && WellFormed(entry, i)
      ensures PairAt(entry, i, pops[i] + j + 1, b) == (id, Due(ticks, delay0 + 1, n, b))
    {
      ghost var due := Due(ticks, delay0 + 1, n, b);
      RiseStart(id, ticks, delay0 + 1, n, b);
      var delay: nat, t: nat := delay0 + 1, ticks;
      entry, i := Task(id), 0;
      while delay > b && i < n - 1
        invariant i < n && t == pops[i] && Rising(entry, i, t, delay, id, due, n, b)
        decreases n - i
      {
        RiseStep(entry, i, t, delay, id, due, n, b);
        entry := Deferred(delay, i, t, entry);
        delay, t, i := Carry(delay, t, b), t / b, i + 1;
      }
      RiseEnd(entry, i, t, delay, id, due, n, b);
      j := if delay <= b then delay - 1 else b - 1;
    }

    /** Put a task where its delay calls for. */
    method InsertEntry(delay: nat, id: nat)
      requires WheelsOk() && id < |callbacks|
      modifies this`wheels
      ensures WheelsOk()
      ensures Agenda(wheels, pops, b) == old(Agenda(wheels, pops, b))
                + (if delay == 0 then {} else {(id, Due(ticks, delay + 1, n, b))})
    {
      if delay == 0 {
        return;
      }
      var entry, i, j := Wrap(delay, id);
      AddToAgenda(wheels, pops, b, i, j, entry);
      wheels := AddTo(wheels, i, j, entry);
    }

    /** Postpone the erasure of a present key: one more reference to its living task, or a new task. */
    method EraseAfter(delay: nat, key: K)
      requires WheelsOk() && Linked(entries, callbacks) && key in entries && spec.now == ticks && delay > 0
      requires AlmostTracking(entries, spec.items, Agenda(wheels, pops, b), key)
      requires Awaiting(callbacks, spec.pending, Agenda(wheels, pops, b))
      modifies this`wheels, this`entries, this`callbacks, this`spec
      ensures Valid()
      ensures spec == old(spec).(items := old(spec.items)[key := Touch(old(spec.items[key]), ticks, delay, Shape())])
      ensures key in entries && entries == old(entries)[key := old(entries)[key].(weak := entries[key].weak)]
    {
      ghost var a, due := Agenda(wheels, pops, b), Due(ticks, delay + 1, n, b);
      var weak := entries[key].weak;
      if weak.Some? {
        StrongIffScheduled(wheels, pops, b, weak.value);
      }
      if weak.Some? && Strong(wheels, weak.value) {
        ExtendLiving(entries, spec.items, a, key, due, callbacks);
        AwaitingEraser(callbacks, spec.pending, a, key, weak.value, due);
        InsertEntry(delay, weak.value);
      } else {
        ExtendFresh(entries, spec.items, a, key, due, callbacks);
        AwaitingEraser(callbacks, spec.pending, a, key, |callbacks|, due);
        var id := |callbacks|;
        callbacks := callbacks + [EraseKey(key)];
        entries := entries[key := entries[key].(weak := Some(id))];
        InsertEntry(delay, id);
      }
      spec := spec.(items := spec.items[key := Extended(spec.items[key], due)]);
    }

    // -------------------------------------------------------------------------------------------------------
    // Operations

    /** An access to a present key, if it has a timeout. */
    method Access(key: K, timeout: nat)
      requires Valid() && key in entries
      modifies this`wheels, this`entries, this`callbacks, this`spec
      ensures Valid()
      ensures spec == old(spec).(items := old(spec.items)[key := Touch(old(spec.items[key]), ticks, timeout, Shape())])
      ensures key in entries && entries == old(entries)[key := old(entries)[key].(weak := entries[key].weak)]
    {
      if timeout > 0 {
        Almost(entries, spec.items, Agenda(wheels, pops, b), key);
        EraseAfter(timeout, key);
      } else {
        assert spec.items[key := spec.items[key]] == spec.items;
        assert entries[key := entries[key]] == entries;
      }
    }

    method Create(key: K, value: V, timeout: nat, hasCallback: bool)
      requires Valid() && key !in entries
      modifies this`wheels, this`entries, this`callbacks, this`spec
      ensures Valid()
      ensures spec == old(spec).(items := old(spec.items)[key := Fresh(value, ticks, timeout, Shape())])
      ensures key in entries
      ensures entries == old(entries)[key := MapValue(value, timeout, timeout > 0 && hasCallback, entries[key].weak)]
    {
      PutNew(entries, spec.items, Agenda(wheels, pops, b), key, value, timeout, timeout > 0 && hasCallback);
      entries := entries[key := MapValue(value, timeout, timeout > 0 && hasCallback, None)];
      spec := spec.(items := spec.items[key := Item(value, timeout, 0)]);
      ghost var mv, item := entries[key], spec.items[key];
      if timeout > 0 {
        EraseAfter(timeout, key);
      }
      Twice(old(entries), key, mv, entries[key]);
      Twice(old(spec).items, key, item, spec.items[key]);
    }

    /** Insert unless present; with a positive timeout this counts as an access either way. */
    method Insert(key: K, value: V, timeout: nat, hasCallback: bool)
      requires Valid()
      modifies this
      ensures Valid()
      ensures spec == Step(old(spec), CacheSpec.Insert(key, value, timeout), Shape())
      ensures log == old(log) && OnlyEntry(old(entries), entries, key) && key in entries
      ensures var mv := entries[key];
              (mv.value, mv.timeout, mv.hasCallback)
              == if key in old(entries) then (old(entries)[key].value, old(entries)[key].timeout, old(entries)[key].hasCallback)
                 else (value, timeout, timeout > 0 && hasCallback)
    {
      if key !in entries {
        Create(key, value, timeout, hasCallback);
      } else {
        Access(key, timeout);
      }
    }

    /** Look a key up; finding it counts as an access. Stands for find, findAndFetch and operator[]. */
    method Find(key: K) returns (r: Option<V>)
      requires Valid()
      modifies this
      ensures Valid()
      ensures spec == Step(old(spec), Visit(key), Shape())
      ensures r == if key in old(spec).items then Some(old(spec).items[key].value) else None
      ensures log == old(log) && OnlyEntry(old(entries), entries, key) && (key in entries <==> key in old(entries))
      ensures key in entries ==>
                r == Some(entries[key].value) && entries[key] == old(entries)[key].(weak := entries[key].weak)
    {
      r := None;
      if key in entries {
        TracksAt(entries, spec.items, Agenda(wheels, pops, b), key);
        r := Some(entries[key].value);
        Access(key, entries[key].timeout);
      }
    }

    /** Overwrite the value of a present key and count it as an access. */
    method Revise(key: K, value: V)
      requires Valid() && key in entries
      modifies this`wheels, this`entries, this`callbacks, this`spec
      ensures Valid()
      ensures spec == old(spec).(items := old(spec).items[key :=
                Touch(old(spec).items[key].(value := value), ticks, old(spec).items[key].timeout, Shape())])
      ensures key in entries
      ensures entries == old(entries)[key := old(entries)[key].(value := value, weak := entries[key].weak)]
    {
      TracksAt(entries, spec.items, Agenda(wheels, pops, b), key);
      PutValue(entries, spec.items, Agenda(wheels, pops, b), key, value);
      entries := entries[key := entries[key].(value := value)];
      spec := spec.(items := spec.items[key := spec.items[key].(value := value)]);
      ghost var mv, item := entries[key], spec.items[key];
      Access(key, entries[key].timeout);
      Twice(old(entries), key, mv, entries[key]);
      Twice(old(spec).items, key, item, spec.items[key]);
    }

    /** Change the value in place, or create it from a blank one. */
    method Modify(key: K, handler: V -> V, timeout: nat, blank: V)
      requires Valid()
      modifies this
      ensures Valid()
      ensures spec == Step(old(spec), CacheSpec.Modify(key, handler, timeout, blank), Shape())
      ensures log == old(log) && OnlyEntry(old(entries), entries, key) && key in entries
      ensures var mv := entries[key];
              (mv.value, mv.timeout, mv.hasCallback)
              == if key in old(entries) then
                   (handler(old(entries)[key].value), old(entries)[key].timeout, old(entries)[key].hasCallback)
                 else (handler(blank), timeout, false)
    {
      if key in entries {
        TracksAt(entries, spec.items, Agenda(wheels, pops, b), key);
        Revise(key, handler(entries[key].value));
      } else {
        Insert(key, handler(blank), timeout, false);
      }
    }

    /** Erase explicitly; the key's task lives on in the wheels and finds nothing to erase. */
    method Erase(key: K)
      requires Valid()
      modifies this
      ensures Valid()
      ensures spec == Step(old(spec), CacheSpec.Erase(key), Shape())
      ensures log == old(log) && wheels == old(wheels)
      ensures entries == old(entries) - {key}
    {
      DropTracks(entries, spec.items, Agenda(wheels, pops, b), key);
      entries := entries - {key};
      spec := spec.(items := spec.items - {key});
    }

    /** Run a task after a delay; without a delay it dies, and so runs, at once. */
    method RunAfter(delay: nat) returns (id: nat)
      requires Valid()
      modifies this`wheels, this`callbacks, this`log, this`spec
      ensures Valid() && id == |old(callbacks)|
      ensures spec == Step(old(spec), CacheSpec.RunAfter(id, delay), Shape()) && id !in old(spec).pending
      ensures log == if delay == 0 then Ran(old(log), id) else old(log)
    {
      id := |callbacks|;
      ghost var a, due := Agenda(wheels, pops, b), Due(ticks, delay + 1, n, b);
      AwaitingTask(callbacks, spec.pending, a, due);
      callbacks := callbacks + [RunTask];
      InsertEntry(delay, id);
      if delay == 0 {
        log := Ran(log, id);
      } else {
        spec := spec.(pending := spec.pending[id := due]);
      }
      OtherTaskTracks(entries, spec.items, a, Agenda(wheels, pops, b), id);
    }

    // -------------------------------------------------------------------------------------------------------
    // The tick

    /** What drops one reference: a task that has no other one runs its callback. `tmp` are the references of the
      * same dropped bucket that are still to go. */
    method DropTask(id: nat, tmp: set<Entry>)
      requires id < |callbacks|
      modifies this`entries, this`log
      ensures (entries, log) == AfterDrop(old(entries), old(log), callbacks[id], id, wheels, tmp)
    {
      if Strong(wheels, id) {
        return;
      }
      match callbacks[id]
      case RunTask =>
        log := Ran(log, id);
      case EraseKey(key) =>
        if key in entries && Unguarded(entries[key], wheels, tmp) {
          if entries[key].hasCallback {
            log := log.(fired := log.fired + multiset{key});
          }
          entries := entries - {key};
        }
    }

    /** Drop the references of a bucket of wheel 0, in any order. */
    method DropTasks(bucket: set<Entry>)
      requires b > 0 && Arranged(wheels, |pops|, b) && Linked(entries, callbacks)
      requires forall x :: x in bucket ==> x.Task? && x.id < |callbacks|
      requires Guarded(entries, bucket, Agenda(wheels, pops, b))
      modifies this`entries, this`log
      ensures Dropping(old(entries), entries, old(log), log, callbacks, bucket, Agenda(wheels, pops, b))
    {
      ghost var a, before := Agenda(wheels, pops, b), entries;
      ghost var done: set<Entry> := {};
      var tmp := bucket;
      DropStart(before, log, callbacks, a);
      while tmp != {}
        invariant wheels == old(wheels) && pops == old(pops) && callbacks == old(callbacks)
        invariant tmp + done == bucket && tmp !! done
        invariant Dropping(before, entries, old(log), log, callbacks, done, a)
      {
        var x :| x in tmp;
        tmp := tmp - {x};
        DropStep(before, entries, old(log), log, callbacks, wheels, pops, b, bucket, done, tmp, x.id);
        DropTask(x.id, tmp);
        done := done + {x};
      }
      assert done == bucket;
    }

    /** Drop the wrappers of a bucket of wheel i, in any order: each puts its inner entry into the wheel below. */
    method Cascade(bucket: set<Entry>, i: nat)
      requires b > 0 && Arranged(wheels, |pops|, b) && 0 < i < |pops|
      requires pops[i - 1] == b * pops[i] && forall x :: x in bucket ==> WellFormed(x, i)
      modifies this`wheels
      ensures Arranged(wheels, |pops|, b)
      ensures Agenda(wheels, pops, b) == old(Agenda(wheels, pops, b)) + Dropped(bucket, i, pops[i], b)
    {
      var tmp := bucket;
      ghost var done: set<Entry> := {};
      while tmp != {}
        invariant tmp + done == bucket && Arranged(wheels, |pops|, b)
        invariant Agenda(wheels, pops, b) == old(Agenda(wheels, pops, b)) + Dropped(done, i, pops[i], b)
      {
        var x :| x in tmp;
        tmp := tmp - {x};
        ComesDown(x, i, pops, b);
        DroppedOne(done, x, i, pops[i], b);
        AddToAgenda(wheels, pops, b, x.level, Slot(x.delay, x.t, b), x.inner);
        wheels := AddTo(wheels, x.level, Slot(x.delay, x.t, b), x.inner);
        done := done + {x};
      }
      assert done == bucket;
    }

    /** Turn wheel 0: its front bucket is dropped and its tasks lose a reference each. */
    method TurnWheel0()
      requires Valid()
      modifies this`wheels, this`pops, this`entries, this`log
      ensures Arranged(wheels, n, b) && pops == old(pops)[0 := ticks + 1]
      ensures Agenda(wheels, pops, b) == Later(old(Agenda(wheels, pops, b)), ticks + 1)
      ensures Tracking(entries, Unexpired(spec.items, ticks + 1), Agenda(wheels, pops, b))
      ensures Linked(entries, callbacks)
      ensures Awaiting(callbacks, Waiting(spec.pending, ticks + 1), Agenda(wheels, pops, b))
      ensures log == TickLog(old(log), old(entries), entries, spec.pending, Waiting(spec.pending, ticks + 1))
    {
      ghost var before := entries;
      var tmp := wheels[0][0];
      TurnOutcome(entries, spec, callbacks, wheels, pops, b);
      wheels := Rotated(wheels, 0);
      pops := pops[0 := ticks + 1];
      DropTasks(tmp);
      DropEnd(before, entries, old(log), log, tmp, Agenda(wheels, pops, b), callbacks);
    }

    /** Turn a higher wheel: its front bucket moves down. */
    method TurnWheel(i: nat)
      requires b > 0 && Arranged(wheels, |pops|, b) && 0 < i < |pops|
      requires pops[i - 1] == b * (pops[i] + 1)
      modifies this`wheels, this`pops
      ensures pops == old(pops)[i := old(pops)[i] + 1] && Arranged(wheels, |pops|, b)
      ensures Agenda(wheels, pops, b) == old(Agenda(wheels, pops, b))
    {
      RotateAgenda(wheels, pops, b, i);
      var tmp := wheels[i][0];
      wheels := Rotated(wheels, i);
      pops := pops[i := pops[i] + 1];
      Cascade(tmp, i);
    }

    /** The wheels above wheel 0 whose turn it is, lower ones first. */
    method TurnHigherWheels(ghost was: seq<nat>)
      requires b > 0 && n > 0 && MidTick(was, pops, ticks, b, 1, n, b) && Arranged(wheels, n, b)
      modifies this`wheels, this`pops
      ensures Arranged(wheels, n, b) && |pops| == n && Counting(ticks, pops, b)
      ensures Agenda(wheels, pops, b) == old(Agenda(wheels, pops, b))
    {
      var i: nat, pow: nat := 1, b;
      while i < n
        invariant 1 <= i <= n && MidTick(was, pops, ticks, pow, i, n, b)
        invariant Arranged(wheels, n, b) && Agenda(wheels, pops, b) == old(Agenda(wheels, pops, b))
        decreases n - i
      {
        MidCarry(was, pops, ticks, pow, i, n, b);
        MidStep(was, pops, ticks, pow, i, n, b);
        if ticks % pow == 0 {
          TurnWheel(i);
        }
        pow, i := pow * b, i + 1;
      }
      MidEnd(was, pops, ticks, pow, n, b);
    }

    /** One tick: every wheel whose turn it is drops its front bucket. */
    method Tick()
      requires Valid()
      modifies this
      ensures Valid()
      ensures spec == Step(old(spec), CacheSpec.Tick, Shape())
      ensures Agenda(wheels, pops, b) == Later(old(Agenda(wheels, pops, b)), ticks)
      ensures ticks == old(ticks) + 1 && entries.Keys == spec.items.Keys
      ensures log.ran == old(log).ran + multiset(set id | id in old(spec).pending && old(spec).pending[id] <= ticks)
      ensures log.fired == old(log).fired + multiset(set k | k in old(entries) && k !in entries && old(entries)[k].hasCallback)
    {
      Turn();
      SameKeys(entries, spec.items, Agenda(wheels, pops, b));
      Waited(old(spec).pending, ticks);
    }

    /** The wheels turn, and what is due goes. */
    method Turn()
      requires Valid()
      modifies this
      ensures Valid()
      ensures spec == Step(old(spec), CacheSpec.Tick, Shape())
      ensures Agenda(wheels, pops, b) == Later(old(Agenda(wheels, pops, b)), ticks)
      ensures log == TickLog(old(log), old(entries), entries, old(spec).pending, spec.pending)
    {
      ghost var was := pops;
      MidStart(was, ticks + 1, n, b);
      MidStep(was, was, ticks + 1, 1, 0, n, b);
      TurnWheel0();
      spec := State(ticks + 1, Unexpired(spec.items, ticks + 1), Waiting(spec.pending, ticks + 1));
      ticks := ticks + 1;
      TurnHigherWheels(was);
    }
  }

  lemma SameKeys<K, V>(entries: map<K, MapValue<V>>, items: map<K, Item<V>>, a: set<(nat, nat)>)
    requires Tracking(entries, items, a)
    ensures entries.Keys == items.Keys
  {
  }

  lemma Waited(pending: map<nat, nat>, now: nat)
    ensures pending.Keys - Waiting(pending, now).Keys == set id | id in pending && pending[id] <= now
  {
  }

  function Ran<K>(log: Log<K>, id: nat): Log<K> {
    log.(ran := log.ran + multiset{id})
  }

  /** What a tick adds to the log: the timeout callbacks of the keys that went, and the tasks that were due. */
  ghost function TickLog<K, V>(log: Log<K>, before: map<K, MapValue<V>>, after: map<K, MapValue<V>>,
                               pending: map<nat, nat>, pending': map<nat, nat>): Log<K> {
    Log(log.fired + multiset(Reported(before, after)), log.ran + multiset(pending.Keys - pending'.Keys))
  }

  /** The erasing callback goes ahead: the entry can expire and no living task guards it. */
  predicate Unguarded<V>(mv: MapValue<V>, ws: Wheels, tmp: set<Entry>) {
    mv.timeout > 0 && !(mv.weak.Some? && (Strong(ws, mv.weak.value) || Task(mv.weak.value) in tmp))
  }

  ghost predicate ErasesNow<K, V>(entries: map<K, MapValue<V>>, cb: Callback<K>, ws: Wheels, tmp: set<Entry>) {
    cb.EraseKey? && cb.key in entries && Unguarded(entries[cb.key], ws, tmp)
  }

  /** Map and log after one reference of the task has gone. */
  ghost function AfterDrop<K, V>(entries: map<K, MapValue<V>>, log: Log<K>, cb: Callback<K>, id: nat, ws: Wheels,
                                 tmp: set<Entry>): (map<K, MapValue<V>>, Log<K>) {
    if Strong(ws, id) then (entries, log)
    else if cb.RunTask? then (entries, Ran(log, id))
    else if !ErasesNow(entries, cb, ws, tmp) then (entries, log)
    else (entries - {cb.key},
          if entries[cb.key].hasCallback then log.(fired := log.fired + multiset{cb.key}) else log)
  }

  /** Keys that went and had a timeout callback. */
  ghost function Reported<K, V>(before: map<K, MapValue<V>>, after: map<K, MapValue<V>>): set<K> {
    set k | k in before && k !in after && before[k].hasCallback
  }

  /** Before the bucket's references go, every entry that can expire has a living task. */
  ghost predicate Guarded<K, V>(entries: map<K, MapValue<V>>, bucket: set<Entry>, a: set<(nat, nat)>) {
    forall k :: k in entries && entries[k].timeout > 0 ==>
      entries[k].weak.Some? && (Task(entries[k].weak.value) in bucket || Scheduled(a, entries[k].weak.value))
  }

  lemma RanStep<K, V>(entries: map<K, MapValue<V>>, ran0: multiset<nat>, log: Log<K>, callbacks: seq<Callback<K>>,
                      ws: Wheels, pops: seq<nat>, b: nat, done: set<Entry>, tmp: set<Entry>, id: nat)
    requires b > 0 && Arranged(ws, |pops|, b) && id < |callbacks| && Task(id) !in done
    requires log.ran == ran0 + multiset(Finished(callbacks, done, Agenda(ws, pops, b)))
    ensures AfterDrop(entries, log, callbacks[id], id, ws, tmp).1.ran
         == ran0 + multiset(Finished(callbacks, done + {Task(id)}, Agenda(ws, pops, b)))
  {
    var a := Agenda(ws, pops, b);
    StrongIffScheduled(ws, pops, b, id);
    var f := Finished(callbacks, done + {Task(id)}, a);
    if Strong(ws, id) || !callbacks[id].RunTask? {
      assert f == Finished(callbacks, done, a);
    } else {
      assert Task(id) in done + {Task(id)} && id in f;
      assert f == Finished(callbacks, done, a) + {id};
    }
  }

  lemma FiredStep<K, V>(before: map<K, MapValue<V>>, entries: map<K, MapValue<V>>, fired0: multiset<K>, log: Log<K>,
                        cb: Callback<K>, id: nat, ws: Wheels, tmp: set<Entry>)
    requires forall k :: k in entries ==> k in before && entries[k] == before[k]
    requires log.fired == fired0 + multiset(Reported(before, entries))
    ensures var (entries', log') := AfterDrop(entries, log, cb, id, ws, tmp);
            log'.fired == fired0 + multiset(Reported(before, entries'))
  {
    var (entries', log') := AfterDrop(entries, log, cb, id, ws, tmp);
    if log'.fired != log.fired {
      assert Reported(before, entries') == Reported(before, entries) + {cb.key};
    } else {
      assert Reported(before, entries') == Reported(before, entries);
    }
  }

  /** The state of the map after the references in `done` have gone. */
  ghost predicate Dropping<K, V>(before: map<K, MapValue<V>>, entries: map<K, MapValue<V>>, log0: Log<K>, log: Log<K>,
                                 callbacks: seq<Callback<K>>, done: set<Entry>, a: set<(nat, nat)>) {
    forall d {:trigger Opened(d)} :: Opened(d) ==>
      && entries == Survivors(before, done, a)
      && log.fired == log0.fired + multiset(Reported(before, entries))
      && log.ran == log0.ran + multiset(Finished(callbacks, done, a))
  }

  lemma DropStart<K, V>(before: map<K, MapValue<V>>, log: Log<K>, callbacks: seq<Callback<K>>, a: set<(nat, nat)>)
    ensures Dropping(before, before, log, log, callbacks, {}, a)
  {
    assert Survivors(before, {}, a) == before;
    assert Reported(before, before) == {} && Finished(callbacks, {}, a) == {};
  }

  /** The callback of a dying task erases its own key if that key still waits for it, and no key inserted again. */
  lemma DoomedNow<K, V>(before: map<K, MapValue<V>>, entries: map<K, MapValue<V>>, callbacks: seq<Callback<K>>,
                        ws: Wheels, pops: seq<nat>, b: nat, bucket: set<Entry>, done: set<Entry>, tmp: set<Entry>,
                        id: nat, k: K)
    requires b > 0 && Arranged(ws, |pops|, b) && Linked(before, callbacks)
    requires Guarded(before, bucket, Agenda(ws, pops, b))
    requires Task(id) in bucket && Task(id) !in done && tmp == bucket - done - {Task(id)} && id < |callbacks|
    requires entries == Survivors(before, done, Agenda(ws, pops, b)) && k in entries && !Strong(ws, id)
    ensures Doomed(before[k], done + {Task(id)}, Agenda(ws, pops, b))
        <==> ErasesNow(entries, callbacks[id], ws, tmp) && k == callbacks[id].key
  {
    StrongIffScheduled(ws, pops, b, id);
    if before[k].weak.Some? {
      StrongIffScheduled(ws, pops, b, before[k].weak.value);
    }
  }

  lemma DropStep<K, V>(before: map<K, MapValue<V>>, entries: map<K, MapValue<V>>, log0: Log<K>, log: Log<K>,
                       callbacks: seq<Callback<K>>, ws: Wheels, pops: seq<nat>, b: nat,
                       bucket: set<Entry>, done: set<Entry>, tmp: set<Entry>, id: nat)
    requires b > 0 && Arranged(ws, |pops|, b) && Linked(before, callbacks)
    requires Guarded(before, bucket, Agenda(ws, pops, b))
    requires Task(id) in bucket && Task(id) !in done && tmp == bucket - done - {Task(id)} && id < |callbacks|
    requires Dropping(before, entries, log0, log, callbacks, done, Agenda(ws, pops, b))
    ensures var (entries', log') := AfterDrop(entries, log, callbacks[id], id, ws, tmp);
            Dropping(before, entries', log0, log', callbacks, done + {Task(id)}, Agenda(ws, pops, b))
  {
    assert Opened(true);
    DropStepMap(before, entries, log, callbacks, ws, pops, b, bucket, done, tmp, id);
    FiredStep(before, entries, log0.fired, log, callbacks[id], id, ws, tmp);
    RanStep(entries, log0.ran, log, callbacks, ws, pops, b, done, tmp, id);
  }

  lemma DropStepMap<K, V>(before: map<K, MapValue<V>>, entries: map<K, MapValue<V>>, log: Log<K>,
                          callbacks: seq<Callback<K>>, ws: Wheels, pops: seq<nat>, b: nat,
                          bucket: set<Entry>, done: set<Entry>, tmp: set<Entry>, id: nat)
    requires b > 0 && Arranged(ws, |pops|, b) && Linked(before, callbacks)
    requires Guarded(before, bucket, Agenda(ws, pops, b))
    requires Task(id) in bucket && Task(id) !in done && tmp == bucket - done - {Task(id)} && id < |callbacks|
    requires entries == Survivors(before, done, Agenda(ws, pops, b))
    ensures AfterDrop(entries, log, callbacks[id], id, ws, tmp).0
         == Survivors(before, done + {Task(id)}, Agenda(ws, pops, b))
  {
    var a := Agenda(ws, pops, b);
    var entries' := AfterDrop(entries, log, callbacks[id], id, ws, tmp).0;
    StrongIffScheduled(ws, pops, b, id);
    forall k | k in entries
      ensures k in entries' <==> !Doomed(before[k], done + {Task(id)}, a)
    {
      if !Strong(ws, id) {
        DoomedNow(before, entries, callbacks, ws, pops, b, bucket, done, tmp, id, k);
      }
    }
  }

  lemma DropEnd<K, V>(before: map<K, MapValue<V>>, entries: map<K, MapValue<V>>, log0: Log<K>, log: Log<K>,
                      done: set<Entry>, a: set<(nat, nat)>, callbacks: seq<Callback<K>>)
    requires Dropping(before, entries, log0, log, callbacks, done, a) && Linked(before, callbacks)
    ensures entries == Survivors(before, done, a) && Linked(entries, callbacks)
    ensures log.fired == log0.fired + multiset(Reported(before, entries))
    ensures log.ran == log0.ran + multiset(Finished(callbacks, done, a))
  {
    assert Opened(true);
  }

  /** What follows from dropping the front bucket of wheel 0 in a valid state. */
  lemma TurnOutcome<K, V>(entries: map<K, MapValue<V>>, spec: State<K, V>, callbacks: seq<Callback<K>>, ws: Wheels,
                          pops: seq<nat>, b: nat)
    requires Counting(spec.now, pops, b) && Arranged(ws, |pops|, b) && Known(Agenda(ws, pops, b), callbacks)
    requires Tracking(entries, spec.items, Agenda(ws, pops, b))
    requires Awaiting(callbacks, spec.pending, Agenda(ws, pops, b))
    ensures var later, front := Later(Agenda(ws, pops, b), spec.now + 1), ws[0][0];
            Arranged(Rotated(ws, 0), |pops|, b)
            && Agenda(Rotated(ws, 0), pops[0 := spec.now + 1], b) == later
            && (forall x :: x in front ==> x.Task? && x.id < |callbacks|)
            && Guarded(entries, front, later)
            && Tracking(Survivors(entries, front, later), Unexpired(spec.items, spec.now + 1), later)
            && Awaiting(callbacks, Waiting(spec.pending, spec.now + 1), later)
            && Finished(callbacks, front, later) == spec.pending.Keys - Waiting(spec.pending, spec.now + 1).Keys
  {
    var a, front := Agenda(ws, pops, b), ws[0][0];
    TurnFirst(ws, pops, b, spec.now);
    TickTracks(entries, spec.items, a, spec.now, front);
    TickGuarded(entries, spec.items, a, spec.now, front);
    FrontKnown(a, spec.now, front, callbacks);
    TickAwaiting(callbacks, spec.pending, a, spec.now, front);
  }

  lemma FrontKnown<K>(a: set<(nat, nat)>, now: nat, bucket: set<Entry>, callbacks: seq<Callback<K>>)
    requires Known(a, callbacks)
    requires forall x :: x in bucket ==> x.Task?
    requires forall id: nat :: (id, now + 1) in a <==> Task(id) in bucket
    ensures forall x :: x in bucket ==> x.id < |callbacks|
  {
    forall x | x in bucket
      ensures x.id < |callbacks|
    {
      assert x == Task(x.id) && (x.id, now + 1) in a;
    }
  }

  lemma TickGuarded<K, V>(entries: map<K, MapValue<V>>, items: map<K, Item<V>>, a: set<(nat, nat)>, now: nat,
                          bucket: set<Entry>)
    requires Tracking(entries, items, a)
    requires forall id: nat :: (id, now + 1) in a <==> Task(id) in bucket
    requires forall q :: q in a ==> q.1 > now
    ensures Guarded(entries, bucket, Later(a, now + 1))
  {
    forall k | k in entries && entries[k].timeout > 0
      ensures entries[k].weak.Some?
      ensures Task(entries[k].weak.value) in bucket || Scheduled(Later(a, now + 1), entries[k].weak.value)
    {
      TracksAt(entries, items, a, k);
      var id, f := entries[k].weak.value, items[k].deadline;
      assert f > now + 1 ==> (id, f) in Later(a, now + 1);
    }
  }

  /** A wrapper dropped by drop number pops[i] of wheel i keeps its release tick when its inner entry moves down. */
  lemma ComesDown(x: Entry, i: nat, pops: seq<nat>, b: nat)
    requires b > 0 && 0 < i < |pops| && WellFormed(x, i) && pops[i - 1] == b * pops[i]
    ensures x.Deferred? && x.level == i - 1 && x.delay > 0 && WellFormed(x.inner, i - 1)
    ensures PairAt(x.inner, i - 1, pops[i - 1] + Slot(x.delay, x.t, b) + 1, b) == PairAt(x, i, pops[i], b)
  {
  }

  lemma DroppedOne(done: set<Entry>, x: Entry, i: nat, p: nat, b: nat)
    requires b > 0 && WellFormed(x, i) && forall y :: y in done ==> WellFormed(y, i)
    ensures Dropped(done + {x}, i, p, b) == Dropped(done, i, p, b) + {PairAt(x, i, p, b)}
  {
  }

  // ---------------------------------------------------------------------------------------------------------
  // Counting drops while a tick is under way: wheels below i have turned

  ghost function NewCount(pops: seq<nat>, t: nat, i: nat, b: nat): nat
    requires b > 0 && i <= |pops|
  {
    if i == 0 then t else pops[i - 1] / b
  }

  ghost predicate MidTick(was: seq<nat>, pops: seq<nat>, t: nat, pow: nat, i: nat, n: nat, b: nat) {
    && |was| == |pops| == n && i <= n && b > 0
    && forall d {:trigger Opened(d)} :: Opened(d) ==>
         && (forall k :: 0 <= k < i ==> pops[k] == NewCount(pops, t, k, b))
         && (forall k :: i <= k < n ==> pops[k] == was[k])
         && (forall k :: 0 <= k < n - 1 ==> was[k + 1] == was[k] / b)
         && (i < n ==> Turning(t, pow, NewCount(pops, t, i, b), was[i]))
         && (0 < i < n && t % pow == 0 ==> pops[i - 1] == b * NewCount(pops, t, i, b))
  }

  lemma MidStart(was: seq<nat>, t: nat, n: nat, b: nat)
    requires t > 0 && |was| == n > 0 && Counting(t - 1, was, b)
    ensures MidTick(was, was, t, 1, 0, n, b)
  {
  }

  lemma MidCarry(was: seq<nat>, pops: seq<nat>, t: nat, pow: nat, i: nat, n: nat, b: nat)
    requires MidTick(was, pops, t, pow, i, n, b) && i < n
    ensures pow > 0
    ensures 0 < i && t % pow == 0 ==> pops[i - 1] == b * (pops[i] + 1)
  {
    assert Opened(true);
  }

  lemma MidStep(was: seq<nat>, pops: seq<nat>, t: nat, pow: nat, i: nat, n: nat, b: nat)
    requires MidTick(was, pops, t, pow, i, n, b) && i < n
    ensures pow > 0
    ensures MidTick(was, if t % pow == 0 then pops[i := pops[i] + 1] else pops, t, pow * b, i + 1, n, b)
  {
    assert Opened(true);
    var pops' := if t % pow == 0 then pops[i := pops[i] + 1] else pops;
    var v := NewCount(pops, t, i, b);
    assert pops'[i] == v;
    TurningNext(t, pow, v, was[i], b);
    forall k | 0 <= k < i + 1
      ensures pops'[k] == NewCount(pops', t, k, b)
    {
    }
  }

  lemma MidEnd(was: seq<nat>, pops: seq<nat>, t: nat, pow: nat, n: nat, b: nat)
    requires MidTick(was, pops, t, pow, n, n, b) && n > 0
    ensures Counting(t, pops, b)
  {
    assert Opened(true);
    forall i | 0 <= i < n - 1
      ensures pops[i + 1] == pops[i] / b
    {
      assert pops[i + 1] == NewCount(pops, t, i + 1, b);
    }
  }

  /** References to a task no key observes change no deadline. */
  lemma OtherTaskTracks<K, V>(entries: map<K, MapValue<V>>, items: map<K, Item<V>>, a: set<(nat, nat)>,
                              a': set<(nat, nat)>, id: nat)
    requires Tracking(entries, items, a) && a <= a' && forall q :: q in a' && q !in a ==> q.0 == id
    requires forall k :: k in entries && entries[k].weak.Some? ==> entries[k].weak.value != id
    ensures Tracking(entries, items, a')
  {
    assert Opened(true);
    forall k | k in entries && entries[k].timeout > 0
      ensures IsLast(a', entries[k].weak.value, items[k].deadline)
    {
      assert Tracks(entries[k], items[k], a);
    }
  }
}
