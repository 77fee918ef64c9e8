module CacheSpec {
  // What an expiring cache promises, as a state machine without wheels: every entry carries the tick it is erased at.

  import opened TimingWheel

  /** deadline is meaningful only when timeout is positive. */
  datatype Item<V> = Item(value: V, timeout: nat, deadline: nat)

  /** pending maps the delayed tasks that have not run yet to the tick they run at. */
  datatype State<K, V> = State(now: nat, items: map<K, Item<V>>, pending: map<nat, nat>)

  function Empty<K, V>(): State<K, V> {
    State(0, map[], map[])
  }

  /** n wheels of b buckets. */
  datatype Shape = Shape(n: nat, b: nat) {
    predicate Proper() {
      n > 0 && b > 0
    }
  }

  datatype Op<K, !V> =
    | Insert(key: K, value: V, timeout: nat)
    | Visit(key: K)
    | Modify(key: K, handler: V -> V, timeout: nat, blank: V)
    | Erase(key: K)
    | RunAfter(id: nat, delay: nat)
    | Tick

  function Max(x: nat, y: nat): nat {
    if x < y then y else x
  }

  /** The tick an access with this timeout, in seconds, postpones the erasure to. */
  function Postponed(now: nat, timeout: nat, w: Shape): nat
    requires w.Proper()
  {
    Due(now, timeout + 1, w.n, w.b)
  }

  /** An access with a timeout; an item that never expires is not affected. */
  function Touch<V>(item: Item<V>, now: nat, timeout: nat, w: Shape): Item<V>
    requires w.Proper()
  {
    if item.timeout > 0 && timeout > 0 then item.(deadline := Max(item.deadline, Postponed(now, timeout, w))) else item
  }

  function Fresh<V>(value: V, now: nat, timeout: nat, w: Shape): Item<V>
    requires w.Proper()
  {
    Touch(Item(value, timeout, 0), now, timeout, w)
  }

  function Step<K, V>(s: State<K, V>, op: Op<K, V>, w: Shape): State<K, V>
    requires w.Proper()
  {
    match op
    case Insert(k, v, timeout) =>
      var item := if k in s.items then Touch(s.items[k], s.now, timeout, w) else Fresh(v, s.now, timeout, w);
      s.(items := s.items[k := item])
    case Visit(k) =>
      if k in s.items then s.(items := s.items[k := Touch(s.items[k], s.now, s.items[k].timeout, w)]) else s
    case Modify(k, handler, timeout, blank) =>
      var item := if k in s.items then
                    Touch(s.items[k].(value := handler(s.items[k].value)), s.now, s.items[k].timeout, w)
                  else Fresh(handler(blank), s.now, timeout, w);
      s.(items := s.items[k := item])
    case Erase(k) => s.(items := s.items - {k})
    case RunAfter(id, delay) =>
      if delay == 0 then s else s.(pending := s.pending[id := Postponed(s.now, delay, w)])
    case Tick =>
      State(s.now + 1, Unexpired(s.items, s.now + 1), Waiting(s.pending, s.now + 1))
  }

  function Unexpired<K, V>(items: map<K, Item<V>>, now: nat): map<K, Item<V>> {
    map k | k in items && !(items[k].timeout > 0 && items[k].deadline <= now) :: items[k]
  }

  function Waiting(pending: map<nat, nat>, now: nat): map<nat, nat> {
    map id | id in pending && pending[id] > now :: pending[id]
  }

  function Run<K, V>(s: State<K, V>, ops: seq<Op<K, V>>, w: Shape): State<K, V>
    requires w.Proper()
    decreases |ops|
  {
    if ops == [] then s else Run(Step(s, ops[0], w), ops[1..], w)
  }

  function Ticks<K, V>(ops: seq<Op<K, V>>): nat {
    if ops == [] then 0 else (if ops[0].Tick? then 1 else 0) + Ticks(ops[1..])
  }

  predicate Leaves<K(==), V>(op: Op<K, V>, k: K) {
    op.Tick? || op.RunAfter? || op.key != k
  }

  // ---------------------------------------------------------------------------------------------------------
  // Whole runs

  /** Left alone, a key with a timeout is present, unchanged, exactly until the tick that reaches its deadline. */
  lemma {:induction false} LeftAlone<K, V>(s: State<K, V>, ops: seq<Op<K, V>>, w: Shape, k: K)
    requires w.Proper() && forall op :: op in ops ==> Leaves(op, k)
    requires k in s.items && s.items[k].timeout > 0 && s.items[k].deadline > s.now
    ensures var t := Run(s, ops, w);
            t.now == s.now + Ticks(ops)
            && (k in t.items <==> t.now < s.items[k].deadline)
            && (k in t.items ==> t.items[k] == s.items[k])
    decreases |ops|
  {
    if ops != [] {
      var s' := Step(s, ops[0], w);
      assert Leaves(ops[0], k);
      if k in s'.items {
        LeftAlone(s', ops[1..], w, k);
      } else {
        StaysAbsent(s', ops[1..], w, k);
      }
    }
  }

  lemma {:induction false} StaysAbsent<K, V>(s: State<K, V>, ops: seq<Op<K, V>>, w: Shape, k: K)
    requires w.Proper() && forall op :: op in ops ==> Leaves(op, k)
    requires k !in s.items
    ensures k !in Run(s, ops, w).items && Run(s, ops, w).now == s.now + Ticks(ops)
    decreases |ops|
  {
    if ops != [] {
      assert Leaves(ops[0], k);
      StaysAbsent(Step(s, ops[0], w), ops[1..], w, k);
    }
  }

  /** A key with timeout 0 never expires: only an explicit erase removes it. */
  lemma {:induction false} NeverExpires<K, V>(s: State<K, V>, ops: seq<Op<K, V>>, w: Shape, k: K)
    requires w.Proper() && Erase(k) !in ops
    requires k in s.items && s.items[k].timeout == 0
    ensures k in Run(s, ops, w).items && Run(s, ops, w).items[k].timeout == 0
    decreases |ops|
  {
    if ops != [] {
      NeverExpires(Step(s, ops[0], w), ops[1..], w, k);
    }
  }

  // ---------------------------------------------------------------------------------------------------------
  // Values

  /** Time, delayed tasks and all keys but k are as they were, deadlines included. */
  ghost predicate OnlyKey<K, V>(s: State<K, V>, t: State<K, V>, k: K) {
    t.now == s.now && t.pending == s.pending && t.items - {k} == s.items - {k}
  }

  /** Erasing takes the key out and nothing else; while nobody puts it back it stays out. */
  lemma EraseRemoves<K, V>(s: State<K, V>, k: K, after: seq<Op<K, V>>, w: Shape)
    requires w.Proper() && forall op :: op in after ==> Leaves(op, k)
    ensures k !in Run(s, [Erase(k)] + after, w).items
    ensures OnlyKey(s, Run(s, [Erase(k)], w), k)
  {
    var e: Op<K, V> := Erase(k);
    RunFirst(s, e, after, w);
    RunFirst(s, e, [], w);
    assert [e] + [] == [e];
    StaysAbsent(Step(s, e, w), after, w, k);
  }

  lemma RunFirst<K, V>(s: State<K, V>, op: Op<K, V>, after: seq<Op<K, V>>, w: Shape)
    requires w.Proper()
    ensures Run(s, [op] + after, w) == Run(Step(s, op, w), after, w) && Ticks([op] + after) == Ticks([op]) + Ticks(after)
  {
    assert ([op] + after)[1..] == after && [op][1..] == [];
  }

  /** A key left alone keeps its value and timeout as long as it is there, and while no time passes it is. */
  lemma {:induction false} ValueKept<K, V>(s: State<K, V>, ops: seq<Op<K, V>>, w: Shape, k: K)
    requires w.Proper() && forall op :: op in ops ==> Leaves(op, k)
    ensures var t := Run(s, ops, w);
            && (k in t.items ==> k in s.items && t.items[k] == s.items[k])
            && (k in s.items && (Ticks(ops) == 0 || s.items[k].timeout == 0) ==> k in t.items)
    decreases |ops|
  {
    if ops != [] {
      assert Leaves(ops[0], k);
      ValueKept(Step(s, ops[0], w), ops[1..], w, k);
    }
  }

  /** What is read for k after the operation and a run that leaves k alone: this value and timeout, if it is there. */
  ghost predicate ReadsBack<K, V>(s: State<K, V>, op: Op<K, V>, after: seq<Op<K, V>>, w: Shape, k: K, v: V, timeout: nat)
    requires w.Proper()
  {
    var t := Run(s, [op] + after, w);
    && (k in t.items ==> t.items[k].value == v && t.items[k].timeout == timeout)
    && (Ticks(after) == 0 || timeout == 0 ==> k in t.items)
  }

  /** Inserting keeps the value and timeout of a present key, and gives an absent one the new ones. */
  lemma InsertReadsBack<K, V>(s: State<K, V>, k: K, v: V, timeout: nat, after: seq<Op<K, V>>, w: Shape)
    requires w.Proper() && forall op :: op in after ==> Leaves(op, k)
    ensures if k in s.items then ReadsBack(s, Insert(k, v, timeout), after, w, k, s.items[k].value, s.items[k].timeout)
            else ReadsBack(s, Insert(k, v, timeout), after, w, k, v, timeout)
    ensures OnlyKey(s, Run(s, [Insert(k, v, timeout)], w), k)
  {
    var op: Op<K, V> := Insert(k, v, timeout);
    RunFirst(s, op, after, w);
    RunFirst(s, op, [], w);
    assert [op] + [] == [op];
    ValueKept(Step(s, op, w), after, w, k);
  }

  /** Modifying gives a present key what the handler makes of its value, and an absent one what it makes of a blank. */
  lemma ModifyReadsBack<K, V>(s: State<K, V>, k: K, handler: V -> V, timeout: nat, blank: V, after: seq<Op<K, V>>,
                                    w: Shape)
    requires w.Proper() && forall op :: op in after ==> Leaves(op, k)
    ensures if k in s.items then
              ReadsBack(s, Modify(k, handler, timeout, blank), after, w, k, handler(s.items[k].value), s.items[k].timeout)
            else ReadsBack(s, Modify(k, handler, timeout, blank), after, w, k, handler(blank), timeout)
    ensures OnlyKey(s, Run(s, [Modify(k, handler, timeout, blank)], w), k)
  {
    var op: Op<K, V> := Modify(k, handler, timeout, blank);
    RunFirst(s, op, after, w);
    RunFirst(s, op, [], w);
    assert [op] + [] == [op];
    ValueKept(Step(s, op, w), after, w, k);
  }

  /** Looking up changes no value and creates nothing. */
  lemma VisitReadsBack<K, V>(s: State<K, V>, k: K, after: seq<Op<K, V>>, w: Shape)
    requires w.Proper() && forall op :: op in after ==> Leaves(op, k)
    ensures if k in s.items then ReadsBack(s, Visit(k), after, w, k, s.items[k].value, s.items[k].timeout)
            else k !in Run(s, [Visit(k)] + after, w).items
    ensures OnlyKey(s, Run(s, [Visit(k)], w), k)
  {
    var op: Op<K, V> := Visit(k);
    RunFirst(s, op, after, w);
    RunFirst(s, op, [], w);
    assert [op] + [] == [op];
    ValueKept(Step(s, op, w), after, w, k);
  }

  /** A delayed task touches no key, and a tick moves time by one and changes no value. */
  lemma TimeTouchesNoValue<K, V>(s: State<K, V>, id: nat, delay: nat, w: Shape)
    requires w.Proper()
    ensures var t := Run(s, [RunAfter(id, delay)], w);
            t.now == s.now && t.items == s.items && t.pending - {id} == s.pending - {id}
    ensures var t := Run(s, [Tick], w);
            t.now == s.now + 1 && forall k :: k in t.items ==> k in s.items && t.items[k] == s.items[k]
  {
    var run: Op<K, V>, tick: Op<K, V> := RunAfter(id, delay), Tick;
    RunFirst(s, run, [], w);
    RunFirst(s, tick, [], w);
    assert [run] + [] == [run] && [tick] + [] == [tick];
  }

  // ---------------------------------------------------------------------------------------------------------
  // Expiry

  /** An insert for a key that is already present asks for no longer life than the key was created with. */
  predicate Disciplined<K, V>(s: State<K, V>, op: Op<K, V>) {
    op.Insert? && op.key in s.items ==> op.timeout <= s.items[op.key].timeout
  }

  predicate DisciplinedRun<K, V>(s: State<K, V>, ops: seq<Op<K, V>>, w: Shape)
    requires w.Proper()
    decreases |ops|
  {
    ops == [] || (Disciplined(s, ops[0]) && DisciplinedRun(Step(s, ops[0], w), ops[1..], w))
  }

  /** An item that can expire does so later than now and at most one tick more than its timeout from now. */
  predicate InTime<V>(now: nat, item: Item<V>) {
    item.timeout > 0 ==> now < item.deadline <= now + item.timeout + 1
  }

  ghost predicate Bounded<K, V>(s: State<K, V>) {
    forall k :: k in s.items ==> InTime(s.now, s.items[k])
  }

  lemma TouchInTime<V>(item: Item<V>, now: nat, timeout: nat, w: Shape)
    requires w.Proper() && timeout <= item.timeout
    requires InTime(now, item) || (item.deadline == 0 && timeout == item.timeout)
    ensures InTime(now, Touch(item, now, timeout, w))
  {
    TargetExact(0, now, timeout + 1, w.n, w.b);
  }

  lemma StepBounded<K, V>(s: State<K, V>, op: Op<K, V>, w: Shape)
    requires w.Proper() && Bounded(s) && Disciplined(s, op)
    ensures Bounded(Step(s, op, w))
  {
    var t := Step(s, op, w);
    match op
    case Insert(k, v, timeout) =>
      TouchInTime(if k in s.items then s.items[k] else Item(v, timeout, 0), s.now, timeout, w);
    case Visit(k) =>
      if k in s.items {
        TouchInTime(s.items[k], s.now, s.items[k].timeout, w);
      }
    case Modify(k, handler, timeout, blank) =>
      if k in s.items {
        TouchInTime(s.items[k].(value := handler(s.items[k].value)), s.now, s.items[k].timeout, w);
      } else {
        TouchInTime(Item(handler(blank), timeout, 0), s.now, timeout, w);
      }
    case _ =>
  }

  lemma {:induction false} RunBounded<K, V>(s: State<K, V>, ops: seq<Op<K, V>>, w: Shape)
    requires w.Proper() && Bounded(s) && DisciplinedRun(s, ops, w)
    ensures Bounded(Run(s, ops, w))
    decreases |ops|
  {
    if ops != [] {
      StepBounded(s, ops[0], w);
      RunBounded(Step(s, ops[0], w), ops[1..], w);
    }
  }

  /** An operation that counts as an access to k: it finds k present, or creates it with a timeout. */
  predicate Accesses<K(==), V>(s: State<K, V>, op: Op<K, V>, k: K) {
    match op
    case Visit(key) => key == k && k in s.items
    case Modify(key, _, timeout, _) => key == k && (k in s.items || timeout > 0)
    case Insert(key, _, timeout) => key == k && timeout > 0 && (k in s.items ==> s.items[k].timeout == timeout)
    case _ => false
  }

  /** The expiry promise over whole runs, from the empty cache: a key with timeout T whose delay fits the wheels is
    * present through T further ticks after its last access and gone at tick T + 1 and later. */
  lemma ExpiresAfterLastAccess<K, V>(before: seq<Op<K, V>>, op: Op<K, V>, after: seq<Op<K, V>>, w: Shape, k: K)
    requires w.Proper() && DisciplinedRun(Empty(), before, w)
    requires var s := Run(Empty(), before, w);
             Accesses(s, op, k) && Step(s, op, w).items[k].timeout > 0
             && Fits(0, s.now, Step(s, op, w).items[k].timeout + 1, w.n, w.b)
    requires forall o :: o in after ==> Leaves(o, k)
    ensures var s := Step(Run(Empty(), before, w), op, w);
            k in Run(s, after, w).items <==> Ticks(after) <= s.items[k].timeout
  {
    var s := Run(Empty(), before, w);
    RunBounded(Empty(), before, w);
    var timeout := Step(s, op, w).items[k].timeout;
    TargetExact(0, s.now, timeout + 1, w.n, w.b);
    assert Step(s, op, w).items[k].deadline == s.now + timeout + 1;
    LeftAlone(Step(s, op, w), after, w, k);
  }

  /** A delayed task whose delay fits the wheels runs exactly at the tick delay + 1 after it was handed in. */
  lemma RunsOnTime<K, V>(s: State<K, V>, id: nat, delay: nat, after: seq<Op<K, V>>, w: Shape)
    requires w.Proper() && delay > 0 && Fits(0, s.now, delay + 1, w.n, w.b)
    requires forall op :: op in after && op.RunAfter? ==> op.id != id
    ensures id in Run(Step(s, RunAfter(id, delay), w), after, w).pending <==> Ticks(after) <= delay
  {
    TargetExact(0, s.now, delay + 1, w.n, w.b);
    WaitsUntilDue(Step(s, RunAfter(id, delay), w), id, after, w);
  }

  lemma {:induction false} WaitsUntilDue<K, V>(s: State<K, V>, id: nat, ops: seq<Op<K, V>>, w: Shape)
    requires w.Proper() && forall op :: op in ops && op.RunAfter? ==> op.id != id
    requires id in s.pending ==> s.pending[id] > s.now
    ensures var t := Run(s, ops, w);
            (id in t.pending <==> id in s.pending && s.now + Ticks(ops) < s.pending[id])
            && (id in t.pending ==> t.pending[id] == s.pending[id])
    decreases |ops|
  {
    if ops != [] {
      WaitsUntilDue(Step(s, ops[0], w), id, ops[1..], w);
    }
  }

  /** Left alone from s on, the key is gone after more than `timeout` ticks. */
  ghost predicate DiesWithin<K(!new), V(!new)>(s: State<K, V>, k: K, timeout: nat, w: Shape)
    requires w.Proper()
  {
    forall after: seq<Op<K, V>> :: (forall o :: o in after ==> Leaves(o, k)) && k in Run(s, after, w).items ==>
      Ticks(after) <= timeout
  }

  function TicksOnly<K, V>(n: nat): (ops: seq<Op<K, V>>)
    ensures |ops| == n && Ticks(ops) == n && forall o :: o in ops ==> o == Tick
  {
    if n == 0 then [] else
      var ops := [Tick] + TicksOnly<K, V>(n - 1);
      assert ops[1..] == TicksOnly<K, V>(n - 1);
      ops
  }

  /** A key left alone is gone within its timeout just when its deadline is at most that far away. */
  lemma DiesByDeadline<K(!new), V(!new)>(s: State<K, V>, k: K, timeout: nat, w: Shape)
    requires w.Proper() && k in s.items && s.items[k].timeout > 0 && s.items[k].deadline > s.now
    ensures DiesWithin(s, k, timeout, w) <==> s.items[k].deadline <= s.now + timeout + 1
  {
    if s.items[k].deadline <= s.now + timeout + 1 {
      forall after: seq<Op<K, V>> | (forall o :: o in after ==> Leaves(o, k)) && k in Run(s, after, w).items
        ensures Ticks(after) <= timeout
      {
        LeftAlone(s, after, w, k);
      }
    } else {
      var after := TicksOnly<K, V>(timeout + 1);
      LeftAlone(s, after, w, k);
      assert k in Run(s, after, w).items && Ticks(after) > timeout;
    }
  }

  /** No item that can expire is overdue. */
  ghost predicate NoneOverdue<K, V>(s: State<K, V>) {
    forall k :: k in s.items && s.items[k].timeout > 0 ==> s.items[k].deadline > s.now
  }

  lemma TouchNotOverdue<V>(item: Item<V>, now: nat, timeout: nat, w: Shape)
    requires w.Proper() && item.timeout > 0 && (item.deadline > now || timeout > 0)
    ensures Touch(item, now, timeout, w).deadline > now
  {
    TargetExact(0, now, timeout + 1, w.n, w.b);
  }

  lemma StepNotOverdue<K, V>(s: State<K, V>, op: Op<K, V>, w: Shape)
    requires w.Proper() && NoneOverdue(s)
    ensures NoneOverdue(Step(s, op, w))
  {
    var t := Step(s, op, w);
    forall k | k in t.items && t.items[k].timeout > 0
      ensures t.items[k].deadline > t.now
    {
      match op
      case Insert(key, v, timeout) =>
        if k == key {
          TouchNotOverdue(if k in s.items then s.items[k] else Item(v, timeout, 0), s.now, timeout, w);
        }
      case Visit(key) =>
        if k == key {
          TouchNotOverdue(s.items[k], s.now, s.items[k].timeout, w);
        }
      case Modify(key, handler, timeout, blank) =>
        if k == key {
          if k in s.items {
            TouchNotOverdue(s.items[k].(value := handler(s.items[k].value)), s.now, s.items[k].timeout, w);
          } else {
            TouchNotOverdue(Item(handler(blank), timeout, 0), s.now, timeout, w);
          }
        }
      case Erase(_) =>
      case RunAfter(_, _) =>
      case Tick =>
    }
  }

  /** Not in any run, whatever is inserted. */
  lemma {:induction false} RunNotOverdue<K, V>(s: State<K, V>, ops: seq<Op<K, V>>, w: Shape)
    requires w.Proper() && NoneOverdue(s)
    ensures NoneOverdue(Run(s, ops, w))
    decreases |ops|
  {
    if ops != [] {
      StepNotOverdue(s, ops[0], w);
      RunNotOverdue(Step(s, ops[0], w), ops[1..], w);
    }
  }

  /**
   * After any run: an insert for a present key with timeout T keeps the promise that the key dies within T of its last
   * access exactly when the promise has not been broken before and the insert asks for no more than T (where its own
   * delay fits the wheels; otherwise, when the tick it is cut down to comes no later than T + 1 from now).
   */
  lemma InsertKeepsPromise<K(!new), V(!new)>(before: seq<Op<K, V>>, k: K, v: V, timeout: nat, w: Shape)
    requires w.Proper() && timeout > 0
    requires var s := Run(Empty(), before, w); k in s.items && s.items[k].timeout > 0
    ensures var s := Run(Empty(), before, w);
            var t, limit := Step(s, Insert(k, v, timeout), w), s.items[k].timeout;
            && (DiesWithin(t, k, limit, w)
                <==> DiesWithin(s, k, limit, w) && Postponed(s.now, timeout, w) <= s.now + limit + 1)
            && (Fits(0, s.now, timeout + 1, w.n, w.b) ==>
                  (DiesWithin(t, k, limit, w) <==> DiesWithin(s, k, limit, w) && timeout <= limit))
            && (DisciplinedRun(Empty(), before, w) ==> DiesWithin(s, k, limit, w))
  {
    var s := Run(Empty(), before, w);
    var limit := s.items[k].timeout;
    RunNotOverdue(Empty(), before, w);
    TargetExact(0, s.now, timeout + 1, w.n, w.b);
    DiesByDeadline(s, k, limit, w);
    DiesByDeadline(Step(s, Insert(k, v, timeout), w), k, limit, w);
    if DisciplinedRun(Empty(), before, w) {
      RunBounded(Empty(), before, w);
    }
  }

  /** What a longer insert gives instead: the key, and its old value, live on through the longer timeout. */
  lemma LongerInsertLasts<K, V>(s: State<K, V>, k: K, v: V, timeout: nat, after: seq<Op<K, V>>, w: Shape)
    requires w.Proper() && Bounded(s) && k in s.items && 0 < s.items[k].timeout < timeout
    requires Fits(0, s.now, timeout + 1, w.n, w.b) && forall o :: o in after ==> Leaves(o, k)
    ensures var t := Run(Step(s, Insert(k, v, timeout), w), after, w);
            && (k in t.items <==> Ticks(after) <= timeout)
            && (k in t.items ==> t.items[k].value == s.items[k].value)
  {
    assert InTime(s.now, s.items[k]);
    TargetExact(0, s.now, timeout + 1, w.n, w.b);
    LeftAlone(Step(s, Insert(k, v, timeout), w), after, w, k);
  }

  /** The bound of the wheels: with n wheels of b buckets every timeout below b^n expires as promised at any time. */
  lemma ExpiresBelowRange<K, V>(before: seq<Op<K, V>>, op: Op<K, V>, after: seq<Op<K, V>>, w: Shape, k: K)
    requires w.Proper() && DisciplinedRun(Empty(), before, w)
    requires var s := Run(Empty(), before, w);
             Accesses(s, op, k) && 0 < Step(s, op, w).items[k].timeout < Pow(w.b, w.n)
    requires forall o :: o in after ==> Leaves(o, k)
    ensures var s := Step(Run(Empty(), before, w), op, w);
            k in Run(s, after, w).items <==> Ticks(after) <= s.items[k].timeout
  {
    var s := Run(Empty(), before, w);
    FitsUpToPow(0, s.now, Step(s, op, w).items[k].timeout + 1, w.n, w.b);
    ExpiresAfterLastAccess(before, op, after, w, k);
  }

  /** And every delayed task with a delay below b^n runs on time. */
  lemma RunsBelowRange<K, V>(s: State<K, V>, id: nat, delay: nat, after: seq<Op<K, V>>, w: Shape)
    requires w.Proper() && 0 < delay < Pow(w.b, w.n)
    requires forall op :: op in after && op.RunAfter? ==> op.id != id
    ensures id in Run(Step(s, RunAfter(id, delay), w), after, w).pending <==> Ticks(after) <= delay
  {
    FitsUpToPow(0, s.now, delay + 1, w.n, w.b);
    RunsOnTime(s, id, delay, after, w);
  }

  /** Without discipline a longer insert for a present key prolongs it beyond its own timeout. */
  lemma LongerInsertProlongs(w: Shape)
    requires w.Proper() && w.b >= 3
    ensures var ops := [Insert(7, 'x', 1), Insert(7, 'y', 2), Tick, Tick];
            7 in Run(Empty(), ops, w).items && Run(Empty(), ops, w).items[7] == Item('x', 1, 3)
  {
    var o1: Op<int, char>, o2: Op<int, char>, tick: Op<int, char> := Insert(7, 'x', 1), Insert(7, 'y', 2), Tick;
    var ops, tail := [o1, o2, tick, tick], [tick, tick];
    var s2 := State(0, map[7 := Item('x', 1, 3)], map[]);
    assert Due(0, 2, w.n, w.b) == 2 && Due(0, 3, w.n, w.b) == 3;
    assert Step(Step(Empty(), o1, w), o2, w) == s2;
    assert ops[1..][1..] == tail && tail[1..] == [tick];
    assert Run(Empty(), ops, w) == Run(s2, tail, w);
    assert Ticks([tick]) == 1 && Ticks(tail) == 2;
    LeftAlone(s2, tail, w, 7);
  }
}
