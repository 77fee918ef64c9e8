module RedisSystem {
  // The pool and its clients together: what holds in every run.

  import opened Wrappers
  import opened Bytes
  import opened Counting
  import opened Resp
  import opened RedisClient
  import opened RedisPool

  datatype Event = Grow | Borrow | Use(i: nat, id: nat, args: seq<seq<byte>>) | ComeUp(i: nat) | GoDown(i: nat)
                 | Arrive(i: nat, bytes: seq<byte>) | Sweep(expired: nat -> bool)

  /** A client's callbacks are pending exactly in the roles that wait for them. */
  ghost predicate MemberOk(m: Member) {
    && Consistent(m.c)
    && (m.c.pendingReady <==> m.role.Starting?) && (m.c.inflight.Some? <==> m.role.Working?)
    && (m.c.link.Authenticating? || m.c.link.Connected? ==> m.up)
  }

  function Live(m: Member, k: nat): nat {
    If(!m.role.Gone?, 1)
  }

  function Rests(m: Member, k: nat): nat {
    If(m.role.Resting?, 1)
  }

  function Starts(m: Member, k: nat): nat {
    If(m.role.Starting?, 1)
  }

  /** Lent out: borrowed, with or without its command issued. */
  function Away(m: Member, k: nat): nat {
    If(m.role.Lent? || m.role.Working?, 1)
  }

  /** The queue holds the resting clients, each once. */
  ghost predicate QueueOk(members: seq<Member>, queue: seq<nat>) {
    && (forall k :: 0 <= k < |queue| ==> queue[k] < |members| && members[queue[k]].role.Resting?)
    && (forall j, k :: 0 <= j < k < |queue| ==> queue[j] != queue[k])
    && (forall i :: 0 <= i < |members| && members[i].role.Resting? ==> i in queue)
  }

  ghost predicate Inv(p: State, cfg: Config) {
    && (forall i :: 0 <= i < |p.members| ==> MemberOk(p.members[i]))
    && QueueOk(p.members, p.queue)
    && |p.queue| == Total(p.members, Rests, 0)
    && p.size == Total(p.members, Live, 0) <= cfg.maxSize
  }

  ghost predicate Enabled(p: State, e: Event) {
    match e
    case Grow => true
    case Borrow => p.queue != []
    case Use(i, _, _) => i < |p.members| && p.members[i].role.Lent?
    case ComeUp(i) => i < |p.members| && !p.members[i].role.Gone? && !p.members[i].up
    case GoDown(i) => i < |p.members| && !p.members[i].role.Gone?
    case Arrive(i, _) => i < |p.members| && !p.members[i].role.Gone? && p.members[i].up
    case Sweep(_) => true
  }

  // ---------------------------------------------------------------------------------------------------------
  // What one event makes a client call

  /** d is c after an event in the given role: no callback and the same things pending, or the one pending callback. */
  ghost predicate Reacts(role: Role, c: ConnState, d: ConnState) {
    && Consistent(d)
    && (d.calls == c.calls ==> (d.pendingReady <==> role.Starting?) && (d.inflight.Some? <==> role.Working?))
    && (d.calls != c.calls ==>
          && |d.calls| == |c.calls| + 1 && d.calls[..|c.calls|] == c.calls
          && !d.pendingReady && d.inflight.None?
          && (if d.calls[|c.calls|].Ready? then role.Starting? else role.Working?))
  }

  lemma UpReacts(m: Member, password: seq<byte>)
    requires MemberOk(m) && !m.up
    ensures Reacts(m.role, m.c, ConnectUp(m.c, password))
  {
  }

  lemma DownReacts(m: Member)
    requires MemberOk(m)
    ensures Reacts(m.role, m.c, SetState(m.c, Disconnected))
  {
  }

  /** A borrowed client has nothing in flight, so it never answers that it is busy. */
  lemma UseReacts(m: Member, id: nat, args: seq<seq<byte>>)
    requires MemberOk(m) && m.role.Lent?
    ensures var d := Execute(m.c, id, args);
            && Reacts(Working, m.c, d)
            && (d.calls != m.c.calls ==> d.calls[|m.c.calls|] == Result(id, NotReady, false))
  {
  }

  lemma ArriveReacts(m: Member, buffer: seq<byte>, finite: seq<byte> -> bool)
    requires MemberOk(m) && !m.role.Gone?
    ensures Reacts(m.role, m.c, Receive(m.c, buffer, finite).0)
    ensures var l := Receive(m.c, buffer, finite).0.link; l.Disconnected? || l == m.c.link || m.c.link.Authenticating?
  {
    if buffer != [] && Parse(buffer, finite).Done? {
      var r := Parse(buffer, finite);
      if m.c.link.Authenticating? || (m.c.link.Connected? && m.c.inflight.Some?) {
        var d := Replying(m.c, r.reply);
        var rest := buffer[r.used..];
        assert Receive(m.c, buffer, finite) == Receive(d, rest, finite);
        if d.link.Connected? {
          ReceiveOnly(d, rest, finite);
        }
      }
    }
  }

  // ---------------------------------------------------------------------------------------------------------
  // Steps

  /** Client i has become m; the pool reacts to the callback, if there was one. */
  function Settle(p: State, i: nat, m: Member, maxSize: nat): State
    requires i < |p.members| && p.size > 0
  {
    var q := p.(members := p.members[i := m]);
    var before := |p.members[i].c.calls|;
    if before >= |m.c.calls| then q
    else
      match m.c.calls[before]
      case Ready(success) => Started(q, i, success)
      case Result(_, _, idle) => Release(q, i, idle, maxSize)
  }

  lemma LivePositive(p: State, cfg: Config, i: nat)
    requires Inv(p, cfg) && i < |p.members| && !p.members[i].role.Gone?
    ensures p.size > 0
  {
    TotalHas(p.members, i, Live, 0);
  }

  ghost function Step(p: State, e: Event, cfg: Config): State
    requires Inv(p, cfg) && Enabled(p, e)
  {
    match e
    case Grow => Create(p, cfg.maxSize)
    case Borrow => Take(p)
    case Use(i, id, args) =>
      LivePositive(p, cfg, i);
      var m := p.members[i];
      Settle(p, i, m.(c := Execute(m.c, id, args), role := Working), cfg.maxSize)
    case ComeUp(i) =>
      LivePositive(p, cfg, i);
      var m := p.members[i];
      Settle(p, i, m.(c := ConnectUp(m.c, cfg.password), up := true, buffer := []), cfg.maxSize)
    case GoDown(i) =>
      LivePositive(p, cfg, i);
      var m := p.members[i];
      Settle(p, i, m.(c := SetState(m.c, Disconnected), up := false), cfg.maxSize)
    case Arrive(i, bytes) =>
      LivePositive(p, cfg, i);
      var m := p.members[i];
      var r := Receive(m.c, m.buffer + bytes, cfg.finite);
      Settle(p, i, m.(c := r.0, buffer := r.1), cfg.maxSize)
    case Sweep(expired) => Expire(p, expired, cfg.minSize, cfg.maxSize)
  }

  lemma CreateInv(p: State, cfg: Config)
    requires Inv(p, cfg)
    ensures Inv(Create(p, cfg.maxSize), cfg)
  {
    TotalAppend(p.members, NewMember(), Live, 0);
    TotalAppend(p.members, NewMember(), Rests, 0);
  }

  lemma TakeInv(p: State, cfg: Config)
    requires Inv(p, cfg) && p.queue != []
    ensures Inv(Take(p), cfg)
  {
    var i := p.queue[0];
    TotalUpdate(p.members, i, p.members[i].(role := Lent), Live, 0);
    TotalUpdate(p.members, i, p.members[i].(role := Lent), Rests, 0);
    forall k | 0 <= k < |p.members| && Take(p).members[k].role.Resting?
      ensures k in p.queue[1..]
    {
      assert k in p.queue;
    }
  }

  /** A client that is neither resting nor gone leaves its role for `role`. */
  lemma PutInv(p: State, cfg: Config, i: nat, m: Member)
    requires Inv(p, cfg) && i < |p.members| && MemberOk(m) && !m.role.Gone?
    requires !p.members[i].role.Gone? && (m.role.Resting? <==> p.members[i].role.Resting?)
    ensures Inv(p.(members := p.members[i := m]), cfg)
  {
    TotalUpdate(p.members, i, m, Live, 0);
    TotalUpdate(p.members, i, m, Rests, 0);
  }

  lemma RestInv(p: State, cfg: Config, i: nat, m: Member)
    requires Inv(p, cfg) && i < |p.members| && MemberOk(m) && m.role.Resting?
    requires !p.members[i].role.Gone? && !p.members[i].role.Resting?
    ensures Inv(p.(members := p.members[i := m], queue := p.queue + [i]), cfg)
  {
    TotalUpdate(p.members, i, m, Live, 0);
    TotalUpdate(p.members, i, m, Rests, 0);
  }

  lemma DropInv(p: State, cfg: Config, i: nat, m: Member)
    requires Inv(p, cfg) && i < |p.members| && MemberOk(m) && m.role.Gone?
    requires !p.members[i].role.Gone? && !p.members[i].role.Resting?
    ensures p.size > 0 && Inv(p.(members := p.members[i := m], size := p.size - 1), cfg)
  {
    LivePositive(p, cfg, i);
    TotalUpdate(p.members, i, m, Live, 0);
    TotalUpdate(p.members, i, m, Rests, 0);
  }

  lemma SettleInv(p: State, i: nat, m: Member, cfg: Config)
    requires Inv(p, cfg) && i < |p.members| && !p.members[i].role.Gone? && p.size > 0
    requires Reacts(m.role, p.members[i].c, m.c) && (m.c.link.Authenticating? || m.c.link.Connected? ==> m.up)
    requires m.role == p.members[i].role || (m.role.Working? && p.members[i].role.Lent?)
    ensures Inv(Settle(p, i, m, cfg.maxSize), cfg)
  {
    var before := p.members[i].c.calls;
    if m.c.calls == before {
      PutInv(p, cfg, i, m);
    } else {
      var p1 := p.(members := p.members[i := m]);
      match m.c.calls[|before|]
      case Ready(success) =>
        if success {
          RestInv(p, cfg, i, m.(role := Resting));
          assert p1.members[i := m.(role := Resting)] == p.members[i := m.(role := Resting)];
        } else {
          DropInv(p, cfg, i, m.(role := Gone));
          assert p1.members[i := m.(role := Gone)] == p.members[i := m.(role := Gone)];
        }
      case Result(_, _, idle) =>
        if idle {
          RestInv(p, cfg, i, m.(role := Resting));
          assert p1.members[i := m.(role := Resting)] == p.members[i := m.(role := Resting)];
        } else {
          DropInv(p, cfg, i, m.(role := Gone));
          assert p1.members[i := m.(role := Gone)] == p.members[i := m.(role := Gone)];
          CreateInv(p.(members := p.members[i := m.(role := Gone)], size := p.size - 1), cfg);
        }
    }
  }

  lemma RotateInv(p: State, cfg: Config)
    requires Inv(p, cfg) && p.queue != []
    ensures Inv(p.(queue := p.queue[1..] + [p.queue[0]]), cfg)
  {
    forall k | 0 <= k < |p.members| && p.members[k].role.Resting?
      ensures k in p.queue[1..] + [p.queue[0]]
    {
      assert k in p.queue;
    }
  }

  lemma DropFrontInv(p: State, cfg: Config)
    requires Inv(p, cfg) && p.queue != []
    ensures p.size > 0 && Inv(WithRole(p, p.queue[0], Gone).(queue := p.queue[1..], size := p.size - 1), cfg)
  {
    var i := p.queue[0];
    LivePositive(p, cfg, i);
    forall k | 0 <= k < |p.members| && k != i && p.members[k].role.Resting?
      ensures k in p.queue[1..]
    {
      assert k in p.queue;
    }
    TotalUpdate(p.members, i, p.members[i].(role := Gone), Live, 0);
    TotalUpdate(p.members, i, p.members[i].(role := Gone), Rests, 0);
  }

  lemma {:induction false} ExpireInv(p: State, expired: nat -> bool, cfg: Config, checks: nat)
    requires Inv(p, cfg)
    ensures Inv(Expire(p, expired, cfg.minSize, checks), cfg)
    decreases checks
  {
    if checks > 0 && p.size > cfg.minSize && p.queue != [] {
      var i := p.queue[0];
      if expired(i) {
        DropFrontInv(p, cfg);
        ExpireInv(WithRole(p, i, Gone).(queue := p.queue[1..], size := p.size - 1), expired, cfg, checks - 1);
      } else {
        RotateInv(p, cfg);
      }
    }
  }

  lemma StepInv(p: State, e: Event, cfg: Config)
    requires Inv(p, cfg) && Enabled(p, e)
    ensures Inv(Step(p, e, cfg), cfg)
  {
    match e
    case Grow => CreateInv(p, cfg);
    case Borrow => TakeInv(p, cfg);
    case Use(i, id, args) =>
      var m := p.members[i];
      LivePositive(p, cfg, i);
      UseReacts(m, id, args);
      SettleInv(p, i, m.(c := Execute(m.c, id, args), role := Working), cfg);
    case ComeUp(i) =>
      var m := p.members[i];
      LivePositive(p, cfg, i);
      UpReacts(m, cfg.password);
      SettleInv(p, i, m.(c := ConnectUp(m.c, cfg.password), up := true, buffer := []), cfg);
    case GoDown(i) =>
      var m := p.members[i];
      LivePositive(p, cfg, i);
      DownReacts(m);
      SettleInv(p, i, m.(c := SetState(m.c, Disconnected), up := false), cfg);
    case Arrive(i, bytes) =>
      var m := p.members[i];
      LivePositive(p, cfg, i);
      ArriveReacts(m, m.buffer + bytes, cfg.finite);
      var r := Receive(m.c, m.buffer + bytes, cfg.finite);
      SettleInv(p, i, m.(c := r.0, buffer := r.1), cfg);
    case Sweep(expired) => ExpireInv(p, expired, cfg, cfg.maxSize);
  }

  // ---------------------------------------------------------------------------------------------------------
  // Every run

  ghost predicate Runs(p: State, es: seq<Event>, cfg: Config, p': State)
    requires Inv(p, cfg)
    decreases |es|
  {
    if es == [] then p == p'
    else Enabled(p, es[0]) && (StepInv(p, es[0], cfg); Runs(Step(p, es[0], cfg), es[1..], cfg, p'))
  }

  const EMPTY: State := State([], [], 0)

  lemma {:induction false} RunsInv(p: State, es: seq<Event>, cfg: Config, p': State)
    requires Inv(p, cfg) && Runs(p, es, cfg, p')
    ensures Inv(p', cfg)
    decreases |es|
  {
    if es != [] {
      StepInv(p, es[0], cfg);
      RunsInv(Step(p, es[0], cfg), es[1..], cfg, p');
    }
  }

  lemma {:induction false} LiveSplits(ms: seq<Member>)
    ensures Total(ms, Live, 0) == Total(ms, Starts, 0) + Total(ms, Rests, 0) + Total(ms, Away, 0)
  {
    if ms != [] {
      LiveSplits(ms[1..]);
    }
  }

  lemma EmptyInv(cfg: Config)
    ensures Inv(EMPTY, cfg)
  {
  }

  /** In every run the pool size is connecting plus idle plus lent out, and never above the maximum. */
  lemma SizeConserved(es: seq<Event>, cfg: Config, p: State)
    requires Runs(EMPTY, es, cfg, p)
    ensures p.size == Total(p.members, Starts, 0) + |p.queue| + Total(p.members, Away, 0) <= cfg.maxSize
  {
    EmptyInv(cfg);
    RunsInv(EMPTY, es, cfg, p);
    LiveSplits(p.members);
  }

  /** In no run does a borrowed client's command meet another one in flight. */
  lemma NeverBusy(es: seq<Event>, cfg: Config, p: State, i: nat, id: nat, args: seq<seq<byte>>)
    requires Runs(EMPTY, es, cfg, p) && Enabled(p, Use(i, id, args))
    ensures var c := p.members[i].c;
            && c.inflight.None?
            && (c.link.Connected? ==> Execute(c, id, args) == c.(inflight := Some(id), sent := c.sent + Command(args)))
            && (!c.link.Connected? ==> Execute(c, id, args) == c.(calls := c.calls + [Result(id, NotReady, false)]))
  {
    EmptyInv(cfg);
    RunsInv(EMPTY, es, cfg, p);
    assert MemberOk(p.members[i]);
  }

  /** Expiry takes clients off the front of the queue, all expired, and never below the minimum size. */
  lemma {:induction false} ExpireExact(p: State, expired: nat -> bool, minSize: nat, checks: nat) returns (n: nat)
    requires forall k :: 0 <= k < |p.queue| ==> p.queue[k] < |p.members|
    ensures var q := Expire(p, expired, minSize, checks);
            && n <= |p.queue| && n <= checks && q.size == p.size - n
            && (p.size >= minSize ==> q.size >= minSize) && (p.size < minSize ==> n == 0)
            && (forall k :: 0 <= k < n ==> expired(p.queue[k]))
            && (q.queue == p.queue[n..] || (n < |p.queue| && !expired(p.queue[n]) && q.queue == p.queue[n + 1..] + [p.queue[n]]))
            && (n < |p.queue| && n < checks && q.size > minSize ==> !expired(p.queue[n]))
    decreases checks
  {
    n := 0;
    if checks > 0 && p.size > minSize && p.queue != [] {
      var i := p.queue[0];
      if expired(i) {
        var q := WithRole(p, i, Gone).(queue := p.queue[1..], size := p.size - 1);
        n := ExpireExact(q, expired, minSize, checks - 1);
        n := n + 1;
      }
    }
  }

  /** Exactly the clients taken off the queue are gone; every other client is as it was. */
  lemma {:induction false} ExpireGone(p: State, expired: nat -> bool, minSize: nat, checks: nat, i: nat)
    requires (forall k :: 0 <= k < |p.queue| ==> p.queue[k] < |p.members|) && i < |p.members|
    requires forall j, k :: 0 <= j < k < |p.queue| ==> p.queue[j] != p.queue[k]
    ensures var q := Expire(p, expired, minSize, checks);
            && |q.members| == |p.members| && (i in q.queue ==> i in p.queue)
            && q.members[i] == if i in p.queue && i !in q.queue then p.members[i].(role := Gone) else p.members[i]
    decreases checks
  {
    if checks > 0 && p.size > minSize && p.queue != [] {
      var first := p.queue[0];
      if expired(first) {
        var next := WithRole(p, first, Gone).(queue := p.queue[1..], size := p.size - 1);
        FirstOnce(p.queue);
        Fronted(p.queue, i);
        ExpireGone(next, expired, minSize, checks - 1, i);
        assert Expire(p, expired, minSize, checks) == Expire(next, expired, minSize, checks - 1);
      } else {
        Rotated(p.queue, i);
      }
    }
  }

  lemma FirstOnce(queue: seq<nat>)
    requires queue != [] && forall j, k :: 0 <= j < k < |queue| ==> queue[j] != queue[k]
    ensures queue[0] !in queue[1..] && forall j, k :: 0 <= j < k < |queue[1..]| ==> queue[1..][j] != queue[1..][k]
  {
    assert forall k :: 0 <= k < |queue| - 1 ==> queue[1..][k] == queue[k + 1];
  }

  lemma Fronted(queue: seq<nat>, i: nat)
    requires queue != []
    ensures i in queue <==> i == queue[0] || i in queue[1..]
  {
    assert queue == [queue[0]] + queue[1..];
  }

  lemma Rotated(queue: seq<nat>, i: nat)
    requires queue != []
    ensures i in queue[1..] + [queue[0]] <==> i in queue
  {
    assert queue == [queue[0]] + queue[1..];
  }
}
