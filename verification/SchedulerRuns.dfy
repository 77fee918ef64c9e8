module SchedulerRuns {
  // What goes wrong in runs of the scheduler, how it gets there, and exactly when it does.

  import opened Hiding
  import opened Counting
  import opened Scheduler

  // ---------------------------------------------------------------------------------------------------------
  // Building runs

  lemma RunNone(s: State)
    requires Typed(s)
    ensures Run(s, [], s)
  {
  }

  lemma RunCons(s: State, e: Event, es: seq<Event>, s': State)
    requires Typed(s) && Enabled(s, e) && Typed(Apply(s, e)) && Run(Apply(s, e), es, s')
    ensures Run(s, [e] + es, s')
  {
    assert ([e] + es)[1..] == es;
  }

  lemma {:induction false} RunTyped(s: State, es: seq<Event>, s': State)
    requires Typed(s) && Run(s, es, s')
    ensures Typed(s')
    decreases |es|
  {
    if es != [] {
      StepTyped(s, es[0]);
      RunTyped(Apply(s, es[0]), es[1..], s');
    }
  }

  lemma {:induction false} RunJoin(s: State, es: seq<Event>, t: State, fs: seq<Event>, s': State)
    requires Typed(s) && Run(s, es, t) && Typed(t) && Run(t, fs, s')
    ensures Run(s, es + fs, s')
    decreases |es|
  {
    if es == [] {
      assert es + fs == fs;
    } else {
      StepTyped(s, es[0]);
      RunJoin(Apply(s, es[0]), es[1..], t, fs, s');
      assert (es + fs)[1..] == es[1..] + fs;
    }
  }

  lemma RunStep(s: State, es: seq<Event>, t: State, e: Event)
    requires Typed(s) && Run(s, es, t) && Typed(t) && Enabled(t, e)
    ensures Typed(Apply(t, e)) && Run(s, es + [e], Apply(t, e))
  {
    StepTyped(t, e);
    RunNone(Apply(t, e));
    RunCons(t, e, [], Apply(t, e));
    assert [e] + [] == [e];
    RunJoin(s, es, t, [e], Apply(t, e));
  }

  // ---------------------------------------------------------------------------------------------------------
  // Messages left behind

  ghost predicate NobodyPushed(s: State, sid: nat) {
    forall p :: 0 <= p < |s.producers| ==> !(s.producers[p].Pushed? && s.producers[p].sid == sid)
  }

  /** A message waits, no token will bring a worker to it, and nobody is about to look at the flag. */
  ghost predicate Stranded(s: State, sid: nat)
    requires sid < |s.services|
  {
    s.services[sid].mail != [] && Tokens(s, sid) == 0 && NobodyPushed(s, sid)
  }

  ghost predicate Sends(s: State, e: Event, sid: nat)
    requires Enabled(s, e)
  {
    e.Serve? && var t := s.producers[e.p]; t.rest != [] && t.rest[0] == Some(sid)
  }

  /** The worker lowers the flag of a service whose mailbox has been filled again by someone who saw the flag up. */
  ghost predicate StoresTooLate(s: State, e: Event, sid: nat)
    requires Enabled(s, e) && sid < |s.services|
  {
    e.Store? && s.workers[e.w].sid == sid && s.services[sid].mail != [] && NobodyPushed(s, sid)
  }

  lemma StrandedByWorker(s: State, e: Event, sid: nat)
    requires Inv(s) && Enabled(s, e) && !IsProducerEvent(e) && sid < |s.services|
    ensures Stranded(Apply(s, e), sid) <==> Stranded(s, sid) || StoresTooLate(s, e, sid)
  {
    var s' := Apply(s, e);
    StepTokens(s, e);
    assert Tokens(s, sid) == If(s.services[sid].flag, 1);
    assert Tokens(s', sid) == If(s'.services[sid].flag, 1);
    assert s'.producers == s.producers;
    TotalHas(s.workers, e.w, Holds, sid);
  }

  lemma StrandedByProducer(s: State, e: Event, sid: nat)
    requires Inv(s) && Enabled(s, e) && IsProducerEvent(e) && sid < |s.services|
    ensures Stranded(Apply(s, e), sid) <==> Stranded(s, sid) && !Sends(s, e, sid)
  {
    var s' := Apply(s, e);
    StepTokens(s, e);
    assert Tokens(s, sid) == If(s.services[sid].flag, 1);
    assert Tokens(s', sid) == If(s'.services[sid].flag, 1);
    assert forall p :: 0 <= p < |s.producers| && p != e.p ==> s'.producers[p] == s.producers[p];
    assert s'.producers[e.p].Pushed? && s'.producers[e.p].sid == sid <==> Sends(s, e, sid);
  }

  /**
   * In every reachable state and for every step: a message is stranded after the step exactly when it was before and
   * the step is no send to its service, or the step lowers the flag over a nonempty mailbox whose last sender has
   * already seen it up.
   */
  lemma StrandedExactly(s: State, es: seq<Event>, t: State, e: Event, sid: nat)
    requires Initial(s) && Typed(s) && Run(s, es, t) && Typed(t) && Enabled(t, e) && sid < |t.services|
    ensures Stranded(Apply(t, e), sid) <==> (Stranded(t, sid) && !Sends(t, e, sid)) || StoresTooLate(t, e, sid)
  {
    InitialInv(s);
    RunInv(s, es, t);
    if IsProducerEvent(e) {
      StrandedByProducer(t, e, sid);
    } else {
      StrandedByWorker(t, e, sid);
    }
  }

  // ---------------------------------------------------------------------------------------------------------
  // One producer and one worker taking turns

  const FRESH := Service(false, [], [], [], [])

  /** The state of one producer, one worker and at most one service in motion. */
  ghost function Alone(vs: seq<Service>, ready: multiset<nat>, p: Producer, w: Worker, ms: seq<Message>): State {
    State(vs, ready, [p], [w], ms)
  }

  /** Nothing waits in any mailbox, and no flag is up. */
  ghost predicate Quiet(vs: seq<Service>) {
    forall i :: 0 <= i < |vs| ==> vs[i].mail == [] && !vs[i].flag
  }

  ghost predicate Reaches(services: nat, dsts: seq<Dest>) {
    forall i :: 0 <= i < |dsts| && dsts[i].Some? ==> dsts[i].sid < services
  }

  function Filled(v: Service): Service {
    v.(flag := true, mail := v.mail + [0], pushed := v.pushed + [0])
  }

  function Emptied(v: Service): Service {
    v.(flag := true, mail := [], taken := v.taken + [0], handled := v.handled + [0])
  }

  /** The message after one more reset, its body freed if that was the last reference. */
  function Settled(m: Message): Message {
    var d := Decrement(m);
    if d.refs == 0 then d.(freed := d.freed + 1) else d
  }

  /** The service after a delivery, its flag still up. */
  function Served(v: Service): Service {
    Emptied(Filled(v))
  }

  /** One step from a well-typed state to another, kept closed. */
  ghost predicate Does(s: State, e: Event, t: State) {
    forall d {:trigger Opened(d)} :: Opened(d) ==> Typed(s) && Enabled(s, e) && Apply(s, e) == t && Typed(t)
  }

  /** A run from a well-typed state to another, kept closed. */
  ghost predicate Leads(s: State, es: seq<Event>, t: State) {
    forall d {:trigger Opened(d)} :: Opened(d) ==> Typed(s) && Typed(t) && Run(s, es, t)
  }

  lemma LeadsStep(s: State, e: Event, t: State)
    requires Does(s, e, t)
    ensures Leads(s, [e], t)
  {
    assert Opened(true);
    RunNone(t);
    RunCons(s, e, [], t);
    assert [e] + [] == [e];
  }

  lemma LeadsThen(s: State, es: seq<Event>, t: State, fs: seq<Event>, u: State)
    requires Leads(s, es, t) && Leads(t, fs, u)
    ensures Leads(s, es + fs, u)
  {
    assert Opened(true);
    RunJoin(s, es, t, fs, u);
  }

  lemma Serve0(vs: seq<Service>, ready: multiset<nat>, mid: nat, sid: nat, rest: seq<Dest>, w: Worker, ms: seq<Message>)
    requires Typed(Alone(vs, ready, Sending(mid, [Some(sid)] + rest), w, ms))
    ensures sid < |vs|
    ensures Does(Alone(vs, ready, Sending(mid, [Some(sid)] + rest), w, ms), Serve(0),
                 Alone(vs[sid := vs[sid].(mail := vs[sid].mail + [mid], pushed := vs[sid].pushed + [mid])], ready,
                       Pushed(mid, rest, sid), w, ms))
  {
    var s := Alone(vs, ready, Sending(mid, [Some(sid)] + rest), w, ms);
    assert ProducerOk(|vs|, |ms|, s.producers[0]);
    assert s.producers[0].rest[0] == Some(sid) && ([Some(sid)] + rest)[1..] == rest;
    StepTyped(s, Serve(0));
  }

  lemma Miss0(vs: seq<Service>, ready: multiset<nat>, rest: seq<Dest>, w: Worker, m: Message)
    requires Typed(Alone(vs, ready, Sending(0, [None] + rest), w, [m]))
    ensures Does(Alone(vs, ready, Sending(0, [None] + rest), w, [m]), Serve(0),
                 Alone(vs, ready, if Decrement(m).refs == 0 then Releasing(0, rest) else Sending(0, rest), w,
                       [Decrement(m)]))
  {
    var s := Alone(vs, ready, Sending(0, [None] + rest), w, [m]);
    assert s.producers[0].rest[0] == None && ([None] + rest)[1..] == rest;
    StepTyped(s, Serve(0));
  }

  lemma Release0(vs: seq<Service>, ready: multiset<nat>, rest: seq<Dest>, w: Worker, m: Message)
    requires Typed(Alone(vs, ready, Releasing(0, rest), w, [m]))
    ensures Does(Alone(vs, ready, Releasing(0, rest), w, [m]), Release(0),
                 Alone(vs, ready, Sending(0, rest), w, [m.(freed := m.freed + 1)]))
  {
    StepTyped(Alone(vs, ready, Releasing(0, rest), w, [m]), Release(0));
  }

  lemma Exchange0(vs: seq<Service>, ready: multiset<nat>, mid: nat, sid: nat, rest: seq<Dest>, w: Worker,
                  ms: seq<Message>)
    requires Typed(Alone(vs, ready, Pushed(mid, rest, sid), w, ms)) && sid < |vs|
    ensures Does(Alone(vs, ready, Pushed(mid, rest, sid), w, ms), Exchange(0),
                 Alone(vs[sid := vs[sid].(flag := true)], ready,
                       if vs[sid].flag then Sending(mid, rest) else Claimed(mid, rest, sid), w, ms))
  {
    StepTyped(Alone(vs, ready, Pushed(mid, rest, sid), w, ms), Exchange(0));
  }

  lemma Enqueue0(vs: seq<Service>, mid: nat, sid: nat, rest: seq<Dest>, w: Worker, ms: seq<Message>)
    requires Typed(Alone(vs, multiset{}, Claimed(mid, rest, sid), w, ms))
    ensures Does(Alone(vs, multiset{}, Claimed(mid, rest, sid), w, ms), Enqueue(0),
                 Alone(vs, multiset{sid}, Sending(mid, rest), w, ms))
  {
    StepTyped(Alone(vs, multiset{}, Claimed(mid, rest, sid), w, ms), Enqueue(0));
    assert multiset{} + multiset{sid} == multiset{sid};
  }

  lemma Dequeue0(vs: seq<Service>, sid: nat, p: Producer, ms: seq<Message>)
    requires Typed(Alone(vs, multiset{sid}, p, Waiting, ms))
    ensures Does(Alone(vs, multiset{sid}, p, Waiting, ms), Dequeue(0, sid), Alone(vs, multiset{}, p, Draining(sid), ms))
  {
    StepTyped(Alone(vs, multiset{sid}, p, Waiting, ms), Dequeue(0, sid));
    assert multiset{sid} - multiset{sid} == multiset{};
  }

  lemma Take0(vs: seq<Service>, sid: nat, p: Producer, ms: seq<Message>)
    requires Typed(Alone(vs, multiset{}, p, Draining(sid), ms)) && sid < |vs| && vs[sid].mail == [0]
    ensures Does(Alone(vs, multiset{}, p, Draining(sid), ms), TryDequeue(0),
                 Alone(vs[sid := vs[sid].(mail := [], taken := vs[sid].taken + [0])], multiset{}, p, Processing(sid, 0),
                       ms))
  {
    StepTyped(Alone(vs, multiset{}, p, Draining(sid), ms), TryDequeue(0));
  }

  lemma Handle0(vs: seq<Service>, sid: nat, p: Producer, m: Message)
    requires Typed(Alone(vs, multiset{}, p, Processing(sid, 0), [m])) && sid < |vs|
    ensures Does(Alone(vs, multiset{}, p, Processing(sid, 0), [m]), Handle(0),
                 Alone(vs[sid := vs[sid].(handled := vs[sid].handled + [0])], multiset{}, p,
                       if Decrement(m).refs == 0 then Freeing(sid, 0) else Draining(sid), [Decrement(m)]))
  {
    StepTyped(Alone(vs, multiset{}, p, Processing(sid, 0), [m]), Handle(0));
  }

  lemma Free0(vs: seq<Service>, sid: nat, p: Producer, m: Message)
    requires Typed(Alone(vs, multiset{}, p, Freeing(sid, 0), [m]))
    ensures Does(Alone(vs, multiset{}, p, Freeing(sid, 0), [m]), Free(0),
                 Alone(vs, multiset{}, p, Draining(sid), [m.(freed := m.freed + 1)]))
  {
    StepTyped(Alone(vs, multiset{}, p, Freeing(sid, 0), [m]), Free(0));
  }

  lemma Drained0(vs: seq<Service>, sid: nat, p: Producer, ms: seq<Message>)
    requires Typed(Alone(vs, multiset{}, p, Draining(sid), ms)) && sid < |vs| && vs[sid].mail == []
    ensures Does(Alone(vs, multiset{}, p, Draining(sid), ms), TryDequeue(0),
                 Alone(vs, multiset{}, p, Storing(sid), ms))
  {
    StepTyped(Alone(vs, multiset{}, p, Draining(sid), ms), TryDequeue(0));
  }

  lemma Store0(vs: seq<Service>, sid: nat, p: Producer, ms: seq<Message>)
    requires Typed(Alone(vs, multiset{}, p, Storing(sid), ms)) && sid < |vs|
    ensures Does(Alone(vs, multiset{}, p, Storing(sid), ms), Store(0),
                 Alone(vs[sid := vs[sid].(flag := false)], multiset{}, p, Waiting, ms))
  {
    StepTyped(Alone(vs, multiset{}, p, Storing(sid), ms), Store(0));
  }

  lemma DoesTyped(s: State, e: Event, t: State)
    requires Does(s, e, t)
    ensures Typed(t)
  {
    assert Opened(true);
  }

  lemma LeadsTyped(s: State, es: seq<Event>, t: State)
    requires Leads(s, es, t)
    ensures Typed(t)
  {
    assert Opened(true);
  }

  lemma LeadsMore(s: State, es: seq<Event>, t: State, e: Event, u: State)
    requires Leads(s, es, t) && Does(t, e, u)
    ensures Leads(s, es + [e], u) && Typed(u)
  {
    LeadsStep(t, e, u);
    LeadsThen(s, es, t, [e], u);
    DoesTyped(t, e, u);
  }

  /** A send to an idle service: push, raise the flag, put the service into the ready queue. */
  lemma SendRun(vs: seq<Service>, sid: nat, rest: seq<Dest>, m: Message)
    requires Typed(Alone(vs, multiset{}, Sending(0, [Some(sid)] + rest), Waiting, [m]))
    requires sid < |vs| && !vs[sid].flag
    ensures var s := Alone(vs, multiset{}, Sending(0, [Some(sid)] + rest), Waiting, [m]);
            var s' := Alone(vs[sid := Filled(vs[sid])], multiset{sid}, Sending(0, rest), Waiting, [m]);
            Leads(s, [Serve(0), Exchange(0), Enqueue(0)], s') && Typed(s')
  {
    var v := vs[sid];
    var us := vs[sid := v.(mail := v.mail + [0], pushed := v.pushed + [0])];
    var s := Alone(vs, multiset{}, Sending(0, [Some(sid)] + rest), Waiting, [m]);
    var s1 := Alone(us, multiset{}, Pushed(0, rest, sid), Waiting, [m]);
    Serve0(vs, multiset{}, 0, sid, rest, Waiting, [m]);
    LeadsStep(s, Serve(0), s1);
    DoesTyped(s, Serve(0), s1);
    Exchange0(us, multiset{}, 0, sid, rest, Waiting, [m]);
    var vs' := vs[sid := Filled(v)];
    assert us[sid := us[sid].(flag := true)] == vs';
    var s2 := Alone(vs', multiset{}, Claimed(0, rest, sid), Waiting, [m]);
    LeadsMore(s, [Serve(0)], s1, Exchange(0), s2);
    Enqueue0(vs', 0, sid, rest, Waiting, [m]);
    LeadsMore(s, [Serve(0)] + [Exchange(0)], s2, Enqueue(0), Alone(vs', multiset{sid}, Sending(0, rest), Waiting, [m]));
    assert [Serve(0)] + [Exchange(0)] + [Enqueue(0)] == [Serve(0), Exchange(0), Enqueue(0)];
  }

  function FreeEvents(m: Message): seq<Event> {
    if Decrement(m).refs == 0 then [Free(0)] else []
  }

  function WorkEvents(m: Message, sid: nat): seq<Event> {
    [Dequeue(0, sid), TryDequeue(0), Handle(0)] + FreeEvents(m) + [TryDequeue(0)]
  }

  lemma TakeRun(vs: seq<Service>, sid: nat, p: Producer, m: Message)
    requires Typed(Alone(vs, multiset{sid}, p, Waiting, [m])) && sid < |vs| && vs[sid].mail == [0]
    ensures var s := Alone(vs, multiset{sid}, p, Waiting, [m]);
            var s' := Alone(vs[sid := vs[sid].(mail := [], taken := vs[sid].taken + [0])], multiset{}, p,
                            Processing(sid, 0), [m]);
            Leads(s, [Dequeue(0, sid), TryDequeue(0)], s') && Typed(s')
  {
    var s := Alone(vs, multiset{sid}, p, Waiting, [m]);
    var s1 := Alone(vs, multiset{}, p, Draining(sid), [m]);
    Dequeue0(vs, sid, p, [m]);
    LeadsStep(s, Dequeue(0, sid), s1);
    DoesTyped(s, Dequeue(0, sid), s1);
    Take0(vs, sid, p, [m]);
    LeadsMore(s, [Dequeue(0, sid)], s1, TryDequeue(0),
              Alone(vs[sid := vs[sid].(mail := [], taken := vs[sid].taken + [0])], multiset{}, p, Processing(sid, 0),
                    [m]));
    assert [Dequeue(0, sid)] + [TryDequeue(0)] == [Dequeue(0, sid), TryDequeue(0)];
  }

  lemma HandleRun(vs: seq<Service>, sid: nat, p: Producer, m: Message)
    requires Typed(Alone(vs, multiset{}, p, Processing(sid, 0), [m])) && sid < |vs| && vs[sid].mail == []
    ensures var s := Alone(vs, multiset{}, p, Processing(sid, 0), [m]);
            var s' := Alone(vs[sid := vs[sid].(handled := vs[sid].handled + [0])], multiset{}, p, Storing(sid),
                            [Settled(m)]);
            Leads(s, [Handle(0)] + FreeEvents(m) + [TryDequeue(0)], s') && Typed(s')
  {
    var us, d := vs[sid := vs[sid].(handled := vs[sid].handled + [0])], Decrement(m);
    var s := Alone(vs, multiset{}, p, Processing(sid, 0), [m]);
    var s1 := Alone(us, multiset{}, p, if d.refs == 0 then Freeing(sid, 0) else Draining(sid), [d]);
    Handle0(vs, sid, p, m);
    LeadsStep(s, Handle(0), s1);
    DoesTyped(s, Handle(0), s1);
    var s2 := Alone(us, multiset{}, p, Draining(sid), [Settled(m)]);
    if d.refs == 0 {
      Free0(us, sid, p, d);
      LeadsMore(s, [Handle(0)], s1, Free(0), s2);
    } else {
      assert [Handle(0)] + [] == [Handle(0)];
    }
    Drained0(us, sid, p, [Settled(m)]);
    LeadsMore(s, [Handle(0)] + FreeEvents(m), s2, TryDequeue(0), Alone(us, multiset{}, p, Storing(sid), [Settled(m)]));
  }

  /** The worker takes the service, handles its one message and finds the mailbox empty. */
  lemma WorkRun(vs: seq<Service>, sid: nat, p: Producer, m: Message)
    requires sid < |vs| && vs[sid].mail == [] && Typed(Alone(vs[sid := Filled(vs[sid])], multiset{sid}, p, Waiting, [m]))
    ensures var s := Alone(vs[sid := Filled(vs[sid])], multiset{sid}, p, Waiting, [m]);
            var s' := Alone(vs[sid := Served(vs[sid])], multiset{}, p, Storing(sid), [Settled(m)]);
            Leads(s, WorkEvents(m, sid), s') && Typed(s')
  {
    var v := Filled(vs[sid]).(mail := [], taken := vs[sid].taken + [0]);
    var us := vs[sid := Filled(vs[sid])];
    assert us[sid := v] == vs[sid := v];
    TakeRun(us, sid, p, m);
    HandleRun(vs[sid := v], sid, p, m);
    assert vs[sid := v][sid := v.(handled := v.handled + [0])] == vs[sid := Served(vs[sid])];
    LeadsThen(Alone(us, multiset{sid}, p, Waiting, [m]), [Dequeue(0, sid), TryDequeue(0)],
              Alone(vs[sid := v], multiset{}, p, Processing(sid, 0), [m]), [Handle(0)] + FreeEvents(m) + [TryDequeue(0)],
              Alone(vs[sid := Served(vs[sid])], multiset{}, p, Storing(sid), [Settled(m)]));
    assert [Dequeue(0, sid), TryDequeue(0)] + ([Handle(0)] + FreeEvents(m) + [TryDequeue(0)]) == WorkEvents(m, sid);
  }

  // ---------------------------------------------------------------------------------------------------------
  // Two runs that go wrong

  const FIRST: State := State([FRESH], multiset{}, [Idle], [Waiting], [])

  lemma FirstInitial()
    ensures Initial(FIRST) && Typed(FIRST)
  {
  }

  /** A send begins. */
  lemma Start0(vs: seq<Service>, w: Worker, ms: seq<Message>, count: nat, dsts: seq<Dest>)
    requires Typed(Alone(vs, multiset{}, Idle, w, ms)) && count < WORD && Reaches(|vs|, dsts)
    ensures Does(Alone(vs, multiset{}, Idle, w, ms), Start(0, count, dsts),
                 Alone(vs, multiset{}, Sending(|ms|, dsts), w, ms + [Message(count, |dsts|, count, 0, 0)]))
  {
    StepTyped(Alone(vs, multiset{}, Idle, w, ms), Start(0, count, dsts));
  }

  /** And ends. */
  lemma Finish0(vs: seq<Service>, mid: nat, w: Worker, ms: seq<Message>)
    requires Typed(Alone(vs, multiset{}, Sending(mid, []), w, ms))
    ensures Does(Alone(vs, multiset{}, Sending(mid, []), w, ms), Serve(0), Alone(vs, multiset{}, Idle, w, ms))
  {
    StepTyped(Alone(vs, multiset{}, Sending(mid, []), w, ms), Serve(0));
  }

  /** One whole delivery up to the worker's last look into the mailbox, then a send, then the worker's store. */
  const LATE_STORE: seq<Event> :=
    [Start(0, 1, [Some(0)]), Serve(0), Exchange(0), Enqueue(0), Dequeue(0, 0), TryDequeue(0), Handle(0), Free(0),
     TryDequeue(0), Serve(0), Start(0, 1, [Some(0)]), Serve(0), Exchange(0), Store(0)]

  lemma FirstDelivery()
    ensures Decrement(Message(1, 1, 1, 0, 0)).refs == 0
    ensures Leads(FIRST, LATE_STORE[..9],
                  Alone([Served(FRESH)], multiset{}, Sending(0, []), Storing(0), [Message(1, 1, 0, 1, 1)]))
  {
    var m := Message(1, 1, 1, 0, 0);
    var start := Start(0, 1, [Some(0)]);
    var s1 := Alone([FRESH], multiset{}, Sending(0, [Some(0)]), Waiting, [m]);
    assert [Some(0)] + [] == [Some(0)] && [] + [m] == [m];
    FirstInitial();
    Start0([FRESH], Waiting, [], 1, [Some(0)]);
    LeadsStep(FIRST, start, s1);
    DoesTyped(FIRST, start, s1);
    SendRun([FRESH], 0, [], m);
    assert [FRESH][0 := Filled(FRESH)] == [Filled(FRESH)] && [FRESH][0 := Served(FRESH)] == [Served(FRESH)];
    var s2 := Alone([Filled(FRESH)], multiset{0}, Sending(0, []), Waiting, [m]);
    LeadsThen(FIRST, [start], s1, [Serve(0), Exchange(0), Enqueue(0)], s2);
    WorkRun([FRESH], 0, Sending(0, []), m);
    LeadsThen(FIRST, [start] + [Serve(0), Exchange(0), Enqueue(0)], s2, WorkEvents(m, 0),
              Alone([Served(FRESH)], multiset{}, Sending(0, []), Storing(0), [Settled(m)]));
    assert FreeEvents(m) == [Free(0)];
    assert WorkEvents(m, 0) == [Dequeue(0, 0), TryDequeue(0), Handle(0), Free(0), TryDequeue(0)];
    assert [start] + [Serve(0), Exchange(0), Enqueue(0)] + WorkEvents(m, 0) == LATE_STORE[..9];
  }

  lemma SecondSend()
    ensures Leads(Alone([Served(FRESH)], multiset{}, Sending(0, []), Storing(0), [Message(1, 1, 0, 1, 1)]),
                  LATE_STORE[9..],
                  Alone([Service(false, [1], [0, 1], [0], [0])], multiset{}, Sending(1, []), Waiting,
                        [Message(1, 1, 0, 1, 1), Message(1, 1, 1, 0, 0)]))
  {
    SecondPush();
    SecondStore();
    LeadsThen(Alone([Served(FRESH)], multiset{}, Sending(0, []), Storing(0), [Message(1, 1, 0, 1, 1)]), LATE_STORE[9..12],
              Alone([Service(true, [1], [0, 1], [0], [0])], multiset{}, Pushed(1, [], 0), Storing(0),
                    [Message(1, 1, 0, 1, 1), Message(1, 1, 1, 0, 0)]),
              LATE_STORE[12..],
              Alone([Service(false, [1], [0, 1], [0], [0])], multiset{}, Sending(1, []), Waiting,
                    [Message(1, 1, 0, 1, 1), Message(1, 1, 1, 0, 0)]));
    assert LATE_STORE[9..12] + LATE_STORE[12..] == LATE_STORE[9..];
  }

  lemma SecondPush()
    ensures Leads(Alone([Served(FRESH)], multiset{}, Sending(0, []), Storing(0), [Message(1, 1, 0, 1, 1)]),
                  LATE_STORE[9..12],
                  Alone([Service(true, [1], [0, 1], [0], [0])], multiset{}, Pushed(1, [], 0), Storing(0),
                        [Message(1, 1, 0, 1, 1), Message(1, 1, 1, 0, 0)]))
  {
    var v, m := Served(FRESH), Message(1, 1, 0, 1, 1);
    var ms := [m, Message(1, 1, 1, 0, 0)];
    var s := Alone([v], multiset{}, Sending(0, []), Storing(0), [m]);
    assert s.producers[0].rest == [];
    Finish0([v], 0, Storing(0), [m]);
    var s1 := Alone([v], multiset{}, Idle, Storing(0), [m]);
    LeadsStep(s, Serve(0), s1);
    DoesTyped(s, Serve(0), s1);
    Start0([v], Storing(0), [m], 1, [Some(0)]);
    assert [m] + [Message(1, 1, 1, 0, 0)] == ms && [Some(0)] + [] == [Some(0)];
    var s2 := Alone([v], multiset{}, Sending(1, [Some(0)]), Storing(0), ms);
    LeadsMore(s, [Serve(0)], s1, Start(0, 1, [Some(0)]), s2);
    Serve0([v], multiset{}, 1, 0, [], Storing(0), ms);
    var v' := Service(true, [1], [0, 1], [0], [0]);
    assert v == Service(true, [], [0], [0], [0]);
    assert v.mail + [1] == [1] && v.pushed + [1] == [0, 1];
    assert [v][0 := v.(mail := v.mail + [1], pushed := v.pushed + [1])] == [v'];
    LeadsMore(s, [Serve(0)] + [Start(0, 1, [Some(0)])], s2, Serve(0),
              Alone([v'], multiset{}, Pushed(1, [], 0), Storing(0), ms));
    assert [Serve(0)] + [Start(0, 1, [Some(0)])] + [Serve(0)] == LATE_STORE[9..12];
  }

  lemma SecondStore()
    ensures Leads(Alone([Service(true, [1], [0, 1], [0], [0])], multiset{}, Pushed(1, [], 0), Storing(0),
                        [Message(1, 1, 0, 1, 1), Message(1, 1, 1, 0, 0)]),
                  LATE_STORE[12..],
                  Alone([Service(false, [1], [0, 1], [0], [0])], multiset{}, Sending(1, []), Waiting,
                        [Message(1, 1, 0, 1, 1), Message(1, 1, 1, 0, 0)]))
  {
    var v, ms := Service(true, [1], [0, 1], [0], [0]), [Message(1, 1, 0, 1, 1), Message(1, 1, 1, 0, 0)];
    var s3 := Alone([v], multiset{}, Pushed(1, [], 0), Storing(0), ms);
    Exchange0([v], multiset{}, 1, 0, [], Storing(0), ms);
    assert [v][0 := v.(flag := true)] == [v];
    var s4 := Alone([v], multiset{}, Sending(1, []), Storing(0), ms);
    LeadsStep(s3, Exchange(0), s4);
    DoesTyped(s3, Exchange(0), s4);
    Store0([v], 0, Sending(1, []), ms);
    assert [v][0 := v.(flag := false)] == [v.(flag := false)];
    LeadsMore(s3, [Exchange(0)], s4, Store(0), Alone([v.(flag := false)], multiset{}, Sending(1, []), Waiting, ms));
    assert [Exchange(0)] + [Store(0)] == LATE_STORE[12..];
  }

  /** A run from an initial state that strands a message: flag down, mailbox not empty, no token. */
  lemma LateStoreStrands() returns (s': State)
    ensures Initial(FIRST) && Typed(FIRST) && Run(FIRST, LATE_STORE, s')
    ensures |s'.services| == 1 && !s'.services[0].flag && s'.services[0].mail == [1] && Stranded(s', 0)
  {
    s' := Alone([Service(false, [1], [0, 1], [0], [0])], multiset{}, Sending(1, []), Waiting,
                [Message(1, 1, 0, 1, 1), Message(1, 1, 1, 0, 0)]);
    FirstDelivery();
    SecondSend();
    LeadsThen(FIRST, LATE_STORE[..9],
              Alone([Served(FRESH)], multiset{}, Sending(0, []), Storing(0), [Message(1, 1, 0, 1, 1)]), LATE_STORE[9..],
              s');
    assert LATE_STORE[..9] + LATE_STORE[9..] == LATE_STORE;
    assert Opened(true);
    FirstInitial();
    InitialInv(FIRST);
    RunInv(FIRST, LATE_STORE, s');
    assert Tokens(s', 0) == If(s'.services[0].flag, 1);
  }

  /** One destination served by a worker while the second is still to be sent to, with a count of one. */
  const SHORT_COUNT: seq<Event> :=
    [Start(0, 1, [Some(0), Some(0)]), Serve(0), Exchange(0), Enqueue(0), Dequeue(0, 0), TryDequeue(0), Handle(0),
     Free(0), TryDequeue(0), Serve(0)]

  /** A run in which a count that is too small frees the body and then queues the message. */
  lemma ShortCountQueuesFreed() returns (s': State)
    ensures Initial(FIRST) && Typed(FIRST) && Run(FIRST, SHORT_COUNT, s')
    ensures |s'.messages| == 1 && s'.messages[0].count == 1 && s'.messages[0].dests == 2
    ensures s'.messages[0].freed == 1 && |s'.services| == 1 && s'.services[0].mail == [0]
  {
    var m, m' := Message(1, 2, 1, 0, 0), Message(1, 2, 0, 1, 1);
    var dsts := [Some(0)] + [Some(0)];
    var start := Start(0, 1, dsts);
    var s1 := Alone([FRESH], multiset{}, Sending(0, dsts), Waiting, [m]);
    assert dsts == [Some(0), Some(0)] && [] + [m] == [m];
    FirstInitial();
    Start0([FRESH], Waiting, [], 1, dsts);
    LeadsStep(FIRST, start, s1);
    DoesTyped(FIRST, start, s1);
    SendRun([FRESH], 0, [Some(0)], m);
    assert [FRESH][0 := Filled(FRESH)] == [Filled(FRESH)] && [FRESH][0 := Served(FRESH)] == [Served(FRESH)];
    var s2 := Alone([Filled(FRESH)], multiset{0}, Sending(0, [Some(0)]), Waiting, [m]);
    LeadsThen(FIRST, [start], s1, [Serve(0), Exchange(0), Enqueue(0)], s2);
    WorkRun([FRESH], 0, Sending(0, [Some(0)]), m);
    var v := Service(true, [], [0], [0], [0]);
    assert Served(FRESH) == v && Settled(m) == m' && FreeEvents(m) == [Free(0)];
    var s3 := Alone([v], multiset{}, Sending(0, [Some(0)]), Storing(0), [m']);
    var sent := [start] + [Serve(0), Exchange(0), Enqueue(0)];
    LeadsThen(FIRST, sent, s2, WorkEvents(m, 0), s3);
    assert [Some(0)] + [] == [Some(0)];
    Serve0([v], multiset{}, 0, 0, [], Storing(0), [m']);
    assert v.mail + [0] == [0];
    s' := Alone([v][0 := v.(mail := v.mail + [0], pushed := v.pushed + [0])], multiset{}, Pushed(0, [], 0), Storing(0),
                [m']);
    LeadsMore(FIRST, sent + WorkEvents(m, 0), s3, Serve(0), s');
    assert sent + WorkEvents(m, 0) + [Serve(0)] == SHORT_COUNT;
    assert Opened(true);
  }

  // ---------------------------------------------------------------------------------------------------------
  // Exactly which counts free the body as they should

  /**
   * In every state of every run: destinations are reset or owed, and the body is freed, or being freed, once the
   * resets have come to a positive count, and only then.
   */
  lemma FreedAtCount(s: State, es: seq<Event>, s': State, mid: nat)
    requires Initial(s) && Typed(s) && Run(s, es, s') && mid < |s'.messages| && s'.messages[mid].dests < WORD
    ensures var m := s'.messages[mid];
            && m.resets + Owed(s', mid) == m.dests
            && m.freed + BeingFreed(s', mid) == If(0 < m.count <= m.resets, 1)
  {
    InitialInv(s);
    RunInv(s, es, s');
    var m := s'.messages[mid];
    assert Counted(m, Owed(s', mid), BeingFreed(s', mid));
    FewHits(m.count, m.resets);
  }

  /** Not freed while a reference is left, and freed, or being freed, once when none is. */
  ghost predicate FreedRight(s: State, mid: nat)
    requires mid < |s.messages|
  {
    var freed := s.messages[mid].freed + BeingFreed(s, mid);
    (freed > 0 ==> Owed(s, mid) == 0) && (Owed(s, mid) == 0 ==> freed == 1)
  }

  /** A run that reaches t, starts a fan-out there with this count and these destinations, and goes on to u. */
  ghost predicate FansOut(count: nat, dsts: seq<Dest>, s: State, es: seq<Event>, t: State, p: nat, fs: seq<Event>,
                          u: State) {
    && Initial(s) && Typed(s) && Run(s, es, t) && Typed(t) && Enabled(t, Start(p, count, dsts))
    && Typed(Apply(t, Start(p, count, dsts))) && Run(Apply(t, Start(p, count, dsts)), fs, u)
  }

  lemma {:induction false} MessageStays(s: State, es: seq<Event>, s': State, mid: nat)
    requires Typed(s) && Run(s, es, s') && mid < |s.messages|
    ensures mid < |s'.messages|
    ensures s'.messages[mid].count == s.messages[mid].count && s'.messages[mid].dests == s.messages[mid].dests
    decreases |es|
  {
    if es != [] {
      StepTyped(s, es[0]);
      MessageStays(Apply(s, es[0]), es[1..], s', mid);
    }
  }

  lemma FansOutCounted(count: nat, dsts: seq<Dest>, s: State, es: seq<Event>, t: State, p: nat, fs: seq<Event>, u: State)
    requires FansOut(count, dsts, s, es, t, p, fs, u) && |dsts| < WORD
    ensures |t.messages| < |u.messages|
    ensures var mid := |t.messages|; var m := u.messages[mid];
            && m.resets + Owed(u, mid) == |dsts|
            && m.freed + BeingFreed(u, mid) == If(0 < count <= m.resets, 1)
  {
    var t' := Apply(t, Start(p, count, dsts));
    RunStep(s, es, t, Start(p, count, dsts));
    RunJoin(s, es + [Start(p, count, dsts)], t', fs, u);
    MessageStays(t', fs, u, |t.messages|);
    FreedAtCount(s, es + [Start(p, count, dsts)] + fs, u, |t.messages|);
  }

  /** In every run that fans a message out like this its body is freed as it should be, in every later state. */
  ghost predicate AlwaysFreedRight(count: nat, dsts: seq<Dest>) {
    forall s, es, t, p, fs, u :: FansOut(count, dsts, s, es, t, p, fs, u) ==>
      |t.messages| < |u.messages| && FreedRight(u, |t.messages|)
  }

  /** One destination after the other is served by the only worker. */
  lemma {:induction false} DeliverRun(vs: seq<Service>, dsts: seq<Dest>, k: nat, m: Message)
      returns (es: seq<Event>, vs': seq<Service>, m': Message)
    requires Quiet(vs) && k <= |dsts| && Typed(Alone(vs, multiset{}, Sending(0, dsts), Waiting, [m]))
    ensures Leads(Alone(vs, multiset{}, Sending(0, dsts), Waiting, [m]), es,
                  Alone(vs', multiset{}, Sending(0, dsts[k..]), Waiting, [m']))
    ensures m'.resets == m.resets + k
    decreases k
  {
    var s := Alone(vs, multiset{}, Sending(0, dsts), Waiting, [m]);
    if k == 0 {
      es, vs', m' := [], vs, m;
      assert dsts[0..] == dsts;
      RunNone(s);
    } else {
      assert [dsts[0]] + dsts[1..] == dsts;
      var first, us := DeliverOne(vs, dsts[0], dsts[1..], m);
      var s1 := Alone(us, multiset{}, Sending(0, dsts[1..]), Waiting, [Settled(m)]);
      LeadsTyped(s, first, s1);
      var more;
      more, vs', m' := DeliverRun(us, dsts[1..], k - 1, Settled(m));
      assert dsts[1..][k - 1..] == dsts[k..];
      es := first + more;
      LeadsThen(s, first, s1, more, Alone(vs', multiset{}, Sending(0, dsts[k..]), Waiting, [m']));
    }
  }

  lemma DeliverOne(vs: seq<Service>, d: Dest, rest: seq<Dest>, m: Message) returns (es: seq<Event>, us: seq<Service>)
    requires Quiet(vs) && Typed(Alone(vs, multiset{}, Sending(0, [d] + rest), Waiting, [m]))
    ensures Quiet(us)
    ensures Leads(Alone(vs, multiset{}, Sending(0, [d] + rest), Waiting, [m]), es,
                  Alone(us, multiset{}, Sending(0, rest), Waiting, [Settled(m)]))
  {
    if d.None? {
      es := MissOne(vs, rest, m);
      us := vs;
    } else {
      es, us := SendOne(vs, d.sid, rest, m);
    }
  }

  lemma MissOne(vs: seq<Service>, rest: seq<Dest>, m: Message) returns (es: seq<Event>)
    requires Typed(Alone(vs, multiset{}, Sending(0, [None] + rest), Waiting, [m]))
    ensures Leads(Alone(vs, multiset{}, Sending(0, [None] + rest), Waiting, [m]), es,
                  Alone(vs, multiset{}, Sending(0, rest), Waiting, [Settled(m)]))
  {
    var s := Alone(vs, multiset{}, Sending(0, [None] + rest), Waiting, [m]);
    var d := Decrement(m);
    var s1 := Alone(vs, multiset{}, if d.refs == 0 then Releasing(0, rest) else Sending(0, rest), Waiting, [d]);
    Miss0(vs, multiset{}, rest, Waiting, m);
    LeadsStep(s, Serve(0), s1);
    DoesTyped(s, Serve(0), s1);
    es := [Serve(0)];
    if d.refs == 0 {
      Release0(vs, multiset{}, rest, Waiting, d);
      LeadsMore(s, es, s1, Release(0), Alone(vs, multiset{}, Sending(0, rest), Waiting, [Settled(m)]));
      es := es + [Release(0)];
    }
  }

  lemma SendOne(vs: seq<Service>, sid: nat, rest: seq<Dest>, m: Message) returns (es: seq<Event>, us: seq<Service>)
    requires Quiet(vs) && Typed(Alone(vs, multiset{}, Sending(0, [Some(sid)] + rest), Waiting, [m]))
    ensures Quiet(us)
    ensures Leads(Alone(vs, multiset{}, Sending(0, [Some(sid)] + rest), Waiting, [m]), es,
                  Alone(us, multiset{}, Sending(0, rest), Waiting, [Settled(m)]))
  {
    Serve0(vs, multiset{}, 0, sid, rest, Waiting, [m]);
    var s := Alone(vs, multiset{}, Sending(0, [Some(sid)] + rest), Waiting, [m]);
    var s1 := Alone(vs[sid := Filled(vs[sid])], multiset{sid}, Sending(0, rest), Waiting, [m]);
    var s2 := Alone(vs[sid := Served(vs[sid])], multiset{}, Sending(0, rest), Storing(sid), [Settled(m)]);
    var v := Served(vs[sid]).(flag := false);
    us := vs[sid := v];
    assert vs[sid := Served(vs[sid])][sid := v] == us;
    SendRun(vs, sid, rest, m);
    WorkRun(vs, sid, Sending(0, rest), m);
    Store0(vs[sid := Served(vs[sid])], sid, Sending(0, rest), [Settled(m)]);
    var send, work := [Serve(0), Exchange(0), Enqueue(0)], WorkEvents(m, sid);
    LeadsThen(s, send, s1, work, s2);
    LeadsMore(s, send + work, s2, Store(0), Alone(us, multiset{}, Sending(0, rest), Waiting, [Settled(m)]));
    es := send + work + [Store(0)];
  }

  /** A number of services that has all destinations. */
  lemma {:induction false} EnoughServices(dsts: seq<Dest>) returns (n: nat)
    ensures Reaches(n, dsts)
  {
    if dsts == [] {
      n := 0;
    } else {
      n := EnoughServices(dsts[1..]);
      if dsts[0].Some? && n <= dsts[0].sid {
        n := dsts[0].sid + 1;
      }
      assert forall i :: 0 < i < |dsts| ==> dsts[i] == dsts[1..][i - 1];
    }
  }

  /** Whatever the destinations, some run serves the first k of them and none of the others. */
  lemma ServesSome(count: nat, dsts: seq<Dest>, k: nat) returns (s: State, fs: seq<Event>, u: State)
    requires count < WORD && k <= |dsts|
    ensures FansOut(count, dsts, s, [], s, 0, fs, u) && s.messages == [] && |u.messages| == 1 && u.messages[0].resets == k
  {
    var n := EnoughServices(dsts);
    var vs: seq<Service> := seq(n, _ => FRESH);
    s := Alone(vs, multiset{}, Idle, Waiting, []);
    var m := Message(count, |dsts|, count, 0, 0);
    Start0(vs, Waiting, [], count, dsts);
    assert [] + [m] == [m];
    DoesTyped(s, Start(0, count, dsts), Alone(vs, multiset{}, Sending(0, dsts), Waiting, [m]));
    var vs', m';
    fs, vs', m' := DeliverRun(vs, dsts, k, m);
    u := Alone(vs', multiset{}, Sending(0, dsts[k..]), Waiting, [m']);
    assert Opened(true);
    RunNone(s);
  }

  /**
   * For every count and all destinations: the body is always freed once, after the last delivery, if and only if the
   * count is the number of destinations and positive. (The count is the Lua length of the destination table, the
   * destinations are all its entries.)
   */
  lemma FreedRightExactly(count: nat, dsts: seq<Dest>)
    requires count < WORD && |dsts| < WORD
    ensures AlwaysFreedRight(count, dsts) <==> 0 < count == |dsts|
  {
    if 0 < count == |dsts| {
      forall s, es, t, p, fs, u | FansOut(count, dsts, s, es, t, p, fs, u)
        ensures |t.messages| < |u.messages| && FreedRight(u, |t.messages|)
      {
        FansOutCounted(count, dsts, s, es, t, p, fs, u);
      }
    } else {
      var s, fs, u := ServesSome(count, dsts, if 0 < count < |dsts| then count else |dsts|);
      FansOutCounted(count, dsts, s, [], s, 0, fs, u);
      assert FansOut(count, dsts, s, [], s, 0, fs, u);
      assert !FreedRight(u, 0);
    }
  }
}
