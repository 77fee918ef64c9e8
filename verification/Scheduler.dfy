module Scheduler {
  // The actor scheduler: producers and workers sharing one ready flag per service, one step per atomic operation.
  //
  // Every push to a mailbox, flag exchange, ready-queue operation, mailbox pop, reference-count decrement and flag
  // store is a step of its own, and any thread may take the next one. Services are numbered and never closed; the
  // mailboxes are linearizable queues and the ready queue a bag.

  import opened Counting

  const WORD := 0x1_0000_0000

  /** mail is the mailbox, flag is m_inReadyQueue; the rest records history. */
  datatype Service = Service(flag: bool, mail: seq<nat>, pushed: seq<nat>, taken: seq<nat>, handled: seq<nat>)

  /**
   * A message body with its reference count: `count` is the value set at the send, `dests` the number of
   * destinations the send goes through, `resets` and `freed` what happened since.
   */
  datatype Message = Message(count: nat, dests: nat, refs: nat, resets: nat, freed: nat)

  /** The destinations still to be served are `rest`; a destination without a service is None. */
  datatype Dest = None | Some(sid: nat)
  datatype Producer =
    | Idle
    | Sending(mid: nat, rest: seq<Dest>)
    | Pushed(mid: nat, rest: seq<Dest>, sid: nat)
    | Claimed(mid: nat, rest: seq<Dest>, sid: nat)
    | Releasing(mid: nat, rest: seq<Dest>)

  datatype Worker =
    | Waiting
    | Draining(sid: nat)
    | Processing(sid: nat, mid: nat)
    | Freeing(sid: nat, mid: nat)
    | Storing(sid: nat)

  datatype State = State(
    services: seq<Service>, ready: multiset<nat>, producers: seq<Producer>, workers: seq<Worker>, messages: seq<Message>)

  datatype Event =
    | Start(p: nat, count: nat, dsts: seq<Dest>)
    | Serve(p: nat)
    | Exchange(p: nat)
    | Enqueue(p: nat)
    | Release(p: nat)
    | Dequeue(w: nat, sid: nat)
    | TryDequeue(w: nat)
    | Handle(w: nat)
    | Free(w: nat)
    | Store(w: nat)

  // ---------------------------------------------------------------------------------------------------------
  // Steps

  /** The atomic --m_refCount of the 32-bit counter. */
  function Decrement(m: Message): Message {
    m.(refs := (m.refs + WORD - 1) % WORD, resets := m.resets + 1)
  }

  ghost predicate Enabled(s: State, e: Event) {
    match e
    case Start(p, count, dsts) =>
      p < |s.producers| && s.producers[p].Idle? && count < WORD
      && forall i :: 0 <= i < |dsts| && dsts[i].Some? ==> dsts[i].sid < |s.services|
    case Serve(p) => p < |s.producers| && s.producers[p].Sending?
    case Exchange(p) => p < |s.producers| && s.producers[p].Pushed?
    case Enqueue(p) => p < |s.producers| && s.producers[p].Claimed?
    case Release(p) => p < |s.producers| && s.producers[p].Releasing?
    case Dequeue(w, sid) => w < |s.workers| && s.workers[w].Waiting? && sid in s.ready
    case TryDequeue(w) => w < |s.workers| && s.workers[w].Draining?
    case Handle(w) => w < |s.workers| && s.workers[w].Processing?
    case Free(w) => w < |s.workers| && s.workers[w].Freeing?
    case Store(w) => w < |s.workers| && s.workers[w].Storing?
  }

  /** The thread's service and message numbers are in range. */
  ghost predicate ProducerOk(services: nat, messages: nat, p: Producer) {
    && (!p.Idle? ==> p.mid < messages && forall i :: 0 <= i < |p.rest| && p.rest[i].Some? ==> p.rest[i].sid < services)
    && (p.Pushed? || p.Claimed? ==> p.sid < services)
  }

  ghost predicate WorkerOk(services: nat, messages: nat, w: Worker) {
    && (!w.Waiting? ==> w.sid < services)
    && (w.Processing? || w.Freeing? ==> w.mid < messages)
  }

  ghost predicate MailOk(messages: nat, v: Service) {
    forall k :: 0 <= k < |v.mail| ==> v.mail[k] < messages
  }

  ghost predicate Typed(s: State) {
    && (forall p :: 0 <= p < |s.producers| ==> ProducerOk(|s.services|, |s.messages|, s.producers[p]))
    && (forall w :: 0 <= w < |s.workers| ==> WorkerOk(|s.services|, |s.messages|, s.workers[w]))
    && (forall i :: 0 <= i < |s.services| ==> MailOk(|s.messages|, s.services[i]))
    && (forall sid :: sid in s.ready ==> sid < |s.services|)
  }

  // A step replaces at most one service, one message, one producer and one worker.

  ghost function PutService(s: State, sid: nat, v: Service): State
    requires sid < |s.services|
  {
    s.(services := s.services[sid := v])
  }

  ghost function PutMessage(s: State, mid: nat, m: Message): State
    requires mid < |s.messages|
  {
    s.(messages := s.messages[mid := m])
  }

  ghost function PutProducer(s: State, p: nat, t: Producer): State
    requires p < |s.producers|
  {
    s.(producers := s.producers[p := t])
  }

  ghost function PutWorker(s: State, w: nat, t: Worker): State
    requires w < |s.workers|
  {
    s.(workers := s.workers[w := t])
  }

  /** processMessage: the handler has run; reset's decrement decides whether the body is freed. */
  ghost function Handled(s: State, w: nat): State
    requires Typed(s) && Enabled(s, Handle(w))
  {
    var t := s.workers[w];
    var v := s.services[t.sid];
    var m := Decrement(s.messages[t.mid]);
    var u := if m.refs == 0 then Freeing(t.sid, t.mid) else Draining(t.sid);
    PutWorker(PutMessage(PutService(s, t.sid, v.(handled := v.handled + [t.mid])), t.mid, m), w, u)
  }

  ghost function Apply(s: State, e: Event): State
    requires Typed(s) && Enabled(s, e)
  {
    match e
    case Start(p, count, dsts) =>
      PutProducer(s, p, Sending(|s.messages|, dsts)).(messages := s.messages + [Message(count, |dsts|, count, 0, 0)])
    case Serve(p) =>
      var t := s.producers[p];
      if t.rest == [] then PutProducer(s, p, Idle)
      else if t.rest[0].None? then
        var m := Decrement(s.messages[t.mid]);
        var u := if m.refs == 0 then Releasing(t.mid, t.rest[1..]) else Sending(t.mid, t.rest[1..]);
        PutProducer(PutMessage(s, t.mid, m), p, u)
      else
        var sid := t.rest[0].sid;
        var v := s.services[sid];
        PutProducer(PutService(s, sid, v.(mail := v.mail + [t.mid], pushed := v.pushed + [t.mid])),
                    p, Pushed(t.mid, t.rest[1..], sid))
    case Exchange(p) =>
      var t := s.producers[p];
      var v := s.services[t.sid];
      var u := if v.flag then Sending(t.mid, t.rest) else Claimed(t.mid, t.rest, t.sid);
      PutProducer(PutService(s, t.sid, v.(flag := true)), p, u)
    case Enqueue(p) =>
      var t := s.producers[p];
      PutProducer(s, p, Sending(t.mid, t.rest)).(ready := s.ready + multiset{t.sid})
    case Release(p) =>
      var t := s.producers[p];
      var m := s.messages[t.mid];
      PutProducer(PutMessage(s, t.mid, m.(freed := m.freed + 1)), p, Sending(t.mid, t.rest))
    case Dequeue(w, sid) =>
      PutWorker(s, w, Draining(sid)).(ready := s.ready - multiset{sid})
    case TryDequeue(w) =>
      var sid := s.workers[w].sid;
      var v := s.services[sid];
      if v.mail == [] then PutWorker(s, w, Storing(sid))
      else PutWorker(PutService(s, sid, v.(mail := v.mail[1..], taken := v.taken + [v.mail[0]])),
                     w, Processing(sid, v.mail[0]))
    case Handle(w) => Handled(s, w)
    case Free(w) =>
      var t := s.workers[w];
      var m := s.messages[t.mid];
      PutWorker(PutMessage(s, t.mid, m.(freed := m.freed + 1)), w, Draining(t.sid))
    case Store(w) =>
      var sid := s.workers[w].sid;
      PutWorker(PutService(s, sid, s.services[sid].(flag := false)), w, Waiting)
  }

  // ---------------------------------------------------------------------------------------------------------
  // Counting over threads and mailboxes

  /** The token of a producer about to enqueue a service. */
  function Claims(p: Producer, sid: nat): nat {
    If(p.Claimed? && p.sid == sid, 1)
  }

  /** The token of a worker in charge of a service. */
  function Holds(w: Worker, sid: nat): nat {
    If(!w.Waiting? && w.sid == sid, 1)
  }

  /** References to a message: destinations still to be served, messages in hand and in mailboxes. */
  function Owes(p: Producer, mid: nat): nat {
    if !p.Idle? && p.mid == mid then |p.rest| else 0
  }

  function InHand(w: Worker, mid: nat): nat {
    If(w.Processing? && w.mid == mid, 1)
  }

  function InMail(v: Service, mid: nat): nat {
    multiset(v.mail)[mid]
  }

  /** Threads between the decrement to zero and the free. */
  function Releases(p: Producer, mid: nat): nat {
    If(p.Releasing? && p.mid == mid, 1)
  }

  function Frees(w: Worker, mid: nat): nat {
    If(w.Freeing? && w.mid == mid, 1)
  }

  ghost function Tokens(s: State, sid: nat): nat {
    Total(s.producers, Claims, sid) + s.ready[sid] + Total(s.workers, Holds, sid)
  }

  ghost function Owed(s: State, mid: nat): nat {
    Total(s.producers, Owes, mid) + Total(s.workers, InHand, mid) + Total(s.services, InMail, mid)
  }

  ghost function BeingFreed(s: State, mid: nat): nat {
    Total(s.producers, Releases, mid) + Total(s.workers, Frees, mid)
  }

  // ---------------------------------------------------------------------------------------------------------
  // Well-typedness

  lemma StartTyped(s: State, p: nat, count: nat, dsts: seq<Dest>)
    requires Typed(s) && Enabled(s, Start(p, count, dsts))
    ensures Typed(Apply(s, Start(p, count, dsts)))
  {
    var m := |s.messages|;
    assert forall q :: 0 <= q < |s.producers| ==> ProducerOk(|s.services|, m, s.producers[q]);
    assert forall w :: 0 <= w < |s.workers| ==> WorkerOk(|s.services|, m, s.workers[w]);
    assert forall i :: 0 <= i < |s.services| ==> MailOk(m, s.services[i]);
  }

  lemma ServeTyped(s: State, p: nat)
    requires Typed(s) && Enabled(s, Serve(p))
    ensures Typed(Apply(s, Serve(p)))
  {
    assert ProducerOk(|s.services|, |s.messages|, s.producers[p]);
  }

  lemma ProducerTyped(s: State, e: Event)
    requires Typed(s) && Enabled(s, e) && (e.Exchange? || e.Enqueue? || e.Release?)
    ensures Typed(Apply(s, e))
  {
    assert ProducerOk(|s.services|, |s.messages|, s.producers[e.p]);
  }

  lemma WorkerTyped(s: State, e: Event)
    requires Typed(s) && Enabled(s, e) && (e.Dequeue? || e.TryDequeue? || e.Handle? || e.Free? || e.Store?)
    ensures Typed(Apply(s, e))
  {
    assert WorkerOk(|s.services|, |s.messages|, s.workers[e.w]);
  }

  lemma StepTyped(s: State, e: Event)
    requires Typed(s) && Enabled(s, e)
    ensures Typed(Apply(s, e))
  {
    if e.Start? {
      StartTyped(s, e.p, e.count, e.dsts);
    } else if e.Serve? {
      ServeTyped(s, e.p);
    } else if e.Exchange? || e.Enqueue? || e.Release? {
      ProducerTyped(s, e);
    } else {
      WorkerTyped(s, e);
    }
  }

  // ---------------------------------------------------------------------------------------------------------
  // One token per raised flag

  /** A service whose flag is up has exactly one token (claimed, queued or held); one whose flag is down has none. */
  ghost predicate TokensOk(s: State) {
    forall sid :: 0 <= sid < |s.services| ==> Tokens(s, sid) == If(s.services[sid].flag, 1)
  }

  ghost predicate IsProducerEvent(e: Event) {
    e.Start? || e.Serve? || e.Exchange? || e.Enqueue? || e.Release?
  }

  lemma ProducerTokens(s: State, e: Event, sid: nat)
    requires Typed(s) && Enabled(s, e) && IsProducerEvent(e) && sid < |s.services|
    requires Tokens(s, sid) == If(s.services[sid].flag, 1)
    ensures Tokens(Apply(s, e), sid) == If(Apply(s, e).services[sid].flag, 1)
  {
    TotalUpdate(s.producers, e.p, Apply(s, e).producers[e.p], Claims, sid);
  }

  lemma WorkerTokens(s: State, e: Event, sid: nat)
    requires Typed(s) && Enabled(s, e) && !IsProducerEvent(e) && sid < |s.services|
    requires Tokens(s, sid) == If(s.services[sid].flag, 1)
    ensures Tokens(Apply(s, e), sid) == If(Apply(s, e).services[sid].flag, 1)
  {
    if e.Dequeue? {
      DequeueTokens(s, e.w, e.sid, sid);
    } else if e.Store? {
      StoreTokens(s, e.w, sid);
    } else {
      TotalUpdate(s.workers, e.w, Apply(s, e).workers[e.w], Holds, sid);
    }
  }

  lemma DequeueTokens(s: State, w: nat, d: nat, sid: nat)
    requires Typed(s) && Enabled(s, Dequeue(w, d)) && sid < |s.services|
    ensures Tokens(Apply(s, Dequeue(w, d)), sid) == Tokens(s, sid)
    ensures Apply(s, Dequeue(w, d)).services == s.services
  {
    TotalUpdate(s.workers, w, Draining(d), Holds, sid);
  }

  lemma StoreTokens(s: State, w: nat, sid: nat)
    requires Typed(s) && Enabled(s, Store(w)) && sid < |s.services|
    requires Tokens(s, sid) == If(s.services[sid].flag, 1)
    ensures Tokens(Apply(s, Store(w)), sid) == If(Apply(s, Store(w)).services[sid].flag, 1)
  {
    TotalUpdate(s.workers, w, Waiting, Holds, sid);
    TotalHas(s.workers, w, Holds, sid);
  }

  lemma StepTokens(s: State, e: Event)
    requires Typed(s) && Enabled(s, e) && TokensOk(s)
    ensures TokensOk(Apply(s, e))
  {
    forall sid | 0 <= sid < |s.services|
      ensures Tokens(Apply(s, e), sid) == If(Apply(s, e).services[sid].flag, 1)
    {
      assert Tokens(s, sid) == If(s.services[sid].flag, 1);
      if IsProducerEvent(e) {
        ProducerTokens(s, e, sid);
      } else {
        WorkerTokens(s, e, sid);
      }
    }
  }

  ghost predicate InCharge(w: Worker, sid: nat) {
    !w.Waiting? && w.sid == sid
  }

  /** Two workers are never in charge of one service. */
  lemma OneWorker(s: State, i: nat, j: nat)
    requires TokensOk(s) && i < j < |s.workers| && !s.workers[i].Waiting? && !s.workers[j].Waiting?
    requires s.workers[i].sid < |s.services|
    ensures s.workers[i].sid != s.workers[j].sid
  {
    TotalTwo(s.workers, i, j, Holds, s.workers[i].sid);
    assert Tokens(s, s.workers[i].sid) <= 1;
  }

  // ---------------------------------------------------------------------------------------------------------
  // Order of delivery

  function Busy(w: Worker, sid: nat): nat {
    If(w.Processing? && w.sid == sid, 1)
  }

  /** What was pushed is what was taken, in order, then the mailbox; handled is taken but for a message in hand. */
  ghost predicate Ordered(v: Service, busy: nat) {
    v.pushed == v.taken + v.mail && v.handled <= v.taken && |v.taken| == |v.handled| + busy
  }

  ghost predicate Carries(s: State, w: Worker) {
    w.Processing? && w.sid < |s.services| ==>
      var taken := s.services[w.sid].taken; taken != [] && taken[|taken| - 1] == w.mid
  }

  ghost predicate OrderOk(s: State) {
    && (forall sid :: 0 <= sid < |s.services| ==> Ordered(s.services[sid], Total(s.workers, Busy, sid)))
    && (forall w :: 0 <= w < |s.workers| ==> Carries(s, s.workers[w]))
  }

  lemma {:induction false} BusyHolds(ws: seq<Worker>, sid: nat)
    ensures Total(ws, Busy, sid) <= Total(ws, Holds, sid)
  {
    if ws != [] {
      BusyHolds(ws[1..], sid);
    }
  }

  lemma ProducerOrder(s: State, e: Event)
    requires Typed(s) && Enabled(s, e) && IsProducerEvent(e) && OrderOk(s)
    ensures OrderOk(Apply(s, e))
  {
    var s' := Apply(s, e);
    assert s'.workers == s.workers;
    forall w | 0 <= w < |s.workers|
      ensures Carries(s', s'.workers[w])
    {
      assert Carries(s, s.workers[w]);
    }
    forall sid | 0 <= sid < |s.services|
      ensures Ordered(s'.services[sid], Total(s'.workers, Busy, sid))
    {
      assert Ordered(s.services[sid], Total(s.workers, Busy, sid));
    }
  }

  lemma TakeOrder(s: State, w: nat, sid: nat)
    requires Typed(s) && Enabled(s, TryDequeue(w)) && sid < |s.services|
    requires Ordered(s.services[sid], Total(s.workers, Busy, sid))
    ensures Ordered(Apply(s, TryDequeue(w)).services[sid], Total(Apply(s, TryDequeue(w)).workers, Busy, sid))
  {
    TotalUpdate(s.workers, w, Apply(s, TryDequeue(w)).workers[w], Busy, sid);
  }

  lemma HandleOrder(s: State, w: nat, sid: nat)
    requires Typed(s) && Enabled(s, Handle(w)) && TokensOk(s) && sid < |s.services|
    requires Ordered(s.services[sid], Total(s.workers, Busy, sid)) && Carries(s, s.workers[w])
    ensures Ordered(Apply(s, Handle(w)).services[sid], Total(Apply(s, Handle(w)).workers, Busy, sid))
  {
    TotalUpdate(s.workers, w, Apply(s, Handle(w)).workers[w], Busy, sid);
    TotalHas(s.workers, w, Busy, sid);
    BusyHolds(s.workers, sid);
    assert Tokens(s, sid) <= 1;
    var v := s.services[sid];
    if s.workers[w].sid == sid {
      assert v.taken == v.handled + [s.workers[w].mid];
    }
  }

  lemma OtherOrder(s: State, e: Event, sid: nat)
    requires Typed(s) && Enabled(s, e) && (e.Dequeue? || e.Free? || e.Store?) && sid < |s.services|
    requires Ordered(s.services[sid], Total(s.workers, Busy, sid))
    ensures Ordered(Apply(s, e).services[sid], Total(Apply(s, e).workers, Busy, sid))
  {
    TotalUpdate(s.workers, e.w, Apply(s, e).workers[e.w], Busy, sid);
  }

  lemma WorkerCarries(s: State, e: Event, w: nat)
    requires Typed(s) && Enabled(s, e) && !IsProducerEvent(e) && TokensOk(s) && w < |s.workers|
    requires Carries(s, s.workers[w])
    ensures Carries(Apply(s, e), Apply(s, e).workers[w])
  {
    if w < e.w && !s.workers[w].Waiting? && !s.workers[e.w].Waiting? {
      OneWorker(s, w, e.w);
    } else if e.w < w && !s.workers[w].Waiting? && !s.workers[e.w].Waiting? {
      OneWorker(s, e.w, w);
    }
  }

  lemma StepOrder(s: State, e: Event)
    requires Typed(s) && Enabled(s, e) && TokensOk(s) && OrderOk(s)
    ensures OrderOk(Apply(s, e))
  {
    if IsProducerEvent(e) {
      ProducerOrder(s, e);
    } else {
      forall sid | 0 <= sid < |s.services|
        ensures Ordered(Apply(s, e).services[sid], Total(Apply(s, e).workers, Busy, sid))
      {
        assert Carries(s, s.workers[e.w]) && Ordered(s.services[sid], Total(s.workers, Busy, sid));
        match e
        case TryDequeue(w) => TakeOrder(s, w, sid);
        case Handle(w) => HandleOrder(s, w, sid);
        case _ => OtherOrder(s, e, sid);
      }
      forall w | 0 <= w < |s.workers|
        ensures Carries(Apply(s, e), Apply(s, e).workers[w])
      {
        assert Carries(s, s.workers[w]);
        WorkerCarries(s, e, w);
      }
    }
  }

  // ---------------------------------------------------------------------------------------------------------
  // Reference counts

  /** How often a 32-bit counter that starts at `count` has come down to zero after `resets` decrements. */
  ghost function Hits(count: nat, resets: nat): nat {
    if resets == 0 then 0 else Hits(count, resets - 1) + If((count - resets) % WORD == 0, 1)
  }

  /** Every destination is either reset or still owed; every hit of zero is freed or being freed. */
  ghost predicate Counted(m: Message, owed: nat, freeing: nat) {
    && m.count < WORD && m.refs == (m.count - m.resets) % WORD
    && m.resets + owed == m.dests
    && m.freed + freeing == Hits(m.count, m.resets)
  }

  ghost predicate RefsOk(s: State) {
    forall mid :: 0 <= mid < |s.messages| ==> Counted(s.messages[mid], Owed(s, mid), BeingFreed(s, mid))
  }

  lemma NobodyOwes(s: State)
    requires Typed(s)
    ensures Owed(s, |s.messages|) == 0 && BeingFreed(s, |s.messages|) == 0
  {
    var mid := |s.messages|;
    assert forall p :: 0 <= p < |s.producers| ==> ProducerOk(|s.services|, mid, s.producers[p]);
    assert forall w :: 0 <= w < |s.workers| ==> WorkerOk(|s.services|, mid, s.workers[w]);
    TotalZero(s.producers, Owes, mid);
    TotalZero(s.producers, Releases, mid);
    TotalZero(s.workers, InHand, mid);
    TotalZero(s.workers, Frees, mid);
    forall i | 0 <= i < |s.services|
      ensures InMail(s.services[i], mid) == 0
    {
      assert MailOk(mid, s.services[i]);
    }
    TotalZero(s.services, InMail, mid);
  }

  lemma DecrementRefs(m: Message)
    requires m.count < WORD && m.refs == (m.count - m.resets) % WORD
    ensures Decrement(m).refs == (m.count - Decrement(m).resets) % WORD
  {
  }

  lemma StartRefs(s: State, p: nat, count: nat, dsts: seq<Dest>, mid: nat)
    requires Typed(s) && Enabled(s, Start(p, count, dsts)) && RefsOk(s) && mid <= |s.messages|
    ensures var s' := Apply(s, Start(p, count, dsts)); Counted(s'.messages[mid], Owed(s', mid), BeingFreed(s', mid))
  {
    var s' := Apply(s, Start(p, count, dsts));
    TotalUpdate(s.producers, p, s'.producers[p], Owes, mid);
    TotalUpdate(s.producers, p, s'.producers[p], Releases, mid);
    if mid == |s.messages| {
      NobodyOwes(s);
    } else {
      assert Counted(s.messages[mid], Owed(s, mid), BeingFreed(s, mid));
    }
  }

  lemma MailPush(mail: seq<nat>, x: nat, mid: nat)
    ensures multiset(mail + [x])[mid] == multiset(mail)[mid] + If(x == mid, 1)
  {
  }

  lemma MailPop(mail: seq<nat>, mid: nat)
    requires mail != []
    ensures multiset(mail[1..])[mid] == multiset(mail)[mid] - If(mail[0] == mid, 1)
  {
    assert mail == [mail[0]] + mail[1..];
  }

  lemma PushRefs(s: State, p: nat, mid: nat)
    requires Typed(s) && Enabled(s, Serve(p)) && mid < |s.messages|
    requires s.producers[p].rest != [] && s.producers[p].rest[0].Some?
    requires Counted(s.messages[mid], Owed(s, mid), BeingFreed(s, mid))
    ensures var s' := Apply(s, Serve(p)); Counted(s'.messages[mid], Owed(s', mid), BeingFreed(s', mid))
  {
    var s', t := Apply(s, Serve(p)), s.producers[p];
    TotalUpdate(s.producers, p, s'.producers[p], Owes, mid);
    TotalUpdate(s.producers, p, s'.producers[p], Releases, mid);
    var sid := t.rest[0].sid;
    MailPush(s.services[sid].mail, t.mid, mid);
    TotalUpdate(s.services, sid, s'.services[sid], InMail, mid);
  }

  lemma MissRefs(s: State, p: nat, mid: nat)
    requires Typed(s) && Enabled(s, Serve(p)) && mid < |s.messages|
    requires s.producers[p].rest == [] || s.producers[p].rest[0].None?
    requires Counted(s.messages[mid], Owed(s, mid), BeingFreed(s, mid))
    ensures var s' := Apply(s, Serve(p)); Counted(s'.messages[mid], Owed(s', mid), BeingFreed(s', mid))
  {
    var s' := Apply(s, Serve(p));
    TotalUpdate(s.producers, p, s'.producers[p], Owes, mid);
    TotalUpdate(s.producers, p, s'.producers[p], Releases, mid);
    DecrementRefs(s.messages[mid]);
  }

  lemma ProducerRefs(s: State, e: Event, mid: nat)
    requires Typed(s) && Enabled(s, e) && (e.Exchange? || e.Enqueue? || e.Release?) && mid < |s.messages|
    requires Counted(s.messages[mid], Owed(s, mid), BeingFreed(s, mid))
    ensures var s' := Apply(s, e); Counted(s'.messages[mid], Owed(s', mid), BeingFreed(s', mid))
  {
    var s', t := Apply(s, e), s.producers[e.p];
    TotalUpdate(s.producers, e.p, s'.producers[e.p], Owes, mid);
    TotalUpdate(s.producers, e.p, s'.producers[e.p], Releases, mid);
    if e.Exchange? {
      TotalUpdate(s.services, t.sid, s'.services[t.sid], InMail, mid);
    }
  }

  lemma TakeRefs(s: State, w: nat, mid: nat)
    requires Typed(s) && Enabled(s, TryDequeue(w)) && mid < |s.messages|
    requires Counted(s.messages[mid], Owed(s, mid), BeingFreed(s, mid))
    ensures var s' := Apply(s, TryDequeue(w)); Counted(s'.messages[mid], Owed(s', mid), BeingFreed(s', mid))
  {
    var s', sid := Apply(s, TryDequeue(w)), s.workers[w].sid;
    TotalUpdate(s.workers, w, s'.workers[w], InHand, mid);
    TotalUpdate(s.workers, w, s'.workers[w], Frees, mid);
    if s.services[sid].mail != [] {
      TotalUpdate(s.services, sid, s'.services[sid], InMail, mid);
      MailPop(s.services[sid].mail, mid);
    }
  }

  lemma HandleOwed(s: State, w: nat, mid: nat)
    requires Typed(s) && Enabled(s, Handle(w)) && mid < |s.messages|
    ensures Owed(Handled(s, w), mid) == Owed(s, mid) - If(s.workers[w].mid == mid, 1)
    ensures BeingFreed(Handled(s, w), mid)
            == BeingFreed(s, mid) + If(s.workers[w].mid == mid && Decrement(s.messages[mid]).refs == 0, 1)
  {
    var s', t := Handled(s, w), s.workers[w];
    TotalUpdate(s.workers, w, s'.workers[w], InHand, mid);
    TotalUpdate(s.workers, w, s'.workers[w], Frees, mid);
    TotalUpdate(s.services, t.sid, s'.services[t.sid], InMail, mid);
  }

  lemma HandleRefs(s: State, w: nat, mid: nat)
    requires Typed(s) && Enabled(s, Handle(w)) && mid < |s.messages|
    requires Counted(s.messages[mid], Owed(s, mid), BeingFreed(s, mid))
    ensures var s' := Handled(s, w); Counted(s'.messages[mid], Owed(s', mid), BeingFreed(s', mid))
  {
    HandleOwed(s, w, mid);
    DecrementRefs(s.messages[mid]);
  }

  lemma IdleRefs(s: State, e: Event, mid: nat)
    requires Typed(s) && Enabled(s, e) && (e.Dequeue? || e.Free? || e.Store?) && mid < |s.messages|
    requires Counted(s.messages[mid], Owed(s, mid), BeingFreed(s, mid))
    ensures var s' := Apply(s, e); Counted(s'.messages[mid], Owed(s', mid), BeingFreed(s', mid))
  {
    var s', t := Apply(s, e), s.workers[e.w];
    TotalUpdate(s.workers, e.w, s'.workers[e.w], InHand, mid);
    TotalUpdate(s.workers, e.w, s'.workers[e.w], Frees, mid);
    if e.Store? {
      TotalUpdate(s.services, t.sid, s'.services[t.sid], InMail, mid);
    }
  }

  lemma StepRefs(s: State, e: Event)
    requires Typed(s) && Enabled(s, e) && RefsOk(s)
    ensures RefsOk(Apply(s, e))
  {
    var s' := Apply(s, e);
    forall mid | 0 <= mid < |s'.messages|
      ensures Counted(s'.messages[mid], Owed(s', mid), BeingFreed(s', mid))
    {
      if e.Start? {
        StartRefs(s, e.p, e.count, e.dsts, mid);
      } else {
        assert Counted(s.messages[mid], Owed(s, mid), BeingFreed(s, mid));
        match e
        case Start(_, _, _) =>
        case Serve(p) =>
          if s.producers[p].rest != [] && s.producers[p].rest[0].Some? {
            PushRefs(s, p, mid);
          } else {
            MissRefs(s, p, mid);
          }
        case TryDequeue(w) => TakeRefs(s, w, mid);
        case Handle(w) => HandleRefs(s, w, mid);
        case Exchange(_) => ProducerRefs(s, e, mid);
        case Enqueue(_) => ProducerRefs(s, e, mid);
        case Release(_) => ProducerRefs(s, e, mid);
        case Dequeue(_, _) => IdleRefs(s, e, mid);
        case Free(_) => IdleRefs(s, e, mid);
        case Store(_) => IdleRefs(s, e, mid);
      }
    }
  }

  // ---------------------------------------------------------------------------------------------------------
  // Every interleaving

  ghost predicate Inv(s: State) {
    Typed(s) && TokensOk(s) && OrderOk(s) && RefsOk(s)
  }

  ghost predicate Initial(s: State) {
    && s.ready == multiset{} && s.messages == []
    && (forall i :: 0 <= i < |s.services| ==> s.services[i] == Service(false, [], [], [], []))
    && (forall p :: 0 <= p < |s.producers| ==> s.producers[p].Idle?)
    && (forall w :: 0 <= w < |s.workers| ==> s.workers[w].Waiting?)
  }

  /** es is a run from s to s'. */
  ghost predicate Run(s: State, es: seq<Event>, s': State)
    requires Typed(s)
    decreases |es|
  {
    if es == [] then s == s'
    else Enabled(s, es[0]) && (StepTyped(s, es[0]); Run(Apply(s, es[0]), es[1..], s'))
  }

  lemma InitialInv(s: State)
    requires Initial(s)
    ensures Inv(s)
  {
    forall sid | 0 <= sid < |s.services|
      ensures Tokens(s, sid) == 0 && Total(s.workers, Busy, sid) == 0
    {
      TotalZero(s.producers, Claims, sid);
      TotalZero(s.workers, Holds, sid);
      TotalZero(s.workers, Busy, sid);
    }
  }

  /** Every state of every run, whatever the interleaving, satisfies the invariant. */
  lemma {:induction false} RunInv(s: State, es: seq<Event>, s': State)
    requires Inv(s) && Run(s, es, s')
    ensures Inv(s')
    decreases |es|
  {
    if es != [] {
      var e := es[0];
      StepTyped(s, e);
      StepTokens(s, e);
      StepOrder(s, e);
      StepRefs(s, e);
      RunInv(Apply(s, e), es[1..], s');
    }
  }

  lemma {:induction false} FewHits(count: nat, resets: nat)
    requires count < WORD && resets < count + WORD
    ensures Hits(count, resets) == If(0 < count <= resets, 1)
    decreases resets
  {
    if resets > 0 {
      FewHits(count, resets - 1);
    }
  }

  /** In no run do two workers hold one service, and a mailbox is consumed in the order it was filled. */
  lemma OneConsumerInOrder(s: State, es: seq<Event>, s': State, sid: nat)
    requires Initial(s) && Typed(s) && Run(s, es, s') && sid < |s'.services|
    ensures Tokens(s', sid) == If(s'.services[sid].flag, 1)
    ensures forall i, j :: 0 <= i < j < |s'.workers| ==> !(InCharge(s'.workers[i], sid) && InCharge(s'.workers[j], sid))
    ensures var v := s'.services[sid];
            && v.pushed == v.taken + v.mail
            && (v.handled == v.taken
                || exists w :: 0 <= w < |s'.workers| && s'.workers[w].Processing? && s'.workers[w].sid == sid
                               && v.taken == v.handled + [s'.workers[w].mid])
  {
    InitialInv(s);
    RunInv(s, es, s');
    forall i, j | 0 <= i < j < |s'.workers|
      ensures !(InCharge(s'.workers[i], sid) && InCharge(s'.workers[j], sid))
    {
      if InCharge(s'.workers[i], sid) && InCharge(s'.workers[j], sid) {
        OneWorker(s', i, j);
      }
    }
    var v := s'.services[sid];
    assert Ordered(v, Total(s'.workers, Busy, sid));
    BusyHolds(s'.workers, sid);
    if v.handled != v.taken {
      var w := TotalSome(s'.workers, Busy, sid);
      assert Carries(s', s'.workers[w]);
      assert v.taken == v.handled + [v.taken[|v.taken| - 1]];
    }
  }

  /**
   * A send whose count is the number of its destinations frees the body once, after its last delivery: freed, or
   * about to be, if and only if no reference is left.
   */
  lemma FreedOnceAfterLast(s: State, es: seq<Event>, s': State, mid: nat)
    requires Initial(s) && Typed(s) && Run(s, es, s') && mid < |s'.messages|
    requires var m := s'.messages[mid]; 0 < m.count == m.dests
    ensures var m := s'.messages[mid];
            && m.resets + Owed(s', mid) == m.count
            && m.freed + BeingFreed(s', mid) == If(Owed(s', mid) == 0, 1)
    ensures s'.messages[mid].freed > 0 ==> forall sid :: 0 <= sid < |s'.services| ==> mid !in s'.services[sid].mail
  {
    InitialInv(s);
    RunInv(s, es, s');
    var m := s'.messages[mid];
    assert Counted(m, Owed(s', mid), BeingFreed(s', mid));
    FewHits(m.count, m.resets);
    if m.freed > 0 {
      forall sid | 0 <= sid < |s'.services|
        ensures mid !in s'.services[sid].mail
      {
        TotalHas(s'.services, sid, InMail, mid);
      }
    }
  }
}
