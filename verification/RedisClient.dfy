module RedisClient {
  // The Redis client: a four-state connection with at most one command in flight.
  //
  // The functions on ConnState are the meaning of the class methods below; `calls` is the history of callbacks.

  import opened Wrappers
  import opened Bytes
  import opened Decimal
  import opened Resp
  import opened RespParser
  import RespRoundTrip

  datatype Link = Disconnected | Connecting | Authenticating | Connected

  /** What an execute callback is told. */
  datatype Outcome = NotReady | Busy | Closed | Replied(reply: Reply)

  /** m_onReady, or the callback of command `id`; `idle` is isIdle() at the time of the call. */
  datatype Callback = Ready(success: bool) | Result(id: nat, outcome: Outcome, idle: bool)

  /**
   * link is m_state, inflight the command waiting for its reply, pendingReady an m_onReady not yet called,
   * connected a non-null m_connection.
   */
  datatype ConnState = ConnState(
    link: Link, inflight: Option<nat>, pendingReady: bool, connected: bool, sent: seq<byte>, calls: seq<Callback>)

  predicate Idle(c: ConnState) {
    c.link.Connected? && c.inflight.None?
  }

  function FireReady(c: ConnState, success: bool): ConnState {
    if !c.pendingReady then c else c.(pendingReady := false, calls := c.calls + [Ready(success)])
  }

  function Answer(c: ConnState, id: nat, outcome: Outcome): ConnState {
    c.(calls := c.calls + [Result(id, outcome, Idle(c))])
  }

  function FailInflight(c: ConnState): ConnState {
    if c.inflight.None? then c else Answer(c.(inflight := None), c.inflight.value, Closed)
  }

  function SetState(c: ConnState, link: Link): ConnState {
    if c.link == link then c
    else if link.Connected? then FireReady(c.(link := link), true)
    else if link.Disconnected? then FireReady(FailInflight(c.(link := link, connected := false)), false)
    else c.(link := link)
  }

  function Send(c: ConnState, args: seq<seq<byte>>): ConnState {
    if !c.connected then c else c.(sent := c.sent + Command(args))
  }

  const AUTH: seq<byte> := [65, 85, 84, 72]
  const OK: seq<byte> := [79, 75]

  function ConnectUp(c: ConnState, password: seq<byte>): ConnState {
    var c := c.(connected := true);
    if password != [] then Send(SetState(c, Authenticating), [AUTH, password]) else SetState(c, Connected)
  }

  function Execute(c: ConnState, id: nat, args: seq<seq<byte>>): ConnState {
    if !c.link.Connected? then Answer(c, id, NotReady)
    else if c.inflight.Some? then Answer(c, id, Busy)
    else Send(c, args).(inflight := Some(id))
  }

  /** Handle the data received so far; what cannot be handled yet stays in the buffer. */
  ghost function Receive(c: ConnState, buffer: seq<byte>, finite: seq<byte> -> bool): (r: (ConnState, seq<byte>))
    ensures |r.1| <= |buffer|
    decreases |buffer|
  {
    if buffer == [] || c.link.Disconnected? || c.link.Connecting? then (c, buffer)
    else if c.link.Connected? && c.inflight.None? then (SetState(c, Disconnected), buffer)
    else
      match Parse(buffer, finite)
      case Incomplete => (c, buffer)
      case Done(reply, used) => Receive(Replying(c, reply), buffer[used..], finite)
  }

  /** One complete reply: to AUTH, or to the command in flight. */
  function Replying(c: ConnState, reply: Reply): ConnState
    requires c.link.Authenticating? || (c.link.Connected? && c.inflight.Some?)
  {
    if c.link.Authenticating? then SetState(c, if reply == Str(OK) then Connected else Disconnected)
    else Answer(c.(inflight := None), c.inflight.value, Replied(reply))
  }

  // ---------------------------------------------------------------------------------------------------------
  // What every run keeps

  /**
   * A command is in flight only while Connected, the ready callback is pending only before that, and a client that is
   * Authenticating or Connected has a connection, which one that is Disconnected has not.
   */
  ghost predicate Consistent(c: ConnState) {
    && (c.inflight.Some? ==> c.link.Connected?)
    && (c.pendingReady ==> c.link.Connecting? || c.link.Authenticating?)
    && (c.connected ==> !c.link.Disconnected?)
    && (c.link.Authenticating? || c.link.Connected? ==> c.connected)
  }

  /** How often the callback of command `id` has run. */
  ghost function Answers(calls: seq<Callback>, id: nat): nat {
    if calls == [] then 0 else Answers(calls[..|calls| - 1], id) + if IsAnswer(calls[|calls| - 1], id) then 1 else 0
  }

  predicate IsAnswer(c: Callback, id: nat) {
    c.Result? && c.id == id
  }

  ghost function Readies(calls: seq<Callback>): nat {
    if calls == [] then 0 else Readies(calls[..|calls| - 1]) + if calls[|calls| - 1].Ready? then 1 else 0
  }

  ghost function Flying(c: ConnState, id: nat): nat {
    if c.inflight == Some(id) then 1 else 0
  }

  datatype Input = Up | Down | Run(id: nat, args: seq<seq<byte>>) | Data(bytes: seq<byte>)

  /** A client between events: its state, the unhandled bytes, whether the TCP connection is up, the commands issued. */
  datatype Session = Session(c: ConnState, buffer: seq<byte>, up: bool, issued: seq<nat>)

  /** Connections come up only when none is up; data arrives only on one that is. */
  ghost predicate Possible(s: Session, e: Input) {
    match e
    case Up => !s.up
    case Down => true
    case Run(_, _) => true
    case Data(_) => s.up
  }

  ghost function Step(s: Session, e: Input, password: seq<byte>, finite: seq<byte> -> bool): Session {
    match e
    case Up => s.(c := ConnectUp(s.c, password), up := true, buffer := [])
    case Down => s.(c := SetState(s.c, Disconnected), up := false)
    case Run(id, args) => s.(c := Execute(s.c, id, args), issued := s.issued + [id])
    case Data(bytes) => var (c, rest) := Receive(s.c, s.buffer + bytes, finite); s.(c := c, buffer := rest)
  }

  /** How often a command has been issued under the id. */
  ghost function Issues(issued: seq<nat>, id: nat): nat {
    multiset(issued)[id]
  }

  /** Command `id` has been answered or is in flight, once per time it was issued. */
  ghost predicate Accounted(c: ConnState, issued: seq<nat>, id: nat) {
    Answers(c.calls, id) + Flying(c, id) == Issues(issued, id)
  }

  /** The ready callback has run once, or is pending. */
  ghost predicate ReadyOnce(c: ConnState) {
    Readies(c.calls) + (if c.pendingReady then 1 else 0) == 1
  }

  lemma OneCall(calls: seq<Callback>, call: Callback, id: nat)
    ensures Readies(calls + [call]) == Readies(calls) + if call.Ready? then 1 else 0
    ensures Answers(calls + [call], id) == Answers(calls, id) + if IsAnswer(call, id) then 1 else 0
  {
    assert (calls + [call])[..|calls|] == calls;
  }

  lemma ReadyKeeps(c: ConnState, success: bool, issued: seq<nat>, id: nat)
    requires Accounted(c, issued, id) && ReadyOnce(c)
    ensures Accounted(FireReady(c, success), issued, id) && ReadyOnce(FireReady(c, success))
  {
    OneCall(c.calls, Ready(success), id);
  }

  /** Answering the command in flight settles it. */
  lemma SettleKeeps(c: ConnState, outcome: Outcome, issued: seq<nat>, id: nat)
    requires Accounted(c, issued, id) && ReadyOnce(c) && c.inflight.Some?
    ensures var d := Answer(c.(inflight := None), c.inflight.value, outcome); Accounted(d, issued, id) && ReadyOnce(d)
  {
    OneCall(c.calls, Result(c.inflight.value, outcome, Idle(c.(inflight := None))), id);
  }

  lemma SetStateKeeps(c: ConnState, link: Link, issued: seq<nat>, id: nat)
    requires Accounted(c, issued, id) && ReadyOnce(c)
    ensures Accounted(SetState(c, link), issued, id) && ReadyOnce(SetState(c, link))
  {
    if link.Connected? {
      ReadyKeeps(c.(link := link), true, issued, id);
    } else if link.Disconnected? {
      var d := c.(link := link, connected := false);
      if d.inflight.Some? {
        SettleKeeps(d, Closed, issued, id);
      }
      ReadyKeeps(FailInflight(d), false, issued, id);
    }
  }

  lemma ExecuteKeeps(c: ConnState, cmd: nat, args: seq<seq<byte>>, issued: seq<nat>, id: nat)
    requires Accounted(c, issued, id) && ReadyOnce(c)
    ensures Accounted(Execute(c, cmd, args), issued + [cmd], id) && ReadyOnce(Execute(c, cmd, args))
  {
    OneCall(c.calls, Result(cmd, NotReady, Idle(c)), id);
    OneCall(c.calls, Result(cmd, Busy, Idle(c)), id);
    assert multiset(issued + [cmd])[id] == multiset(issued)[id] + if cmd == id then 1 else 0;
  }

  lemma {:induction false} ReceiveKeeps(c: ConnState, buffer: seq<byte>, finite: seq<byte> -> bool, issued: seq<nat>, id: nat)
    requires Accounted(c, issued, id) && ReadyOnce(c) && Consistent(c)
    ensures var d := Receive(c, buffer, finite).0; Accounted(d, issued, id) && ReadyOnce(d) && Consistent(d)
    ensures Receive(c, buffer, finite).0.link.Disconnected? || Receive(c, buffer, finite).0.link == c.link
            || c.link.Authenticating?
    decreases |buffer|
  {
    if buffer == [] || c.link.Disconnected? || c.link.Connecting? {
    } else if c.link.Connected? && c.inflight.None? {
      SetStateKeeps(c, Disconnected, issued, id);
    } else if Parse(buffer, finite).Done? {
      var r := Parse(buffer, finite);
      if c.link.Authenticating? {
        SetStateKeeps(c, if r.reply == Str(OK) then Connected else Disconnected, issued, id);
      } else {
        SettleKeeps(c, Replied(r.reply), issued, id);
      }
      ReceiveKeeps(Replying(c, r.reply), buffer[r.used..], finite, issued, id);
    }
  }

  ghost predicate SessionOk(s: Session, id: nat) {
    && Consistent(s.c) && Accounted(s.c, s.issued, id) && ReadyOnce(s.c)
    && (s.c.link.Authenticating? || s.c.link.Connected? ==> s.up)
  }

  lemma StepKeeps(s: Session, e: Input, password: seq<byte>, finite: seq<byte> -> bool, id: nat)
    requires SessionOk(s, id) && Possible(s, e)
    ensures SessionOk(Step(s, e, password, finite), id)
  {
    match e
    case Up => SetStateKeeps(s.c.(connected := true), if password != [] then Authenticating else Connected, s.issued, id);
    case Down => SetStateKeeps(s.c, Disconnected, s.issued, id);
    case Run(cmd, args) => ExecuteKeeps(s.c, cmd, args, s.issued, id);
    case Data(bytes) => ReceiveKeeps(s.c, s.buffer + bytes, finite, s.issued, id);
  }

  ghost predicate Runs(s: Session, es: seq<Input>, password: seq<byte>, finite: seq<byte> -> bool, s': Session)
    decreases |es|
  {
    if es == [] then s == s'
    else Possible(s, es[0]) && Runs(Step(s, es[0], password, finite), es[1..], password, finite, s')
  }

  /** A client after init. */
  ghost function Fresh(): Session {
    Session(ConnState(Connecting, None, true, false, [], []), [], false, [])
  }

  lemma {:induction false} RunsKeep(s: Session, es: seq<Input>, password: seq<byte>, finite: seq<byte> -> bool, s': Session, id: nat)
    requires SessionOk(s, id) && Runs(s, es, password, finite, s')
    ensures SessionOk(s', id)
    decreases |es|
  {
    if es != [] {
      StepKeeps(s, es[0], password, finite, id);
      RunsKeep(Step(s, es[0], password, finite), es[1..], password, finite, s', id);
    }
  }

  /**
   * In every run a command is in flight only while Connected, a command issued once is called back at most once, and
   * exactly once unless it is still in flight, and the ready callback runs at most once.
   */
  lemma CalledBackOnce(es: seq<Input>, password: seq<byte>, finite: seq<byte> -> bool, s: Session, id: nat)
    requires Runs(Fresh(), es, password, finite, s)
    ensures s.c.inflight.Some? ==> s.c.link.Connected?
    ensures Answers(s.c.calls, id) == Issues(s.issued, id) - Flying(s.c, id)
    ensures Readies(s.c.calls) == if s.c.pendingReady then 0 else 1
  {
    RunsKeep(Fresh(), es, password, finite, s, id);
  }

  /** A complete reply, or the end of the connection, answers the command in flight. */
  lemma Answered(c: ConnState, buffer: seq<byte>, finite: seq<byte> -> bool)
    requires c.link.Connected? && c.inflight.Some?
    ensures Parse(buffer, finite).Done? ==>
              var d := Receive(c, buffer, finite).0;
              d.inflight.None? && |d.calls| > |c.calls| && d.calls[..|c.calls|] == c.calls
              && d.calls[|c.calls|] == Result(c.inflight.value, Replied(Parse(buffer, finite).reply), true)
    ensures var d := SetState(c, Disconnected);
            d.inflight.None? && |d.calls| > |c.calls| && d.calls[|c.calls|] == Result(c.inflight.value, Closed, false)
  {
    if Parse(buffer, finite).Done? {
      var r := Parse(buffer, finite);
      var d := Replying(c, r.reply);
      ReceiveOnly(d, buffer[r.used..], finite);
    }
  }

  /** With nothing in flight further data only ends the connection. */
  lemma ReceiveOnly(c: ConnState, buffer: seq<byte>, finite: seq<byte> -> bool)
    requires c.link.Connected? && c.inflight.None?
    ensures Receive(c, buffer, finite) == (if buffer == [] then c else SetState(c, Disconnected), buffer)
  {
  }

  /** However the bytes of a connection are cut into pieces, handling them comes to the same. */
  lemma {:induction false} ReceiveSplit(c: ConnState, a: seq<byte>, b: seq<byte>, finite: seq<byte> -> bool)
    ensures var (d, rest) := Receive(c, a, finite); Receive(d, rest + b, finite) == Receive(c, a + b, finite)
    decreases |a|
  {
    if a == [] {
      assert a + b == b;
    } else if c.link.Disconnected? || c.link.Connecting? || (c.link.Connected? && c.inflight.None?) {
    } else if Parse(a, finite).Done? {
      var r := Parse(a, finite);
      ParseExtends(a, b, finite);
      assert (a + b)[r.used..] == a[r.used..] + b;
      ReceiveSplit(Replying(c, r.reply), a[r.used..], b, finite);
    }
  }

  /** What the first complete reply does, in every state; OK is answered to AUTH as +OK and a line end. */
  lemma FirstReply(c: ConnState, buffer: seq<byte>, finite: seq<byte> -> bool)
    ensures c.link.Disconnected? || c.link.Connecting? ==> Receive(c, buffer, finite) == (c, buffer)
    ensures c.link.Authenticating? && buffer == [43, 79, 75, 13, 10] ==>
              Receive(c, buffer, finite).0.link.Connected? && Receive(c, buffer, finite).1 == []
    ensures c.link.Authenticating? && Parse(buffer, finite).Done? && Parse(buffer, finite).reply != Str([79, 75]) ==>
              Receive(c, buffer, finite).0.link.Disconnected?
    ensures c.link.Connected? && c.inflight.Some? && Parse(buffer, finite).Done? ==>
              var d := c.(inflight := None, calls := c.calls + [Result(c.inflight.value, Replied(Parse(buffer, finite).reply), true)]);
              Receive(c, buffer, finite).0 == (if Parse(buffer, finite).used == |buffer| then d else SetState(d, Disconnected))
              && Receive(c, buffer, finite).1 == buffer[Parse(buffer, finite).used..]
    ensures c.link.Connected? && c.inflight.None? && buffer != [] ==> Receive(c, buffer, finite).0.link.Disconnected?
  {
    if c.link.Authenticating? && buffer == [43, 79, 75, 13, 10] {
      assert RespRoundTrip.Print(RespRoundTrip.Simple([79, 75])) + [] == buffer;
      RespRoundTrip.ReplyRoundTrip(RespRoundTrip.Simple([79, 75]), [], finite);
      assert buffer[5..] == [];
    }
    if c.link.Connected? && c.inflight.Some? && Parse(buffer, finite).Done? {
      ReceiveOnly(Replying(c, Parse(buffer, finite).reply), buffer[Parse(buffer, finite).used..], finite);
    }
  }

  // ---------------------------------------------------------------------------------------------------------
  // The class

  class Client {
    const password: seq<byte>
    const finite: seq<byte> -> bool
    const parser: Parser
    var link: Link
    var connected: bool
    var inflight: Option<nat>
    var onReady: bool
    var buffer: seq<byte>
    var sent: seq<byte>
    ghost var calls: seq<Callback>

    ghost function State(): ConnState
      reads this
    {
      ConnState(link, inflight, onReady, connected, sent, calls)
    }

    ghost predicate Valid() {
      parser.finite == finite
    }

    /** Construction and init: the ready callback is set and the connection attempt starts. */
    constructor (password: seq<byte>, finite: seq<byte> -> bool)
      ensures Valid() && State() == ConnState(Connecting, None, true, false, [], []) && buffer == []
      ensures this.password == password && this.finite == finite
    {
      this.password, this.finite := password, finite;
      parser := new Parser(finite);
      link, connected, inflight, onReady := Connecting, false, None, true;
      buffer, sent, calls := [], [], [];
    }

    method CallReady(success: bool)
      modifies this`onReady, this`calls
      ensures State() == FireReady(old(State()), success)
    {
      if !onReady {
        return;
      }
      calls := calls + [Ready(success)];
      onReady := false;
    }

    method Respond(id: nat, outcome: Outcome)
      modifies this`calls
      ensures State() == Answer(old(State()), id, outcome)
    {
      calls := calls + [Result(id, outcome, link.Connected? && inflight.None?)];
    }

    method FailCommand()
      modifies this`inflight, this`calls
      ensures State() == FailInflight(old(State()))
    {
      if inflight.None? {
        return;
      }
      var id := inflight.value;
      inflight := None;
      Respond(id, Closed);
    }

    method ChangeState(newState: Link)
      modifies this`link, this`connected, this`inflight, this`onReady, this`calls
      ensures State() == SetState(old(State()), newState)
      ensures link == newState && (old(link) == newState ==> State() == old(State()))
      ensures old(link) != newState && newState == Connected ==>
                !onReady && calls == old(calls) + (if old(onReady) then [Ready(true)] else [])
                && connected == old(connected) && inflight == old(inflight)
      ensures old(link) != newState && newState == Disconnected ==>
                !connected && inflight == None && !onReady
                && calls == old(calls) + (if old(inflight).Some? then [Result(old(inflight).value, Closed, false)] else [])
                            + (if old(onReady) then [Ready(false)] else [])
    {
      if link == newState {
        return;
      }
      link := newState;
      match newState
      case Connected =>
        CallReady(true);
      case Disconnected =>
        connected := false;
        FailCommand();
        CallReady(false);
      case _ =>
    }

    method SendCommand(args: seq<seq<byte>>)
      modifies this`sent
      ensures State() == Send(old(State()), args)
      ensures sent == if connected then old(sent) + Command(args) else old(sent)
    {
      if !connected {
        return;
      }
      var msg: seq<byte> := [ARRAY] + ToDecimal(|args|) + [CR, LF];
      ghost var head := msg;
      var i := 0;
      while i < |args|
        invariant 0 <= i <= |args| && msg + PrintedAll(args[i..]) == head + PrintedAll(args)
        invariant sent == old(sent)
      {
        assert args[i..][1..] == args[i + 1..];
        msg := msg + ([BULK] + ToDecimal(|args[i]|) + [CR, LF] + args[i] + [CR, LF]);
        i := i + 1;
      }
      sent := sent + msg;
    }

    method OnConnect()
      modifies this`link, this`connected, this`inflight, this`onReady, this`calls, this`sent
      ensures State() == ConnectUp(old(State()), password)
      ensures connected && (old(link) == Disconnected || old(link) == Connecting ==>
                && link == (if password == [] then Connected else Authenticating)
                && sent == old(sent) + (if password == [] then [] else Command([[65, 85, 84, 72], password])))
    {
      connected := true;
      if |password| > 0 {
        ChangeState(Authenticating);
        SendCommand([AUTH, password]);
      } else {
        ChangeState(Connected);
      }
    }

    /** onDisconnect, the connection-error callback and disconnect(). */
    method OnDisconnect()
      modifies this`link, this`connected, this`inflight, this`onReady, this`calls
      ensures State() == SetState(old(State()), Disconnected)
      ensures link == Disconnected
    {
      ChangeState(Disconnected);
    }

    method ExecuteCommand(id: nat, args: seq<seq<byte>>)
      modifies this`inflight, this`sent, this`calls
      ensures State() == Execute(old(State()), id, args)
      ensures old(link) != Connected ==>
                calls == old(calls) + [Result(id, NotReady, false)] && sent == old(sent) && inflight == old(inflight)
      ensures old(link) == Connected && old(inflight).Some? ==>
                calls == old(calls) + [Result(id, Busy, false)] && sent == old(sent) && inflight == old(inflight)
      ensures old(link) == Connected && old(inflight).None? ==>
                inflight == Some(id) && calls == old(calls)
                && sent == if connected then old(sent) + Command(args) else old(sent)
    {
      if link != Connected {
        Respond(id, NotReady);
        return;
      }
      if inflight.Some? {
        Respond(id, Busy);
        return;
      }
      SendCommand(args);
      inflight := Some(id);
    }

    /** The message callback, after `data` has been appended to the connection's buffer. */
    method OnMessage(data: seq<byte>)
      requires Valid()
      modifies this
      ensures (State(), buffer) == Receive(old(State()), old(buffer) + data, finite)
      ensures old(link) == Authenticating && old(buffer) + data == [43, 79, 75, 13, 10] ==> link == Connected && buffer == []
      ensures old(link) == Authenticating ==>
                var first := Parse(old(buffer) + data, finite);
                first.Done? && first.reply != Str([79, 75]) ==> link == Disconnected
      ensures old(link) == Connected && old(inflight).None? && old(buffer) + data != [] ==> link == Disconnected
    {
      buffer := buffer + data;
      FirstReply(State(), buffer, finite);
      ghost var result := Receive(State(), buffer, finite);
      while |buffer| > 0
        invariant Receive(State(), buffer, finite) == result
        decreases |buffer|
      {
        var bytesBefore := |buffer|;
        match link {
          case Disconnected => return;
          case Connecting => return;
          case Authenticating =>
            var reply := parser.ParseReply(buffer);
            if reply.Incomplete? {
              return;
            }
            buffer := buffer[reply.used..];
            if reply.reply == Str(OK) {
              ChangeState(Connected);
            } else {
              OnDisconnect();
            }
          case Connected =>
            if inflight.None? {
              OnDisconnect();
            } else {
              var reply := parser.ParseReply(buffer);
              if reply.Incomplete? {
                return;
              }
              buffer := buffer[reply.used..];
              var id := inflight.value;
              inflight := None;
              Respond(id, Replied(reply.reply));
            }
        }
        if |buffer| == bytesBefore {
          break;
        }
      }
    }
  }
}
