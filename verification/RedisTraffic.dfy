module RedisTraffic {
  // What a Redis client transmits over whole runs, byte for byte, and what the server reads from it.

  import opened Wrappers
  import opened Sequences
  import opened Bytes
  import opened Decimal
  import opened Resp
  import opened RedisClient
  import RespRoundTrip

  // ---------------------------------------------------------------------------------------------------------
  // The bytes of a command

  /** $, the length, a line end, the bytes and a line end. */
  function Argument(arg: seq<byte>): seq<byte> {
    [36] + ToDecimal(|arg|) + [13, 10] + arg + [13, 10]
  }

  function Arguments(args: seq<seq<byte>>): seq<byte> {
    if args == [] then [] else Arguments(args[..|args| - 1]) + Argument(args[|args| - 1])
  }

  lemma ArgumentsStep(init: seq<seq<byte>>, last: seq<byte>)
    ensures Arguments(init + [last]) == Arguments(init) + Argument(last)
  {
    assert (init + [last])[..|init|] == init;
  }

  lemma {:induction false} ArgumentsAppend(arg: seq<byte>, args: seq<seq<byte>>)
    ensures Arguments([arg] + args) == Argument(arg) + Arguments(args)
    decreases |args|
  {
    if args == [] {
      ArgumentsStep([], arg);
      assert [arg] + args == [] + [arg];
    } else {
      var init, last := args[..|args| - 1], args[|args| - 1];
      assert args == init + [last];
      assert [arg] + args == ([arg] + init) + [last];
      ArgumentsStep([arg] + init, last);
      ArgumentsStep(init, last);
      ArgumentsAppend(arg, init);
      Associative(Argument(arg), Arguments(init), Argument(last));
    }
  }

  /** A command is *, the number of arguments, a line end, and the arguments in order. */
  lemma {:induction false} PrintedIs(args: seq<seq<byte>>)
    ensures PrintedAll(args) == Arguments(args)
  {
    if args != [] {
      PrintedIs(args[1..]);
      ArgumentsAppend(args[0], args[1..]);
      assert [args[0]] + args[1..] == args;
    }
  }

  lemma CommandBytes(args: seq<seq<byte>>)
    ensures Command(args) == [42] + ToDecimal(|args|) + [13, 10] + Arguments(args)
  {
    PrintedIs(args);
  }

  // ---------------------------------------------------------------------------------------------------------
  // What a run transmits

  /** AUTH and the password when a connection comes up, if there is a password; a command when it is put in flight. */
  ghost function Transmits(s: Session, e: Input, password: seq<byte>): seq<seq<seq<byte>>> {
    match e
    case Up => if password == [] then [] else [[[65, 85, 84, 72], password]]
    case Run(_, args) => if s.c.link == Connected && s.c.inflight == None then [args] else []
    case _ => []
  }

  ghost function Transmitted(s: Session, es: seq<Input>, password: seq<byte>, finite: seq<byte> -> bool): seq<seq<seq<byte>>>
    decreases |es|
  {
    if es == [] then []
    else Transmits(s, es[0], password) + Transmitted(Step(s, es[0], password, finite), es[1..], password, finite)
  }

  /** The commands one after the other. */
  function Commands(cs: seq<seq<seq<byte>>>): seq<byte> {
    if cs == [] then [] else Command(cs[0]) + Commands(cs[1..])
  }

  lemma {:induction false} CommandsAppend(cs: seq<seq<seq<byte>>>, ds: seq<seq<seq<byte>>>)
    ensures Commands(cs + ds) == Commands(cs) + Commands(ds)
  {
    if cs == [] {
      assert cs + ds == ds;
    } else {
      assert (cs + ds)[1..] == cs[1..] + ds;
      CommandsAppend(cs[1..], ds);
      Associative(Command(cs[0]), Commands(cs[1..]), Commands(ds));
    }
  }

  /** A client that is Authenticating or Connected has a connection, and that connection is up. */
  ghost predicate Linked(s: Session) {
    && (s.c.link.Authenticating? || s.c.link.Connected? ==> s.c.connected && s.up)
    && (s.c.inflight.Some? ==> s.c.link.Connected?)
  }

  lemma {:induction false} ReceiveSends(c: ConnState, buffer: seq<byte>, finite: seq<byte> -> bool)
    ensures var d := Receive(c, buffer, finite).0;
            && d.sent == c.sent
            && (d.link == c.link || c.link.Authenticating? || d.link.Disconnected?)
            && (d.link.Connected? || d.link.Authenticating? ==> d.connected == c.connected)
            && (d.inflight.Some? && (c.inflight.Some? ==> c.link.Connected?) ==> d.link.Connected?)
    decreases |buffer|
  {
    if buffer != [] && Parse(buffer, finite).Done? {
      var r := Parse(buffer, finite);
      if c.link.Authenticating? || (c.link.Connected? && c.inflight.Some?) {
        ReceiveSends(Replying(c, r.reply), buffer[r.used..], finite);
      }
    }
  }

  /** One event sends exactly the commands it transmits, behind what was sent before. */
  lemma StepSends(s: Session, e: Input, password: seq<byte>, finite: seq<byte> -> bool)
    requires Linked(s) && Possible(s, e)
    ensures Linked(Step(s, e, password, finite))
    ensures Step(s, e, password, finite).c.sent == s.c.sent + Commands(Transmits(s, e, password))
  {
    match e
    case Up => OneCommand([[65, 85, 84, 72], password]);
    case Down =>
    case Run(_, args) => OneCommand(args);
    case Data(bytes) => ReceiveSends(s.c, s.buffer + bytes, finite);
  }

  lemma OneCommand(args: seq<seq<byte>>)
    ensures Commands([args]) == Command(args)
  {
    assert [args][1..] == [];
  }

  lemma {:induction false} RunSends(s: Session, es: seq<Input>, password: seq<byte>, finite: seq<byte> -> bool, s': Session)
    requires Linked(s) && Runs(s, es, password, finite, s')
    ensures Linked(s')
    ensures s'.c.sent == s.c.sent + Commands(Transmitted(s, es, password, finite))
    decreases |es|
  {
    if es != [] {
      var t := Step(s, es[0], password, finite);
      StepSends(s, es[0], password, finite);
      RunSends(t, es[1..], password, finite, s');
      CommandsAppend(Transmits(s, es[0], password), Transmitted(t, es[1..], password, finite));
      Associative(s.c.sent, Commands(Transmits(s, es[0], password)), Commands(Transmitted(t, es[1..], password, finite)));
    }
  }

  ghost predicate Sendable(cs: seq<seq<seq<byte>>>) {
    forall i :: 0 <= i < |cs| ==>
      |cs[i]| <= 0xFFFF_FFFF && forall j :: 0 <= j < |cs[i]| ==> |cs[i][j]| < 0x8000_0000_0000_0000
  }

  /** The commands as a server takes them: arrays of strings. */
  function Requests(cs: seq<seq<seq<byte>>>): (rs: seq<Reply>)
    ensures |rs| == |cs|
    ensures forall i :: 0 <= i < |cs| ==>
              rs[i].Array? && |rs[i].elements| == |cs[i]|
              && forall j :: 0 <= j < |cs[i]| ==> rs[i].elements[j] == Str(cs[i][j])
  {
    if cs == [] then [] else [Array(Strings(cs[0]))] + Requests(cs[1..])
  }

  lemma {:induction false} CommandsRead(cs: seq<seq<seq<byte>>>, finite: seq<byte> -> bool)
    requires Sendable(cs)
    ensures ParseMany(Commands(cs), |cs|, finite) == All(Requests(cs), |Commands(cs)|)
  {
    ManyUnfold(Commands(cs), |cs|, finite);
    if cs != [] {
      ParseCommand(cs[0], Commands(cs[1..]), finite);
      CommandsRead(cs[1..], finite);
      Headed(Command(cs[0]), Commands(cs[1..]), []);
    }
  }

  /**
   * In every run from init the bytes sent are AUTH with the password for each connection that came up and each command
   * put in flight, in this order and nothing else; a server that parses them reads exactly these argument lists.
   */
  lemma SentExactly(es: seq<Input>, password: seq<byte>, finite: seq<byte> -> bool, s: Session)
    requires Runs(Fresh(), es, password, finite, s)
    ensures var cs := Transmitted(Fresh(), es, password, finite);
            && s.c.sent == Commands(cs)
            && (Sendable(cs) ==> ParseMany(s.c.sent, |cs|, finite) == All(Requests(cs), |s.c.sent|))
    ensures s.c.link.Connected? || s.c.link.Authenticating? ==> s.c.connected && s.up
  {
    RunSends(Fresh(), es, password, finite, s);
    var cs := Transmitted(Fresh(), es, password, finite);
    assert s.c.sent == Commands(cs);
    if Sendable(cs) {
      CommandsRead(cs, finite);
    }
  }

  // ---------------------------------------------------------------------------------------------------------
  // A command and its reply

  /** A printed reply to a command: its callback is given exactly that reply, and the client is idle again. */
  lemma ReplyDelivered(s: Session, id: nat, args: seq<seq<byte>>, w: RespRoundTrip.Wire, password: seq<byte>,
                       finite: seq<byte> -> bool)
    requires s.c.link.Connected? && s.c.connected && s.c.inflight.None? && s.up && s.buffer == []
    requires RespRoundTrip.Sane(w, finite)
    ensures var s1 := Step(s, Run(id, args), password, finite);
            Step(s1, Data(RespRoundTrip.Print(w)), password, finite)
            == s.(c := s.c.(sent := s.c.sent + Command(args),
                            calls := s.c.calls + [Result(id, Replied(RespRoundTrip.Given(w)), true)]),
                  issued := s.issued + [id])
  {
    var s1 := Step(s, Run(id, args), password, finite);
    var bytes := RespRoundTrip.Print(w);
    RespRoundTrip.ReplyRoundTrip(w, [], finite);
    assert bytes + [] == bytes && s.buffer + bytes == bytes && bytes[|bytes|..] == [];
    FirstReply(s1.c, bytes, finite);
  }
}
