module RespRoundTrip {
  // Replies as a RESP3 server prints them, byte for byte, and the theorem that parsing reads each of them back.

  import opened Wrappers
  import opened Hiding
  import opened Sequences
  import opened Bytes
  import opened Decimal
  import opened Resp

  /**
   * A reply on the wire. A null has the forms of a null bulk string, of a null aggregate of any kind and its own; a
   * boolean is any of four letters; an aggregate is an array (42), set (126), push (62), map (37) or attribute (124),
   * where the items of a map are its keys and values in turn.
   */
  datatype Wire = Simple(line: seq<byte>) | Failure(line: seq<byte>) | Number(i: int) | Bulk(bytes: seq<byte>)
                | NoBulk | NoItems(kind: byte) | Null | Truth(letter: byte) | Floating(line: seq<byte>)
                | Big(negative: bool, digits: seq<byte>) | Verbatim(format: seq<byte>, text: seq<byte>)
                | Items(kind: byte, items: Wires)

  datatype Wires = End | More(head: Wire, tail: Wires)

  function Count(ws: Wires): nat {
    match ws
    case End => 0
    case More(_, tail) => 1 + Count(tail)
  }

  predicate IsLine(line: seq<byte>) {
    forall i :: 0 <= i < |line| ==> line[i] != 13 && line[i] != 10
  }

  predicate IsAggregate(kind: byte) {
    kind == 42 || kind == 126 || kind == 62 || kind == 37 || kind == 124
  }

  /** A map and an attribute count pairs. */
  predicate CountsPairs(kind: byte) {
    kind == 37 || kind == 124
  }

  /** inf, -inf, nan and INF, NaN. */
  predicate IsSpecial(line: seq<byte>) {
    line == [105, 110, 102] || line == [45, 105, 110, 102] || line == [110, 97, 110] || line == [73, 78, 70]
    || line == [78, 97, 78]
  }

  predicate Sane(w: Wire, finite: seq<byte> -> bool) {
    match w
    case Simple(line) => IsLine(line)
    case Failure(line) => IsLine(line)
    case Number(i) => -0x8000_0000_0000_0000 <= i < 0x8000_0000_0000_0000
    case Bulk(bytes) => |bytes| < 0x8000_0000_0000_0000
    case NoItems(kind) => IsAggregate(kind)
    case Truth(letter) => letter == 116 || letter == 84 || letter == 102 || letter == 70
    case Floating(line) => IsLine(line) && 0 < |line| < 326 && (finite(line) || IsSpecial(line))
    case Big(_, digits) => forall i :: 0 <= i < |digits| ==> 48 <= digits[i] <= 57
    case Verbatim(format, text) => |format| == 3 && |text| + 4 < 0x8000_0000_0000_0000
    case Items(kind, items) =>
      && IsAggregate(kind) && AllSane(items, finite) && Count(items) <= 0xFFFF_FFFF
      && (CountsPairs(kind) ==> Count(items) % 2 == 0)
    case _ => true
  }

  predicate AllSane(ws: Wires, finite: seq<byte> -> bool) {
    match ws
    case End => true
    case More(head, tail) => Sane(head, finite) && AllSane(tail, finite)
  }

  function Signed(i: int): seq<byte> {
    if i < 0 then [45] + ToDecimal(-i) else ToDecimal(i)
  }

  /** A type byte, a line and CRLF. */
  function Line(kind: byte, line: seq<byte>): seq<byte> {
    [kind] + line + [13, 10]
  }

  /** The bytes on the wire: + - : $ * _ # , ( = and the aggregates' own type bytes. */
  function Print(w: Wire): seq<byte> {
    match w
    case Simple(line) => Line(43, line)
    case Failure(line) => Line(45, line)
    case Number(i) => Line(58, Signed(i))
    case Bulk(bytes) => Line(36, ToDecimal(|bytes|)) + bytes + [13, 10]
    case NoBulk => Line(36, [45, 49])
    case NoItems(kind) => Line(kind, [45, 49])
    case Null => Line(95, [])
    case Truth(letter) => Line(35, [letter])
    case Floating(line) => Line(44, line)
    case Big(negative, digits) => Line(40, if negative then [45] + digits else digits)
    case Verbatim(format, text) => Line(61, ToDecimal(|text| + 4)) + (format + [58] + text) + [13, 10]
    case Items(kind, items) =>
      Line(kind, ToDecimal(if CountsPairs(kind) then Count(items) / 2 else Count(items))) + PrintAll(items)
  }

  function PrintAll(ws: Wires): seq<byte> {
    match ws
    case End => []
    case More(head, tail) => Print(head) + PrintAll(tail)
  }

  /** What the client is given for it. */
  function Given(w: Wire): Reply {
    match w
    case Simple(line) => Str(line)
    case Failure(line) => Error(line)
    case Number(i) => Integer(i)
    case Bulk(bytes) => Str(bytes)
    case NoBulk => Nil
    case NoItems(_) => Nil
    case Null => Nil
    case Truth(letter) => Bool(letter == 116 || letter == 84)
    case Floating(line) => Double(line)
    case Big(negative, digits) => Str(if negative then [45] + digits else digits)
    case Verbatim(format, text) => Str(format + [58] + text)
    case Items(_, items) => Array(GivenAll(items))
  }

  function GivenAll(ws: Wires): (rs: seq<Reply>)
    ensures |rs| == Count(ws)
  {
    match ws
    case End => []
    case More(head, tail) => [Given(head)] + GivenAll(tail)
  }

  // ---------------------------------------------------------------------------------------------------------
  // Lines

  /** A line without a carriage return ends where its own CRLF is. */
  lemma LineFound(line: seq<byte>, rest: seq<byte>)
    requires forall i :: 0 <= i < |line| ==> line[i] != 13
    ensures FindCrLf(line + [13, 10] + rest) == Some(|line|)
  {
    var s := line + [13, 10] + rest;
    assert CrLfAt(s, |line|);
    assert forall i :: 0 <= i < |line| ==> s[i] == line[i];
  }

  lemma LineRead(kind: byte, line: seq<byte>, rest: seq<byte>, finite: seq<byte> -> bool)
    requires IsType(kind) && forall i :: 0 <= i < |line| ==> line[i] != 13
    ensures var s := Line(kind, line) + rest;
            && Parse(s, finite) == ParseBody(kind, Head(kind, line, finite), s, |line| + 3, finite)
            && s[|line| + 3..] == rest
  {
    var s := Line(kind, line) + rest;
    assert s[1..] == line + [13, 10] + rest;
    LineFound(line, rest);
    assert s[1..|line| + 1] == line;
    ParseUnfold(s, finite);
  }

  lemma HeadIs(kind: byte, line: seq<byte>, finite: seq<byte> -> bool)
    requires IsType(kind)
    ensures Head(kind, line, finite) == HeaderOf(kind, line, finite)
  {
    assert Opened(true);
  }

  /** A header that is the whole reply. */
  lemma WholeRead(kind: byte, line: seq<byte>, reply: Reply, rest: seq<byte>, finite: seq<byte> -> bool)
    requires IsType(kind) && forall i :: 0 <= i < |line| ==> line[i] != 13
    requires HeaderOf(kind, line, finite) == Whole(reply)
    ensures Parse(Line(kind, line) + rest, finite) == Done(reply, |Line(kind, line)|)
  {
    LineRead(kind, line, rest, finite);
    HeadIs(kind, line, finite);
  }

  lemma DigitsNoReturn(n: nat)
    ensures forall i :: 0 <= i < |ToDecimal(n)| ==> ToDecimal(n)[i] != 13
  {
    assert forall i :: 0 <= i < |ToDecimal(n)| ==> IsDigit(ToDecimal(n)[i]);
  }

  lemma SignedRead(i: int)
    requires -0x8000_0000_0000_0000 <= i < 0x8000_0000_0000_0000
    ensures FromChars(Signed(i)) == Some(i) && forall k :: 0 <= k < |Signed(i)| ==> Signed(i)[k] != 13
  {
    DigitsNoReturn(if i < 0 then -i else i);
    var d := ToDecimal(if i < 0 then -i else i);
    assert IsDigit(d[0]);
    if i < 0 {
      assert Signed(i)[1..] == d;
    }
  }

  /** A length and CRLF announce that many bytes. */
  lemma LengthIs(kind: byte, n: nat, finite: seq<byte> -> bool)
    requires (kind == 36 || (kind == 61 && n >= 4)) && n < 0x8000_0000_0000_0000
    ensures Head(kind, ToDecimal(n), finite) == Body(n)
  {
    DecimalRoundTrip(n);
    HeadIs(kind, ToDecimal(n), finite);
  }

  /** What stands behind a head of n bytes. */
  lemma Behind(head: seq<byte>, body: seq<byte>, tail: seq<byte>, n: nat)
    requires n == |head|
    ensures var s := head + (body + tail); s[n..n + |body|] == body && s[n + |body|..] == tail
    ensures head + body + tail == head + (body + tail)
  {
    var s := head + (body + tail);
    assert s[n..] == body + tail;
    assert s[n..n + |body|] == s[n..][..|body|];
    assert s[n + |body|..] == s[n..][|body|..];
  }

  /** A counted body and its CRLF. */
  lemma BodyRead(kind: byte, body: seq<byte>, rest: seq<byte>, finite: seq<byte> -> bool)
    requires (kind == 36 || (kind == 61 && |body| >= 4 && body[3] == 58)) && |body| < 0x8000_0000_0000_0000
    ensures Parse(Line(kind, ToDecimal(|body|)) + body + [13, 10] + rest, finite)
            == Done(Str(body), |Line(kind, ToDecimal(|body|)) + body + [13, 10]|)
  {
    var d, tail := ToDecimal(|body|), [13, 10] + rest;
    var head := Line(kind, d);
    DigitsNoReturn(|body|);
    LineRead(kind, d, body + tail, finite);
    LengthIs(kind, |body|, finite);
    Behind(head, body, tail, |d| + 3);
    Associative(head + body, [13, 10], rest);
    BodyDone(kind, body, rest, head + (body + tail), |d| + 3, finite);
  }

  lemma BodyDone(kind: byte, body: seq<byte>, rest: seq<byte>, s: seq<byte>, n: nat, finite: seq<byte> -> bool)
    requires kind == 36 || (kind == 61 && |body| >= 4 && body[3] == 58)
    requires n + |body| <= |s| && s[n..n + |body|] == body && s[n + |body|..] == [13, 10] + rest
    ensures ParseBody(kind, Body(|body|), s, n, finite) == Done(Str(body), n + |body| + 2)
  {
    var t := s[n + |body|..];
    assert t[0] == 13 && t[1] == 10;
    assert s[n + |body|] == 13 && s[n + |body| + 1] == 10;
  }

  /** An aggregate: its count, then its items. */
  lemma ItemsRead(kind: byte, n: nat, items: seq<byte>, replies: seq<Reply>, rest: seq<byte>, finite: seq<byte> -> bool)
    requires IsAggregate(kind) && |replies| <= 0xFFFF_FFFF && |replies| == if CountsPairs(kind) then 2 * n else n
    requires ParseMany(items + rest, |replies|, finite) == All(replies, |items|)
    ensures Parse(Line(kind, ToDecimal(n)) + items + rest, finite)
            == Done(Array(replies), |Line(kind, ToDecimal(n)) + items|)
  {
    var d := ToDecimal(n);
    DigitsNoReturn(n);
    DecimalRoundTrip(n);
    LineRead(kind, d, items + rest, finite);
    HeadIs(kind, d, finite);
    Counted(kind, n);
    Associative(Line(kind, d), items, rest);
  }

  lemma Counted(kind: byte, n: nat)
    requires IsAggregate(kind) && (if CountsPairs(kind) then 2 * n else n) <= 0xFFFF_FFFF
    ensures n <= MAX_ARRAY_ELEMENTS / Multiplier(kind)
    ensures n * Multiplier(kind) == if CountsPairs(kind) then 2 * n else n
  {
  }

  // ---------------------------------------------------------------------------------------------------------
  // The round trip

  lemma MinusOne()
    ensures FromChars([45, 49]) == Some(-1)
  {
    assert [45, 49][1..] == [49] && [49][..0] == [];
    assert DigitsValue([49]) == 1;
  }

  lemma SimpleRead(w: Wire, rest: seq<byte>, finite: seq<byte> -> bool)
    requires Sane(w, finite) && !w.Bulk? && !w.Verbatim? && !w.Items?
    ensures Parse(Print(w) + rest, finite) == Done(Given(w), |Print(w)|)
  {
    MinusOne();
    match w
    case Simple(line) => WholeRead(43, line, Str(line), rest, finite);
    case Failure(line) => WholeRead(45, line, Error(line), rest, finite);
    case Number(i) =>
      SignedRead(i);
      WholeRead(58, Signed(i), Integer(i), rest, finite);
    case NoBulk => WholeRead(36, [45, 49], Nil, rest, finite);
    case NoItems(kind) => WholeRead(kind, [45, 49], Nil, rest, finite);
    case Null => WholeRead(95, [], Nil, rest, finite);
    case Truth(letter) => WholeRead(35, [letter], Bool(letter == 116 || letter == 84), rest, finite);
    case Floating(line) =>
      if IsSpecial(line) {
        SpecialIs(line);
      }
      WholeRead(44, line, Double(line), rest, finite);
    case Big(negative, digits) =>
      var line := if negative then [45] + digits else digits;
      BigIs(negative, digits);
      WholeRead(40, line, Str(line), rest, finite);
  }

  lemma SpecialIs(line: seq<byte>)
    requires IsSpecial(line)
    ensures IsSpecialDouble(line)
  {
    if line == [45, 105, 110, 102] {
      assert line[1..] == [105, 110, 102];
    }
  }

  lemma BigIs(negative: bool, digits: seq<byte>)
    requires forall i :: 0 <= i < |digits| ==> 48 <= digits[i] <= 57
    ensures var line := if negative then [45] + digits else digits;
            IsBignum(line) && forall i :: 0 <= i < |line| ==> line[i] != 13
  {
    if negative {
      assert ([45] + digits)[1..] == digits;
    }
  }

  /** Parsing a printed reply gives it back, whatever follows, and takes exactly its bytes. */
  lemma {:induction false} ReplyRoundTrip(w: Wire, rest: seq<byte>, finite: seq<byte> -> bool)
    requires Sane(w, finite)
    ensures Parse(Print(w) + rest, finite) == Done(Given(w), |Print(w)|)
    decreases w
  {
    if w.Bulk? {
      BodyRead(36, w.bytes, rest, finite);
    } else if w.Verbatim? {
      BodyRead(61, w.format + [58] + w.text, rest, finite);
    } else if w.Items? {
      RepliesRoundTrip(w.items, rest, finite);
      var n := if CountsPairs(w.kind) then Count(w.items) / 2 else Count(w.items);
      ItemsRead(w.kind, n, PrintAll(w.items), GivenAll(w.items), rest, finite);
    } else {
      SimpleRead(w, rest, finite);
    }
  }

  lemma {:induction false} RepliesRoundTrip(ws: Wires, rest: seq<byte>, finite: seq<byte> -> bool)
    requires AllSane(ws, finite)
    ensures ParseMany(PrintAll(ws) + rest, Count(ws), finite) == All(GivenAll(ws), |PrintAll(ws)|)
    decreases ws
  {
    ManyUnfold(PrintAll(ws) + rest, Count(ws), finite);
    match ws
    case End =>
    case More(head, tail) =>
      ReplyRoundTrip(head, PrintAll(tail) + rest, finite);
      RepliesRoundTrip(tail, rest, finite);
      Headed(Print(head), PrintAll(tail), rest);
  }

  // ---------------------------------------------------------------------------------------------------------
  // What is no reply

  /** A byte that begins no reply is reported at once. */
  lemma UnknownType(b: byte, rest: seq<byte>, finite: seq<byte> -> bool)
    requires b != 43 && b != 45 && b != 58 && b != 36 && b != 42 && b != 95 && b != 35 && b != 44 && b != 40 && b != 61
             && b != 37 && b != 124 && b != 126 && b != 62
    ensures Parse([b] + rest, finite) == Done(Protocol(BadTypeByte(b)), 1)
  {
    ParseUnfold([b] + rest, finite);
  }

  /** A count or number that is no integer of 64 bits: a letter in it, nothing at all, or 2^63. */
  lemma BadNumber(kind: byte, line: seq<byte>, rest: seq<byte>, finite: seq<byte> -> bool)
    requires kind == 58 || kind == 36 || kind == 61 || IsAggregate(kind)
    requires forall i :: 0 <= i < |line| ==> line[i] != 13
    requires line == [] || (exists i :: 1 <= i < |line| && !IsDigit(line[i])) || line == ToDecimal(0x8000_0000_0000_0000)
    ensures Parse(Line(kind, line) + rest, finite)
            == Done(Protocol(if kind == 58 then BadInteger else if kind == 36 then BadBulkLength
                             else if kind == 61 then BadVerbatim else BadMultiLength), |Line(kind, line)|)
  {
    NoInteger(line);
    NoNumber(kind, line, rest, finite);
  }

  lemma NoNumber(kind: byte, line: seq<byte>, rest: seq<byte>, finite: seq<byte> -> bool)
    requires kind == 58 || kind == 36 || kind == 61 || IsAggregate(kind)
    requires (forall i :: 0 <= i < |line| ==> line[i] != 13) && FromChars(line) == None
    ensures Parse(Line(kind, line) + rest, finite)
            == Done(Protocol(if kind == 58 then BadInteger else if kind == 36 then BadBulkLength
                             else if kind == 61 then BadVerbatim else BadMultiLength), |Line(kind, line)|)
  {
    LineRead(kind, line, rest, finite);
    HeadIs(kind, line, finite);
  }

  /** A count out of range: below -1, of more than 2^32 - 1 items, or of a verbatim string shorter than its prefix. */
  lemma BadCount(kind: byte, i: int, rest: seq<byte>, finite: seq<byte> -> bool)
    requires -0x8000_0000_0000_0000 <= i < 0x8000_0000_0000_0000
    ensures kind == 36 && i < -1 ==>
              Parse(Line(kind, Signed(i)) + rest, finite) == Done(Protocol(BulkLengthRange), |Line(kind, Signed(i))|)
    ensures kind == 61 && i < 4 ==>
              Parse(Line(kind, Signed(i)) + rest, finite) == Done(Protocol(BadVerbatim), |Line(kind, Signed(i))|)
    ensures IsAggregate(kind) && (i < -1 || i > if CountsPairs(kind) then 0x7FFF_FFFF else 0xFFFF_FFFF) ==>
              Parse(Line(kind, Signed(i)) + rest, finite) == Done(Protocol(MultiLengthRange), |Line(kind, Signed(i))|)
  {
    if IsType(kind) {
      SignedRead(i);
      LineRead(kind, Signed(i), rest, finite);
      HeadIs(kind, Signed(i), finite);
    }
  }

  /** The other lines that are no reply of their type. */
  lemma BadLine(kind: byte, line: seq<byte>, rest: seq<byte>, finite: seq<byte> -> bool)
    requires forall i :: 0 <= i < |line| ==> line[i] != 13
    ensures (kind == 43 || kind == 45) && 10 in line ==>
              Parse(Line(kind, line) + rest, finite) == Done(Protocol(BadSimpleString), |Line(kind, line)|)
    ensures kind == 95 && line != [] ==> Parse(Line(kind, line) + rest, finite) == Done(Protocol(BadNil), |Line(kind, line)|)
    ensures kind == 35 && line != [116] && line != [84] && line != [102] && line != [70] ==>
              Parse(Line(kind, line) + rest, finite) == Done(Protocol(BadBool), |Line(kind, line)|)
    ensures kind == 44 && |line| >= 326 ==>
              Parse(Line(kind, line) + rest, finite) == Done(Protocol(DoubleTooLarge), |Line(kind, line)|)
    ensures kind == 40 && (exists i :: 1 <= i < |line| && !IsDigit(line[i])) ==>
              Parse(Line(kind, line) + rest, finite) == Done(Protocol(BadBignum), |Line(kind, line)|)
  {
    if IsType(kind) {
      LineRead(kind, line, rest, finite);
      HeadIs(kind, line, finite);
    }
    if |line| == 1 {
      assert line == [line[0]];
    }
    if i: nat :| 1 <= i < |line| && !IsDigit(line[i]) {
      assert line[1..][i - 1] == line[i];
    }
  }

  lemma NoInteger(line: seq<byte>)
    requires line == [] || (exists i :: 1 <= i < |line| && !IsDigit(line[i])) || line == ToDecimal(0x8000_0000_0000_0000)
    ensures FromChars(line) == None
  {
    if line != [] {
      if exists i :: 1 <= i < |line| && !IsDigit(line[i]) {
        var i: nat :| 1 <= i < |line| && !IsDigit(line[i]);
        LetterInside(line, i);
      } else {
        TooLarge(line, 0x8000_0000_0000_0000);
      }
    }
  }

  lemma LetterInside(line: seq<byte>, i: nat)
    requires 1 <= i < |line| && !IsDigit(line[i])
    ensures FromChars(line) == None
  {
    assert line[1..][i - 1] == line[i];
  }

  lemma TooLarge(line: seq<byte>, n: nat)
    requires line == ToDecimal(n) && n >= 0x8000_0000_0000_0000
    ensures FromChars(line) == None
  {
    assert IsDigit(line[0]);
  }
}
