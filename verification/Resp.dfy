module Resp {
  // What a RESP3 reply is: the meaning of a byte sequence for the Redis client, independent of how it arrives.

  import opened Wrappers
  import opened Hiding
  import opened Bytes
  import opened Decimal

  /** The client's own error texts, by name. */
  datatype Problem = BadSimpleString | BadInteger | BadBulkLength | BulkLengthRange | BadMultiLength | MultiLengthRange
                   | BadNil | BadBool | DoubleTooLarge | BadDouble | BadVerbatim | BadBignum | BadTypeByte(b: byte)

  /** Error is an error sent by the server, Protocol one the parser reports in its place. */
  datatype Reply = Nil | Str(bytes: seq<byte>) | Integer(i: int) | Bool(b: bool) | Double(text: seq<byte>)
                 | Error(text: seq<byte>) | Protocol(problem: Problem) | Array(elements: seq<Reply>)

  datatype Parsed = Incomplete | Done(reply: Reply, used: nat)
  datatype Many = Unfinished | All(replies: seq<Reply>, used: nat)

  const CR: byte := 13
  const LF: byte := 10
  const MAX_ARRAY_ELEMENTS := 0xFFFF_FFFF
  const INT64_LIMIT := 0x8000_0000_0000_0000

  // The type bytes + - : $ * _ # , = % | ~ > (
  const SIMPLE: byte := 43
  const ERROR: byte := 45
  const INTEGER: byte := 58
  const BULK: byte := 36
  const ARRAY: byte := 42
  const NIL: byte := 95
  const BOOL: byte := 35
  const DOUBLE: byte := 44
  const VERBATIM: byte := 61
  const MAP: byte := 37
  const ATTRIBUTE: byte := 124
  const SET: byte := 126
  const PUSH: byte := 62
  const BIGNUM: byte := 40

  predicate IsType(b: byte) {
    b in {SIMPLE, ERROR, INTEGER, BULK, ARRAY, NIL, BOOL, DOUBLE, VERBATIM, MAP, ATTRIBUTE, SET, PUSH, BIGNUM}
  }

  // ---------------------------------------------------------------------------------------------------------
  // Lines

  predicate CrLfAt(s: seq<byte>, i: nat) {
    i + 1 < |s| && s[i] == CR && s[i + 1] == LF
  }

  /** Position of the first CRLF. */
  function FindCrLf(s: seq<byte>): (r: Option<nat>)
    ensures r.Some? ==> CrLfAt(s, r.value) && forall i :: 0 <= i < r.value ==> !CrLfAt(s, i)
    ensures r.None? ==> forall i :: 0 <= i < |s| ==> !CrLfAt(s, i)
  {
    FindFrom(s, 0)
  }

  function FindFrom(s: seq<byte>, k: nat): (r: Option<nat>)
    requires k <= |s|
    ensures r.Some? ==> k <= r.value && CrLfAt(s, r.value) && forall i :: k <= i < r.value ==> !CrLfAt(s, i)
    ensures r.None? ==> forall i :: k <= i < |s| ==> !CrLfAt(s, i)
    decreases |s| - k
  {
    if k == |s| then None else if CrLfAt(s, k) then Some(k) else FindFrom(s, k + 1)
  }

  /** A line once found stays found whatever follows it. */
  lemma FoundStays(s: seq<byte>, t: seq<byte>)
    requires FindCrLf(s).Some?
    ensures FindCrLf(s + t) == FindCrLf(s)
  {
    var i := FindCrLf(s).value;
    assert CrLfAt(s + t, i);
    assert forall j :: 0 <= j < i ==> CrLfAt(s + t, j) ==> CrLfAt(s, j);
  }

  // ---------------------------------------------------------------------------------------------------------
  // Numbers

  /** std::from_chars over the whole line: an optional minus sign and digits, in the range of int64_t. */
  function FromChars(line: seq<byte>): Option<int> {
    var negative := line != [] && line[0] == 45;
    var digits := if negative then line[1..] else line;
    if digits == [] || !AllDigits(digits) then None
    else
      var m: int := DigitsValue(digits);
      var v := if negative then -m else m;
      if -INT64_LIMIT <= v < INT64_LIMIT then Some(v) else None
  }

  lemma DecimalRoundTrip(n: nat)
    requires n < INT64_LIMIT
    ensures FromChars(ToDecimal(n)) == Some(n)
  {
  }

  lemma DecimalHasNoLineEnd(n: nat, t: seq<byte>)
    ensures FindCrLf(ToDecimal(n) + [CR, LF] + t) == Some(|ToDecimal(n)|)
  {
    var d := ToDecimal(n);
    var s := d + [CR, LF] + t;
    assert CrLfAt(s, |d|);
    assert forall i :: 0 <= i < |d| ==> IsDigit(s[i]);
  }

  // ---------------------------------------------------------------------------------------------------------
  // Replies

  predicate HasCrLf(line: seq<byte>) {
    CR in line || LF in line
  }

  predicate IsBool(line: seq<byte>) {
    |line| == 1 && line[0] in {116, 84, 102, 70}
  }

  function Lower(b: byte): byte {
    if 65 <= b <= 90 then b + 32 else b
  }

  predicate SameLetters(s: seq<byte>, t: seq<byte>) {
    |s| == |t| && forall i :: 0 <= i < |s| ==> Lower(s[i]) == t[i]
  }

  /** inf or nan in any case, with an optional minus sign. */
  predicate IsSpecialDouble(line: seq<byte>) {
    var bare := if |line| == 4 && line[0] == 45 then line[1..] else line;
    SameLetters(bare, [105, 110, 102]) || SameLetters(bare, [110, 97, 110])
  }

  predicate IsBignum(line: seq<byte>) {
    AllDigits(if line != [] && line[0] == 45 then line[1..] else line)
  }

  /** What the line behind the type byte announces: a reply, a body of n bytes and CRLF, or n elements. */
  datatype Header = Whole(reply: Reply) | Body(n: nat) | Elements(n: nat)

  function Multiplier(kind: byte): nat {
    if kind == MAP || kind == ATTRIBUTE then 2 else 1
  }

  /** The header of each type; `finite` stands for strtod accepting the whole line with a finite result. */
  function HeaderOf(kind: byte, line: seq<byte>, finite: seq<byte> -> bool): Header
    requires IsType(kind)
  {
    if kind == SIMPLE then Whole(if HasCrLf(line) then Protocol(BadSimpleString) else Str(line))
    else if kind == ERROR then Whole(if HasCrLf(line) then Protocol(BadSimpleString) else Error(line))
    else if kind == INTEGER then
      Whole(match FromChars(line) case None => Protocol(BadInteger) case Some(i) => Integer(i))
    else if kind == NIL then Whole(if line != [] then Protocol(BadNil) else Nil)
    else if kind == BOOL then Whole(if IsBool(line) then Bool(line[0] == 116 || line[0] == 84) else Protocol(BadBool))
    else if kind == DOUBLE then
      Whole(if |line| >= 326 then Protocol(DoubleTooLarge)
            else if IsSpecialDouble(line) || (line != [] && finite(line)) then Double(line)
            else Protocol(BadDouble))
    else if kind == BIGNUM then Whole(if IsBignum(line) then Str(line) else Protocol(BadBignum))
    else if kind == BULK then
      match FromChars(line)
      case None => Whole(Protocol(BadBulkLength))
      case Some(n) => if n < -1 then Whole(Protocol(BulkLengthRange)) else if n == -1 then Whole(Nil) else Body(n)
    else if kind == VERBATIM then
      match FromChars(line)
      case None => Whole(Protocol(BadVerbatim))
      case Some(n) => if n < 4 then Whole(Protocol(BadVerbatim)) else Body(n)
    else
      match FromChars(line)
      case None => Whole(Protocol(BadMultiLength))
      case Some(n) =>
        if n < -1 then Whole(Protocol(MultiLengthRange))
        else if n == -1 then Whole(Nil)
        else if n > MAX_ARRAY_ELEMENTS / Multiplier(kind) then Whole(Protocol(MultiLengthRange))
        else Elements(n * Multiplier(kind))
  }

  function BodyReply(kind: byte, body: seq<byte>): Reply {
    if kind == VERBATIM && |body| >= 4 && body[3] != 58 then Protocol(BadVerbatim) else Str(body)
  }

  ghost predicate IsHead(kind: byte, line: seq<byte>, finite: seq<byte> -> bool, h: Header) {
    forall d {:trigger Opened(d)} :: Opened(d) ==> IsType(kind) && h == HeaderOf(kind, line, finite)
  }

  /** HeaderOf, kept closed. */
  ghost function Head(kind: byte, line: seq<byte>, finite: seq<byte> -> bool): (h: Header)
    requires IsType(kind)
    ensures IsHead(kind, line, finite, h)
  {
    assert IsHead(kind, line, finite, HeaderOf(kind, line, finite));
    var h :| IsHead(kind, line, finite, h);
    h
  }

  /** The reply at the start of s and the bytes it takes. */
  ghost function RawParse(s: seq<byte>, finite: seq<byte> -> bool): (r: Parsed)
    ensures r.Done? ==> 1 <= r.used <= |s|
    decreases |s|, 0
  {
    if s == [] then Incomplete
    else if !IsType(s[0]) then Done(Protocol(BadTypeByte(s[0])), 1)
    else
      match FindCrLf(s[1..])
      case None => Incomplete
      case Some(i) =>
        var off := i + 3;
        match Head(s[0], s[1..i + 1], finite)
        case Whole(reply) => Done(reply, off)
        case Body(n) =>
          if |s| < off + n + 2 then Incomplete else Done(BodyReply(s[0], s[off..off + n]), off + n + 2)
        case Elements(n) =>
          match RawParseMany(s[off..], n, finite)
          case Unfinished => Incomplete
          case All(replies, used) => Done(Array(replies), off + used)
  }

  /** n replies in a row. */
  ghost function RawParseMany(s: seq<byte>, n: nat, finite: seq<byte> -> bool): (r: Many)
    ensures r.All? ==> r.used <= |s| && |r.replies| == n
    decreases |s|, n + 1
  {
    if n == 0 then All([], 0)
    else
      match RawParse(s, finite)
      case Incomplete => Unfinished
      case Done(reply, c) =>
        match RawParseMany(s[c..], n - 1, finite)
        case Unfinished => Unfinished
        case All(rest, used) => All([reply] + rest, c + used)
  }

  // RawParse and RawParseMany are used under the closed names Parse and ParseMany.

  ghost predicate IsParsed(s: seq<byte>, finite: seq<byte> -> bool, r: Parsed) {
    && (r.Done? ==> 1 <= r.used <= |s|)
    && forall d {:trigger Opened(d)} :: Opened(d) ==> r == RawParse(s, finite)
  }

  ghost function Parse(s: seq<byte>, finite: seq<byte> -> bool): (r: Parsed)
    ensures IsParsed(s, finite, r)
  {
    assert IsParsed(s, finite, RawParse(s, finite));
    var r :| IsParsed(s, finite, r);
    r
  }

  ghost predicate AreParsed(s: seq<byte>, n: nat, finite: seq<byte> -> bool, r: Many) {
    && (r.All? ==> r.used <= |s| && |r.replies| == n)
    && forall d {:trigger Opened(d)} :: Opened(d) ==> r == RawParseMany(s, n, finite)
  }

  ghost function ParseMany(s: seq<byte>, n: nat, finite: seq<byte> -> bool): (r: Many)
    ensures AreParsed(s, n, finite, r)
  {
    assert AreParsed(s, n, finite, RawParseMany(s, n, finite));
    var r :| AreParsed(s, n, finite, r);
    r
  }

  /** The reply behind a header line of type `kind` that takes `off` bytes. */
  ghost function ParseBody(kind: byte, h: Header, s: seq<byte>, off: nat, finite: seq<byte> -> bool): Parsed
    requires off <= |s|
  {
    match h
    case Whole(reply) => Done(reply, off)
    case Body(n) => if |s| < off + n + 2 then Incomplete else Done(BodyReply(kind, s[off..off + n]), off + n + 2)
    case Elements(n) => Collected(off, ParseMany(s[off..], n, finite))
  }

  ghost function Collected(off: nat, m: Many): Parsed {
    match m
    case Unfinished => Incomplete
    case All(replies, used) => Done(Array(replies), off + used)
  }

  ghost function Prepended(r: Parsed, m: Many): Many {
    if r.Done? && m.All? then All([r.reply] + m.replies, r.used + m.used) else Unfinished
  }

  lemma ParseUnfold(s: seq<byte>, finite: seq<byte> -> bool)
    ensures s == [] ==> Parse(s, finite) == Incomplete
    ensures s != [] && !IsType(s[0]) ==> Parse(s, finite) == Done(Protocol(BadTypeByte(s[0])), 1)
    ensures s != [] && IsType(s[0]) && FindCrLf(s[1..]).None? ==> Parse(s, finite) == Incomplete
    ensures s != [] && IsType(s[0]) && FindCrLf(s[1..]).Some? ==>
              var i := FindCrLf(s[1..]).value;
              Parse(s, finite) == ParseBody(s[0], Head(s[0], s[1..i + 1], finite), s, i + 3, finite)
  {
    assert Opened(true);
  }

  lemma ManyUnfold(s: seq<byte>, n: nat, finite: seq<byte> -> bool)
    ensures n == 0 ==> ParseMany(s, n, finite) == All([], 0)
    ensures n > 0 && Parse(s, finite).Incomplete? ==> ParseMany(s, n, finite) == Unfinished
    ensures n > 0 && Parse(s, finite).Done? ==>
              var c := Parse(s, finite).used;
              ParseMany(s, n, finite) == Prepended(Parse(s, finite), ParseMany(s[c..], n - 1, finite))
  {
    assert Opened(true);
  }

  // ---------------------------------------------------------------------------------------------------------
  // Chunk independence

  /** A complete reply is not changed by what follows it. */
  lemma {:induction false} ParseExtends(s: seq<byte>, t: seq<byte>, finite: seq<byte> -> bool)
    requires Parse(s, finite).Done?
    ensures Parse(s + t, finite) == Parse(s, finite)
    decreases |s|, 0
  {
    var u := s + t;
    ParseUnfold(s, finite);
    ParseUnfold(u, finite);
    assert u[0] == s[0];
    if IsType(s[0]) {
      Further(s, t, 1);
      FoundStays(s[1..], t);
      var i := FindCrLf(s[1..]).value;
      var off := i + 3;
      SliceStays(s, t, 1, i + 1);
      match Head(s[0], s[1..i + 1], finite)
      case Whole(_) =>
      case Body(n) => SliceStays(s, t, off, off + n);
      case Elements(n) =>
        ManyExtends(s[off..], t, n, finite);
        Further(s, t, off);
    }
  }

  lemma SliceStays(s: seq<byte>, t: seq<byte>, i: nat, j: nat)
    requires i <= j <= |s|
    ensures (s + t)[i..j] == s[i..j]
  {
  }

  lemma Further(s: seq<byte>, t: seq<byte>, i: nat)
    requires i <= |s|
    ensures (s + t)[i..] == s[i..] + t
  {
  }

  lemma {:induction false} ManyExtends(s: seq<byte>, t: seq<byte>, n: nat, finite: seq<byte> -> bool)
    requires ParseMany(s, n, finite).All?
    ensures ParseMany(s + t, n, finite) == ParseMany(s, n, finite)
    decreases |s|, n + 1
  {
    ManyUnfold(s, n, finite);
    ManyUnfold(s + t, n, finite);
    if n > 0 {
      var c := Parse(s, finite).used;
      ParseExtends(s, t, finite);
      ManyExtends(s[c..], t, n - 1, finite);
      assert (s + t)[c..] == s[c..] + t;
    }
  }

  lemma FoundInPrefix(s: seq<byte>, k: nat)
    requires k <= |s| && FindCrLf(s).Some? && FindCrLf(s).value + 2 <= k
    ensures FindCrLf(s[..k]) == FindCrLf(s)
  {
    var i := FindCrLf(s).value;
    assert CrLfAt(s[..k], i);
    assert forall j :: 0 <= j < i ==> CrLfAt(s[..k], j) ==> CrLfAt(s, j);
  }

  /** The bytes a reply takes are enough to parse it. */
  lemma {:induction false} ParseExact(s: seq<byte>, finite: seq<byte> -> bool)
    requires Parse(s, finite).Done?
    ensures Parse(s[..Parse(s, finite).used], finite) == Parse(s, finite)
    decreases |s|, 0
  {
    var u := s[..Parse(s, finite).used];
    ParseUnfold(s, finite);
    ParseUnfold(u, finite);
    assert u[0] == s[0];
    if IsType(s[0]) {
      var i := FindCrLf(s[1..]).value;
      var off := i + 3;
      assert u[1..] == s[1..][..|u| - 1];
      FoundInPrefix(s[1..], |u| - 1);
      assert u[1..i + 1] == s[1..i + 1];
      match Head(s[0], s[1..i + 1], finite)
      case Whole(_) =>
      case Body(n) => assert u[off..off + n] == s[off..off + n];
      case Elements(n) =>
        ManyExact(s[off..], n, finite);
        assert u[off..] == s[off..][..|u| - off];
    }
  }

  lemma {:induction false} ManyExact(s: seq<byte>, n: nat, finite: seq<byte> -> bool)
    requires ParseMany(s, n, finite).All?
    ensures ParseMany(s[..ParseMany(s, n, finite).used], n, finite) == ParseMany(s, n, finite)
    decreases |s|, n + 1
  {
    ManyUnfold(s, n, finite);
    ManyUnfold(s[..ParseMany(s, n, finite).used], n, finite);
    if n > 0 {
      var used := ParseMany(s, n, finite).used;
      var c := Parse(s, finite).used;
      ParseExact(s, finite);
      ManyExact(s[c..], n - 1, finite);
      assert s[..used] == s[..c] + s[c..used] && s[..used][c..] == s[c..][..used - c];
      ParseExtends(s[..c], s[c..used], finite);
    }
  }

  /**
   * A reply of c bytes: 1 <= c <= |s|, every cut below c is incomplete, every cut from c on and every extension gives
   * the same reply and the same c.
   */
  lemma ChunkIndependent(s: seq<byte>, t: seq<byte>, k: nat, finite: seq<byte> -> bool)
    requires Parse(s, finite).Done? && k <= |s|
    ensures var c := Parse(s, finite).used;
            && 1 <= c <= |s| && Parse(s + t, finite) == Parse(s, finite)
            && Parse(s[..k], finite) == if k < c then Incomplete else Parse(s, finite)
  {
    ParseExtends(s, t, finite);
    var c := Parse(s, finite).used;
    assert s[..k] + s[k..] == s;
    if k < c {
      if Parse(s[..k], finite).Done? {
        ParseExtends(s[..k], s[k..], finite);
      }
    } else {
      ParseExact(s, finite);
      assert s[..k] == s[..c] + s[c..k];
      ParseExtends(s[..c], s[c..k], finite);
    }
  }

  // ---------------------------------------------------------------------------------------------------------
  // The printer of commands

  function Printed(arg: seq<byte>): seq<byte> {
    [BULK] + ToDecimal(|arg|) + [CR, LF] + arg + [CR, LF]
  }

  function PrintedAll(args: seq<seq<byte>>): seq<byte> {
    if args == [] then [] else Printed(args[0]) + PrintedAll(args[1..])
  }

  function Command(args: seq<seq<byte>>): seq<byte> {
    [ARRAY] + ToDecimal(|args|) + [CR, LF] + PrintedAll(args)
  }

  function Strings(args: seq<seq<byte>>): (r: seq<Reply>)
    ensures |r| == |args| && forall i :: 0 <= i < |args| ==> r[i] == Str(args[i])
  {
    if args == [] then [] else [Str(args[0])] + Strings(args[1..])
  }

  lemma HeadOfCount(kind: byte, n: nat, finite: seq<byte> -> bool)
    requires n < INT64_LIMIT
    ensures kind == BULK ==> Head(kind, ToDecimal(n), finite) == Body(n)
    ensures kind == ARRAY && n <= MAX_ARRAY_ELEMENTS ==> Head(kind, ToDecimal(n), finite) == Elements(n)
  {
    assert Opened(true);
    DecimalRoundTrip(n);
  }

  lemma ParseHeaded(kind: byte, n: nat, body: seq<byte>, finite: seq<byte> -> bool)
    requires IsType(kind)
    ensures var d := ToDecimal(n); var s := [kind] + d + [CR, LF] + body;
            && s[|d| + 3..] == body
            && Parse(s, finite) == ParseBody(kind, Head(kind, d, finite), s, |d| + 3, finite)
  {
    var d := ToDecimal(n);
    var s := [kind] + d + [CR, LF] + body;
    DecimalHasNoLineEnd(n, body);
    assert s[1..] == d + [CR, LF] + body;
    assert s[1..|d| + 1] == d;
    ParseUnfold(s, finite);
  }

  lemma ParsePrinted(arg: seq<byte>, rest: seq<byte>, finite: seq<byte> -> bool)
    requires |arg| < INT64_LIMIT
    ensures Parse(Printed(arg) + rest, finite) == Done(Str(arg), |Printed(arg)|)
  {
    var d, body := ToDecimal(|arg|), arg + [CR, LF] + rest;
    ParseHeaded(BULK, |arg|, body, finite);
    HeadOfCount(BULK, |arg|, finite);
    var s := [BULK] + d + [CR, LF] + body;
    assert Printed(arg) + rest == s;
    assert s[|d| + 3..|d| + 3 + |arg|] == body[..|arg|] == arg;
  }

  lemma {:induction false} ParsePrintedAll(args: seq<seq<byte>>, rest: seq<byte>, finite: seq<byte> -> bool)
    requires forall i :: 0 <= i < |args| ==> |args[i]| < INT64_LIMIT
    ensures ParseMany(PrintedAll(args) + rest, |args|, finite) == All(Strings(args), |PrintedAll(args)|)
  {
    ManyUnfold(PrintedAll(args) + rest, |args|, finite);
    if args != [] {
      var more := PrintedAll(args[1..]) + rest;
      ParsePrinted(args[0], more, finite);
      ParsePrintedAll(args[1..], rest, finite);
      assert PrintedAll(args) + rest == Printed(args[0]) + more;
      assert (Printed(args[0]) + more)[|Printed(args[0])|..] == more;
    }
  }

  /** Parsing a printed command gives the array of its arguments and takes all its bytes. */
  lemma ParseCommand(args: seq<seq<byte>>, rest: seq<byte>, finite: seq<byte> -> bool)
    requires |args| <= MAX_ARRAY_ELEMENTS && forall i :: 0 <= i < |args| ==> |args[i]| < INT64_LIMIT
    ensures Parse(Command(args) + rest, finite) == Done(Array(Strings(args)), |Command(args)|)
  {
    var d, body := ToDecimal(|args|), PrintedAll(args) + rest;
    ParseHeaded(ARRAY, |args|, body, finite);
    HeadOfCount(ARRAY, |args|, finite);
    ParsePrintedAll(args, rest, finite);
    assert Command(args) + rest == [ARRAY] + d + [CR, LF] + body;
  }
}
