// The incremental RESP3 parser, type by type, proved against Resp.Parse.
//
// Every parser sees the bytes p with |p| == n, as the program passes a pointer and a length, and either reports an
// incomplete reply or a reply and the number of bytes it takes.
module RespParser {
  import opened Wrappers
  import opened Hiding
  import opened Bytes
  import opened Decimal
  import opened Resp

  /** Results of the parsers behind the type byte count from there. */
  ghost function Behind(r: Parsed): Parsed {
    if r.Incomplete? then Incomplete else Done(r.reply, r.used + 1)
  }

  method FindLineEnd(p: seq<byte>) returns (lineLen: Option<nat>)
    ensures lineLen == FindCrLf(p)
  {
    var i := 0;
    while i + 1 < |p|
      invariant 0 <= i && (i == 0 || i < |p|) && forall j :: 0 <= j < i ==> !CrLfAt(p, j)
    {
      if p[i] == CR && p[i + 1] == LF {
        assert CrLfAt(p, i);
        return Some(i);
      }
      i := i + 1;
    }
    return None;
  }

  method ContainsCrLf(p: seq<byte>) returns (b: bool)
    ensures b == HasCrLf(p)
  {
    var i := 0;
    while i < |p|
      invariant 0 <= i <= |p| && CR !in p[..i] && LF !in p[..i]
    {
      if p[i] == CR || p[i] == LF {
        return true;
      }
      i := i + 1;
    }
    assert p[..i] == p;
    return false;
  }

  class Parser {
    /** Whether strtod accepts the whole text and its value is finite. */
    const finite: seq<byte> -> bool

    constructor (finite: seq<byte> -> bool)
      ensures this.finite == finite
    {
      this.finite := finite;
    }

    /** What the type byte `kind` and the bytes p behind it parse to. */
    ghost function Rest(kind: byte, p: seq<byte>): Parsed {
      Parse([kind] + p, finite)
    }

    /** Parsing behind the type byte: the header line, then what it announces. */
    lemma RestBody(kind: byte, p: seq<byte>)
      requires IsType(kind)
      ensures FindCrLf(p).None? ==> Rest(kind, p) == Incomplete
      ensures FindCrLf(p).Some? ==>
                var i := FindCrLf(p).value;
                Rest(kind, p) == ParseBody(kind, Head(kind, p[..i], finite), [kind] + p, i + 3, finite)
    {
      var s := [kind] + p;
      assert s[1..] == p;
      ParseUnfold(s, finite);
      if FindCrLf(p).Some? {
        assert s[1..FindCrLf(p).value + 1] == p[..FindCrLf(p).value];
      }
    }

    lemma RestUnfold(kind: byte, p: seq<byte>)
      requires IsType(kind)
      ensures FindCrLf(p).None? ==> Rest(kind, p) == Incomplete
      ensures FindCrLf(p).Some? ==>
                var i := FindCrLf(p).value; var h := HeaderOf(kind, p[..i], finite);
                && (h.Whole? ==> Rest(kind, p) == Done(h.reply, i + 3))
                && (h.Body? && |p| < i + 2 + h.n + 2 ==> Rest(kind, p) == Incomplete)
                && (h.Body? && |p| >= i + 2 + h.n + 2 ==>
                      Rest(kind, p) == Done(BodyReply(kind, p[i + 2..i + 2 + h.n]), i + 2 + h.n + 3))
                && (h.Elements? ==> Rest(kind, p) == Behind(Collected(i + 2, ParseMany(p[i + 2..], h.n, finite))))
    {
      RestBody(kind, p);
      if FindCrLf(p).Some? {
        var i := FindCrLf(p).value;
        BodyBehind(kind, p, i, HeaderOf(kind, p[..i], finite));
        HeadIsHeader(kind, p[..i]);
      }
    }

    lemma HeadIsHeader(kind: byte, line: seq<byte>)
      requires IsType(kind)
      ensures Head(kind, line, finite) == HeaderOf(kind, line, finite)
    {
      assert Opened(true);
    }

    lemma BodyBehind(kind: byte, p: seq<byte>, i: nat, h: Header)
      requires i + 2 <= |p|
      ensures var r := ParseBody(kind, h, [kind] + p, i + 3, finite);
              && (h.Whole? ==> r == Done(h.reply, i + 3))
              && (h.Body? && |p| < i + 2 + h.n + 2 ==> r == Incomplete)
              && (h.Body? && |p| >= i + 2 + h.n + 2 ==>
                    r == Done(BodyReply(kind, p[i + 2..i + 2 + h.n]), i + 2 + h.n + 3))
              && (h.Elements? ==> r == Behind(Collected(i + 2, ParseMany(p[i + 2..], h.n, finite))))
    {
      var s := [kind] + p;
      assert s[i + 3..] == p[i + 2..];
      if h.Body? && |p| >= i + 2 + h.n + 2 {
        assert s[i + 3..i + 3 + h.n] == p[i + 2..i + 2 + h.n];
      }
    }

    method ParseSimpleString(p: seq<byte>) returns (r: Parsed)
      ensures Behind(r) == Rest(SIMPLE, p)
    {
      RestUnfold(SIMPLE, p);
      var line := FindLineEnd(p);
      if line.None? {
        return Incomplete;
      }
      var bad := ContainsCrLf(p[..line.value]);
      var reply := if bad then Protocol(BadSimpleString) else Str(p[..line.value]);
      return Done(reply, line.value + 2);
    }

    method ParseError(p: seq<byte>) returns (r: Parsed)
      ensures Behind(r) == Rest(ERROR, p)
    {
      RestUnfold(ERROR, p);
      var line := FindLineEnd(p);
      if line.None? {
        return Incomplete;
      }
      var bad := ContainsCrLf(p[..line.value]);
      var reply := if bad then Protocol(BadSimpleString) else Error(p[..line.value]);
      return Done(reply, line.value + 2);
    }

    method ParseInteger(p: seq<byte>) returns (r: Parsed)
      ensures Behind(r) == Rest(INTEGER, p)
    {
      RestUnfold(INTEGER, p);
      var line := FindLineEnd(p);
      if line.None? {
        return Incomplete;
      }
      var val := FromChars(p[..line.value]);
      var reply := if val.None? then Protocol(BadInteger) else Integer(val.value);
      return Done(reply, line.value + 2);
    }

    method ParseBulkString(p: seq<byte>) returns (r: Parsed)
      ensures Behind(r) == Rest(BULK, p)
    {
      RestUnfold(BULK, p);
      var line := FindLineEnd(p);
      if line.None? {
        return Incomplete;
      }
      var bulkLen := FromChars(p[..line.value]);
      var headLen := line.value + 2;
      if bulkLen.None? {
        return Done(Protocol(BadBulkLength), headLen);
      }
      if bulkLen.value < -1 {
        return Done(Protocol(BulkLengthRange), headLen);
      }
      if bulkLen.value == -1 {
        return Done(Nil, headLen);
      }
      var ulen: nat := bulkLen.value;
      if |p| < headLen + ulen + 2 {
        return Incomplete;
      }
      return Done(Str(p[headLen..headLen + ulen]), headLen + ulen + 2);
    }

    method ParseNil(p: seq<byte>) returns (r: Parsed)
      ensures Behind(r) == Rest(NIL, p)
    {
      RestUnfold(NIL, p);
      var line := FindLineEnd(p);
      if line.None? {
        return Incomplete;
      }
      return Done(if line.value != 0 then Protocol(BadNil) else Nil, line.value + 2);
    }

    method ParseBool(p: seq<byte>) returns (r: Parsed)
      ensures Behind(r) == Rest(BOOL, p)
    {
      RestUnfold(BOOL, p);
      var line := FindLineEnd(p);
      if line.None? {
        return Incomplete;
      }
      if line.value != 1 || (p[0] != 116 && p[0] != 84 && p[0] != 102 && p[0] != 70) {
        return Done(Protocol(BadBool), line.value + 2);
      }
      return Done(Bool(p[0] == 116 || p[0] == 84), line.value + 2);
    }

    method ParseDouble(p: seq<byte>) returns (r: Parsed)
      ensures Behind(r) == Rest(DOUBLE, p)
    {
      RestUnfold(DOUBLE, p);
      var line := FindLineEnd(p);
      if line.None? {
        return Incomplete;
      }
      var text := p[..line.value];
      if line.value >= 326 {
        return Done(Protocol(DoubleTooLarge), line.value + 2);
      }
      if !IsSpecialDouble(text) && (line.value == 0 || !finite(text)) {
        return Done(Protocol(BadDouble), line.value + 2);
      }
      return Done(Double(text), line.value + 2);
    }

    method ParseVerbatim(p: seq<byte>) returns (r: Parsed)
      ensures Behind(r) == Rest(VERBATIM, p)
    {
      RestUnfold(VERBATIM, p);
      var line := FindLineEnd(p);
      if line.None? {
        return Incomplete;
      }
      var verbatimLen := FromChars(p[..line.value]);
      var headLen := line.value + 2;
      if verbatimLen.None? || verbatimLen.value < 4 {
        return Done(Protocol(BadVerbatim), headLen);
      }
      var ulen: nat := verbatimLen.value;
      if |p| < headLen + ulen + 2 {
        return Incomplete;
      }
      var body := p[headLen..headLen + ulen];
      if ulen >= 4 && body[3] != 58 {
        return Done(Protocol(BadVerbatim), headLen + ulen + 2);
      }
      return Done(Str(body), headLen + ulen + 2);
    }

    method ParseBignum(p: seq<byte>) returns (r: Parsed)
      ensures Behind(r) == Rest(BIGNUM, p)
    {
      RestUnfold(BIGNUM, p);
      var line := FindLineEnd(p);
      if line.None? {
        return Incomplete;
      }
      var text := p[..line.value];
      ghost var digits := if text != [] && text[0] == 45 then text[1..] else text;
      var i := 0;
      while i < line.value
        invariant 0 <= i <= line.value
        invariant forall j :: 0 <= j < i ==> (j == 0 && p[0] == 45) || IsDigit(p[j])
      {
        if !(i == 0 && p[0] == 45) && (p[i] < 48 || p[i] > 57) {
          assert !IsDigit(text[i]) && text[i] == digits[if |digits| == |text| then i else i - 1];
          return Done(Protocol(BadBignum), line.value + 2);
        }
        i := i + 1;
      }
      forall k | 0 <= k < |digits|
        ensures IsDigit(digits[k])
      {
        var j := if |digits| == |text| then k else k + 1;
        assert digits[k] == p[j];
      }
      return Done(Str(text), line.value + 2);
    }

    /** Elements already read in front of the ones still to come. */
    ghost function Joined(read: seq<Reply>, used: nat, m: Many): Many {
      if m.All? then All(read + m.replies, used + m.used) else Unfinished
    }

    /** Reading `count` elements from s has come to offset `at` with the elements `read`. */
    ghost predicate Reading(s: seq<byte>, count: nat, read: seq<Reply>, at: nat) {
      && at <= |s| && |read| <= count
      && forall d {:trigger Opened(d)} :: Opened(d) ==>
           ParseMany(s, count, finite) == Joined(read, at, ParseMany(s[at..], count - |read|, finite))
    }

    lemma ReadingStart(s: seq<byte>, count: nat)
      ensures Reading(s, count, [], 0)
    {
      assert s[0..] == s;
      var m := ParseMany(s, count, finite);
      assert m.All? ==> [] + m.replies == m.replies;
    }

    lemma ReadingNext(s: seq<byte>, count: nat, read: seq<Reply>, at: nat)
      requires Reading(s, count, read, at) && |read| < count
      ensures var r := Parse(s[at..], finite);
              if r.Incomplete? then ParseMany(s, count, finite) == Unfinished
              else at + r.used <= |s| && Reading(s, count, read + [r.reply], at + r.used)
    {
      assert Opened(true);
      var r := Parse(s[at..], finite);
      ManyUnfold(s[at..], count - |read|, finite);
      if r.Done? {
        assert s[at..][r.used..] == s[at + r.used..];
        var m := ParseMany(s[at + r.used..], count - |read| - 1, finite);
        assert m.All? ==> read + ([r.reply] + m.replies) == read + [r.reply] + m.replies;
      }
    }

    lemma ReadingEnd(s: seq<byte>, count: nat, read: seq<Reply>, at: nat)
      requires Reading(s, count, read, at) && |read| == count
      ensures ParseMany(s, count, finite) == All(read, at)
    {
      assert Opened(true);
      ManyUnfold(s[at..], 0, finite);
      assert read + [] == read;
    }

    /** Arrays, sets, pushes, and with two replies per entry maps and attributes. */
    method ParseArrayLike(kind: byte, p: seq<byte>, multiplier: nat) returns (r: Parsed)
      requires kind in {ARRAY, SET, PUSH, MAP, ATTRIBUTE} && multiplier == Multiplier(kind)
      ensures Behind(r) == Rest(kind, p)
      decreases |p|, 1
    {
      RestUnfold(kind, p);
      var line := FindLineEnd(p);
      if line.None? {
        return Incomplete;
      }
      var parsed := FromChars(p[..line.value]);
      var headLen: nat := line.value + 2;
      if parsed.None? {
        return Done(Protocol(BadMultiLength), headLen);
      }
      var count := parsed.value;
      if count < -1 {
        return Done(Protocol(MultiLengthRange), headLen);
      }
      if multiplier > 1 && count >= 0 {
        if count > MAX_ARRAY_ELEMENTS / multiplier {
          return Done(Protocol(MultiLengthRange), headLen);
        }
        count := count * multiplier;
      }
      if count > MAX_ARRAY_ELEMENTS {
        return Done(Protocol(MultiLengthRange), headLen);
      }
      if count == -1 {
        return Done(Nil, headLen);
      }
      r := ReadElements(p, headLen, count);
    }

    method ReadElements(p: seq<byte>, headLen: nat, count: nat) returns (r: Parsed)
      requires 0 < headLen <= |p|
      ensures r == Collected(headLen, ParseMany(p[headLen..], count, finite))
      decreases |p|, 0
    {
      ghost var s := p[headLen..];
      var elements: seq<Reply>, off: nat := [], headLen;
      ghost var at: nat := 0;
      ReadingStart(s, count);
      while |elements| < count
        invariant off == headLen + at && Reading(s, count, elements, at)
        decreases count - |elements|
      {
        assert p[off..] == s[at..];
        ReadingNext(s, count, elements, at);
        var elem := ParseReply(p[off..]);
        if elem.Incomplete? {
          return Incomplete;
        }
        elements, off, at := elements + [elem.reply], off + elem.used, at + elem.used;
      }
      ReadingEnd(s, count, elements, at);
      return Done(Array(elements), off);
    }

    method ParseReply(p: seq<byte>) returns (r: Parsed)
      ensures r == Parse(p, finite)
      decreases |p|, 2
    {
      ParseUnfold(p, finite);
      if |p| < 1 {
        return Incomplete;
      }
      var first, rest := p[0], p[1..];
      assert [first] + rest == p;
      var sub: Parsed;
      if first == SIMPLE {
        sub := ParseSimpleString(rest);
      } else if first == ERROR {
        sub := ParseError(rest);
      } else if first == INTEGER {
        sub := ParseInteger(rest);
      } else if first == BULK {
        sub := ParseBulkString(rest);
      } else if first == ARRAY || first == SET || first == PUSH {
        sub := ParseArrayLike(first, rest, 1);
      } else if first == NIL {
        sub := ParseNil(rest);
      } else if first == BOOL {
        sub := ParseBool(rest);
      } else if first == DOUBLE {
        sub := ParseDouble(rest);
      } else if first == VERBATIM {
        sub := ParseVerbatim(rest);
      } else if first == MAP || first == ATTRIBUTE {
        sub := ParseArrayLike(first, rest, 2);
      } else if first == BIGNUM {
        sub := ParseBignum(rest);
      } else {
        return Done(Protocol(BadTypeByte(first)), 1);
      }
      if sub.Incomplete? {
        return Incomplete;
      }
      return Done(sub.reply, 1 + sub.used);
    }
  }
}
