// The JSON parser as it runs: a cursor over the text and a scratch buffer that is never checked for room.
//
// Peek's precondition says that nothing behind the terminating NUL is ever read.
module JsonParser {
  import opened Wrappers
  import opened Hiding
  import opened Bytes
  import opened Decimal
  import opened JsonText
  import opened Json
  import opened StrBuf
  import opened JsonScratch

  lemma AtBehind(s: seq<byte>, p: nat, i: nat)
    requires p <= |s|
    ensures At(s[p..], i) == At(s, p + i)
  {
  }

  lemma Hex4Behind(s: seq<byte>, p: nat, i: nat)
    requires p <= |s|
    ensures Hex4(s[p..], i) == Hex4(s, p + i)
  {
    AtBehind(s, p, i);
    AtBehind(s, p, i + 1);
    AtBehind(s, p, i + 2);
    AtBehind(s, p, i + 3);
  }

  lemma PrefixedTwice(a: seq<byte>, n: nat, b: seq<byte>, k: nat, r: Option<(seq<byte>, nat)>)
    ensures Prefixed(a, n, Prefixed(b, k, r)) == Prefixed(a + b, n + k, r)
  {
    assert r.Some? ==> a + (b + r.value.0) == a + b + r.value.0;
  }

  lemma Dropped(s: seq<byte>, p: nat, n: nat)
    requires p + n <= |s|
    ensures s[p..][n..] == s[p + n..]
  {
  }

  class Parser {
    const data: seq<byte>
    /** How many characters strtod takes from the front of a text. */
    const strtod: seq<byte> -> nat
    const tmp: Buffer
    /** The size of the scratch buffer, which never grows. */
    ghost const scratch: nat
    var ptr: nat
    var currentDepth: nat
    /** A byte has been written outside the scratch buffer; nothing is known any more. */
    var spilled: bool

    ghost predicate Valid()
      reads this, tmp
    {
      !spilled && ptr <= |data| && tmp.Valid() && tmp.size == scratch
    }

    /** Bytes left in the scratch buffer. */
    ghost function Left(): int
      reads tmp
    {
      tmp.size - tmp.length
    }

    /** Some string of the text does not fit the scratch buffer. */
    ghost predicate Spills() {
      exists p: nat {:trigger data[p]} :: p < |data| && data[p] == QUOTE && !Fits(data[p + 1..], scratch)
    }

    constructor (data: seq<byte>, strtod: seq<byte> -> nat)
      requires InitSize(ToInt(|data|)) >= 0
      ensures Valid() && this.data == data && this.strtod == strtod && ptr == 0 && currentDepth == 0 && fresh(tmp)
      ensures scratch == InitSize(ToInt(|data|))
    {
      this.data, this.strtod, ptr, currentDepth, spilled := data, strtod, 0, 0, false;
      scratch := InitSize(ToInt(|data|));
      tmp := new Buffer(ToInt(|data|));
    }

    function Peek(i: nat): byte
      requires i <= |data|
    {
      At(data, i)
    }

    method DecodeHex4(i: nat) returns (r: Option<nat>)
      requires i <= |data|
      ensures r == Hex4(data, i)
    {
      var digit: seq<nat> := [];
      while |digit| < 4
        invariant |digit| <= 4 && i + |digit| <= |data|
        invariant forall j :: 0 <= j < |digit| ==> HexValue(At(data, i + j)) == Some(digit[j])
      {
        var d := HexValue(Peek(i + |digit|));
        if d.None? {
          return None;
        }
        digit := digit + [d.value];
      }
      assert HexValue(At(data, i + 0)) == Some(digit[0]);
      return Some(digit[0] * 0x1000 + digit[1] * 0x100 + digit[2] * 0x10 + digit[3]);
    }

    /** The code point of the escape at "\u" and the length of the escape. */
    method ReadCodePoint() returns (r: Option<(nat, nat)>)
      requires ptr + 2 <= |data|
      ensures r.Some? ==> r.value.0 < 0x20_0000
      ensures UnicodeAt(data[ptr..]) == if r.None? then None else Some((Utf8(r.value.0), r.value.1))
    {
      Hex4Behind(data, ptr, 2);
      var codepoint := DecodeHex4(ptr + 2);
      if codepoint.None? {
        return None;
      }
      var cp := codepoint.value;
      if !IsHigh(cp) && !IsLow(cp) {
        return Some((cp, 6));
      }
      if IsLow(cp) {
        return None;
      }
      AtBehind(data, ptr, 6);
      AtBehind(data, ptr, 7);
      if Peek(ptr + 6) != BACKSLASH || Peek(ptr + 6 + 1) != LETTER_U {
        return None;
      }
      Hex4Behind(data, ptr, 8);
      var low := DecodeHex4(ptr + 2 + 6);
      if low.None? || !IsLow(low.value) {
        return None;
      }
      return Some((Paired(cp, low.value), 12));
    }

    /** json_append_unicode_escape at a "\u" */
    method AppendUnicodeEscape() returns (ok: bool)
      requires Valid() && ptr + 2 <= |data|
      modifies `ptr, `spilled, tmp
      ensures ptr >= old(ptr) && (!spilled ==> Valid())
      ensures var u := UnicodeAt(data[old(ptr)..]);
              && (spilled <==> u.Some? && |u.value.0| > old(Left())) && (ok ==> !spilled)
              && (!spilled ==> ok == u.Some?)
              && (ok ==> ptr == old(ptr) + u.value.1 && tmp.Contents() == old(tmp.Contents()) + u.value.0
                         && Left() == old(Left()) - |u.value.0|)
    {
      var r := ReadCodePoint();
      if r.None? {
        return false;
      }
      var (cp, escapeLen) := r.value;
      ok := tmp.AppendMemUnsafe(Utf8(cp));
      if !ok {
        spilled := true;
        return;
      }
      ptr := ptr + escapeLen;
    }

    /** The text from start to p decodes to `done`, whatever the rest decodes to. */
    ghost predicate Decoded(start: nat, done: seq<byte>, p: nat) {
      && start <= p <= |data|
      && forall d {:trigger Opened(d)} :: Opened(d) ==>
           StringAt(data[start..]) == Prefixed(done, p - start, StringAt(data[p..]))
    }

    lemma DecodedStart(start: nat)
      requires start <= |data|
      ensures Decoded(start, [], start)
    {
      var r := StringAt(data[start..]);
      assert r.Some? ==> [] + r.value.0 == r.value.0;
    }

    /** The n characters from p on decode to b. */
    ghost predicate Piece(p: nat, b: seq<byte>, n: nat) {
      && p + n <= |data|
      && forall d {:trigger Opened(d)} :: Opened(d) ==>
           StringAt(data[p..]) == Prefixed(b, n, StringAt(data[p + n..]))
    }

    lemma DecodedMore(start: nat, done: seq<byte>, p: nat, b: seq<byte>, q: nat, all: seq<byte>)
      requires p <= q && Decoded(start, done, p) && Piece(p, b, q - p) && all == done + b
      ensures Decoded(start, all, q)
    {
      assert Opened(true);
      PrefixedTwice(done, p - start, b, q - p, StringAt(data[q..]));
    }

    lemma DecodedEnd(start: nat, done: seq<byte>, p: nat)
      requires Decoded(start, done, p)
      ensures At(data, p) == QUOTE ==> StringAt(data[start..]) == Some((done, p + 1 - start))
      ensures StringAt(data[p..]) == None ==> StringAt(data[start..]) == None
    {
      assert Opened(true);
      AtBehind(data, p, 0);
      StringStep(data[p..]);
      assert done + [] == done;
    }

    lemma PieceChar(p: nat)
      requires p <= |data| && At(data, p) != QUOTE && At(data, p) != BACKSLASH
      ensures if At(data, p) == 0 then StringAt(data[p..]) == None else Piece(p, [At(data, p)], 1)
    {
      AtBehind(data, p, 0);
      StringStep(data[p..]);
      if At(data, p) != 0 {
        Dropped(data, p, 1);
      }
    }

    lemma PieceEscape(p: nat)
      requires p <= |data| && At(data, p) == BACKSLASH
      ensures var e, u := Unescape(At(data, p + 1)), UnicodeAt(data[p..]);
              if e == LETTER_U then
                if u.None? then StringAt(data[p..]) == None else Piece(p, u.value.0, u.value.1)
              else
                if e == 0 then StringAt(data[p..]) == None else Piece(p, [e], 2)
    {
      AtBehind(data, p, 0);
      AtBehind(data, p, 1);
      StringEscape(data[p..]);
      var e, u := Unescape(At(data, p + 1)), UnicodeAt(data[p..]);
      if e == LETTER_U && u.Some? {
        Dropped(data, p, u.value.1);
      } else if e != 0 && e != LETTER_U {
        Dropped(data, p, 2);
      }
    }

    /** json_next_string_token: None is an error, unless the string does not fit the scratch buffer. */
    method NextStringToken() returns (r: Option<seq<byte>>)
      requires Valid() && ptr < |data| && data[ptr] == QUOTE
      modifies `ptr, `spilled, tmp
      ensures ptr >= old(ptr) && (!spilled ==> Valid())
      ensures spilled <==> !Fits(data[old(ptr) + 1..], scratch)
      ensures var s := StringAt(data[old(ptr) + 1..]);
              !spilled ==> if s.None? then r.None? else r == Some(s.value.0) && ptr == old(ptr) + 1 + s.value.1
    {
      ptr := ptr + 1;
      ghost var start := ptr;
      tmp.Reset();
      var ok := NextPieces();
      if !ok {
        return None;
      }
      DecodedEnd(start, tmp.Contents(), ptr);
      AtBehind(data, ptr, 0);
      FitsStep(data[ptr..], Left());
      ptr := ptr + 1;
      ok := tmp.EnsureNull();
      if !ok {
        spilled := true;
        return None;
      }
      return Some(tmp.buf[..tmp.length]);
    }

    /** The loop up to the closing quote. */
    method NextPieces() returns (ok: bool)
      requires Valid() && tmp.Contents() == []
      modifies `ptr, `spilled, tmp
      ensures ptr >= old(ptr) && (!spilled ==> Valid()) && (ok ==> !spilled)
      ensures spilled ==> !Fits(data[old(ptr)..], old(Left()))
      ensures !spilled ==>
                if ok then
                  && ptr < |data| && data[ptr] == QUOTE && Decoded(old(ptr), tmp.Contents(), ptr)
                  && Fits(data[old(ptr)..], old(Left())) == Fits(data[ptr..], Left())
                else
                  StringAt(data[old(ptr)..]) == None && Fits(data[old(ptr)..], old(Left()))
    {
      ghost var start := ptr;
      ghost var fits := Fits(data[ptr..], Left());
      DecodedStart(start);
      while Peek(ptr) != QUOTE
        invariant start <= ptr && Valid() && Decoded(start, tmp.Contents(), ptr) && fits == Fits(data[ptr..], Left())
        decreases |data| - ptr
      {
        ghost var done, p := tmp.Contents(), ptr;
        var more, piece := NextPiece();
        if !more {
          if !spilled {
            DecodedEnd(start, done, p);
          }
          return false;
        }
        DecodedMore(start, done, p, piece, ptr, tmp.Contents());
      }
      return true;
    }

    /** One round of the string loop: an escape or a character. */
    method NextPiece() returns (ok: bool, ghost piece: seq<byte>)
      requires Valid() && Peek(ptr) != QUOTE
      modifies `ptr, `spilled, tmp
      ensures ptr >= old(ptr) && (!spilled ==> Valid()) && (ok ==> !spilled)
      ensures spilled ==> !Fits(data[old(ptr)..], old(Left()))
      ensures !spilled ==>
                if ok then
                  && ptr > old(ptr) && tmp.Contents() == old(tmp.Contents()) + piece
                  && Piece(old(ptr), piece, ptr - old(ptr))
                  && Fits(data[old(ptr)..], old(Left())) == Fits(data[ptr..], Left())
                else
                  StringAt(data[old(ptr)..]) == None && Fits(data[old(ptr)..], old(Left()))
    {
      var ch := Peek(ptr);
      if ch == BACKSLASH {
        ok, piece := NextEscape();
        return;
      }
      PieceChar(ptr);
      AtBehind(data, ptr, 0);
      FitsStep(data[ptr..], Left());
      if ch == 0 {
        return false, [];
      }
      Dropped(data, ptr, 1);
      ok := tmp.AppendCharUnsafe(ch);
      if !ok {
        spilled := true;
        return false, [];
      }
      ptr := ptr + 1;
      return true, [ch];
    }

    method NextEscape() returns (ok: bool, ghost piece: seq<byte>)
      requires Valid() && Peek(ptr) == BACKSLASH
      modifies `ptr, `spilled, tmp
      ensures ptr >= old(ptr) && (!spilled ==> Valid()) && (ok ==> !spilled)
      ensures spilled ==> !Fits(data[old(ptr)..], old(Left()))
      ensures !spilled ==>
                if ok then
                  && ptr > old(ptr) && tmp.Contents() == old(tmp.Contents()) + piece
                  && Piece(old(ptr), piece, ptr - old(ptr))
                  && Fits(data[old(ptr)..], old(Left())) == Fits(data[ptr..], Left())
                else
                  StringAt(data[old(ptr)..]) == None && Fits(data[old(ptr)..], old(Left()))
    {
      PieceEscape(ptr);
      AtBehind(data, ptr, 0);
      AtBehind(data, ptr, 1);
      FitsEscape(data[ptr..], Left());
      var ch := Unescape(Peek(ptr + 1));
      if ch == LETTER_U {
        ghost var u := UnicodeAt(data[ptr..]);
        if u.Some? {
          Dropped(data, ptr, u.value.1);
        }
        ok := AppendUnicodeEscape();
        return ok, if u.Some? then u.value.0 else [];
      }
      if ch == 0 {
        return false, [];
      }
      Dropped(data, ptr, 2);
      ok := tmp.AppendCharUnsafe(ch);
      if !ok {
        spilled := true;
        return false, [];
      }
      ptr := ptr + 2;
      return true, [ch];
    }

    // -------------------------------------------------------------------------------------------------------
    // Tokens

    /** strncmp of the text at ptr with a word. */
    method StartsWith(word: seq<byte>) returns (b: bool)
      requires ptr <= |data| && 0 !in word
      ensures b == Begins(data[ptr..], word)
    {
      var i := 0;
      while i < |word|
        invariant 0 <= i <= |word| && ptr + i <= |data| && data[ptr..ptr + i] == word[..i]
      {
        if Peek(ptr + i) != word[i] {
          if ptr + |word| <= |data| {
            assert data[ptr..][..|word|][i] == data[ptr + i];
          }
          return false;
        }
        assert word[..i + 1] == word[..i] + [word[i]];
        i := i + 1;
      }
      assert data[ptr..][..|word|] == data[ptr..ptr + i];
      return true;
    }

    /** The token at p, if the parser stands behind it at ptr. */
    ghost predicate TokenRead(p: nat, t: Token)
      reads this
    {
      && p <= ptr <= |data| && t == TokenAt(data[p..], strtod).0
      && (!t.Wrong? ==> ptr == p + TokenAt(data[p..], strtod).1)
    }

    /** json_next_token */
    method NextToken() returns (t: Token)
      requires Valid()
      modifies `ptr, `spilled, tmp
      ensures if spilled then Spills() else Valid() && TokenRead(old(ptr), t)
      ensures old(ptr) < |data| && data[old(ptr)] == QUOTE ==> (spilled <==> !Fits(data[old(ptr) + 1..], scratch))
    {
      ghost var p := ptr;
      assert data[p..][0..] == data[p..];
      while IsSpace(Peek(ptr))
        invariant p <= ptr && Valid() && Spaces(data[p..]) == ptr - p + Spaces(data[ptr..])
        decreases |data| - ptr
      {
        assert data[ptr..][1..] == data[ptr + 1..];
        ptr := ptr + 1;
      }
      ghost var q := ptr;
      SpacesPassed(p, q);
      BareIsRaw(data[q..], strtod);
      t := NextBareToken();
    }

    lemma SpacesPassed(p: nat, q: nat)
      requires p <= q <= |data| && Spaces(data[p..]) == q - p + Spaces(data[q..]) && !IsSpace(At(data, q))
      ensures var b := BareToken(data[q..], strtod); TokenAt(data[p..], strtod) == (b.0, q - p + b.1)
    {
      SpacesNone(q);
      Dropped(data, p, q - p);
      TokenBehind(data[p..], q - p, strtod);
    }

    lemma SpacesNone(q: nat)
      requires q <= |data| && !IsSpace(At(data, q))
      ensures Spaces(data[q..]) == 0
    {
    }

    method NextBareToken() returns (t: Token)
      requires Valid()
      modifies `ptr, `spilled, tmp
      ensures if spilled then Spills() else Valid()
      ensures var b := RawToken(data[old(ptr)..], strtod);
              !spilled ==> ptr >= old(ptr) && t == b.0 && (!t.Wrong? ==> ptr == old(ptr) + b.1)
      ensures old(ptr) < |data| && data[old(ptr)] == QUOTE ==> (spilled <==> !Fits(data[old(ptr) + 1..], scratch))
    {
      var ch := Peek(ptr);
      AtBehind(data, ptr, 0);
      if ch == 0 {
        return End;
      }
      var sign := SignOf(ch);
      if !sign.Wrong? {
        ptr := ptr + 1;
        return sign;
      }
      if ch == QUOTE {
        Dropped(data, ptr, 1);
        ghost var p := ptr;
        assert data[p] == QUOTE;
        var s := NextStringToken();
        return if s.None? then Wrong else Scalar(VStr(s.value));
      }
      if ch == 45 || IsDigit(ch) {
        t := NextNumberToken();
        return;
      }
      t := NextWordToken();
    }

    /** The table ch2token for the tokens of one character. */
    static function SignOf(c: byte): Token {
      if c == 123 then ObjBegin
      else if c == 125 then ObjEnd
      else if c == 91 then ArrBegin
      else if c == 93 then ArrEnd
      else if c == 44 then Comma
      else if c == 58 then Colon
      else Wrong
    }

    /** json_next_number_token: an integer unless a character says otherwise; its value stays with the text if unknown. */
    method NextNumberToken() returns (t: Token)
      requires Valid()
      modifies `ptr
      ensures Valid()
      ensures var b := NumberAt(data[old(ptr)..], strtod);
              ptr >= old(ptr) && t == b.0 && (!t.Wrong? ==> ptr == old(ptr) + b.1)
    {
      var (value, n) := Strtod(data[ptr..], strtod);
      if n == 0 {
        return Wrong;
      }
      var isInteger, p := true, ptr;
      while p < ptr + n && isInteger
        invariant ptr <= p <= ptr + n && (value.Some? ==> isInteger)
      {
        assert data[ptr..][p - ptr] == data[p];
        if data[p] == 46 || data[p] == 101 || data[p] == 69 {
          isInteger := false;
        }
        p := p + 1;
      }
      t := Scalar(if isInteger && value.Some? then VInt(value.value) else VNumber(data[ptr..ptr + n]));
      assert data[ptr..][..n] == data[ptr..ptr + n];
      ptr := ptr + n;
    }

    method NextWordToken() returns (t: Token)
      requires Valid() && var ch := Peek(ptr); ch != 0 && SignOf(ch).Wrong? && ch != QUOTE && ch != 45 && !IsDigit(ch)
      modifies `ptr
      ensures Valid()
      ensures var b := RawToken(data[old(ptr)..], strtod);
              ptr >= old(ptr) && t == b.0 && (!t.Wrong? ==> ptr == old(ptr) + b.1)
    {
      AtBehind(data, ptr, 0);
      var isTrue := StartsWith(TRUE);
      if isTrue {
        ptr := ptr + 4;
        return Scalar(VBool(true));
      }
      var isFalse := StartsWith(FALSE);
      if isFalse {
        ptr := ptr + 5;
        return Scalar(VBool(false));
      }
      var isNull := StartsWith(NULL);
      if isNull {
        ptr := ptr + 4;
        return Scalar(VNull);
      }
      if Peek(ptr) in {102, 105, 73, 110, 78, 116, 43} && OddNumber(data[ptr..]) {
        t := NextNumberToken();
        return;
      }
      return Wrong;
    }

    // -------------------------------------------------------------------------------------------------------
    // Values

    /** The parser is at the end of what p says stands at start, or has failed as p says. */
    ghost predicate Parses(p: Parsed, start: nat, depth: nat, r: Option<Val>)
      reads this
    {
      if p.Error? then r.None? else r == Some(p.v) && ptr == start + p.used && currentDepth == depth
    }

    // Behind a spill every method returns at once, with no promise but that some string does not fit.

    /** json_process_value of the token at start, which has just been read; None is an error. */
    method ProcessValue(t: Token, ghost start: nat) returns (r: Option<Val>)
      requires Valid() && TokenRead(start, t)
      modifies this, tmp
      ensures if spilled then Spills()
              else Valid() && Parses(ValueAt(data[start..], old(currentDepth), strtod), start, old(currentDepth), r)
      decreases |data| - start, 0
    {
      ghost var s, depth := data[start..], currentDepth;
      match t
      case Scalar(v) =>
        ValueScalar(s, depth, strtod);
        return Some(v);
      case ObjBegin =>
        ValueObject(s, depth, strtod);
        Dropped(data, start, ptr - start);
        r := ParseObjectContext();
      case ArrBegin =>
        ValueArray(s, depth, strtod);
        Dropped(data, start, ptr - start);
        r := ParseArrayContext();
      case _ =>
        ValueScalar(s, depth, strtod);
        return None;
    }

    /** json_parse_object_context behind the opening bracket. */
    method ParseObjectContext() returns (r: Option<Val>)
      requires Valid()
      modifies this, tmp
      ensures if spilled then Spills() else Valid()
      ensures !spilled ==>
                if old(currentDepth) >= MAX_DEPTH then r.None?
                else Parses(ObjectAt(data[old(ptr)..], old(currentDepth) + 1, strtod), old(ptr), old(currentDepth), r)
      decreases |data| - ptr, 2
    {
      currentDepth := currentDepth + 1;
      if currentDepth > MAX_DEPTH {
        return None;
      }
      ghost var begin, at, depth := ptr, ptr, currentDepth;
      var t := NextToken();
      if spilled {
        return None;
      }
      if t.ObjEnd? {
        currentDepth := currentDepth - 1;
        return Some(VTable(map[]));
      }
      var m: map<Key, Val> := map[];
      ghost var all := PairsAt(data[begin..], m, depth, strtod);
      while true
        invariant Valid() && TokenRead(at, t) && begin <= at && currentDepth == depth
        invariant all == Beyond(at - begin, PairsAt(data[at..], m, depth, strtod))
        decreases |data| - at
      {
        var pair := ParsePair(t, at, m);
        if pair.None? {
          return None;
        }
        if pair.value.1 {
          currentDepth := currentDepth - 1;
          return Some(VTable(pair.value.0));
        }
        at, m := ptr, pair.value.0;
        t := NextToken();
        if spilled {
          return None;
        }
      }
    }

    /** One round of the object loop: a pair, and whether it is the last. */
    method ParsePair(t: Token, ghost at: nat, m: map<Key, Val>) returns (r: Option<(map<Key, Val>, bool)>)
      requires Valid() && TokenRead(at, t)
      modifies this, tmp
      ensures if spilled then Spills() else Valid()
      ensures var p := PairsAt(data[at..], m, old(currentDepth), strtod);
              && (r.None? && !spilled ==> p.Error?) && (r.Some? ==> !spilled)
              && (r.Some? ==>
                    && at < ptr && currentDepth == old(currentDepth)
                    && p == if r.value.1 then Got(VTable(r.value.0), ptr - at)
                            else Beyond(ptr - at, PairsAt(data[ptr..], r.value.0, currentDepth, strtod)))
      decreases |data| - at, 1
    {
      PairsStep(data[at..], m, currentDepth, strtod);
      var key := ParseKey(t, at);
      if spilled || key.None? {
        return None;
      }
      r := ParsePairValue(key.value, at, m);
    }

    /** A string token and the colon behind it. */
    method ParseKey(t: Token, ghost at: nat) returns (key: Option<seq<byte>>)
      requires Valid() && TokenRead(at, t)
      modifies `ptr, `spilled, tmp
      ensures if spilled then Spills() else Valid()
      ensures !spilled ==>
                var k := KeyAt(data[at..], strtod);
                if k.None? then key.None? else key == Some(k.value.0) && ptr == at + k.value.1
    {
      if !(t.Scalar? && t.v.VStr?) {
        return None;
      }
      Dropped(data, at, ptr - at);
      var c := NextToken();
      if spilled || !c.Colon? {
        return None;
      }
      return Some(t.v.s);
    }

    /** The value of a pair, and what comes behind it. */
    method ParsePairValue(key: seq<byte>, ghost at: nat, m: map<Key, Val>) returns (r: Option<(map<Key, Val>, bool)>)
      requires Valid() && at < ptr
      modifies this, tmp
      ensures if spilled then Spills() else Valid()
      ensures var p := AfterKey(data[at..], key, old(ptr) - at, m, old(currentDepth), strtod);
              && (r.None? && !spilled ==> p.Error?) && (r.Some? ==> !spilled)
              && (r.Some? ==>
                    && at < ptr && currentDepth == old(currentDepth)
                    && p == if r.value.1 then Got(VTable(r.value.0), ptr - at)
                            else Beyond(ptr - at, PairsAt(data[ptr..], r.value.0, currentDepth, strtod)))
      decreases |data| - at, 0
    {
      ghost var n := ptr - at;
      Dropped(data, at, n);
      var first := NextToken();
      if spilled {
        return None;
      }
      var v := ProcessValue(first, at + n);
      if spilled || v.None? {
        return None;
      }
      Dropped(data, at, ptr - at);
      var m' := m[Name(key) := v.value];
      var e := NextToken();
      if spilled {
        return None;
      }
      if e.ObjEnd? {
        return Some((m', true));
      }
      if !e.Comma? {
        return None;
      }
      Dropped(data, at, ptr - at);
      return Some((m', false));
    }

    /** json_parse_array_context behind the opening bracket. */
    method ParseArrayContext() returns (r: Option<Val>)
      requires Valid()
      modifies this, tmp
      ensures if spilled then Spills() else Valid()
      ensures !spilled ==>
                if old(currentDepth) >= MAX_DEPTH then r.None?
                else Parses(ArrayAt(data[old(ptr)..], old(currentDepth) + 1, strtod), old(ptr), old(currentDepth), r)
      decreases |data| - ptr, 2
    {
      currentDepth := currentDepth + 1;
      if currentDepth > MAX_DEPTH {
        return None;
      }
      ghost var begin, at, depth := ptr, ptr, currentDepth;
      var t := NextToken();
      if spilled {
        return None;
      }
      if t.ArrEnd? {
        currentDepth := currentDepth - 1;
        return Some(VTable(map[]));
      }
      var m: map<Key, Val>, i: nat := map[], 1;
      ghost var all := ItemsAt(data[begin..], i, m, depth, strtod);
      while true
        invariant Valid() && TokenRead(at, t) && begin <= at && currentDepth == depth
        invariant all == Beyond(at - begin, ItemsAt(data[at..], i, m, depth, strtod))
        decreases |data| - at
      {
        var item := ParseItem(t, at, i, m);
        if item.None? {
          return None;
        }
        if item.value.1 {
          currentDepth := currentDepth - 1;
          return Some(VTable(item.value.0));
        }
        at, m, i := ptr, item.value.0, i + 1;
        t := NextToken();
        if spilled {
          return None;
        }
      }
    }

    /** One round of the array loop: an item, and whether it is the last. */
    method ParseItem(t: Token, ghost at: nat, i: nat, m: map<Key, Val>) returns (r: Option<(map<Key, Val>, bool)>)
      requires Valid() && TokenRead(at, t)
      modifies this, tmp
      ensures if spilled then Spills() else Valid()
      ensures var p := ItemsAt(data[at..], i, m, old(currentDepth), strtod);
              && (r.None? && !spilled ==> p.Error?) && (r.Some? ==> !spilled)
              && (r.Some? ==>
                    && at < ptr && currentDepth == old(currentDepth)
                    && p == if r.value.1 then Got(VTable(r.value.0), ptr - at)
                            else Beyond(ptr - at, ItemsAt(data[ptr..], i + 1, r.value.0, currentDepth, strtod)))
      decreases |data| - at, 1
    {
      ghost var s, depth := data[at..], currentDepth;
      ItemsStep(s, i, m, depth, strtod);
      var v := ProcessValue(t, at);
      if spilled || v.None? {
        return None;
      }
      Dropped(data, at, ptr - at);
      var m' := m[Index(i) := v.value];
      var e := NextToken();
      if spilled {
        return None;
      }
      if e.ArrEnd? {
        return Some((m', true));
      }
      if !e.Comma? {
        return None;
      }
      Dropped(data, at, ptr - at);
      return Some((m', false));
    }
  }

  /** A value; an error; or the program has left its scratch buffer or an int, and nothing is known any more. */
  datatype Result = Value(v: Val) | Failed | Lost

  function ResultOf(v: Option<Val>): Result {
    if v.Some? then Value(v.value) else Failed
  }

  /** A text that begins with a string which does not fit the scratch buffer made for the text. */
  ghost predicate BeginsTooLong(data: seq<byte>) {
    && data != [] && data[0] == QUOTE && (|data| >= 2 ==> data[1] != 0)
    && (InitSize(ToInt(|data|)) < 0 || !Fits(data[1..], InitSize(ToInt(|data|))))
  }

  /** From 2^31 - 1 bytes on there is such a text of every length. */
  lemma LongTextTooLong(n: nat)
    requires n >= INT_LIMIT - 1
    ensures |LongText(n)| == n && BeginsTooLong(LongText(n))
  {
    LongTextLeaves(n);
  }

  /**
   * json_decode: what Decode says, unless the program is lost; never lost on a text of fewer than 2^31 - 1 bytes, and
   * always on one that begins with too long a string.
   */
  method DecodeText(data: seq<byte>, strtod: seq<byte> -> nat) returns (r: Result)
    ensures !r.Lost? ==> r == ResultOf(Decode(data, strtod))
    ensures |data| < INT_LIMIT - 1 ==> !r.Lost?
    ensures BeginsTooLong(data) ==> r.Lost?
  {
    if |data| >= 2 && (data[0] == 0 || data[1] == 0) {
      return Failed;
    }
    ScratchHoldsExactly(|data|);
    if InitSize(ToInt(|data|)) < 0 {
      return Lost;
    }
    var json := new Parser(data, strtod);
    assert data[0..] == data;
    var t := json.NextToken();
    if json.spilled {
      return Lost;
    }
    var v := json.ProcessValue(t, 0);
    if json.spilled {
      return Lost;
    }
    if v.None? {
      return Failed;
    }
    var end := json.NextToken();
    if json.spilled {
      return Lost;
    }
    if !end.End? {
      return Failed;
    }
    return Value(v.value);
  }
}
