// JSON strings: escapes, \u escapes, surrogate pairs and UTF-8.
//
// A text is followed by a NUL terminator, which At reads as 0; the parser stops at it.
module JsonText {
  import opened Wrappers
  import opened Hiding
  import opened Bytes

  const QUOTE: byte := 34
  const BACKSLASH: byte := 92
  const LETTER_U: byte := 117

  function At(s: seq<byte>, i: nat): byte {
    if i < |s| then s[i] else 0
  }

  // ---------------------------------------------------------------------------------------------------------
  // Escaping

  function Hex(d: nat): byte
    requires d < 16
  {
    if d < 10 then 48 + d else 87 + d
  }

  /** \u00xx */
  function HexEscape(b: byte): seq<byte> {
    [BACKSLASH, LETTER_U, 48, 48, Hex(b / 16), Hex(b % 16)]
  }

  /** The table char2escape; a byte without an entry stands for itself. */
  function Escape(b: byte): (s: seq<byte>)
    ensures 1 <= |s| <= 6
  {
    if b == 8 then [BACKSLASH, 98]
    else if b == 9 then [BACKSLASH, 116]
    else if b == 10 then [BACKSLASH, 110]
    else if b == 12 then [BACKSLASH, 102]
    else if b == 13 then [BACKSLASH, 114]
    else if b == QUOTE then [BACKSLASH, QUOTE]
    else if b == 47 then [BACKSLASH, 47]
    else if b == BACKSLASH then [BACKSLASH, BACKSLASH]
    else if b < 32 || b == 127 then HexEscape(b)
    else [b]
  }

  function Escaped(s: seq<byte>): (r: seq<byte>)
    ensures |r| <= 6 * |s|
  {
    if s == [] then [] else Escape(s[0]) + Escaped(s[1..])
  }

  /** json_append_string */
  function StrText(s: seq<byte>): seq<byte> {
    [QUOTE] + Escaped(s) + [QUOTE]
  }

  // ---------------------------------------------------------------------------------------------------------
  // Unescaping

  /** The table escape2char; 0 is no escape. */
  function Unescape(c: byte): byte {
    if c == QUOTE || c == BACKSLASH || c == 47 || c == LETTER_U then c
    else if c == 98 then 8
    else if c == 116 then 9
    else if c == 110 then 10
    else if c == 102 then 12
    else if c == 114 then 13
    else 0
  }

  function HexValue(c: byte): (r: Option<nat>)
    ensures r.Some? ==> c != 0 && r.value < 16
  {
    if 48 <= c <= 57 then Some(c - 48)
    else if 97 <= c <= 102 then Some(c - 87)
    else if 65 <= c <= 70 then Some(c - 55)
    else None
  }

  /** decode_hex4 of the four characters from i on. */
  function Hex4(s: seq<byte>, i: nat): (r: Option<nat>)
    ensures r.Some? ==> r.value < 0x1_0000 && i + 4 <= |s|
  {
    var a, b, c, d := HexValue(At(s, i)), HexValue(At(s, i + 1)), HexValue(At(s, i + 2)), HexValue(At(s, i + 3));
    if a.None? || b.None? || c.None? || d.None? then None
    else Some(a.value * 0x1000 + b.value * 0x100 + c.value * 0x10 + d.value)
  }

  /** The UTF-8 form of a code point (section 3 of RFC 3629). */
  function Utf8(cp: nat): (s: seq<byte>)
    requires cp < 0x20_0000
    ensures 1 <= |s| <= 4
  {
    if cp <= 0x7F then [cp]
    else if cp <= 0x7FF then [0xC0 + cp / 0x40, 0x80 + cp % 0x40]
    else if cp <= 0xFFFF then [0xE0 + cp / 0x1000, 0x80 + cp / 0x40 % 0x40, 0x80 + cp % 0x40]
    else [0xF0 + cp / 0x4_0000, 0x80 + cp / 0x1000 % 0x40, 0x80 + cp / 0x40 % 0x40, 0x80 + cp % 0x40]
  }

  predicate IsHigh(u: nat) {
    0xD800 <= u < 0xDC00
  }

  predicate IsLow(u: nat) {
    0xDC00 <= u < 0xE000
  }

  /** The code point of a surrogate pair (section 2.1 of RFC 2781). */
  function Paired(high: nat, low: nat): (cp: nat)
    requires IsHigh(high) && IsLow(low)
    ensures 0x1_0000 <= cp < 0x11_0000
  {
    high % 0x400 * 0x400 + low % 0x400 + 0x1_0000
  }

  /** json_append_unicode_escape at "\u": the bytes it stands for and the length of the escape, 6 or 12. */
  function UnicodeAt(s: seq<byte>): (r: Option<(seq<byte>, nat)>)
    ensures r.Some? ==> 6 <= r.value.1 <= |s| && |r.value.0| <= 4
  {
    match Hex4(s, 2)
    case None => None
    case Some(u) =>
      if IsLow(u) then None
      else if IsHigh(u) then
        if At(s, 6) != BACKSLASH || At(s, 7) != LETTER_U then None
        else
          match Hex4(s, 8)
          case None => None
          case Some(low) => if IsLow(low) then Some((Utf8(Paired(u, low)), 12)) else None
      else Some((Utf8(u), 6))
  }

  /** json_next_string_token behind the opening quote: the string, and the length up to and with the closing quote. */
  ghost function RawString(s: seq<byte>): (r: Option<(seq<byte>, nat)>)
    ensures r.Some? ==> |r.value.0| < r.value.1 <= |s|
  {
    var c := At(s, 0);
    if c == 0 then None
    else if c == QUOTE then Some(([], 1))
    else if c == BACKSLASH then
      var e := Unescape(At(s, 1));
      if e == 0 then None
      else if e == LETTER_U then
        match UnicodeAt(s)
        case None => None
        case Some(u) => Prefixed(u.0, u.1, RawString(s[u.1..]))
      else Prefixed([e], 2, RawString(s[2..]))
    else Prefixed([c], 1, RawString(s[1..]))
  }

  function Prefixed(b: seq<byte>, n: nat, r: Option<(seq<byte>, nat)>): Option<(seq<byte>, nat)> {
    if r.None? then None else Some((b + r.value.0, n + r.value.1))
  }

  /** A decoded string is shorter than the text it is read from. */
  ghost predicate IsString(s: seq<byte>, r: Option<(seq<byte>, nat)>) {
    && (r.Some? ==> |r.value.0| < r.value.1 <= |s|)
    && forall d {:trigger Opened(d)} :: Opened(d) ==> r == RawString(s)
  }

  /** RawString, kept closed. */
  ghost function StringAt(s: seq<byte>): (r: Option<(seq<byte>, nat)>)
    ensures IsString(s, r)
  {
    assert IsString(s, RawString(s));
    var r :| IsString(s, r);
    r
  }

  /** The next piece of a string: its end, an escape, or a byte. */
  lemma StringStep(s: seq<byte>)
    ensures At(s, 0) == 0 ==> StringAt(s) == None
    ensures At(s, 0) == QUOTE ==> StringAt(s) == Some(([], 1))
    ensures At(s, 0) != 0 && At(s, 0) != QUOTE && At(s, 0) != BACKSLASH ==>
              |s| >= 1 && StringAt(s) == Prefixed([At(s, 0)], 1, StringAt(s[1..]))
  {
    assert Opened(true);
  }

  lemma StringEscape(s: seq<byte>)
    requires At(s, 0) == BACKSLASH
    ensures var e := Unescape(At(s, 1));
            && (e == 0 ==> StringAt(s) == None)
            && (e == LETTER_U && UnicodeAt(s).None? ==> StringAt(s) == None)
            && (e == LETTER_U && UnicodeAt(s).Some? ==>
                  var u := UnicodeAt(s).value; StringAt(s) == Prefixed(u.0, u.1, StringAt(s[u.1..])))
            && (e != 0 && e != LETTER_U ==> |s| >= 2 && StringAt(s) == Prefixed([e], 2, StringAt(s[2..])))
  {
    assert Opened(true);
  }

  // ---------------------------------------------------------------------------------------------------------
  // Round trip

  lemma EscapeRead(b: byte, rest: seq<byte>)
    ensures StringAt(Escape(b) + rest) == Prefixed([b], |Escape(b)|, StringAt(rest))
  {
    var s := Escape(b) + rest;
    assert s[|Escape(b)|..] == rest;
    if |Escape(b)| == 1 {
      StringStep(s);
    } else {
      StringEscape(s);
      if |Escape(b)| == 6 {
        HexEscapeRead(b, rest);
      }
    }
  }

  lemma HexEscapeRead(b: byte, rest: seq<byte>)
    requires b < 128
    ensures UnicodeAt(HexEscape(b) + rest) == Some(([b], 6))
  {
    var s := HexEscape(b) + rest;
    HexDigit(b / 16);
    HexDigit(b % 16);
    assert Hex4(s, 2) == Some(b / 16 * 16 + b % 16);
  }

  lemma HexDigit(d: nat)
    requires d < 16
    ensures HexValue(Hex(d)) == Some(d)
  {
  }

  /** A printed string reads back, any bytes included, and nothing of what follows is taken. */
  lemma {:induction false} StringRoundTrip(str: seq<byte>, rest: seq<byte>)
    ensures StringAt(Escaped(str) + [QUOTE] + rest) == Some((str, |Escaped(str)| + 1))
  {
    if str == [] {
      StringStep([QUOTE] + rest);
      assert [] + [QUOTE] + rest == [QUOTE] + rest;
    } else {
      var more := Escaped(str[1..]) + [QUOTE] + rest;
      EscapeRead(str[0], more);
      StringRoundTrip(str[1..], rest);
      Rejoin(Escape(str[0]), Escaped(str[1..]), [QUOTE], rest);
      assert [str[0]] + str[1..] == str;
    }
  }

  lemma Rejoin(a: seq<byte>, b: seq<byte>, c: seq<byte>, d: seq<byte>)
    ensures a + b + c + d == a + (b + c + d)
  {
  }

  lemma {:induction false} EscapedHasNoNul(s: seq<byte>)
    ensures forall i :: 0 <= i < |Escaped(s)| ==> Escaped(s)[i] != 0
  {
    if s != [] {
      EscapedHasNoNul(s[1..]);
      var e := Escape(s[0]);
      assert forall i :: 0 <= i < |e| ==> e[i] != 0;
    }
  }

  // ---------------------------------------------------------------------------------------------------------
  // Unicode

  /** \uxxxx of a 16-bit unit. */
  function UnitText(u: nat): seq<byte>
    requires u < 0x1_0000
  {
    [BACKSLASH, LETTER_U, Hex(u / 0x1000), Hex(u / 0x100 % 16), Hex(u / 0x10 % 16), Hex(u % 16)]
  }

  /** The UTF-16 units of a code point (section 2.1 of RFC 2781). */
  function Utf16(cp: nat): seq<nat>
    requires cp < 0x11_0000
  {
    if cp < 0x1_0000 then [cp] else [0xD800 + (cp - 0x1_0000) / 0x400, 0xDC00 + (cp - 0x1_0000) % 0x400]
  }

  predicate IsScalarValue(cp: nat) {
    cp < 0x11_0000 && !(0xD800 <= cp < 0xE000)
  }

  function CodePointText(cp: nat): seq<byte>
    requires cp < 0x11_0000
  {
    var units := Utf16(cp);
    if |units| == 1 then UnitText(units[0]) else UnitText(units[0]) + UnitText(units[1])
  }

  lemma UnitRead(u: nat, before: seq<byte>, rest: seq<byte>)
    requires u < 0x1_0000
    ensures Hex4(before + UnitText(u) + rest, |before| + 2) == Some(u)
  {
    var s, i := before + UnitText(u) + rest, |before| + 2;
    var a, b, c, d := u / 0x1000, u / 0x100 % 16, u / 0x10 % 16, u % 16;
    HexDigit(a);
    HexDigit(b);
    HexDigit(c);
    HexDigit(d);
    assert At(s, i) == Hex(a) && At(s, i + 1) == Hex(b) && At(s, i + 2) == Hex(c) && At(s, i + 3) == Hex(d);
    Digits(u);
  }

  lemma Digits(u: nat)
    requires u < 0x1_0000
    ensures u / 0x1000 * 0x1000 + u / 0x100 % 16 * 0x100 + u / 0x10 % 16 * 0x10 + u % 16 == u
  {
    assert u / 0x100 == u / 0x1000 * 16 + u / 0x100 % 16;
    assert u / 0x10 == u / 0x100 * 16 + u / 0x10 % 16;
  }

  lemma UnitOnly(u: nat, rest: seq<byte>)
    requires u < 0x1_0000 && !IsHigh(u) && !IsLow(u)
    ensures UnicodeAt(UnitText(u) + rest) == Some((Utf8(u), 6))
  {
    UnitRead(u, [], rest);
    assert [] + UnitText(u) + rest == UnitText(u) + rest;
  }

  lemma UnitPair(high: nat, low: nat, rest: seq<byte>)
    requires IsHigh(high) && IsLow(low)
    ensures UnicodeAt(UnitText(high) + UnitText(low) + rest) == Some((Utf8(Paired(high, low)), 12))
  {
    var s := UnitText(high) + UnitText(low) + rest;
    UnitRead(high, [], UnitText(low) + rest);
    UnitRead(low, UnitText(high), rest);
    assert [] + UnitText(high) + (UnitText(low) + rest) == s;
    assert At(s, 6) == BACKSLASH && At(s, 7) == LETTER_U;
  }

  /** Every code point, escaped as one unit or a surrogate pair, becomes its UTF-8 form. */
  lemma CodePointRead(cp: nat, rest: seq<byte>)
    requires IsScalarValue(cp)
    ensures UnicodeAt(CodePointText(cp) + rest) == Some((Utf8(cp), |CodePointText(cp)|))
  {
    if cp < 0x1_0000 {
      UnitOnly(cp, rest);
    } else {
      Pairing(cp);
      UnitPair(Utf16(cp)[0], Utf16(cp)[1], rest);
    }
  }

  lemma Pairing(cp: nat)
    requires 0x1_0000 <= cp < 0x11_0000
    ensures var units := Utf16(cp); IsHigh(units[0]) && IsLow(units[1]) && Paired(units[0], units[1]) == cp
  {
    var x := cp - 0x1_0000;
    assert (0xD800 + x / 0x400) % 0x400 == x / 0x400;
    assert (0xDC00 + x % 0x400) % 0x400 == x % 0x400;
  }

  /** A unit that is a surrogate is refused unless it is a high one followed by a low one. */
  lemma LoneSurrogate(u: nat, rest: seq<byte>)
    requires IsLow(u) || (IsHigh(u) && !(At(rest, 0) == BACKSLASH && At(rest, 1) == LETTER_U))
    ensures UnicodeAt(UnitText(u) + rest) == None
  {
    UnitRead(u, [], rest);
    assert [] + UnitText(u) + rest == UnitText(u) + rest;
    assert At(UnitText(u) + rest, 6) == At(rest, 0) && At(UnitText(u) + rest, 7) == At(rest, 1);
  }

  /** The bits of a byte above its marker. */
  function Bits(b: byte, marker: int): int {
    var x: int := b;
    x - marker
  }

  /** The code point of a UTF-8 form, from its leading byte and continuation bytes. */
  function FromUtf8(s: seq<byte>): int {
    if |s| == 1 then Bits(s[0], 0)
    else if |s| == 2 then Bits(s[0], 0xC0) * 0x40 + Bits(s[1], 0x80)
    else if |s| == 3 then Bits(s[0], 0xE0) * 0x1000 + Bits(s[1], 0x80) * 0x40 + Bits(s[2], 0x80)
    else if |s| == 4 then
      Bits(s[0], 0xF0) * 0x4_0000 + Bits(s[1], 0x80) * 0x1000 + Bits(s[2], 0x80) * 0x40 + Bits(s[3], 0x80)
    else -1
  }

  lemma Utf8RoundTrip(cp: nat)
    requires cp < 0x20_0000
    ensures FromUtf8(Utf8(cp)) == cp
    ensures forall i :: 1 <= i < |Utf8(cp)| ==> 0x80 <= Utf8(cp)[i] < 0xC0
  {
    assert cp / 0x40 == cp / 0x1000 * 0x40 + cp / 0x40 % 0x40;
    assert cp / 0x1000 == cp / 0x4_0000 * 0x40 + cp / 0x1000 % 0x40;
  }
}
