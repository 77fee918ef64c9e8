module JsonForms {
  // JSON texts in literal characters, the order of what they hold, and texts that are refused.

  import opened Wrappers
  import opened Sequences
  import opened Bytes
  import opened Decimal
  import opened JsonText
  import opened Json
  import opened JsonRoundTrip
  import opened JsonLayout

  // ---------------------------------------------------------------------------------------------------------
  // What is printed

  /** null, true, false, an integer with its sign, a string between quotation marks. */
  lemma ScalarForms(v: Json)
    requires !v.Table?
    ensures Text(v)
            == match v
               case Null => [110, 117, 108, 108]
               case Bool(b) => if b then [116, 114, 117, 101] else [102, 97, 108, 115, 101]
               case Int(i) => if i < 0 then [45] + ToDecimal(-i) else ToDecimal(i)
               case Str(s) => [34] + Escaped(s) + [34]
  {
  }

  /** Escapes: a backslash and a letter or the character itself, \u and four digits, or the character alone. */
  lemma EscapeForms(b: byte)
    ensures Escape(b)
            == if b == 34 || b == 92 || b == 47 then [92, b]
               else if b == 8 then [92, 98] else if b == 9 then [92, 116] else if b == 10 then [92, 110]
               else if b == 12 then [92, 102] else if b == 13 then [92, 114]
               else if b < 32 || b == 127 then [92, 117, 48, 48, 48 + b / 16, if b % 16 < 10 then 48 + b % 16 else 87 + b % 16]
               else [b]
  {
  }

  /** The characters of a string are escaped one by one, in order. */
  lemma {:induction false} EscapedAppend(s: seq<byte>, t: seq<byte>)
    ensures Escaped(s + t) == Escaped(s) + Escaped(t)
  {
    if s == [] {
      assert s + t == t;
    } else {
      assert (s + t)[1..] == s[1..] + t;
      EscapedAppend(s[1..], t);
    }
  }

  /** Items between brackets for the keys 1 to n, pairs between braces for string keys or none. */
  lemma TableForms(ms: Members)
    requires Distinct(ms)
    ensures Count(ms) >= 1 && Keys(ms) == Indices(Count(ms)) && Count(ms) < 0x4000_0000 ==>
              Text(Table(ms)) == [91] + (ItemsText(ms, 1, Count(ms)) + [93])
    ensures AllNames(ms) ==> Text(Table(ms)) == [123] + (MembersText(ms) + [125])
  {
    if Count(ms) >= 1 && Keys(ms) == Indices(Count(ms)) {
      DenseIsArray(ms, Count(ms));
    }
    if AllNames(ms) {
      NamesAreObject(ms);
    }
  }

  /** Items stand in the order of their indices, a comma between any two. */
  lemma {:induction false} ItemOrder(ms: Members, j: int, n: int)
    requires 1 <= j < n
    ensures ItemsText(ms, j, n) == ItemsText(ms, j, n - 1) + ([44] + Text(Find(ms, Index(n))))
    decreases n - j
  {
    FindDepth(ms, Index(j));
    FindDepth(ms, Index(n));
    var first, last := Text(Find(ms, Index(j))), [44] + Text(Find(ms, Index(n)));
    if j + 1 < n {
      ItemOrder(ms, j + 1, n);
      var between := ItemsText(ms, j + 1, n - 1);
      assert [44] + (between + last) == [44] + between + last;
      Associative(first, [44] + between, last);
    } else {
      assert ItemsText(ms, n, n) == Text(Find(ms, Index(n))) + [];
      assert ItemsText(ms, j, n - 1) == first + [] == first;
      assert Text(Find(ms, Index(n))) + [] == Text(Find(ms, Index(n)));
    }
  }

  /** A key stands between quotation marks, with a colon behind. */
  lemma KeyForm(k: Key)
    ensures KeyText(k)
            == [34] + (if k.Name? then Escaped(k.s) else if k.i < 0 then [45] + ToDecimal(-k.i) else ToDecimal(k.i)) + [34, 58]
  {
    if k.Name? {
      assert [34] + Escaped(k.s) + [34] + [58] == [34] + Escaped(k.s) + [34, 58];
    }
  }

  /** A pair: the key, the value, and a comma before further ones. */
  lemma PairForm(ms: Members)
    requires ms.Member?
    ensures MembersText(ms)
            == KeyText(ms.key) + (Text(ms.value) + if ms.rest.NoMembers? then [] else [44] + MembersText(ms.rest))
  {
  }

  /** Positive integer keys up to n are an array, unless n is above 10 and above twice the number of keys. */
  lemma SparseExactly(ms: Members, n: nat)
    requires Index(n) in Keys(ms) && n < 0x8000_0000 && Count(ms) < 0x4000_0000
    requires forall k :: k in Keys(ms) ==> k.Index? && 1 <= k.i <= n
    ensures ShapeOf(ms) == if n > 2 * Count(ms) && n > 10 then TooSparse else Length(n)
  {
    SparseFrom(ms, 0, 0, n);
  }

  lemma {:induction false} SparseFrom(ms: Members, max: nat, items: nat, n: nat)
    requires (max == n || Index(n) in Keys(ms)) && max <= n < 0x8000_0000 && items + Count(ms) < 0x4000_0000
    requires forall k :: k in Keys(ms) ==> k.Index? && 1 <= k.i <= n
    ensures Scan(ms, max, items) == if n > 2 * (items + Count(ms)) && n > 10 then TooSparse else Length(n)
  {
    match ms
    case NoMembers =>
    case Member(k, _, rest) =>
      assert k in Keys(ms);
      SparseFrom(rest, if k.i > max then k.i else max, items + 1, n);
  }

  // ---------------------------------------------------------------------------------------------------------
  // The same value

  /** x is the value v: the same scalar, or a table of the same keys with the same values under them. */
  predicate Same(v: Json, x: Val)
    decreases v, 0
  {
    match v
    case Null => x == VNull
    case Bool(b) => x == VBool(b)
    case Int(i) => x == VInt(i)
    case Str(s) => x == VStr(s)
    case Table(ms) => x.VTable? && x.m.Keys == Keys(ms) && SameMembers(ms, x.m)
  }

  predicate SameMembers(ms: Members, m: map<Key, Val>)
    decreases ms, 1
  {
    match ms
    case NoMembers => true
    case Member(k, v, rest) => k in m && Same(v, m[k]) && SameMembers(rest, m)
  }

  lemma {:induction false} SameBeside(ms: Members, m: map<Key, Val>, k: Key, y: Val)
    requires SameMembers(ms, m) && k !in Keys(ms)
    ensures SameMembers(ms, m[k := y])
    decreases ms
  {
    match ms
    case NoMembers =>
    case Member(_, _, rest) => SameBeside(rest, m, k, y);
  }

  lemma {:induction false} MeansItself(v: Json)
    requires Regular(v)
    ensures Same(v, Meaning(v))
    decreases v, 0
  {
    if v.Table? {
      MembersThemselves(v.members);
    }
  }

  lemma {:induction false} MembersThemselves(ms: Members)
    requires Distinct(ms) && MembersRegular(ms)
    ensures MembersMeaning(ms).Keys == Keys(ms) && SameMembers(ms, MembersMeaning(ms))
    decreases ms, 1
  {
    match ms
    case NoMembers =>
    case Member(k, v, rest) =>
      MeansItself(v);
      MembersThemselves(rest);
      SameBeside(rest, MembersMeaning(rest), k, Meaning(v));
  }

  /** Decoding the text of a value of dense arrays and string-keyed tables, at most 1000 deep, gives the value back. */
  lemma GivesBack(v: Json, strtod: seq<byte> -> nat)
    requires Encodable(v) && Plain(v) && Depth(v) <= 1000
    ensures Decode(Text(v), strtod).Some? && Same(v, Decode(Text(v), strtod).value)
  {
    PrintsUnlessDeep(v, 0);
    RoundTrip(v, strtod);
    MeansItself(v);
  }

  // ---------------------------------------------------------------------------------------------------------
  // What is refused

  /** s does not begin with any of the signs, which are no white space, so that no token there is one of them. */
  predicate NoSign(s: seq<byte>, a: byte, b: byte) {
    s == [] || (s[0] != a && s[0] != b && !IsSpace(s[0]))
  }

  lemma OtherToken(w: seq<byte>, s: seq<byte>, strtod: seq<byte> -> nat)
    requires White(w) && (s == [] || !IsSpace(s[0]))
    ensures var t := TokenAt(w + s, strtod).0;
            && (t.Comma? ==> s != [] && s[0] == 44) && (t.Colon? ==> s != [] && s[0] == 58)
            && (t.ArrEnd? ==> s != [] && s[0] == 93) && (t.ObjEnd? ==> s != [] && s[0] == 125)
            && (t.End? ==> s == [] || s[0] == 0) && (t.Scalar? && t.v.VStr? ==> s != [] && s[0] == 34)
  {
    TokenSpaced(w, s, strtod);
    TokenIs(s, strtod);
  }

  /** Anything but white space behind a value makes the text invalid. */
  lemma TrailingRefused(v: Json, w: seq<byte>, s: seq<byte>, strtod: seq<byte> -> nat)
    requires Encodable(v) && Printable(v, 0) && White(w) && s != [] && s[0] != 0 && !IsSpace(s[0]) && Follows(w + s)
    ensures Decode(Text(v) + (w + s), strtod) == None
  {
    PrintsUnlessDeep(v, 0);
    ValueRead(v, w + s, 0, strtod);
    OtherToken(w, s, strtod);
    assert (Text(v) + (w + s))[|Text(v)|..] == w + s;
  }

  /** An item is followed by a comma or a bracket: another sign, or the end of the text, makes it invalid. */
  lemma ItemSeparated(v: Json, w: seq<byte>, s: seq<byte>, strtod: seq<byte> -> nat)
    requires Encodable(v) && Printable(v, 1) && White(w) && NoSign(s, 44, 93) && Follows(w + s)
    ensures Decode([91] + (Text(v) + (w + s)), strtod) == None
  {
    var rest := Text(v) + (w + s);
    PrintsUnlessDeep(v, 1);
    ValueRead(v, w + s, 1, strtod);
    OtherToken(w, s, strtod);
    assert rest[|Text(v)|..] == w + s;
    ItemsStep(rest, 1, map[], 1, strtod);
    SignToken(91, rest, strtod);
    ValueArray([91] + rest, 0, strtod);
    if TokenAt(rest, strtod).0.ArrEnd? {
      ValueScalar(rest, 1, strtod);
    }
  }

  lemma PairStops(s: seq<byte>, key: seq<byte>, n: nat, v: Val, l: nat, strtod: seq<byte> -> nat)
    requires KeyAt(s, strtod) == Some((key, n)) && n + l <= |s| && ValueAt(s[n..], 1, strtod) == Got(v, l)
    requires !TokenAt(s[n + l..], strtod).0.Comma? && !TokenAt(s[n + l..], strtod).0.ObjEnd?
    ensures PairsAt(s, map[], 1, strtod) == Error
  {
    PairsStep(s, map[], 1, strtod);
  }

  /** A pair is followed by a comma or a brace. */
  lemma PairSeparated(k: Key, v: Json, w: seq<byte>, s: seq<byte>, strtod: seq<byte> -> nat)
    requires Encodable(v) && Printable(v, 1) && White(w) && NoSign(s, 44, 125) && Follows(w + s)
    ensures Decode([123] + (KeyText(k) + (Text(v) + (w + s))), strtod) == None
  {
    var tail := Text(v) + (w + s);
    PrintsUnlessDeep(v, 1);
    ValueRead(v, w + s, 1, strtod);
    OtherToken(w, s, strtod);
    KeyRead(k, tail, strtod);
    Behind(KeyText(k), Text(v), w + s);
    PairStops(KeyText(k) + tail, NameOf(k), |KeyText(k)|, Reading(v), |Text(v)|, strtod);
    ObjectRefused(KeyText(k) + tail, strtod);
  }

  /** A key is a string, and a colon follows it. */
  lemma KeyRefused(w: seq<byte>, s: seq<byte>, strtod: seq<byte> -> nat)
    requires White(w) && NoSign(s, 34, 125)
    ensures Decode([123] + (w + s), strtod) == None
  {
    OtherToken(w, s, strtod);
    PairsStep(w + s, map[], 1, strtod);
    ObjectRefused(w + s, strtod);
  }

  lemma ColonRefused(name: seq<byte>, w: seq<byte>, s: seq<byte>, strtod: seq<byte> -> nat)
    requires White(w) && NoSign(s, 58, 58)
    ensures Decode([123] + (StrText(name) + (w + s)), strtod) == None
  {
    var rest := StrText(name) + (w + s);
    StrToken(name, w + s, strtod);
    OtherToken(w, s, strtod);
    assert rest[|StrText(name)|..] == w + s;
    PairsStep(rest, map[], 1, strtod);
    ObjectRefused(rest, strtod);
  }

  lemma ObjectRefused(rest: seq<byte>, strtod: seq<byte> -> nat)
    requires PairsAt(rest, map[], 1, strtod) == Error && !TokenAt(rest, strtod).0.ObjEnd?
    ensures Decode([123] + rest, strtod) == None
  {
    SignToken(123, rest, strtod);
    ValueObject([123] + rest, 0, strtod);
  }

  /** Inside a string a byte other than NUL, the quotation mark and the backslash is itself, control characters included. */
  lemma StringPieces(c: byte, rest: seq<byte>)
    ensures c == 34 ==> StringAt([c] + rest) == Some(([], 1))
    ensures c == 0 ==> StringAt([c] + rest) == None
    ensures c != 0 && c != 34 && c != 92 ==>
              var r := StringAt(rest);
              StringAt([c] + rest) == if r.None? then None else Some(([c] + r.value.0, (1 + r.value.1) as nat))
    ensures StringAt([]) == None
  {
    StringStep([c] + rest);
    StringStep([]);
    assert ([c] + rest)[1..] == rest;
  }

  /** Behind a backslash there is one of " \ / b t n f r, which stands for itself or a control character, or u. */
  lemma EscapePieces(c: byte, rest: seq<byte>)
    ensures c == 34 || c == 92 || c == 47 || c == 98 || c == 116 || c == 110 || c == 102 || c == 114 ==>
              var e: byte := if c == 98 then 8 else if c == 116 then 9 else if c == 110 then 10 else if c == 102 then 12
                       else if c == 114 then 13 else c;
              var r := StringAt(rest);
              StringAt([92, c] + rest) == if r.None? then None else Some(([e] + r.value.0, (2 + r.value.1) as nat))
    ensures c != 34 && c != 92 && c != 47 && c != 98 && c != 116 && c != 110 && c != 102 && c != 114 && c != 117 ==>
              StringAt([92, c] + rest) == None
    ensures StringAt([92]) == None
  {
    StringEscape([92, c] + rest);
    StringEscape([92]);
    assert ([92, c] + rest)[2..] == rest;
  }

  function Brackets(n: nat): seq<byte> {
    if n == 0 then [] else [91] + Brackets(n - 1)
  }

  /** More than 1000 open brackets make the text invalid, whatever follows. */
  lemma DeepRefused(n: nat, s: seq<byte>, strtod: seq<byte> -> nat)
    requires n > 1000
    ensures Decode(Brackets(n) + s, strtod) == None
  {
    BracketsRefused(n, s, 0, strtod);
  }

  lemma {:induction false} BracketsRefused(n: nat, s: seq<byte>, depth: nat, strtod: seq<byte> -> nat)
    requires depth <= 1000 < n + depth
    ensures ValueAt(Brackets(n) + s, depth, strtod) == Error
  {
    var rest := Brackets(n - 1) + s;
    assert Brackets(n) + s == [91] + rest;
    SignToken(91, rest, strtod);
    ValueArray([91] + rest, depth, strtod);
    if depth < 1000 {
      BracketsRefused(n - 1, s, depth + 1, strtod);
      ItemsStep(rest, 1, map[], depth + 1, strtod);
      assert rest[0] == 91;
      OtherToken([], rest, strtod);
      assert [] + rest == rest;
    }
  }
}
