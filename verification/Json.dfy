// JSON texts of Lua values and what a text means: tokens, values, and their round trip.
module Json {
  import opened Wrappers
  import opened Hiding
  import opened Bytes
  import opened Decimal
  import opened JsonText
  import StrBuf

  const MAX_DEPTH := 1000
  const SPARSE_RATIO := 2
  const SPARSE_SAFE := 10
  /** %.14g prints integers below this exactly. */
  const EXACT := 100_000_000_000_000
  /** strtod reads integers of up to this many digits exactly. */
  const EXACT_DIGITS := 15

  datatype Key = Name(s: seq<byte>) | Index(i: int)

  /** A value to print; Null is cjson's null, and a table lists its members in some order of lua_next. */
  datatype Json = Null | Bool(b: bool) | Int(i: int) | Str(s: seq<byte>) | Table(members: Members)
  datatype Members = NoMembers | Member(key: Key, value: Json, rest: Members)

  /** A value read; VNumber is a number that strtod makes of the text, which is not part of this model. */
  datatype Val = VNull | VBool(b: bool) | VInt(i: int) | VStr(s: seq<byte>) | VNumber(text: seq<byte>) | VTable(m: map<Key, Val>)

  function Keys(ms: Members): set<Key> {
    match ms
    case NoMembers => {}
    case Member(k, _, rest) => {k} + Keys(rest)
  }

  function Count(ms: Members): nat {
    match ms
    case NoMembers => 0
    case Member(_, _, rest) => 1 + Count(rest)
  }

  /** lua_rawgeti of an absent index gives nil, which prints like Null. */
  function Find(ms: Members, k: Key): Json {
    match ms
    case NoMembers => Null
    case Member(key, v, rest) => if key == k then v else Find(rest, k)
  }

  function Depth(v: Json): nat
    decreases v, 0
  {
    if v.Table? then 1 + MembersDepth(v.members) else 0
  }

  function MembersDepth(ms: Members): nat
    decreases ms, 1
  {
    match ms
    case NoMembers => 0
    case Member(_, v, rest) => if Depth(v) > MembersDepth(rest) then Depth(v) else MembersDepth(rest)
  }

  lemma {:induction false} FindDepth(ms: Members, k: Key)
    ensures Depth(Find(ms, k)) <= MembersDepth(ms)
    decreases ms
  {
    match ms
    case NoMembers =>
    case Member(_, _, rest) => FindDepth(rest, k);
  }

  // ---------------------------------------------------------------------------------------------------------
  // Arrays and objects

  /** Uncounted: an index or a number of items leaves its int, and nothing is known from there on. */
  datatype Shape = Object | TooSparse | Length(n: int) | Uncounted

  predicate IsIndex(k: Key) {
    k.Index? && k.i >= 1
  }

  /** lua_array_length over the remaining keys: the largest index, unless a key is no positive integer. */
  function Scan(ms: Members, max: int, items: int): Shape {
    match ms
    case NoMembers =>
      if items * SPARSE_RATIO >= StrBuf.INT_LIMIT then Uncounted
      else if max > items * SPARSE_RATIO && max > SPARSE_SAFE then TooSparse
      else Length(max)
    case Member(k, _, rest) =>
      if !IsIndex(k) then Object
      else if (k.i > max && k.i >= StrBuf.INT_LIMIT) || items + 1 >= StrBuf.INT_LIMIT then Uncounted
      else Scan(rest, if k.i > max then k.i else max, items + 1)
  }

  /** The members in front of the first key that is no positive integer. */
  function Leading(ms: Members): (r: Members)
    ensures forall k :: k in Keys(r) ==> IsIndex(k)
  {
    match ms
    case NoMembers => NoMembers
    case Member(k, v, rest) => if IsIndex(k) then Member(k, v, Leading(rest)) else NoMembers
  }

  predicate HasLarge(ms: Members) {
    exists k :: k in Keys(ms) && k.Index? && k.i >= StrBuf.INT_LIMIT
  }

  /**
   * A table is counted in its ints unless an index of 2^31 or more stands in front of every other key, or there are too
   * many indices: 2^30 when there is no other key.
   */
  lemma UncountedExactly(ms: Members)
    ensures ShapeOf(ms).Uncounted?
            <==> || HasLarge(Leading(ms)) || Count(Leading(ms)) >= StrBuf.INT_LIMIT
                 || (Leading(ms) == ms && Count(ms) * SPARSE_RATIO >= StrBuf.INT_LIMIT)
  {
    UncountedFrom(ms, 0, 0);
  }

  lemma {:induction false} UncountedFrom(ms: Members, max: int, items: int)
    requires 0 <= max < StrBuf.INT_LIMIT && 0 <= items < StrBuf.INT_LIMIT
    ensures Scan(ms, max, items).Uncounted?
            <==> || HasLarge(Leading(ms)) || items + Count(Leading(ms)) >= StrBuf.INT_LIMIT
                 || (Leading(ms) == ms && (items + Count(ms)) * SPARSE_RATIO >= StrBuf.INT_LIMIT)
  {
    match ms
    case NoMembers =>
    case Member(k, v, rest) =>
      if IsIndex(k) {
        LargeMember(k, v, Leading(rest));
        if k.i < StrBuf.INT_LIMIT && items + 1 < StrBuf.INT_LIMIT {
          UncountedFrom(rest, if k.i > max then k.i else max, items + 1);
        }
      }
  }

  lemma LargeMember(k: Key, v: Json, rest: Members)
    requires k.Index?
    ensures HasLarge(Member(k, v, rest)) <==> k.i >= StrBuf.INT_LIMIT || HasLarge(rest)
  {
    var ms := Member(k, v, rest);
    assert k in Keys(ms);
    if HasLarge(rest) {
      var l :| l in Keys(rest) && l.Index? && l.i >= StrBuf.INT_LIMIT;
      assert l in Keys(ms);
    }
  }

  /** One index of three thousand million: sparse as an array, but not counted. */
  lemma LargeIndexUncounted(v: Json)
    ensures ShapeOf(Member(Index(3_000_000_000), v, NoMembers)) == Uncounted
  {
  }

  lemma {:induction false} AllIndicesLead(ms: Members)
    requires forall k :: k in Keys(ms) ==> IsIndex(k)
    ensures Leading(ms) == ms
  {
    match ms
    case NoMembers =>
    case Member(k, _, rest) =>
      assert k in Keys(ms);
      AllIndicesLead(rest);
  }

  function ShapeOf(ms: Members): Shape {
    Scan(ms, 0, 0)
  }

  function Indices(n: nat): (s: set<Key>)
    ensures forall k :: k in s <==> k.Index? && 1 <= k.i <= n
    ensures |s| == n
  {
    if n == 0 then {} else Indices(n - 1) + {Index(n)}
  }

  /** Member keys are distinct. */
  predicate Distinct(ms: Members) {
    match ms
    case NoMembers => true
    case Member(k, _, rest) => k !in Keys(rest) && Distinct(rest)
  }

  predicate AllNames(ms: Members) {
    match ms
    case NoMembers => true
    case Member(k, _, rest) => k.Name? && AllNames(rest)
  }

  lemma {:induction false} CountIsKeys(ms: Members)
    requires Distinct(ms)
    ensures Count(ms) == |Keys(ms)|
  {
    match ms
    case NoMembers =>
    case Member(k, _, rest) =>
      CountIsKeys(rest);
      assert Keys(ms) == Keys(rest) + {k};
  }

  lemma {:induction false} ScanIndices(ms: Members, max: int, items: int, n: nat)
    requires Keys(ms) <= Indices(n) && 0 <= max <= n
    ensures var top := Scan(ms, max, items);
            !top.Object? && (top.Length? ==> max <= top.n <= n && forall k :: k in Keys(ms) ==> k.i <= top.n)
    ensures (max == n || Index(n) in Keys(ms)) && n <= items + Count(ms) && 0 <= items
              && (items + Count(ms)) * SPARSE_RATIO < StrBuf.INT_LIMIT ==>
              Scan(ms, max, items) == Length(n)
  {
    match ms
    case NoMembers =>
    case Member(k, _, rest) =>
      assert k in Keys(ms);
      ScanIndices(rest, if k.i > max then k.i else max, items + 1, n);
  }

  /** A table with exactly the keys 1 to n, n >= 1, is an array of n items, in any order of its keys, up to 2^30. */
  lemma DenseIsArray(ms: Members, n: nat)
    requires Distinct(ms) && Keys(ms) == Indices(n) && n >= 1
    ensures ShapeOf(ms) == if n * SPARSE_RATIO < StrBuf.INT_LIMIT then Length(n) else Uncounted
  {
    CountIsKeys(ms);
    ScanIndices(ms, 0, 0, n);
    assert Index(n) in Indices(n);
    AllIndicesLead(ms);
    UncountedExactly(ms);
  }

  lemma NamesAreObject(ms: Members)
    requires AllNames(ms)
    ensures ShapeOf(ms) == if ms.NoMembers? then Length(0) else Object
  {
  }

  // ---------------------------------------------------------------------------------------------------------
  // Printing

  function IntText(i: int): (s: seq<byte>)
    ensures s != []
  {
    if i < 0 then [45] + ToDecimal(-i) else ToDecimal(i)
  }

  predicate Exact(i: int) {
    -EXACT < i < EXACT
  }

  /** All numbers, keys among them, are integers of at most 14 digits. */
  predicate ExactNumbers(v: Json)
    decreases Depth(v), 0, 0
  {
    (v.Int? ==> Exact(v.i)) && (v.Table? ==> MembersExact(v.members))
  }

  predicate MembersExact(ms: Members)
    decreases MembersDepth(ms), 1, Count(ms)
  {
    match ms
    case NoMembers => true
    case Member(k, v, rest) => (k.Index? ==> Exact(k.i)) && ExactNumbers(v) && MembersExact(rest)
  }

  lemma {:induction false} FindExact(ms: Members, k: Key)
    requires MembersExact(ms)
    ensures ExactNumbers(Find(ms, k))
    decreases ms
  {
    match ms
    case NoMembers =>
    case Member(_, _, rest) => FindExact(rest, k);
  }

  const TRUE: seq<byte> := [116, 114, 117, 101]
  const FALSE: seq<byte> := [102, 97, 108, 115, 101]
  const NULL: seq<byte> := [110, 117, 108, 108]

  function KeyText(k: Key): seq<byte> {
    match k
    case Name(s) => StrText(s) + [58]
    case Index(i) => [QUOTE] + IntText(i) + [QUOTE, 58]
  }

  /** json_append_data, when it raises no error and every table is counted. */
  function Text(v: Json): seq<byte>
    decreases Depth(v), 0, 0
  {
    match v
    case Null => NULL
    case Bool(b) => if b then TRUE else FALSE
    case Int(i) => IntText(i)
    case Str(s) => StrText(s)
    case Table(ms) =>
      var shape := ShapeOf(ms);
      if shape.Length? && shape.n > 0 then [91] + (ItemsText(ms, 1, shape.n) + [93])
      else [123] + (MembersText(ms) + [125])
  }

  /** Items j to n with commas between them. */
  function ItemsText(ms: Members, j: int, n: int): seq<byte>
    requires 1 <= j <= n
    decreases MembersDepth(ms), 1, n - j
  {
    FindDepth(ms, Index(j));
    Text(Find(ms, Index(j))) + if j == n then [] else [44] + ItemsText(ms, j + 1, n)
  }

  function MembersText(ms: Members): seq<byte>
    decreases MembersDepth(ms), 1, Count(ms)
  {
    match ms
    case NoMembers => []
    case Member(k, v, rest) => KeyText(k) + (Text(v) + if rest.NoMembers? then [] else [44] + MembersText(rest))
  }

  /** Printing v at a nesting depth raises no error: not too deep, no sparse array. */
  predicate Printable(v: Json, depth: nat)
    decreases Depth(v), 0, 0
  {
    v.Table? ==>
      && depth < MAX_DEPTH && !ShapeOf(v.members).TooSparse?
      && var shape := ShapeOf(v.members);
         if shape.Length? && shape.n > 0 then ItemsPrintable(v.members, 1, shape.n, depth + 1)
         else MembersPrintable(v.members, depth + 1)
  }

  predicate ItemsPrintable(ms: Members, j: int, n: int, depth: nat)
    requires 1 <= j <= n
    decreases MembersDepth(ms), 1, n - j
  {
    FindDepth(ms, Index(j));
    Printable(Find(ms, Index(j)), depth) && (j < n ==> ItemsPrintable(ms, j + 1, n, depth))
  }

  predicate MembersPrintable(ms: Members, depth: nat)
    decreases MembersDepth(ms), 1, Count(ms)
  {
    match ms
    case NoMembers => true
    case Member(_, v, rest) => Printable(v, depth) && MembersPrintable(rest, depth)
  }

  // ---------------------------------------------------------------------------------------------------------
  // Tokens

  datatype Token = ObjBegin | ObjEnd | ArrBegin | ArrEnd | Comma | Colon | End | Wrong | Scalar(v: Val)

  predicate IsSpace(c: byte) {
    c == 32 || c == 9 || c == 10 || c == 13
  }

  function Spaces(s: seq<byte>): (n: nat)
    ensures n <= |s|
  {
    if s != [] && IsSpace(s[0]) then 1 + Spaces(s[1..]) else 0
  }

  function Digits(s: seq<byte>): (n: nat)
    ensures n <= |s| && AllDigits(s[..n])
  {
    if s != [] && IsDigit(s[0]) then 1 + Digits(s[1..]) else 0
  }

  /** Characters that can be part of what strtod reads. */
  predicate IsNumberChar(c: byte) {
    IsDigit(c) || c == 45 || c == 43 || c == 46 || 97 <= c <= 122 || 65 <= c <= 90
  }

  /** A digit or a minus sign; the characters that make a number a floating-point one are others. */
  predicate IsPlain(c: byte) {
    IsDigit(c) || c == 45
  }

  /**
   * What strtod answers: the number of characters it takes, and the value where the text is a plain integer of up to
   * 15 digits, which it reads exactly. Of other texts `strtod` says how many characters it takes.
   */
  function Strtod(s: seq<byte>, strtod: seq<byte> -> nat): (r: (Option<int>, nat))
    ensures r.1 <= |s|
    ensures r.0.Some? ==> forall i :: 0 <= i < r.1 ==> IsPlain(s[i])
  {
    var k := if At(s, 0) == 45 then 1 else 0;
    PlainDigits(s, k, Digits(s[k..]));
    StrtodOf(s, k, Digits(s[k..]), strtod)
  }

  /** The text at s begins with k characters of sign, then d digits. */
  function StrtodOf(s: seq<byte>, k: nat, d: nat, strtod: seq<byte> -> nat): (r: (Option<int>, nat))
    requires k + d <= |s| && AllDigits(s[k..][..d])
    ensures r.1 <= |s| && (r.0.Some? ==> r.1 == k + d)
  {
    if 1 <= d <= EXACT_DIGITS && !IsNumberChar(At(s, k + d)) then
      var m: int := DigitsValue(s[k..][..d]);
      (Some(if k == 1 then -m else m), k + d)
    else
      var n := strtod(s);
      (None, if n > |s| then 0 else n)
  }

  lemma PlainDigits(s: seq<byte>, k: nat, d: nat)
    requires k <= 1 && k + d <= |s| && AllDigits(s[k..][..d]) && (k == 1 ==> s[0] == 45)
    ensures forall i :: 0 <= i < k + d ==> IsPlain(s[i])
  {
    forall i | 0 <= i < k + d
      ensures IsPlain(s[i])
    {
      if i >= k {
        assert s[i] == s[k..][..d][i - k];
      }
    }
  }

  /** A number token; a number whose value is not known is its text, and no characters are an invalid number. */
  function NumberAt(s: seq<byte>, strtod: seq<byte> -> nat): (r: (Token, nat))
    ensures r.1 <= |s| && (r.0.Scalar? ==> r.1 > 0)
  {
    NumberOf(s, Strtod(s, strtod))
  }

  function NumberOf(s: seq<byte>, r: (Option<int>, nat)): (t: (Token, nat))
    requires r.1 <= |s|
    ensures t.1 <= |s| && (t.0.Scalar? ==> t.1 > 0)
  {
    if r.1 == 0 then (Wrong, 0) else (Scalar(if r.0.Some? then VInt(r.0.value) else VNumber(s[..r.1])), r.1)
  }

  predicate Begins(s: seq<byte>, word: seq<byte>) {
    |word| <= |s| && s[..|word|] == word
  }

  function Lower(c: byte): byte {
    if 65 <= c <= 90 then c + 32 else c
  }

  /** json_is_invalid_number for a text that begins with a plus or a letter. */
  predicate OddNumber(s: seq<byte>) {
    At(s, 0) == 43
    || (Lower(At(s, 0)) == 105 && Lower(At(s, 1)) == 110 && Lower(At(s, 2)) == 102)
    || (Lower(At(s, 0)) == 110 && Lower(At(s, 1)) == 97 && Lower(At(s, 2)) == 110)
  }

  /** json_next_token behind the white space: the token and its length. */
  ghost function RawToken(s: seq<byte>, strtod: seq<byte> -> nat): (r: (Token, nat))
    ensures r.1 <= |s| && (!r.0.End? && !r.0.Wrong? ==> r.1 > 0)
  {
    var c := At(s, 0);
    if c == 0 then (End, 0)
    else if c == 123 then (ObjBegin, 1)
    else if c == 125 then (ObjEnd, 1)
    else if c == 91 then (ArrBegin, 1)
    else if c == 93 then (ArrEnd, 1)
    else if c == 44 then (Comma, 1)
    else if c == 58 then (Colon, 1)
    else if c == QUOTE then
      match StringAt(s[1..])
      case None => (Wrong, 0)
      case Some(r) => (Scalar(VStr(r.0)), 1 + r.1)
    else if c == 45 || IsDigit(c) then NumberAt(s, strtod)
    else if Begins(s, TRUE) then (Scalar(VBool(true)), 4)
    else if Begins(s, FALSE) then (Scalar(VBool(false)), 5)
    else if Begins(s, NULL) then (Scalar(VNull), 4)
    else if c in {102, 105, 73, 110, 78, 116, 43} && OddNumber(s) then NumberAt(s, strtod)
    else (Wrong, 0)
  }

  ghost predicate IsBare(s: seq<byte>, strtod: seq<byte> -> nat, r: (Token, nat)) {
    && r.1 <= |s| && (!r.0.End? && !r.0.Wrong? ==> r.1 > 0)
    && forall d {:trigger Opened(d)} :: Opened(d) ==> r == RawToken(s, strtod)
  }

  /** RawToken, kept closed. */
  ghost function BareToken(s: seq<byte>, strtod: seq<byte> -> nat): (r: (Token, nat))
    ensures IsBare(s, strtod, r)
  {
    assert IsBare(s, strtod, RawToken(s, strtod));
    var r :| IsBare(s, strtod, r);
    r
  }

  ghost function SpacedToken(s: seq<byte>, strtod: seq<byte> -> nat): (Token, nat) {
    var (t, n) := BareToken(s[Spaces(s)..], strtod); (t, Spaces(s) + n)
  }

  ghost predicate IsToken(s: seq<byte>, strtod: seq<byte> -> nat, r: (Token, nat)) {
    && r.1 <= |s| && (!r.0.End? && !r.0.Wrong? ==> r.1 > 0)
    && forall d {:trigger Opened(d)} :: Opened(d) ==> r == SpacedToken(s, strtod)
  }

  /** The next token and the length up to its end, white space included. */
  ghost function TokenAt(s: seq<byte>, strtod: seq<byte> -> nat): (r: (Token, nat))
    ensures IsToken(s, strtod, r)
  {
    assert IsToken(s, strtod, SpacedToken(s, strtod));
    var r :| IsToken(s, strtod, r);
    r
  }

  // ---------------------------------------------------------------------------------------------------------
  // Values

  datatype Parsed = Error | Got(v: Val, used: nat)

  /** `n` more characters in front. */
  ghost function Beyond(n: nat, r: Parsed): Parsed {
    if r.Got? then Got(r.v, n + r.used) else Error
  }

  /** A key and its colon; None when there is none. */
  ghost function KeyAt(s: seq<byte>, strtod: seq<byte> -> nat): (r: Option<(seq<byte>, nat)>)
    ensures r.Some? ==> 1 <= r.value.1 <= |s|
  {
    var (t, n) := TokenAt(s, strtod);
    if !(t.Scalar? && t.v.VStr?) then None
    else
      var (c, k) := TokenAt(s[n..], strtod);
      if c.Colon? then Some((t.v.s, n + k)) else None
  }

  /** json_process_value of the token at s. */
  ghost function RawValue(s: seq<byte>, depth: nat, strtod: seq<byte> -> nat): (r: Parsed)
    ensures r.Got? ==> 1 <= r.used <= |s|
    decreases |s|, 1
  {
    var (t, n) := TokenAt(s, strtod);
    match t
    case Scalar(v) => Got(v, n)
    case ObjBegin => if depth >= MAX_DEPTH then Error else Beyond(n, RawObject(s[n..], depth + 1, strtod))
    case ArrBegin => if depth >= MAX_DEPTH then Error else Beyond(n, RawArray(s[n..], depth + 1, strtod))
    case _ => Error
  }

  /** json_parse_array_context */
  ghost function RawArray(s: seq<byte>, depth: nat, strtod: seq<byte> -> nat): (r: Parsed)
    ensures r.Got? ==> r.used <= |s|
    decreases |s|, 4
  {
    var (t, n) := TokenAt(s, strtod);
    if t.ArrEnd? then Got(VTable(map[]), n) else RawItems(s, 1, map[], depth, strtod)
  }

  ghost function RawItems(s: seq<byte>, i: nat, m: map<Key, Val>, depth: nat, strtod: seq<byte> -> nat): (r: Parsed)
    ensures r.Got? ==> r.used <= |s|
    decreases |s|, 3
  {
    match RawValue(s, depth, strtod)
    case Error => Error
    case Got(v, n) =>
      var (t, k) := TokenAt(s[n..], strtod);
      if t.ArrEnd? then Got(VTable(m[Index(i) := v]), n + k)
      else if !t.Comma? then Error
      else Beyond(n + k, RawItems(s[n + k..], i + 1, m[Index(i) := v], depth, strtod))
  }

  /** json_parse_object_context */
  ghost function RawObject(s: seq<byte>, depth: nat, strtod: seq<byte> -> nat): (r: Parsed)
    ensures r.Got? ==> r.used <= |s|
    decreases |s|, 4
  {
    var (t, n) := TokenAt(s, strtod);
    if t.ObjEnd? then Got(VTable(map[]), n) else RawPairs(s, map[], depth, strtod)
  }

  ghost function RawPairs(s: seq<byte>, m: map<Key, Val>, depth: nat, strtod: seq<byte> -> nat): (r: Parsed)
    ensures r.Got? ==> r.used <= |s|
    decreases |s|, 3
  {
    match KeyAt(s, strtod)
    case None => Error
    case Some(key) => RawPair(s, key.0, key.1, m, depth, strtod)
  }

  ghost function RawPair(s: seq<byte>, key: seq<byte>, n: nat, m: map<Key, Val>, depth: nat, strtod: seq<byte> -> nat):
      (r: Parsed)
    requires n <= |s|
    ensures r.Got? ==> r.used <= |s|
    decreases |s|, 2
  {
    match RawValue(s[n..], depth, strtod)
    case Error => Error
    case Got(v, l) =>
      var (t, k) := TokenAt(s[n + l..], strtod);
      if t.ObjEnd? then Got(VTable(m[Name(key) := v]), n + l + k)
      else if !t.Comma? then Error
      else Beyond(n + l + k, RawPairs(s[n + l + k..], m[Name(key) := v], depth, strtod))
  }

  // RawValue, RawItems and RawPairs are used under the closed names ValueAt, ItemsAt and PairsAt.

  ghost predicate IsValue(s: seq<byte>, depth: nat, strtod: seq<byte> -> nat, r: Parsed) {
    && (r.Got? ==> 1 <= r.used <= |s|)
    && forall d {:trigger Opened(d)} :: Opened(d) ==> r == RawValue(s, depth, strtod)
  }

  ghost function ValueAt(s: seq<byte>, depth: nat, strtod: seq<byte> -> nat): (r: Parsed)
    ensures IsValue(s, depth, strtod, r)
  {
    assert IsValue(s, depth, strtod, RawValue(s, depth, strtod));
    var r :| IsValue(s, depth, strtod, r);
    r
  }

  ghost predicate AreItems(s: seq<byte>, i: nat, m: map<Key, Val>, depth: nat, strtod: seq<byte> -> nat, r: Parsed) {
    && (r.Got? ==> r.used <= |s|)
    && forall d {:trigger Opened(d)} :: Opened(d) ==> r == RawItems(s, i, m, depth, strtod)
  }

  ghost function ItemsAt(s: seq<byte>, i: nat, m: map<Key, Val>, depth: nat, strtod: seq<byte> -> nat): (r: Parsed)
    ensures AreItems(s, i, m, depth, strtod, r)
  {
    assert AreItems(s, i, m, depth, strtod, RawItems(s, i, m, depth, strtod));
    var r :| AreItems(s, i, m, depth, strtod, r);
    r
  }

  ghost predicate ArePairs(s: seq<byte>, m: map<Key, Val>, depth: nat, strtod: seq<byte> -> nat, r: Parsed) {
    && (r.Got? ==> r.used <= |s|)
    && forall d {:trigger Opened(d)} :: Opened(d) ==> r == RawPairs(s, m, depth, strtod)
  }

  ghost function PairsAt(s: seq<byte>, m: map<Key, Val>, depth: nat, strtod: seq<byte> -> nat): (r: Parsed)
    ensures ArePairs(s, m, depth, strtod, r)
  {
    assert ArePairs(s, m, depth, strtod, RawPairs(s, m, depth, strtod));
    var r :| ArePairs(s, m, depth, strtod, r);
    r
  }

  lemma ValueIsRaw(s: seq<byte>, depth: nat, strtod: seq<byte> -> nat)
    ensures ValueAt(s, depth, strtod) == RawValue(s, depth, strtod)
  {
    assert Opened(true);
  }

  lemma ItemsIsRaw(s: seq<byte>, i: nat, m: map<Key, Val>, depth: nat, strtod: seq<byte> -> nat)
    ensures ItemsAt(s, i, m, depth, strtod) == RawItems(s, i, m, depth, strtod)
  {
    assert Opened(true);
  }

  lemma PairsIsRaw(s: seq<byte>, m: map<Key, Val>, depth: nat, strtod: seq<byte> -> nat)
    ensures PairsAt(s, m, depth, strtod) == RawPairs(s, m, depth, strtod)
  {
    assert Opened(true);
  }

  ghost function ArrayAt(s: seq<byte>, depth: nat, strtod: seq<byte> -> nat): Parsed {
    if TokenAt(s, strtod).0.ArrEnd? then Got(VTable(map[]), TokenAt(s, strtod).1) else ItemsAt(s, 1, map[], depth, strtod)
  }

  ghost function ObjectAt(s: seq<byte>, depth: nat, strtod: seq<byte> -> nat): Parsed {
    if TokenAt(s, strtod).0.ObjEnd? then Got(VTable(map[]), TokenAt(s, strtod).1) else PairsAt(s, map[], depth, strtod)
  }

  lemma ValueScalar(s: seq<byte>, depth: nat, strtod: seq<byte> -> nat)
    ensures var t := TokenAt(s, strtod).0;
            && (t.Scalar? ==> ValueAt(s, depth, strtod) == Got(t.v, TokenAt(s, strtod).1))
            && (!t.Scalar? && !t.ObjBegin? && !t.ArrBegin? ==> ValueAt(s, depth, strtod) == Error)
  {
    ValueIsRaw(s, depth, strtod);
  }

  lemma ValueObject(s: seq<byte>, depth: nat, strtod: seq<byte> -> nat)
    requires TokenAt(s, strtod).0.ObjBegin?
    ensures ValueAt(s, depth, strtod)
            == if depth >= MAX_DEPTH then Error
               else Beyond(TokenAt(s, strtod).1, ObjectAt(s[TokenAt(s, strtod).1..], depth + 1, strtod))
  {
    ValueIsRaw(s, depth, strtod);
    PairsIsRaw(s[TokenAt(s, strtod).1..], map[], depth + 1, strtod);
  }

  lemma ValueArray(s: seq<byte>, depth: nat, strtod: seq<byte> -> nat)
    requires TokenAt(s, strtod).0.ArrBegin?
    ensures ValueAt(s, depth, strtod)
            == if depth >= MAX_DEPTH then Error
               else Beyond(TokenAt(s, strtod).1, ArrayAt(s[TokenAt(s, strtod).1..], depth + 1, strtod))
  {
    ValueIsRaw(s, depth, strtod);
    ItemsIsRaw(s[TokenAt(s, strtod).1..], 1, map[], depth + 1, strtod);
  }

  /** What comes behind an item that ends at n. */
  ghost function AfterItem(s: seq<byte>, n: nat, i: nat, m: map<Key, Val>, depth: nat, strtod: seq<byte> -> nat): Parsed
    requires n <= |s|
  {
    var (t, k) := TokenAt(s[n..], strtod);
    if t.ArrEnd? then Got(VTable(m), n + k)
    else if !t.Comma? then Error
    else Beyond(n + k, ItemsAt(s[n + k..], i + 1, m, depth, strtod))
  }

  lemma ItemsStep(s: seq<byte>, i: nat, m: map<Key, Val>, depth: nat, strtod: seq<byte> -> nat)
    ensures var v := ValueAt(s, depth, strtod);
            ItemsAt(s, i, m, depth, strtod)
            == if v.Error? then Error else AfterItem(s, v.used, i, m[Index(i) := v.v], depth, strtod)
  {
    ItemsIsRaw(s, i, m, depth, strtod);
    ValueIsRaw(s, depth, strtod);
    var v := ValueAt(s, depth, strtod);
    if v.Got? {
      var k := TokenAt(s[v.used..], strtod).1;
      ItemsIsRaw(s[v.used + k..], i + 1, m[Index(i) := v.v], depth, strtod);
    }
  }

  /** What comes behind a pair that ends at n. */
  ghost function AfterPair(s: seq<byte>, n: nat, m: map<Key, Val>, depth: nat, strtod: seq<byte> -> nat): Parsed
    requires n <= |s|
  {
    var (t, k) := TokenAt(s[n..], strtod);
    if t.ObjEnd? then Got(VTable(m), n + k)
    else if !t.Comma? then Error
    else Beyond(n + k, PairsAt(s[n + k..], m, depth, strtod))
  }

  lemma PairsStep(s: seq<byte>, m: map<Key, Val>, depth: nat, strtod: seq<byte> -> nat)
    ensures var key := KeyAt(s, strtod);
            PairsAt(s, m, depth, strtod)
            == if key.None? then Error else AfterKey(s, key.value.0, key.value.1, m, depth, strtod)
  {
    PairsIsRaw(s, m, depth, strtod);
    var key := KeyAt(s, strtod);
    if key.Some? {
      AfterKeyIsRaw(s, key.value.0, key.value.1, m, depth, strtod);
    }
  }

  /** What comes behind a key and its colon that end at n. */
  ghost function AfterKey(s: seq<byte>, key: seq<byte>, n: nat, m: map<Key, Val>, depth: nat,
                          strtod: seq<byte> -> nat): Parsed
    requires n <= |s|
  {
    var v := ValueAt(s[n..], depth, strtod);
    if v.Error? then Error else AfterPair(s, n + v.used, m[Name(key) := v.v], depth, strtod)
  }

  lemma AfterKeyIsRaw(s: seq<byte>, key: seq<byte>, n: nat, m: map<Key, Val>, depth: nat, strtod: seq<byte> -> nat)
    requires n <= |s|
    ensures AfterKey(s, key, n, m, depth, strtod) == RawPair(s, key, n, m, depth, strtod)
  {
    ValueIsRaw(s[n..], depth, strtod);
    var v := ValueAt(s[n..], depth, strtod);
    if v.Got? {
      var k := TokenAt(s[n + v.used..], strtod).1;
      PairsIsRaw(s[n + v.used + k..], m[Name(key) := v.v], depth, strtod);
    }
  }

  /** json_decode: one value and nothing but white space, or a NUL, behind it. */
  ghost function Decode(s: seq<byte>, strtod: seq<byte> -> nat): Option<Val> {
    if |s| >= 2 && (s[0] == 0 || s[1] == 0) then None
    else
      match ValueAt(s, 0, strtod)
      case Error => None
      case Got(v, n) => if TokenAt(s[n..], strtod).0.End? then Some(v) else None
  }

  // ---------------------------------------------------------------------------------------------------------
  // Tokens of printed text

  lemma TokenBehind(s: seq<byte>, n: nat, strtod: seq<byte> -> nat)
    requires Spaces(s) == n
    ensures var b := BareToken(s[n..], strtod); TokenAt(s, strtod) == (b.0, n + b.1)
  {
    assert Opened(true);
  }

  lemma TokenIs(s: seq<byte>, strtod: seq<byte> -> nat)
    requires s == [] || !IsSpace(s[0])
    ensures TokenAt(s, strtod) == RawToken(s, strtod)
  {
    TokenBehind(s, 0, strtod);
    BareIsRaw(s, strtod);
    assert s[0..] == s;
  }

  lemma BareIsRaw(s: seq<byte>, strtod: seq<byte> -> nat)
    ensures BareToken(s, strtod) == RawToken(s, strtod)
  {
    assert Opened(true);
  }

  lemma SignToken(c: byte, rest: seq<byte>, strtod: seq<byte> -> nat)
    requires c in {123, 125, 91, 93, 44, 58}
    ensures TokenAt([c] + rest, strtod)
            == (if c == 123 then ObjBegin else if c == 125 then ObjEnd else if c == 91 then ArrBegin
                else if c == 93 then ArrEnd else if c == 44 then Comma else Colon, 1)
    ensures ([c] + rest)[1..] == rest
  {
    TokenIs([c] + rest, strtod);
  }

  lemma WordToken(rest: seq<byte>, strtod: seq<byte> -> nat)
    ensures TokenAt(TRUE + rest, strtod) == (Scalar(VBool(true)), 4)
    ensures TokenAt(FALSE + rest, strtod) == (Scalar(VBool(false)), 5)
    ensures TokenAt(NULL + rest, strtod) == (Scalar(VNull), 4)
  {
    TokenIs(TRUE + rest, strtod);
    TokenIs(FALSE + rest, strtod);
    TokenIs(NULL + rest, strtod);
    assert (TRUE + rest)[..4] == TRUE && (FALSE + rest)[..5] == FALSE && (NULL + rest)[..4] == NULL;
  }

  lemma StrToken(str: seq<byte>, rest: seq<byte>, strtod: seq<byte> -> nat)
    ensures TokenAt(StrText(str) + rest, strtod) == (Scalar(VStr(str)), |StrText(str)|)
  {
    var s := StrText(str) + rest;
    TokenIs(s, strtod);
    StringRoundTrip(str, rest);
    assert s[1..] == Escaped(str) + [QUOTE] + rest;
  }

  /** What can follow a value: the end, or a character that is not part of a number. */
  predicate Follows(rest: seq<byte>) {
    rest == [] || !IsNumberChar(rest[0])
  }

  lemma {:induction false} DigitsRun(d: seq<byte>, rest: seq<byte>)
    requires AllDigits(d) && (rest == [] || !IsDigit(rest[0]))
    ensures Digits(d + rest) == |d|
  {
    if d == [] {
      assert d + rest == rest;
    } else {
      assert (d + rest)[1..] == d[1..] + rest;
      DigitsRun(d[1..], rest);
    }
  }

  function Pow10(k: nat): nat {
    if k == 0 then 1 else 10 * Pow10(k - 1)
  }

  lemma {:induction false} DecimalLength(n: nat, k: nat)
    requires n < Pow10(k) && k > 0
    ensures |ToDecimal(n)| <= k
  {
    if n >= 10 {
      DecimalLength(n / 10, k - 1);
    }
  }

  lemma Pow10Values()
    ensures Pow10(14) == EXACT
  {
    assert Pow10(3) == 1000;
    assert Pow10(6) == 1_000_000;
    assert Pow10(9) == 1_000_000_000;
    assert Pow10(12) == 1_000_000_000_000;
  }

  function Signed(negative: bool, d: seq<byte>): seq<byte> {
    if negative then [45] + d else d
  }

  lemma NumberRead(negative: bool, d: seq<byte>, rest: seq<byte>, strtod: seq<byte> -> nat)
    requires AllDigits(d) && 1 <= |d| <= EXACT_DIGITS && Follows(rest)
    ensures var m: int := DigitsValue(d);
            NumberAt(Signed(negative, d) + rest, strtod)
            == (Scalar(VInt(if negative then -m else m)), |Signed(negative, d)|)
  {
    var s := Signed(negative, d) + rest;
    var k := if negative then 1 else 0;
    NumberPieces(negative, d, rest);
    DigitsRun(d, rest);
    PlainNumber(s, k, d, strtod);
  }

  lemma PlainNumber(s: seq<byte>, k: nat, d: seq<byte>, strtod: seq<byte> -> nat)
    requires k == (if At(s, 0) == 45 then 1 else 0) && k + |d| <= |s| && Digits(s[k..]) == |d| && s[k..][..|d|] == d
    requires 1 <= |d| <= EXACT_DIGITS && AllDigits(d) && !IsNumberChar(At(s, k + |d|))
    ensures var m: int := DigitsValue(d);
            NumberAt(s, strtod) == (Scalar(VInt(if k == 1 then -m else m)), k + |d|)
  {
  }

  lemma NumberPieces(negative: bool, d: seq<byte>, rest: seq<byte>)
    requires AllDigits(d) && 1 <= |d| && Follows(rest)
    ensures var s := Signed(negative, d) + rest;
            var k := if negative then 1 else 0;
            && (At(s, 0) == 45 <==> negative)
            && s[k..] == d + rest && (d + rest)[..|d|] == d && |Signed(negative, d)| == k + |d|
            && !IsNumberChar(At(s, k + |d|))
  {
    var s := Signed(negative, d) + rest;
    assert IsDigit(d[0]);
    if negative {
      assert s[1..] == d + rest;
    } else {
      assert s == d + rest;
    }
    AtJoin(Signed(negative, d), rest);
  }

  lemma AtJoin(a: seq<byte>, b: seq<byte>)
    ensures At(a + b, |a|) == At(b, 0)
  {
  }

  lemma IntToken(i: int, rest: seq<byte>, strtod: seq<byte> -> nat)
    requires Exact(i) && Follows(rest)
    ensures TokenAt(IntText(i) + rest, strtod) == (Scalar(VInt(i)), |IntText(i)|)
  {
    var m: nat := if i < 0 then -i else i;
    var d := ToDecimal(m);
    Pow10Values();
    DecimalLength(m, 14);
    NumberRead(i < 0, d, rest, strtod);
    assert IsDigit(d[0]);
    NumberToken(IntText(i) + rest, strtod);
  }

  lemma NumberToken(s: seq<byte>, strtod: seq<byte> -> nat)
    requires s != [] && (s[0] == 45 || IsDigit(s[0]))
    ensures TokenAt(s, strtod) == NumberAt(s, strtod)
  {
    TokenIs(s, strtod);
  }

}
