module Seri {
  // The Lua serializer's form of values: tagged bytes, tables as an array part up to a border and a hash part.
  //
  // Multi-byte numbers are little-endian, as on the hosts the program runs on; every number is an integer.

  import opened Sequences
  import opened Hiding
  import opened Bytes
  import opened LuaData

  const TYPE_NIL := 0
  const TYPE_BOOLEAN := 1
  const TYPE_NUMBER := 2
  const TYPE_USERDATA := 3
  const TYPE_SHORT_STRING := 4
  const TYPE_LONG_STRING := 5
  const TYPE_TABLE := 6

  const NUMBER_ZERO := 0
  const NUMBER_BYTE := 1
  const NUMBER_WORD := 2
  const NUMBER_DWORD := 4
  const NUMBER_QWORD := 6
  const NUMBER_REAL := 8

  const MAX_COOKIE := 32
  const MAX_DEPTH := 32
  const INT_LIMIT := 0x8000_0000

  /** COMBINE_TYPE: the type in the low three bits, the cookie above. */
  function Combine(t: nat, cookie: nat): (b: byte)
    requires t < 8 && cookie < 32
    ensures b % 8 == t && b / 8 == cookie
  {
    t + cookie * 8
  }

  function IntBytes(v: int): seq<byte>
    requires -INT64_LIMIT <= v < INT64_LIMIT
  {
    if v == 0 then [Combine(TYPE_NUMBER, NUMBER_ZERO)]
    else if v < -INT_LIMIT || v >= INT_LIMIT then
      [Combine(TYPE_NUMBER, NUMBER_QWORD)] + LittleEndian(v % 0x1_0000_0000_0000_0000, 8)
    else if v < 0 then [Combine(TYPE_NUMBER, NUMBER_DWORD)] + LittleEndian(v % 0x1_0000_0000, 4)
    else if v < 0x100 then [Combine(TYPE_NUMBER, NUMBER_BYTE)] + LittleEndian(v, 1)
    else if v < 0x1_0000 then [Combine(TYPE_NUMBER, NUMBER_WORD)] + LittleEndian(v, 2)
    else [Combine(TYPE_NUMBER, NUMBER_DWORD)] + LittleEndian(v, 4)
  }

  function StrBytes(s: seq<byte>): seq<byte>
    requires |s| < INT_LIMIT
  {
    if |s| < MAX_COOKIE then [Combine(TYPE_SHORT_STRING, |s|)] + s
    else if |s| < 0x1_0000 then [Combine(TYPE_LONG_STRING, 2)] + LittleEndian(|s|, 2) + s
    else [Combine(TYPE_LONG_STRING, 4)] + LittleEndian(|s|, 4) + s
  }

  /** The size of the array part: a cookie below 31, else the cookie 31 and the number. */
  function ArrayHead(n: nat): seq<byte>
    requires n < INT_LIMIT
  {
    if n >= MAX_COOKIE - 1 then [Combine(TYPE_TABLE, MAX_COOKIE - 1)] + IntBytes(n) else [Combine(TYPE_TABLE, n)]
  }

  /** Lengths and sizes are C ints here. */
  predicate Fits(v: Value) {
    match v
    case Str(s) => |s| < INT_LIMIT
    case Table(es, border) => border < INT_LIMIT && EntriesFit(es)
    case _ => true
  }

  predicate EntriesFit(es: Entries) {
    match es
    case NoEntries => true
    case Entry(k, v, rest) => Fits(k) && Fits(v) && EntriesFit(rest)
  }

  lemma {:induction false} FindFits(es: Entries, k: Value)
    requires EntriesFit(es)
    ensures Fits(Find(es, k))
  {
    match es
    case NoEntries =>
    case Entry(_, _, rest) => FindFits(rest, k);
  }

  /** wb_table_hash skips the integer keys of the array part. */
  predicate InArray(k: Value, border: nat) {
    k.Int? && 0 < k.i <= border
  }

  function PackBytes(v: Value): seq<byte>
    requires Proper(v) && Fits(v)
    decreases Depth(v), 0, 0
  {
    match v
    case Nil => [Combine(TYPE_NIL, 0)]
    case Bool(b) => [Combine(TYPE_BOOLEAN, if b then 1 else 0)]
    case Int(i) => IntBytes(i)
    case Str(s) => StrBytes(s)
    case Table(es, border) =>
      ArrayHead(border) + (ItemBytes(es, 1, border) + (HashBytes(es, border) + [Combine(TYPE_NIL, 0)]))
  }

  /** The array part: holes are written as nil. */
  function ItemBytes(es: Entries, j: nat, n: nat): seq<byte>
    requires ProperEntries(es) && EntriesFit(es) && j <= n + 1
    decreases EntriesDepth(es), 1, n + 1 - j
  {
    if j == n + 1 then []
    else
      FindPresent(es, Int(j));
      FindFits(es, Int(j));
      PackBytes(Find(es, Int(j))) + ItemBytes(es, j + 1, n)
  }

  function HashBytes(es: Entries, border: nat): seq<byte>
    requires ProperEntries(es) && EntriesFit(es)
    decreases EntriesDepth(es), 1, Count(es)
  {
    match es
    case NoEntries => []
    case Entry(k, v, rest) =>
      if InArray(k, border) then HashBytes(rest, border)
      else PackBytes(k) + (PackBytes(v) + HashBytes(rest, border))
  }

  /** pack_one refuses a value at a depth above MAX_DEPTH; an empty table has nothing below it. */
  predicate TooDeep(v: Value, depth: nat)
    decreases v, 0
  {
    depth > MAX_DEPTH || (v.Table? && EntriesTooDeep(v.entries, depth + 1))
  }

  predicate EntriesTooDeep(es: Entries, depth: nat)
    decreases es, 1
  {
    es.Entry? && (depth > MAX_DEPTH || TooDeep(es.value, depth) || EntriesTooDeep(es.rest, depth))
  }

  // ---------------------------------------------------------------------------------------------------------
  // Reading

  /** BadStream is the "Invalid serialize stream" error. A string length of 2^31 or more is negative as the int it is
      passed as, which the check for bytes left lets through: the program then reads Outside its input. */
  datatype Error = BadStream | Outside

  datatype Read = Fail(e: Error) | Got(v: Val, used: nat)
  datatype Filled = Broken(e: Error) | Full(m: map<Val, Val>, used: nat)

  function Signed(u: nat, half: nat): int {
    if u < half then u else u - 2 * half
  }

  /** The cast to a 32-bit int. */
  function ToInt(i: int): int {
    Signed(i % 0x1_0000_0000, INT_LIMIT)
  }

  lemma ToIntExact(i: int)
    ensures ToInt(i) == i <==> -INT_LIMIT <= i < INT_LIMIT
    ensures -INT_LIMIT <= ToInt(i) < INT_LIMIT
  {
  }

  datatype Number = NoNumber | Number(i: int, used: nat)

  /** get_integer: the bytes behind the tag. */
  function GetInteger(cookie: nat, s: seq<byte>): (r: Number)
    ensures r.Number? ==> r.used <= |s|
  {
    if cookie == NUMBER_ZERO then Number(0, 0)
    else if cookie == NUMBER_BYTE then if |s| < 1 then NoNumber else Number(FromLittle(s[..1]), 1)
    else if cookie == NUMBER_WORD then if |s| < 2 then NoNumber else Number(FromLittle(s[..2]), 2)
    else if cookie == NUMBER_DWORD then if |s| < 4 then NoNumber else Number(Signed(FromLittle(s[..4]), INT_LIMIT), 4)
    else if cookie == NUMBER_QWORD then if |s| < 8 then NoNumber else Number(Signed(FromLittle(s[..8]), INT64_LIMIT), 8)
    else NoNumber
  }

  /** get_buffer behind `off` bytes; n is a C int. */
  function GetBuffer(s: seq<byte>, off: nat, n: int): (r: Read)
    requires off <= |s|
    ensures r.Got? ==> r.used <= |s|
  {
    if n < 0 then Fail(Outside)
    else if |s| < off + n then Fail(BadStream)
    else Got(VStr(s[off..off + n]), off + n)
  }

  /** push_value for everything but tables; s is what follows the tag byte. */
  function Plain(t: nat, cookie: nat, s: seq<byte>): (r: Read)
    ensures r.Got? ==> r.used <= |s|
  {
    if t == TYPE_NIL then Got(VNil, 0)
    else if t == TYPE_BOOLEAN then Got(VBool(cookie != 0), 0)
    else if t == TYPE_NUMBER then
      if cookie == NUMBER_REAL then if |s| < 8 then Fail(BadStream) else Got(VOpaque(s[..8]), 8)
      else (match GetInteger(cookie, s) case NoNumber => Fail(BadStream) case Number(i, n) => Got(VInt(i), n))
    else if t == TYPE_USERDATA then if |s| < 8 then Fail(BadStream) else Got(VOpaque(s[..8]), 8)
    else if t == TYPE_SHORT_STRING then GetBuffer(s, 0, cookie)
    else if t == TYPE_LONG_STRING then
      if cookie == 2 then if |s| < 2 then Fail(BadStream) else GetBuffer(s, 2, FromLittle(s[..2]))
      else if cookie == 4 then if |s| < 4 then Fail(BadStream) else GetBuffer(s, 4, ToInt(FromLittle(s[..4])))
      else Fail(BadStream)
    else Fail(BadStream)
  }

  /** The size of the array part behind a table's tag byte. */
  function ArraySize(cookie: nat, s: seq<byte>): (r: Number)
    ensures r.Number? ==> r.used <= |s|
  {
    if cookie != MAX_COOKIE - 1 then Number(cookie, 0)
    else if s == [] || s[0] % 8 != TYPE_NUMBER || s[0] / 8 == NUMBER_REAL then NoNumber
    else
      match GetInteger(s[0] / 8, s[1..])
      case NoNumber => NoNumber
      case Number(i, n) => Number(ToInt(i), n + 1)
  }

  ghost function RawRead(s: seq<byte>): (r: Read)
    ensures r.Got? ==> 1 <= r.used <= |s|
    decreases |s|, 0
  {
    if s == [] then Fail(BadStream)
    else if s[0] % 8 != TYPE_TABLE then
      match Plain(s[0] % 8, s[0] / 8, s[1..])
      case Fail(e) => Fail(e)
      case Got(v, used) => Got(v, used + 1)
    else
      match ArraySize(s[0] / 8, s[1..])
      case NoNumber => Fail(BadStream)
      case Number(n, off) => After(off + 1, RawTable(s[off + 1..], if n < 0 then 0 else n))
  }

  ghost function RawTable(s: seq<byte>, n: nat): (r: Read)
    ensures r.Got? ==> r.used <= |s|
    decreases |s|, n + 2
  {
    match RawItems(s, n, 1, map[])
    case Broken(e) => Fail(e)
    case Full(m, used) => HashBehind(used, RawHash(s[used..], m))
  }

  ghost function RawItems(s: seq<byte>, n: nat, index: nat, m: map<Val, Val>): (r: Filled)
    ensures r.Full? ==> r.used <= |s|
    decreases |s|, n + 1
  {
    if n == 0 then Full(m, 0)
    else
      match RawRead(s)
      case Fail(e) => Broken(e)
      case Got(v, used) =>
        match RawItems(s[used..], n - 1, index + 1, SetTable(m, VInt(index), v))
        case Broken(e) => Broken(e)
        case Full(all, more) => Full(all, used + more)
  }

  /** Keys and values until a nil key. */
  ghost function RawHash(s: seq<byte>, m: map<Val, Val>): (r: Filled)
    ensures r.Full? ==> r.used <= |s|
    decreases |s|, 1
  {
    match RawRead(s)
    case Fail(e) => Broken(e)
    case Got(k, used) =>
      if k == VNil then Full(m, used)
      else
        match RawRead(s[used..])
        case Fail(e) => Broken(e)
        case Got(v, more) =>
          match RawHash(s[used + more..], SetTable(m, k, v))
          case Broken(e) => Broken(e)
          case Full(all, rest) => Full(all, used + more + rest)
  }

  // RawRead, RawItems and RawHash are used under the closed names ReadOne, ReadItems and ReadHash.

  ghost predicate IsRead(s: seq<byte>, r: Read) {
    && (r.Got? ==> 1 <= r.used <= |s|)
    && forall d {:trigger Opened(d)} :: Opened(d) ==> r == RawRead(s)
  }

  ghost function ReadOne(s: seq<byte>): (r: Read)
    ensures IsRead(s, r)
  {
    assert IsRead(s, RawRead(s));
    var r :| IsRead(s, r);
    r
  }

  ghost predicate AreItems(s: seq<byte>, n: nat, index: nat, m: map<Val, Val>, r: Filled) {
    && (r.Full? ==> r.used <= |s|)
    && forall d {:trigger Opened(d)} :: Opened(d) ==> r == RawItems(s, n, index, m)
  }

  ghost function ReadItems(s: seq<byte>, n: nat, index: nat, m: map<Val, Val>): (r: Filled)
    ensures AreItems(s, n, index, m, r)
  {
    assert AreItems(s, n, index, m, RawItems(s, n, index, m));
    var r :| AreItems(s, n, index, m, r);
    r
  }

  ghost predicate IsHash(s: seq<byte>, m: map<Val, Val>, r: Filled) {
    && (r.Full? ==> r.used <= |s|)
    && forall d {:trigger Opened(d)} :: Opened(d) ==> r == RawHash(s, m)
  }

  ghost function ReadHash(s: seq<byte>, m: map<Val, Val>): (r: Filled)
    ensures IsHash(s, m, r)
  {
    assert IsHash(s, m, RawHash(s, m));
    var r :| IsHash(s, m, r);
    r
  }

  /** `used` more bytes in front. */
  ghost function Beyond(used: nat, f: Filled): Filled {
    if f.Full? then Full(f.m, used + f.used) else f
  }

  ghost function After(n: nat, r: Read): Read {
    if r.Got? then Got(r.v, n + r.used) else r
  }

  /** A table: its items, then its hash part. */
  ghost function ReadTable(s: seq<byte>, n: int): Read {
    var items := ReadItems(s, if n < 0 then 0 else n, 1, map[]);
    if items.Broken? then Fail(items.e) else HashBehind(items.used, ReadHash(s[items.used..], items.m))
  }

  ghost function HashBehind(used: nat, hash: Filled): Read {
    if hash.Broken? then Fail(hash.e) else Got(VTable(hash.m), used + hash.used)
  }

  lemma ReadNothing()
    ensures ReadOne([]) == Fail(BadStream)
  {
    assert Opened(true);
  }

  lemma ReadPlain(b: byte, s: seq<byte>)
    requires b % 8 != TYPE_TABLE
    ensures ReadOne([b] + s) == After(1, Plain(b % 8, b / 8, s))
  {
    assert Opened(true);
    assert ([b] + s)[1..] == s;
  }

  lemma ReadTabled(b: byte, s: seq<byte>)
    requires b % 8 == TYPE_TABLE
    ensures var size := ArraySize(b / 8, s);
            ReadOne([b] + s) == if size.NoNumber? then Fail(BadStream) else After(size.used + 1, ReadTable(s[size.used..], size.i))
  {
    assert Opened(true);
    assert ([b] + s)[1..] == s;
    var size := ArraySize(b / 8, s);
    if size.Number? {
      assert ([b] + s)[size.used + 1..] == s[size.used..];
      TableIsRaw(s[size.used..], size.i);
    }
  }

  lemma TableIsRaw(s: seq<byte>, n: int)
    ensures ReadTable(s, n) == RawTable(s, if n < 0 then 0 else n)
  {
    assert Opened(true);
  }

  lemma ItemsUnfold(s: seq<byte>, n: nat, index: nat, m: map<Val, Val>)
    ensures n == 0 ==> ReadItems(s, n, index, m) == Full(m, 0)
    ensures n > 0 && ReadOne(s).Fail? ==> ReadItems(s, n, index, m) == Broken(ReadOne(s).e)
    ensures n > 0 && ReadOne(s).Got? ==>
              var r := ReadOne(s);
              ReadItems(s, n, index, m)
              == Beyond(r.used, ReadItems(s[r.used..], n - 1, index + 1, SetTable(m, VInt(index), r.v)))
  {
    assert Opened(true);
  }

  lemma HashUnfold(s: seq<byte>, m: map<Val, Val>)
    ensures ReadOne(s).Fail? ==> ReadHash(s, m) == Broken(ReadOne(s).e)
    ensures ReadOne(s).Got? && ReadOne(s).v == VNil ==> ReadHash(s, m) == Full(m, ReadOne(s).used)
    ensures ReadOne(s).Got? && ReadOne(s).v != VNil ==>
              var k := ReadOne(s);
              var v := ReadOne(s[k.used..]);
              && (v.Fail? ==> ReadHash(s, m) == Broken(v.e))
              && (v.Got? ==> ReadHash(s, m)
                             == Beyond(k.used + v.used, ReadHash(s[k.used + v.used..], SetTable(m, k.v, v.v))))
  {
    assert Opened(true);
  }

  // ---------------------------------------------------------------------------------------------------------
  // Reading what was packed

  lemma LittleField(n: nat, k: nat, rest: seq<byte>)
    requires n < Pow256(k)
    ensures FromLittle((LittleEndian(n, k) + rest)[..k]) == n
  {
    LittleRoundTrip(n, k);
    assert (LittleEndian(n, k) + rest)[..k] == LittleEndian(n, k);
  }

  /** The number of k little-endian bytes behind a tag with the cookie of that width. */
  lemma WordRead(cookie: nat, k: nat, u: nat, rest: seq<byte>)
    requires (cookie, k) in {(NUMBER_BYTE, 1), (NUMBER_WORD, 2), (NUMBER_DWORD, 4), (NUMBER_QWORD, 8)} && u < Pow256(k)
    ensures GetInteger(cookie, LittleEndian(u, k) + rest)
            == Number(if k == 4 then Signed(u, INT_LIMIT) else if k == 8 then Signed(u, INT64_LIMIT) else u, k)
  {
    LittleField(u, k, rest);
  }

  /** The width an integer is written in. */
  lemma IntWidth(v: int) returns (cookie: nat, k: nat, u: nat)
    requires -INT64_LIMIT <= v < INT64_LIMIT && v != 0
    ensures (cookie, k) in {(NUMBER_BYTE, 1), (NUMBER_WORD, 2), (NUMBER_DWORD, 4), (NUMBER_QWORD, 8)} && u < Pow256(k)
    ensures IntBytes(v) == [Combine(TYPE_NUMBER, cookie)] + LittleEndian(u, k)
    ensures v == if k == 4 then Signed(u, INT_LIMIT) else if k == 8 then Signed(u, INT64_LIMIT) else u
  {
    Powers256();
    SmallWord(v);
    if v < -INT_LIMIT || v >= INT_LIMIT {
      cookie, k, u := NUMBER_QWORD, 8, v % 0x1_0000_0000_0000_0000;
    } else if v < 0 || v >= 0x1_0000 {
      cookie, k, u := NUMBER_DWORD, 4, v % 0x1_0000_0000;
    } else {
      cookie, k, u := if v < 0x100 then NUMBER_BYTE else NUMBER_WORD, if v < 0x100 then 1 else 2, v;
    }
  }

  lemma BehindTag(b: byte, s: seq<byte>, rest: seq<byte>)
    ensures ([b] + s + rest)[0] == b && ([b] + s + rest)[1..] == s + rest
  {
  }

  /** An integer behind its tag byte. */
  lemma IntRead(v: int, rest: seq<byte>)
    requires -INT64_LIMIT <= v < INT64_LIMIT
    ensures var s := IntBytes(v) + rest;
            && s[0] % 8 == TYPE_NUMBER && s[0] / 8 != NUMBER_REAL
            && GetInteger(s[0] / 8, s[1..]) == Number(v, |IntBytes(v)| - 1)
  {
    if v == 0 {
      assert (IntBytes(v) + rest)[1..] == rest;
    } else {
      var cookie, k, u := IntWidth(v);
      BehindTag(Combine(TYPE_NUMBER, cookie), LittleEndian(u, k), rest);
      WordRead(cookie, k, u, rest);
    }
  }

  lemma SmallWord(v: int)
    ensures 0 <= v < 0x1_0000_0000 ==> v % 0x1_0000_0000 == v
    ensures -INT_LIMIT <= v < INT_LIMIT ==> Signed(v % 0x1_0000_0000, INT_LIMIT) == v
    ensures -INT64_LIMIT <= v < INT64_LIMIT ==> Signed(v % 0x1_0000_0000_0000_0000, INT64_LIMIT) == v
  {
  }

  /** A written count is the size read just when it is an int: one of 2^32 makes an empty array part. */
  lemma SizeTruncated(n: int, rest: seq<byte>)
    requires -INT64_LIMIT <= n < INT64_LIMIT
    ensures ArraySize(MAX_COOKIE - 1, IntBytes(n) + rest) == Number(ToInt(n), |IntBytes(n)|)
    ensures ToInt(n) == n <==> -INT_LIMIT <= n < INT_LIMIT
  {
    IntRead(n, rest);
    ToIntExact(n);
  }

  lemma IntRoundTrip(v: int, rest: seq<byte>)
    requires -INT64_LIMIT <= v < INT64_LIMIT
    ensures ReadOne(IntBytes(v) + rest) == Got(VInt(v), |IntBytes(v)|)
  {
    var s := IntBytes(v) + rest;
    IntRead(v, rest);
    ReadPlain(s[0], s[1..]);
    assert s == [s[0]] + s[1..];
  }

  lemma LongRead(str: seq<byte>, k: nat, rest: seq<byte>)
    requires (k == 2 && |str| < 0x1_0000) || (k == 4 && |str| < INT_LIMIT)
    ensures Plain(TYPE_LONG_STRING, k, LittleEndian(|str|, k) + (str + rest)) == Got(VStr(str), k + |str|)
  {
    Powers256();
    LittleField(|str|, k, str + rest);
    ToIntExact(|str|);
    assert (LittleEndian(|str|, k) + (str + rest))[k..k + |str|] == str;
  }

  lemma ShortRoundTrip(str: seq<byte>, rest: seq<byte>)
    requires |str| < MAX_COOKIE
    ensures ReadOne([Combine(TYPE_SHORT_STRING, |str|)] + str + rest) == Got(VStr(str), 1 + |str|)
  {
    ReadPlain(Combine(TYPE_SHORT_STRING, |str|), str + rest);
    assert (str + rest)[0..0 + |str|] == str;
    assert [Combine(TYPE_SHORT_STRING, |str|)] + str + rest == [Combine(TYPE_SHORT_STRING, |str|)] + (str + rest);
  }

  lemma LongRoundTrip(str: seq<byte>, k: nat, rest: seq<byte>)
    requires (k == 2 && |str| < 0x1_0000) || (k == 4 && |str| < INT_LIMIT)
    ensures ReadOne([Combine(TYPE_LONG_STRING, k)] + LittleEndian(|str|, k) + str + rest) == Got(VStr(str), 1 + k + |str|)
  {
    var size := LittleEndian(|str|, k);
    LongRead(str, k, rest);
    ReadPlain(Combine(TYPE_LONG_STRING, k), size + (str + rest));
    Reassociate([Combine(TYPE_LONG_STRING, k)], size, str, rest);
  }

  lemma Reassociate(a: seq<byte>, b: seq<byte>, c: seq<byte>, d: seq<byte>)
    ensures a + b + c + d == a + (b + (c + d))
  {
  }

  lemma StrRoundTrip(str: seq<byte>, rest: seq<byte>)
    requires |str| < INT_LIMIT
    ensures ReadOne(StrBytes(str) + rest) == Got(VStr(str), |StrBytes(str)|)
  {
    if |str| < MAX_COOKIE {
      ShortRoundTrip(str, rest);
    } else {
      LongRoundTrip(str, if |str| < 0x1_0000 then 2 else 4, rest);
    }
  }

  lemma HeadRead(n: nat, rest: seq<byte>)
    requires n < INT_LIMIT
    ensures ReadOne(ArrayHead(n) + rest) == After(|ArrayHead(n)|, ReadTable(rest, n))
  {
    if n >= MAX_COOKIE - 1 {
      var b, s := Combine(TYPE_TABLE, MAX_COOKIE - 1), IntBytes(n) + rest;
      SizeTruncated(n, rest);
      ReadTabled(b, s);
      assert s[|IntBytes(n)|..] == rest;
      assert [b] + IntBytes(n) + rest == [b] + s;
    } else {
      ReadTabled(Combine(TYPE_TABLE, n), rest);
      assert rest[0..] == rest;
    }
  }

  // What reading the hash part builds on top of the items.

  function FillHash(es: Entries, border: nat, levels: nat, m: map<Val, Val>): map<Val, Val> {
    match es
    case NoEntries => m
    case Entry(k, v, rest) =>
      FillHash(rest, border, levels, if InArray(k, border) then m else SetTable(m, ScalarVal(k), Meaning(v, levels)))
  }

  lemma {:induction false} FillHashAt(es: Entries, border: nat, levels: nat, m: map<Val, Val>, x: Val)
    requires ProperEntries(es)
    ensures var r := FillHash(es, border, levels, m);
            if IsKeyVal(x) && KeyOf(x) in Keys(es) && !InArray(KeyOf(x), border) then
              var v := MeaningAt(es, levels, x); (x in r <==> v != VNil) && (x in r ==> r[x] == v)
            else (x in r <==> x in m) && (x in r ==> r[x] == m[x])
    decreases es
  {
    match es
    case NoEntries =>
    case Entry(k, v, rest) =>
      FillHashAt(rest, border, levels, if InArray(k, border) then m else SetTable(m, ScalarVal(k), Meaning(v, levels)), x);
      FindPresent(rest, k);
      assert IsKeyVal(x) ==> (KeyOf(x) == k <==> x == ScalarVal(k));
  }

  /** Items up to any border and the rest in any order make up the whole table. */
  lemma FilledTable(es: Entries, border: nat, levels: nat)
    requires ProperEntries(es)
    ensures FillHash(es, border, levels, FillItems(es, 1, border, levels, map[])) == EntriesMeaning(es, levels)
  {
    EntriesHold(es, levels);
    var items := FillItems(es, 1, border, levels, map[]);
    forall x
      ensures var m := FillHash(es, border, levels, items);
              (x in m <==> MeaningAt(es, levels, x) != VNil) && (x in m ==> m[x] == MeaningAt(es, levels, x))
    {
      FillItemsAt(es, 1, border, levels, map[], x);
      FillHashAt(es, border, levels, items, x);
      if IsKeyVal(x) {
        FindPresent(es, KeyOf(x));
      }
    }
    HoldsSame(FillHash(es, border, levels, items), EntriesMeaning(es, levels), x => MeaningAt(es, levels, x));
  }

  lemma SmallRead(t: nat, cookie: nat, rest: seq<byte>)
    requires (t == TYPE_NIL && cookie == 0) || (t == TYPE_BOOLEAN && cookie < 2)
    ensures ReadOne([Combine(t, cookie)] + rest) == Got(if t == TYPE_NIL then VNil else VBool(cookie == 1), 1)
  {
    ReadPlain(Combine(t, cookie), rest);
  }

  /** Reading the bytes of a value gives its meaning, with tables of any border, holes and entry order. */
  lemma {:induction false} RoundTrip(v: Value, levels: nat, rest: seq<byte>)
    requires Proper(v) && Fits(v) && Depth(v) <= levels
    ensures ReadOne(PackBytes(v) + rest) == Got(Meaning(v, levels), |PackBytes(v)|)
    decreases Depth(v), 1, 0
  {
    match v
    case Nil => SmallRead(TYPE_NIL, 0, rest);
    case Bool(b) => SmallRead(TYPE_BOOLEAN, if b then 1 else 0, rest);
    case Int(i) => IntRoundTrip(i, rest);
    case Str(str) => StrRoundTrip(str, rest);
    case Table(es, border) => TableRoundTrip(es, border, levels, rest);
  }

  lemma {:induction false} TableRoundTrip(es: Entries, border: nat, levels: nat, rest: seq<byte>)
    requires Proper(Table(es, border)) && Fits(Table(es, border)) && EntriesDepth(es) < levels
    ensures ReadOne(PackBytes(Table(es, border)) + rest)
            == Got(VTable(EntriesMeaning(es, levels - 1)), |PackBytes(Table(es, border))|)
    decreases 1 + EntriesDepth(es), 0, 0
  {
    var head, items, hash := ArrayHead(border), ItemBytes(es, 1, border), HashBytes(es, border) + [Combine(TYPE_NIL, 0)];
    HeadRead(border, items + (hash + rest));
    ItemsRoundTrip(es, 1, border, levels - 1, hash + rest, map[]);
    HashRoundTrip(es, border, levels - 1, rest, FillItems(es, 1, border, levels - 1, map[]));
    FilledTable(es, border, levels - 1);
    TableBehind(head, items, hash, rest, border, FillItems(es, 1, border, levels - 1, map[]), EntriesMeaning(es, levels - 1));
  }

  /** A table from its three parts. */
  lemma TableBehind(head: seq<byte>, items: seq<byte>, hash: seq<byte>, rest: seq<byte>, n: nat,
                    m: map<Val, Val>, all: map<Val, Val>)
    requires ReadOne(head + (items + (hash + rest))) == After(|head|, ReadTable(items + (hash + rest), n))
    requires ReadItems(items + (hash + rest), n, 1, map[]) == Full(m, |items|)
    requires ReadHash(hash + rest, m) == Full(all, |hash|)
    ensures ReadOne(head + (items + hash) + rest) == Got(VTable(all), |head + (items + hash)|)
  {
    Parted(head, items, hash, rest);
  }

  lemma Parted(head: seq<byte>, items: seq<byte>, hash: seq<byte>, rest: seq<byte>)
    ensures head + (items + hash) + rest == head + (items + (hash + rest))
    ensures (items + (hash + rest))[|items|..] == hash + rest
  {
  }

  lemma {:induction false} ItemsRoundTrip(es: Entries, j: nat, n: nat, levels: nat, rest: seq<byte>, m: map<Val, Val>)
    requires ProperEntries(es) && EntriesFit(es) && EntriesDepth(es) <= levels && 1 <= j <= n + 1
    ensures ReadItems(ItemBytes(es, j, n) + rest, n + 1 - j, j, m)
            == Full(FillItems(es, j, n, levels, m), |ItemBytes(es, j, n)|)
    decreases EntriesDepth(es), 2, n + 1 - j
  {
    var s := ItemBytes(es, j, n) + rest;
    ItemsUnfold(s, n + 1 - j, j, m);
    if j <= n {
      FindPresent(es, Int(j));
      FindFits(es, Int(j));
      var first, more := PackBytes(Find(es, Int(j))), ItemBytes(es, j + 1, n);
      RoundTrip(Find(es, Int(j)), levels, more + rest);
      Headed(first, more, rest);
      ItemsRoundTrip(es, j + 1, n, levels, rest, SetTable(m, VInt(j), Meaning(Find(es, Int(j)), levels)));
    }
  }

  lemma {:induction false} HashRoundTrip(es: Entries, border: nat, levels: nat, rest: seq<byte>, m: map<Val, Val>)
    requires ProperEntries(es) && EntriesFit(es) && EntriesDepth(es) <= levels
    ensures var hash := HashBytes(es, border) + [Combine(TYPE_NIL, 0)];
            ReadHash(hash + rest, m) == Full(FillHash(es, border, levels, m), |hash|)
    decreases EntriesDepth(es), 2, Count(es)
  {
    var end: seq<byte> := [Combine(TYPE_NIL, 0)];
    match es
    case NoEntries =>
      SmallRead(TYPE_NIL, 0, rest);
      assert [] + end == end;
      HashUnfold(end + rest, m);
    case Entry(k, v, others) =>
      if InArray(k, border) {
        HashRoundTrip(others, border, levels, rest, m);
      } else {
        var first, second, more := PackBytes(k), PackBytes(v), HashBytes(others, border) + end;
        RoundTrip(k, levels, second + (more + rest));
        RoundTrip(v, levels, more + rest);
        Paired(first, second, HashBytes(others, border), end, rest);
        HashPair(first, second, more + rest, ScalarVal(k), Meaning(v, levels), m);
        HashRoundTrip(others, border, levels, rest, SetTable(m, ScalarVal(k), Meaning(v, levels)));
      }
  }

  lemma HashPair(first: seq<byte>, second: seq<byte>, more: seq<byte>, k: Val, v: Val, m: map<Val, Val>)
    requires ReadOne(first + (second + more)) == Got(k, |first|) && k != VNil && ReadOne(second + more) == Got(v, |second|)
    ensures ReadHash(first + (second + more), m) == Beyond(|first| + |second|, ReadHash(more, SetTable(m, k, v)))
  {
    HashUnfold(first + (second + more), m);
    assert (first + (second + more))[|first|..] == second + more;
    assert (first + (second + more))[|first| + |second|..] == more;
  }

  lemma Paired(a: seq<byte>, b: seq<byte>, c: seq<byte>, end: seq<byte>, rest: seq<byte>)
    ensures a + (b + c) + end + rest == a + (b + (c + end + rest))
  {
  }

  /** Every value comes back the same. */
  lemma GivesBack(v: Value, rest: seq<byte>)
    requires Proper(v) && Fits(v)
    ensures var r := ReadOne(PackBytes(v) + rest); r.Got? && Same(v, r.v) && r.used == |PackBytes(v)|
  {
    RoundTrip(v, Depth(v), rest);
    MeansItself(v, Depth(v));
  }

  // ---------------------------------------------------------------------------------------------------------
  // Argument lists

  function PackAll(vs: seq<Value>): seq<byte>
    requires forall i :: 0 <= i < |vs| ==> Proper(vs[i]) && Fits(vs[i])
  {
    if vs == [] then [] else PackBytes(vs[0]) + PackAll(vs[1..])
  }

  datatype Values = Bad(e: Error) | Values(vs: seq<Val>)

  /** luaseri_unpack: values until the input is used up. */
  ghost function ReadAll(s: seq<byte>): Values
    decreases |s|
  {
    if s == [] then Values([])
    else
      match ReadOne(s)
      case Fail(e) => Bad(e)
      case Got(v, used) =>
        match ReadAll(s[used..])
        case Bad(e) => Bad(e)
        case Values(vs) => Values([v] + vs)
  }

  function Meanings(vs: seq<Value>): (r: seq<Val>)
    ensures |r| == |vs| && forall i :: 0 <= i < |vs| ==> r[i] == Meaning(vs[i], Depth(vs[i]))
  {
    if vs == [] then [] else [Meaning(vs[0], Depth(vs[0]))] + Meanings(vs[1..])
  }

  /** unpack(pack(vs)) gives every value back whole. */
  lemma {:induction false} UnpackPack(vs: seq<Value>)
    requires forall i :: 0 <= i < |vs| ==> Proper(vs[i]) && Fits(vs[i])
    ensures ReadAll(PackAll(vs)) == Values(Meanings(vs))
  {
    if vs != [] {
      var first, more := PackBytes(vs[0]), PackAll(vs[1..]);
      RoundTrip(vs[0], Depth(vs[0]), more);
      UnpackPack(vs[1..]);
      assert (first + more)[|first|..] == more;
    }
  }
}
