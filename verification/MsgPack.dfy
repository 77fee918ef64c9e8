module MsgPack {
  // The MessagePack form of Lua values: packing as a two-pass encoder would do it, and unpacking.

  import opened Sequences
  import opened Hiding
  import opened Bytes
  import opened LuaData

  const MAX_NESTING := 16
  const NIL: byte := 0xc0
  const FALSE: byte := 0xc2
  const TRUE: byte := 0xc3

  // ---------------------------------------------------------------------------------------------------------
  // Packing

  function IntBytes(n: int): seq<byte>
    requires -INT64_LIMIT <= n < INT64_LIMIT
  {
    if n >= 0 then
      if n <= 127 then [n]
      else if n <= 0xff then [0xcc] + BigEndian(n, 1)
      else if n <= 0xffff then [0xcd] + BigEndian(n, 2)
      else if n <= 0xffff_ffff then [0xce] + BigEndian(n, 4)
      else [0xcf] + BigEndian(n, 8)
    else if n >= -32 then [n % 0x100]
    else if n >= -128 then [0xd0] + BigEndian(n % 0x100, 1)
    else if n >= -32768 then [0xd1] + BigEndian(n % 0x1_0000, 2)
    else if n >= -0x8000_0000 then [0xd2] + BigEndian(n % 0x1_0000_0000, 4)
    else [0xd3] + BigEndian(n % 0x1_0000_0000_0000_0000, 8)
  }

  function StrHead(n: nat): seq<byte>
    requires n < P32
  {
    if n < 32 then [0xa0 + n]
    else if n <= 0xff then [0xd9] + BigEndian(n, 1)
    else if n <= 0xffff then [0xda] + BigEndian(n, 2)
    else [0xdb] + BigEndian(n, 4)
  }

  function ArrayHead(n: nat): seq<byte>
    requires n < P32
  {
    if n <= 15 then [0x90 + n] else if n <= 0xffff then [0xdc] + BigEndian(n, 2) else [0xdd] + BigEndian(n, 4)
  }

  function MapHead(n: nat): (s: seq<byte>)
    requires n < P32
    ensures 1 <= |s| <= 5
  {
    if n <= 15 then [0x80 + n] else if n <= 0xffff then [0xde] + BigEndian(n, 2) else [0xdf] + BigEndian(n, 4)
  }

  /** The scan of table_is_an_array over the remaining keys. */
  function Scan(es: Entries, len: nat, count: nat): bool {
    match es
    case NoEntries => count == len
    case Entry(k, _, rest) => k.Int? && 0 < k.i <= len && count + 1 <= len && Scan(rest, len, count + 1)
  }

  predicate IsArray(es: Entries, border: nat) {
    border != 0 && Scan(es, border, 0)
  }

  /** A value as a two-pass encoder writes it: sizes first, then contents. Tables below the depth limit become nil. */
  function PackBytes(v: Value, level: nat): seq<byte>
    requires Proper(v) && level <= MAX_NESTING
    decreases Depth(v), 0, 0
  {
    match v
    case Nil => [NIL]
    case Bool(b) => [if b then TRUE else FALSE]
    case Int(i) => IntBytes(i)
    case Str(s) => StrHead(|s|) + s
    case Table(es, border) =>
      if level == MAX_NESTING then [NIL]
      else if IsArray(es, border) then
        ArrayBorder(es, border);
        ArrayHead(border) + ItemBytes(es, 1, border, level + 1)
      else MapHead(Count(es)) + EntryBytes(es, level + 1)
  }

  function ItemBytes(es: Entries, j: nat, n: nat, level: nat): seq<byte>
    requires ProperEntries(es) && level <= MAX_NESTING && j <= n + 1
    decreases EntriesDepth(es), 1, n + 1 - j
  {
    if j == n + 1 then []
    else
      FindPresent(es, Int(j));
      PackBytes(Find(es, Int(j)), level) + ItemBytes(es, j + 1, n, level)
  }

  function EntryBytes(es: Entries, level: nat): seq<byte>
    requires ProperEntries(es) && level <= MAX_NESTING
    decreases EntriesDepth(es), 1, Count(es)
  {
    match es
    case NoEntries => []
    case Entry(k, v, rest) => PackBytes(k, level) + PackBytes(v, level) + EntryBytes(rest, level)
  }

  // ---------------------------------------------------------------------------------------------------------
  // Arrays

  lemma {:induction false} ScanMeans(es: Entries, len: nat, count: nat)
    requires ProperEntries(es)
    ensures Scan(es, len, count) <==> Keys(es) <= Indices(len) && count + Count(es) == len
  {
    match es
    case NoEntries =>
    case Entry(k, _, rest) => ScanMeans(rest, len, count + 1);
  }

  lemma OnlyBorder(es: Entries, border: nat, n: nat)
    requires IsBorder(es, border) && Keys(es) == Indices(n)
    ensures border == n
  {
    assert Int(border + 1) !in Indices(n);
    assert border == 0 || Int(border) in Indices(n);
  }

  /** Whatever border rawlen answers: a table is an array exactly when its keys are 1 to n for some n >= 1. */
  lemma ArrayExactly(es: Entries, border: nat)
    requires ProperEntries(es) && IsBorder(es, border)
    ensures IsArray(es, border) <==> exists n: nat {:trigger Indices(n)} :: n >= 1 && Keys(es) == Indices(n)
    ensures IsArray(es, border) ==> Keys(es) == Indices(border)
  {
    ScanMeans(es, border, 0);
    CountIsKeys(es);
    if IsArray(es, border) {
      SubsetCount(Keys(es), Indices(border));
    }
    forall n: nat {:trigger Indices(n)} | n >= 1 && Keys(es) == Indices(n)
      ensures border == n
    {
      OnlyBorder(es, border, n);
    }
  }

  lemma ArrayBorder(es: Entries, border: nat)
    requires ProperEntries(es) && IsBorder(es, border) && IsArray(es, border)
    ensures Keys(es) == Indices(border) && Count(es) == border
  {
    ArrayExactly(es, border);
    ScanMeans(es, border, 0);
  }

  // ---------------------------------------------------------------------------------------------------------
  // Unpacking

  datatype Error = MissingBytes | BadFormat | NilKey

  datatype Unpacked = Fail(e: Error) | Got(v: Val, used: nat)
  datatype Filled = Broken(e: Error) | Full(m: map<Val, Val>, used: nat)

  /** What the first bytes announce. */
  datatype Head = Wrong(e: Error) | Whole(v: Val, used: nat) | Run(n: nat, off: nat) | Items(n: nat, off: nat) | Pairs(n: nat, off: nat)

  function Signed(u: nat, half: nat): int {
    if u < half then u else u - 2 * half
  }

  /** The k-byte number behind the first byte. */
  function Field(s: seq<byte>, k: nat): nat
    requires k + 1 <= |s|
  {
    FromBig(s[1..k + 1])
  }

  function HeadOf(s: seq<byte>): (h: Head)
    ensures h.Whole? ==> 1 <= h.used <= |s|
    ensures h.Run? || h.Items? || h.Pairs? ==> 1 <= h.off <= |s|
  {
    if s == [] then Wrong(MissingBytes)
    else
      var t := s[0];
      var k := if t in {0xcc, 0xd0, 0xd9} then 1 else if t in {0xcd, 0xd1, 0xda, 0xdc, 0xde} then 2
               else if t in {0xce, 0xd2, 0xca, 0xdb, 0xdd, 0xdf} then 4 else if t in {0xcf, 0xd3, 0xcb} then 8 else 0;
      if |s| < k + 1 then Wrong(MissingBytes)
      else if t in {0xcc, 0xcd, 0xce} then Whole(VInt(Field(s, k)), k + 1)
      else if t == 0xcf then Whole(VInt(Signed(Field(s, k), INT64_LIMIT)), k + 1)
      else if t == 0xd0 then Whole(VInt(Signed(Field(s, k), 0x80)), k + 1)
      else if t == 0xd1 then Whole(VInt(Signed(Field(s, k), 0x8000)), k + 1)
      else if t == 0xd2 then Whole(VInt(Signed(Field(s, k), 0x8000_0000)), k + 1)
      else if t == 0xd3 then Whole(VInt(Signed(Field(s, k), INT64_LIMIT)), k + 1)
      else if t == NIL then Whole(VNil, 1)
      else if t == TRUE then Whole(VBool(true), 1)
      else if t == FALSE then Whole(VBool(false), 1)
      else if t == 0xca || t == 0xcb then Whole(VOpaque(s[1..k + 1]), k + 1)
      else if t in {0xd9, 0xda, 0xdb} then Run(Field(s, k), k + 1)
      else if t == 0xdc || t == 0xdd then Items(Field(s, k), k + 1)
      else if t == 0xde || t == 0xdf then Pairs(Field(s, k), k + 1)
      else if t < 0x80 then Whole(VInt(t), 1)
      else if t >= 0xe0 then var low: int := t; Whole(VInt(low - 0x100), 1)
      else if 0xa0 <= t < 0xc0 then Run(t - 0xa0, 1)
      else if 0x90 <= t < 0xa0 then Items(t - 0x90, 1)
      else if 0x80 <= t < 0x90 then Pairs(t - 0x80, 1)
      else Wrong(BadFormat)
  }

  ghost function RawUnpack(s: seq<byte>): (r: Unpacked)
    ensures r.Got? ==> 1 <= r.used <= |s|
    decreases |s|, 0
  {
    match HeadOf(s)
    case Wrong(e) => Fail(e)
    case Whole(v, used) => Got(v, used)
    case Run(n, off) => if |s| < off + n then Fail(MissingBytes) else Got(VStr(s[off..off + n]), off + n)
    case Items(n, off) =>
      (match RawItems(s[off..], n, 1, map[])
       case Broken(e) => Fail(e)
       case Full(m, used) => Got(VTable(m), off + used))
    case Pairs(n, off) =>
      match RawPairs(s[off..], n, map[])
      case Broken(e) => Fail(e)
      case Full(m, used) => Got(VTable(m), off + used)
  }

  ghost function RawItems(s: seq<byte>, n: nat, index: nat, m: map<Val, Val>): (r: Filled)
    ensures r.Full? ==> r.used <= |s|
    decreases |s|, n + 1
  {
    if n == 0 then Full(m, 0)
    else
      match RawUnpack(s)
      case Fail(e) => Broken(e)
      case Got(v, used) =>
        match RawItems(s[used..], n - 1, index + 1, SetTable(m, VInt(index), v))
        case Broken(e) => Broken(e)
        case Full(all, more) => Full(all, used + more)
  }

  ghost function RawPairs(s: seq<byte>, n: nat, m: map<Val, Val>): (r: Filled)
    ensures r.Full? ==> r.used <= |s|
    decreases |s|, n + 1
  {
    if n == 0 then Full(m, 0)
    else
      match RawUnpack(s)
      case Fail(e) => Broken(e)
      case Got(k, used) =>
        match RawUnpack(s[used..])
        case Fail(e) => Broken(e)
        case Got(v, more) =>
          if k == VNil then Broken(NilKey)
          else
            match RawPairs(s[used + more..], n - 1, SetTable(m, k, v))
            case Broken(e) => Broken(e)
            case Full(all, rest) => Full(all, used + more + rest)
  }

  // RawUnpack, RawItems and RawPairs are used under the closed names Unpack, UnpackItems and UnpackPairs.

  ghost predicate IsUnpacked(s: seq<byte>, r: Unpacked) {
    && (r.Got? ==> 1 <= r.used <= |s|)
    && forall d {:trigger Opened(d)} :: Opened(d) ==> r == RawUnpack(s)
  }

  ghost function Unpack(s: seq<byte>): (r: Unpacked)
    ensures IsUnpacked(s, r)
  {
    assert IsUnpacked(s, RawUnpack(s));
    var r :| IsUnpacked(s, r);
    r
  }

  ghost predicate AreItems(s: seq<byte>, n: nat, index: nat, m: map<Val, Val>, r: Filled) {
    && (r.Full? ==> r.used <= |s|)
    && forall d {:trigger Opened(d)} :: Opened(d) ==> r == RawItems(s, n, index, m)
  }

  ghost function UnpackItems(s: seq<byte>, n: nat, index: nat, m: map<Val, Val>): (r: Filled)
    ensures AreItems(s, n, index, m, r)
  {
    assert AreItems(s, n, index, m, RawItems(s, n, index, m));
    var r :| AreItems(s, n, index, m, r);
    r
  }

  ghost predicate ArePairs(s: seq<byte>, n: nat, m: map<Val, Val>, r: Filled) {
    && (r.Full? ==> r.used <= |s|)
    && forall d {:trigger Opened(d)} :: Opened(d) ==> r == RawPairs(s, n, m)
  }

  ghost function UnpackPairs(s: seq<byte>, n: nat, m: map<Val, Val>): (r: Filled)
    ensures ArePairs(s, n, m, r)
  {
    assert ArePairs(s, n, m, RawPairs(s, n, m));
    var r :| ArePairs(s, n, m, r);
    r
  }

  /** `used` more bytes in front. */
  ghost function Beyond(used: nat, f: Filled): Filled {
    if f.Full? then Full(f.m, used + f.used) else f
  }

  ghost function AsTable(off: nat, f: Filled): Unpacked {
    if f.Full? then Got(VTable(f.m), off + f.used) else Fail(f.e)
  }

  ghost predicate Announces(s: seq<byte>, h: Head) {
    && (h.Whole? ==> 1 <= h.used <= |s|)
    && (h.Run? || h.Items? || h.Pairs? ==> 1 <= h.off <= |s|)
    && forall d {:trigger Opened(d)} :: Opened(d) ==> h == HeadOf(s)
  }

  /** HeadOf, kept closed. */
  ghost function HeadAt(s: seq<byte>): (h: Head)
    ensures Announces(s, h)
  {
    assert Announces(s, HeadOf(s));
    var h :| Announces(s, h);
    h
  }

  lemma HeadIs(s: seq<byte>)
    ensures HeadAt(s) == HeadOf(s)
  {
    assert Opened(true);
  }

  lemma UnpackUnfold(s: seq<byte>)
    ensures var h := HeadAt(s);
            && (h.Wrong? ==> Unpack(s) == Fail(h.e))
            && (h.Whole? ==> Unpack(s) == Got(h.v, h.used))
            && (h.Run? ==> Unpack(s) == if |s| < h.off + h.n then Fail(MissingBytes)
                                         else Got(VStr(s[h.off..h.off + h.n]), h.off + h.n))
            && (h.Items? ==> Unpack(s) == AsTable(h.off, UnpackItems(s[h.off..], h.n, 1, map[])))
            && (h.Pairs? ==> Unpack(s) == AsTable(h.off, UnpackPairs(s[h.off..], h.n, map[])))
  {
    assert Opened(true);
  }

  lemma ItemsUnfold(s: seq<byte>, n: nat, index: nat, m: map<Val, Val>)
    ensures n == 0 ==> UnpackItems(s, n, index, m) == Full(m, 0)
    ensures n > 0 && Unpack(s).Fail? ==> UnpackItems(s, n, index, m) == Broken(Unpack(s).e)
    ensures n > 0 && Unpack(s).Got? ==>
              var r := Unpack(s);
              UnpackItems(s, n, index, m)
              == Beyond(r.used, UnpackItems(s[r.used..], n - 1, index + 1, SetTable(m, VInt(index), r.v)))
  {
    assert Opened(true);
  }

  lemma PairsUnfold(s: seq<byte>, n: nat, m: map<Val, Val>)
    ensures n == 0 ==> UnpackPairs(s, n, m) == Full(m, 0)
    ensures n > 0 && Unpack(s).Fail? ==> UnpackPairs(s, n, m) == Broken(Unpack(s).e)
    ensures n > 0 && Unpack(s).Got? ==>
              var k := Unpack(s);
              var v := Unpack(s[k.used..]);
              && (v.Fail? ==> UnpackPairs(s, n, m) == Broken(v.e))
              && (v.Got? && k.v == VNil ==> UnpackPairs(s, n, m) == Broken(NilKey))
              && (v.Got? && k.v != VNil ==>
                    UnpackPairs(s, n, m)
                    == Beyond(k.used + v.used, UnpackPairs(s[k.used + v.used..], n - 1, SetTable(m, k.v, v.v))))
  {
    assert Opened(true);
  }

  // ---------------------------------------------------------------------------------------------------------
  // Unpacking what was packed

  lemma FieldOf(t: byte, n: nat, k: nat, rest: seq<byte>)
    requires n < Pow256(k)
    ensures var s := [t] + BigEndian(n, k) + rest; Field(s, k) == n && s[0] == t && |s| >= k + 1
  {
    BigRoundTrip(n, k);
    assert ([t] + BigEndian(n, k) + rest)[1..k + 1] == BigEndian(n, k);
  }

  lemma IntHead(n: int, rest: seq<byte>)
    requires -INT64_LIMIT <= n < INT64_LIMIT
    ensures HeadAt(IntBytes(n) + rest) == Whole(VInt(n), |IntBytes(n)|)
  {
    Powers256();
    HeadIs(IntBytes(n) + rest);
    if n > 127 {
      if n <= 0xff {
        FieldOf(0xcc, n, 1, rest);
      } else if n <= 0xffff {
        FieldOf(0xcd, n, 2, rest);
      } else if n <= 0xffff_ffff {
        FieldOf(0xce, n, 4, rest);
      } else {
        FieldOf(0xcf, n, 8, rest);
      }
    } else if n < -32 {
      NegativeHead(n, rest);
    }
  }

  lemma SignedBack(n: int)
    requires n < 0
    ensures n >= -0x80 ==> Signed(n % 0x100, 0x80) == n
    ensures n >= -0x8000 ==> Signed(n % 0x1_0000, 0x8000) == n
    ensures n >= -0x8000_0000 ==> Signed(n % 0x1_0000_0000, 0x8000_0000) == n
    ensures n >= -INT64_LIMIT ==> Signed(n % 0x1_0000_0000_0000_0000, INT64_LIMIT) == n
  {
  }

  lemma NegativeHead(n: int, rest: seq<byte>)
    requires -INT64_LIMIT <= n < -32
    ensures HeadAt(IntBytes(n) + rest) == Whole(VInt(n), |IntBytes(n)|)
  {
    SignedBack(n);
    if n >= -128 {
      SignedField(0xd0, n % 0x100, 1, rest);
    } else if n >= -32768 {
      SignedField(0xd1, n % 0x1_0000, 2, rest);
    } else if n >= -0x8000_0000 {
      SignedField(0xd2, n % 0x1_0000_0000, 4, rest);
    } else {
      SignedField(0xd3, n % 0x1_0000_0000_0000_0000, 8, rest);
    }
  }

  lemma SignedField(t: byte, u: nat, k: nat, rest: seq<byte>)
    requires (t == 0xd0 && k == 1 && u < 0x100) || (t == 0xd1 && k == 2 && u < 0x1_0000)
             || (t == 0xd2 && k == 4 && u < 0x1_0000_0000) || (t == 0xd3 && k == 8 && u < 0x1_0000_0000_0000_0000)
    ensures HeadAt([t] + BigEndian(u, k) + rest)
            == Whole(VInt(Signed(u, if k == 1 then 0x80 else if k == 2 then 0x8000 else if k == 4 then 0x8000_0000 else INT64_LIMIT)), k + 1)
  {
    Powers256();
    FieldOf(t, u, k, rest);
    HeadIs([t] + BigEndian(u, k) + rest);
  }

  lemma StrHeadRead(n: nat, rest: seq<byte>)
    requires n < P32
    ensures HeadAt(StrHead(n) + rest) == Run(n, |StrHead(n)|)
  {
    Powers256();
    HeadIs(StrHead(n) + rest);
    if n >= 32 {
      if n <= 0xff {
        FieldOf(0xd9, n, 1, rest);
      } else if n <= 0xffff {
        FieldOf(0xda, n, 2, rest);
      } else {
        FieldOf(0xdb, n, 4, rest);
      }
    }
  }

  lemma ArrayHeadRead(n: nat, rest: seq<byte>)
    requires n < P32
    ensures HeadAt(ArrayHead(n) + rest) == Items(n, |ArrayHead(n)|)
  {
    Powers256();
    HeadIs(ArrayHead(n) + rest);
    if n > 0xffff {
      FieldOf(0xdd, n, 4, rest);
    } else if n > 15 {
      FieldOf(0xdc, n, 2, rest);
    }
  }

  lemma MapHeadRead(n: nat, rest: seq<byte>)
    requires n < P32
    ensures HeadAt(MapHead(n) + rest) == Pairs(n, |MapHead(n)|)
  {
    Powers256();
    HeadIs(MapHead(n) + rest);
    if n > 0xffff {
      FieldOf(0xdf, n, 4, rest);
    } else if n > 15 {
      FieldOf(0xde, n, 2, rest);
    }
  }

  lemma FilledItems(es: Entries, n: nat, levels: nat)
    requires ProperEntries(es) && Keys(es) == Indices(n)
    ensures FillItems(es, 1, n, levels, map[]) == EntriesMeaning(es, levels)
  {
    EntriesHold(es, levels);
    forall x
      ensures var m := FillItems(es, 1, n, levels, map[]);
              (x in m <==> MeaningAt(es, levels, x) != VNil) && (x in m ==> m[x] == MeaningAt(es, levels, x))
    {
      FillItemsAt(es, 1, n, levels, map[], x);
      if IsKeyVal(x) {
        FindPresent(es, KeyOf(x));
      }
    }
    HoldsSame(FillItems(es, 1, n, levels, map[]), EntriesMeaning(es, levels), x => MeaningAt(es, levels, x));
  }

  lemma SmallHead(t: byte, rest: seq<byte>)
    ensures t == NIL ==> HeadAt([t] + rest) == Whole(VNil, 1)
    ensures t == TRUE ==> HeadAt([t] + rest) == Whole(VBool(true), 1)
    ensures t == FALSE ==> HeadAt([t] + rest) == Whole(VBool(false), 1)
  {
    HeadIs([t] + rest);
  }

  lemma StrRoundTrip(str: seq<byte>, rest: seq<byte>)
    requires |str| < P32
    ensures Unpack(StrHead(|str|) + str + rest) == Got(VStr(str), |StrHead(|str|)| + |str|)
  {
    var head := StrHead(|str|);
    StrHeadRead(|str|, str + rest);
    Headed(head, str, rest);
    UnpackUnfold(head + (str + rest));
    assert (head + (str + rest))[|head|..|head| + |str|] == str;
  }

  /** Unpacking a packed value gives its meaning down to the depth limit and takes exactly its bytes. */
  lemma {:induction false} RoundTrip(v: Value, level: nat, rest: seq<byte>)
    requires Proper(v) && level <= MAX_NESTING
    ensures Unpack(PackBytes(v, level) + rest) == Got(Meaning(v, MAX_NESTING - level), |PackBytes(v, level)|)
    decreases Depth(v), 1, 0
  {
    match v
    case Nil => SmallHead(NIL, rest); UnpackUnfold([NIL] + rest);
    case Bool(b) => SmallHead(if b then TRUE else FALSE, rest); UnpackUnfold([if b then TRUE else FALSE] + rest);
    case Int(i) => IntHead(i, rest); UnpackUnfold(IntBytes(i) + rest);
    case Str(str) => StrRoundTrip(str, rest);
    case Table(es, border) =>
      if level == MAX_NESTING {
        SmallHead(NIL, rest);
        UnpackUnfold([NIL] + rest);
      } else if IsArray(es, border) {
        ArrayRoundTrip(es, border, level, rest);
      } else {
        MapRoundTrip(es, border, level, rest);
      }
  }

  lemma {:induction false} ArrayRoundTrip(es: Entries, border: nat, level: nat, rest: seq<byte>)
    requires Proper(Table(es, border)) && level < MAX_NESTING && IsArray(es, border)
    ensures Count(es) == border
    ensures Unpack(ArrayHead(border) + ItemBytes(es, 1, border, level + 1) + rest)
            == Got(VTable(EntriesMeaning(es, MAX_NESTING - level - 1)), |ArrayHead(border)| + |ItemBytes(es, 1, border, level + 1)|)
    decreases 1 + EntriesDepth(es), 0, 0
  {
    ArrayBorder(es, border);
    var head, body := ArrayHead(border), ItemBytes(es, 1, border, level + 1);
    ArrayHeadRead(border, body + rest);
    ItemsRoundTrip(es, 1, border, level + 1, rest, map[]);
    FilledItems(es, border, MAX_NESTING - level - 1);
    ItemsUnpacked(head, body, border, rest, EntriesMeaning(es, MAX_NESTING - level - 1));
  }

  lemma ItemsUnpacked(head: seq<byte>, body: seq<byte>, n: nat, rest: seq<byte>, m: map<Val, Val>)
    requires HeadAt(head + (body + rest)) == Items(n, |head|)
    requires UnpackItems(body + rest, n, 1, map[]) == Full(m, |body|)
    ensures Unpack(head + body + rest) == Got(VTable(m), |head| + |body|)
  {
    Headed(head, body, rest);
    UnpackUnfold(head + (body + rest));
  }

  lemma {:induction false} MapRoundTrip(es: Entries, border: nat, level: nat, rest: seq<byte>)
    requires Proper(Table(es, border)) && level < MAX_NESTING
    ensures Unpack(MapHead(Count(es)) + EntryBytes(es, level + 1) + rest)
            == Got(VTable(EntriesMeaning(es, MAX_NESTING - level - 1)), |MapHead(Count(es))| + |EntryBytes(es, level + 1)|)
    decreases 1 + EntriesDepth(es), 0, 0
  {
    var head, body := MapHead(Count(es)), EntryBytes(es, level + 1);
    MapHeadRead(Count(es), body + rest);
    EntriesRoundTrip(es, level + 1, rest, map[]);
    FilledEntries(es, MAX_NESTING - level - 1);
    Headed(head, body, rest);
    UnpackUnfold(head + (body + rest));
  }

  lemma {:induction false} ItemsRoundTrip(es: Entries, j: nat, n: nat, level: nat, rest: seq<byte>, m: map<Val, Val>)
    requires ProperEntries(es) && level <= MAX_NESTING && 1 <= j <= n + 1
    ensures UnpackItems(ItemBytes(es, j, n, level) + rest, n + 1 - j, j, m)
            == Full(FillItems(es, j, n, MAX_NESTING - level, m), |ItemBytes(es, j, n, level)|)
    decreases EntriesDepth(es), 2, n + 1 - j
  {
    var s := ItemBytes(es, j, n, level) + rest;
    ItemsUnfold(s, n + 1 - j, j, m);
    if j <= n {
      FindPresent(es, Int(j));
      var first, more := PackBytes(Find(es, Int(j)), level), ItemBytes(es, j + 1, n, level);
      RoundTrip(Find(es, Int(j)), level, more + rest);
      Headed(first, more, rest);
      ItemsRoundTrip(es, j + 1, n, level, rest, SetTable(m, VInt(j), Meaning(Find(es, Int(j)), MAX_NESTING - level)));
    }
  }

  lemma {:induction false} EntriesRoundTrip(es: Entries, level: nat, rest: seq<byte>, m: map<Val, Val>)
    requires ProperEntries(es) && level <= MAX_NESTING
    ensures UnpackPairs(EntryBytes(es, level) + rest, Count(es), m)
            == Full(FillEntries(es, MAX_NESTING - level, m), |EntryBytes(es, level)|)
    decreases EntriesDepth(es), 2, Count(es)
  {
    var s := EntryBytes(es, level) + rest;
    PairsUnfold(s, Count(es), m);
    match es
    case NoEntries =>
    case Entry(k, v, others) =>
      var first, second, more := PackBytes(k, level), PackBytes(v, level), EntryBytes(others, level);
      RoundTrip(k, level, second + more + rest);
      RoundTrip(v, level, more + rest);
      Paired(first, second, more, rest);
      EntriesRoundTrip(others, level, rest, SetTable(m, ScalarVal(k), Meaning(v, MAX_NESTING - level)));
  }

  lemma Paired(a: seq<byte>, b: seq<byte>, c: seq<byte>, rest: seq<byte>)
    ensures var s := a + b + c + rest;
            && s == a + (b + c + rest) && s[|a|..] == b + c + rest == b + (c + rest)
            && s[|a| + |b|..] == c + rest
  {
  }

  /** A value of at most 16 levels of tables comes back the same. */
  lemma GivesBack(v: Value, rest: seq<byte>)
    requires Proper(v) && Depth(v) <= 16
    ensures var r := Unpack(PackBytes(v, 0) + rest); r.Got? && Same(v, r.v) && r.used == |PackBytes(v, 0)|
  {
    RoundTrip(v, 0, rest);
    MeansItself(v, 16);
  }

  // ---------------------------------------------------------------------------------------------------------
  // Streams of values

  function PackAll(vs: seq<Value>): seq<byte>
    requires forall i :: 0 <= i < |vs| ==> Proper(vs[i])
  {
    if vs == [] then [] else PackBytes(vs[0], 0) + PackAll(vs[1..])
  }

  datatype Values = Bad(e: Error) | Values(vs: seq<Val>)

  /** mp_unpack: values until the input is used up. */
  ghost function UnpackAll(s: seq<byte>): Values
    decreases |s|
  {
    if s == [] then Values([])
    else
      match Unpack(s)
      case Fail(e) => Bad(e)
      case Got(v, used) =>
        match UnpackAll(s[used..])
        case Bad(e) => Bad(e)
        case Values(vs) => Values([v] + vs)
  }

  function Meanings(vs: seq<Value>, levels: nat): (r: seq<Val>)
    ensures |r| == |vs| && forall i :: 0 <= i < |vs| ==> r[i] == Meaning(vs[i], levels)
  {
    if vs == [] then [] else [Meaning(vs[0], levels)] + Meanings(vs[1..], levels)
  }

  /** unpack(pack(vs)) gives every value back, down to 16 levels of tables. */
  lemma {:induction false} UnpackPack(vs: seq<Value>)
    requires forall i :: 0 <= i < |vs| ==> Proper(vs[i])
    ensures UnpackAll(PackAll(vs)) == Values(Meanings(vs, 16))
  {
    if vs != [] {
      var first, more := PackBytes(vs[0], 0), PackAll(vs[1..]);
      RoundTrip(vs[0], 0, more);
      UnpackPack(vs[1..]);
      assert (first + more)[|first|..] == more;
    }
  }
}
