module Formats {
  // The formats of the two binary serializers byte by byte, in literal numbers, and the order in which tables are written.

  import opened Sequences
  import opened Bytes
  import opened Decimal
  import opened LuaData
  import M = MsgPack
  import S = Seri

  // ---------------------------------------------------------------------------------------------------------
  // Numbers

  /** Least significant byte first in one form, last in the other. */
  lemma ByteOrder(n: nat, k: nat)
    requires k > 0
    ensures LittleEndian(n, k)[0] == n % 256 && LittleEndian(n, k)[1..] == LittleEndian(n / 256, k - 1)
    ensures BigEndian(n, k)[k - 1] == n % 256 && BigEndian(n, k)[..k - 1] == BigEndian(n / 256, k - 1)
    ensures |LittleEndian(n, k)| == k == |BigEndian(n, k)|
  {
  }

  lemma OneByte(n: nat, k: nat)
    requires k == 1 && n < 256
    ensures LittleEndian(n, k) == [n] && BigEndian(n, k) == [n]
  {
    ByteOrder(n, k);
  }

  lemma TwoBytes(n: nat, k: nat)
    requires k == 2 && n < 65536
    ensures LittleEndian(n, k) == [n % 256, n / 256] && BigEndian(n, k) == [n / 256, n % 256]
  {
    ByteOrder(n, k);
    OneByte(n / 256, k - 1);
    var l, b := LittleEndian(n, k), BigEndian(n, k);
    assert l == [l[0]] + l[1..] && b == b[..k - 1] + [b[k - 1]];
  }

  /** Decimal digits read from the left, each worth ten times what stands behind it. */
  function FromLeft(s: seq<byte>, above: nat): nat
    requires forall i :: 0 <= i < |s| ==> 48 <= s[i] <= 57
  {
    if s == [] then above else FromLeft(s[1..], 10 * above + (s[0] - 48))
  }

  lemma {:induction false} LeftAppend(s: seq<byte>, d: byte, above: nat)
    requires (forall i :: 0 <= i < |s| ==> 48 <= s[i] <= 57) && 48 <= d <= 57
    ensures FromLeft(s + [d], above) == 10 * FromLeft(s, above) + (d - 48)
  {
    if s == [] {
      assert (s + [d])[1..] == [];
    } else {
      assert (s + [d])[1..] == s[1..] + [d];
      LeftAppend(s[1..], d, 10 * above + (s[0] - 48));
    }
  }

  lemma {:induction false} DigitsFromLeft(s: seq<byte>)
    requires forall i :: 0 <= i < |s| ==> 48 <= s[i] <= 57
    ensures AllDigits(s) && DigitsValue(s) == FromLeft(s, 0)
  {
    assert AllDigits(s);
    if s != [] {
      DigitsFromLeft(s[..|s| - 1]);
      LeftAppend(s[..|s| - 1], s[|s| - 1], 0);
      assert s == s[..|s| - 1] + [s[|s| - 1]];
    }
  }

  /** The decimal form of a number: its digits from the left, and no leading zero but in 0 itself. */
  lemma {:induction false} DecimalForm(n: nat)
    ensures var s := ToDecimal(n);
            && (forall i :: 0 <= i < |s| ==> 48 <= s[i] <= 57) && FromLeft(s, 0) == n
            && s != [] && (s[0] == 48 ==> n == 0 && s == [48])
  {
    var s := ToDecimal(n);
    assert forall i :: 0 <= i < |s| ==> IsDigit(s[i]);
    DigitsFromLeft(s);
    if n >= 10 {
      DecimalForm(n / 10);
    }
  }

  // ---------------------------------------------------------------------------------------------------------
  // MessagePack

  /** nil, false and true; integers and the heads of strings have the bytes told by the next lemmas. */
  lemma MsgPackScalars(v: Value, level: nat)
    requires Proper(v) && level <= 16 && !v.Table?
    ensures M.PackBytes(v, level)
            == match v
               case Nil => [0xc0]
               case Bool(b) => [if b then 0xc3 else 0xc2]
               case Int(i) => M.IntBytes(i)
               case Str(s) => M.StrHead(|s|) + s
  {
  }

  /** Small integers are their own byte; those of one and two bytes stand behind their first byte. */
  lemma MsgPackSmall(i: int)
    requires 0 <= i < 65536
    ensures i < 128 ==> M.IntBytes(i) == [i]
    ensures 128 <= i < 256 ==> M.IntBytes(i) == [0xcc, i]
    ensures i >= 256 ==> M.IntBytes(i) == [0xcd, i / 256, i % 256]
  {
    TwoBytes(i, 2);
    OneByte(i % 256, 1);
  }

  lemma MsgPackNegative(i: int)
    requires -32768 <= i < 0
    ensures i >= -32 ==> M.IntBytes(i) == [256 + i]
    ensures -128 <= i < -32 ==> M.IntBytes(i) == [0xd0, 256 + i]
    ensures i < -128 ==> M.IntBytes(i) == [0xd1, (65536 + i) / 256, (65536 + i) % 256]
  {
    var u: nat := 65536 + i;
    assert i % 65536 == u;
    if i >= -128 {
      assert i % 256 == 256 + i;
      OneByte(256 + i, 1);
    } else {
      TwoBytes(u, 2);
    }
  }

  /** The wider integers: four or eight bytes, most significant first. */
  lemma MsgPackWide(i: int)
    requires -0x8000_0000_0000_0000 <= i < 0x8000_0000_0000_0000
    ensures 65536 <= i < 0x1_0000_0000 ==> M.IntBytes(i) == [0xce] + BigEndian(i, 4)
    ensures i >= 0x1_0000_0000 ==> M.IntBytes(i) == [0xcf] + BigEndian(i, 8)
    ensures -0x8000_0000 <= i < -32768 ==> M.IntBytes(i) == [0xd2] + BigEndian(0x1_0000_0000 + i, 4)
    ensures i < -0x8000_0000 ==> M.IntBytes(i) == [0xd3] + BigEndian(0x1_0000_0000_0000_0000 + i, 8)
  {
  }

  lemma MsgPackStrings(n: nat)
    requires n < 0x1_0000_0000
    ensures n < 32 ==> M.StrHead(n) == [0xa0 + n]
    ensures 32 <= n < 256 ==> M.StrHead(n) == [0xd9, n]
    ensures 256 <= n < 65536 ==> M.StrHead(n) == [0xda, n / 256, n % 256]
    ensures n >= 65536 ==> M.StrHead(n) == [0xdb] + BigEndian(n, 4)
  {
    if n < 65536 {
      TwoBytes(n, 2);
      OneByte(n % 256, 1);
    }
  }

  /** A count below 16 in the first byte, or two or four bytes behind it. */
  function MsgPackCount(small: byte, wide: byte, n: nat): seq<byte>
    requires n < 0x1_0000_0000 && small < 0xf0 && wide < 0xff
  {
    if n < 16 then [small + n] else if n < 65536 then [wide, n / 256, n % 256] else [wide + 1] + BigEndian(n, 4)
  }

  lemma MsgPackHeads(n: nat)
    requires n < 0x1_0000_0000
    ensures M.ArrayHead(n) == MsgPackCount(0x90, 0xdc, n) && M.MapHead(n) == MsgPackCount(0x80, 0xde, n)
  {
    if n < 65536 {
      TwoBytes(n, 2);
    }
  }

  /** A table at the sixteenth level is nil; another one is an array of its items, or a map of its entries. */
  lemma MsgPackTables(es: Entries, border: nat, level: nat)
    requires Proper(Table(es, border)) && level <= 16
    ensures var p := M.PackBytes(Table(es, border), level);
            && (level == 16 ==> p == [0xc0])
            && (level < 16 && Count(es) > 0 && Keys(es) == Indices(Count(es)) ==>
                  p == M.ArrayHead(Count(es)) + M.ItemBytes(es, 1, Count(es), level + 1))
            && (level < 16 && (Count(es) == 0 || Keys(es) != Indices(Count(es))) ==>
                  p == M.MapHead(Count(es)) + M.EntryBytes(es, level + 1))
  {
    M.ArrayExactly(es, border);
    if M.IsArray(es, border) {
      M.ArrayBorder(es, border);
    } else if Keys(es) == Indices(Count(es)) && Count(es) > 0 {
      assert exists n: nat {:trigger Indices(n)} :: n >= 1 && Keys(es) == Indices(n);
    }
  }

  /** Items stand in the order of their indices. */
  lemma {:induction false} MsgPackItems(es: Entries, j: nat, i: nat, n: nat, level: nat)
    requires ProperEntries(es) && level <= 16 && j <= i <= n
    ensures var v := Find(es, Int(i)); Proper(v)
    ensures M.ItemBytes(es, j, n, level)
            == (if j == i then [] else M.ItemBytes(es, j, i - 1, level))
               + (M.PackBytes(Find(es, Int(i)), level) + M.ItemBytes(es, i + 1, n, level))
    decreases i - j
  {
    FindPresent(es, Int(i));
    if j < i {
      FindPresent(es, Int(j));
      MsgPackItems(es, j + 1, i, n, level);
      var first, v := M.PackBytes(Find(es, Int(j)), level), M.PackBytes(Find(es, Int(i)), level);
      var between := if j + 1 == i then [] else M.ItemBytes(es, j + 1, i - 1, level);
      assert M.ItemBytes(es, j, i - 1, level) == first + between;
      Associative(first, between, v + M.ItemBytes(es, i + 1, n, level));
    } else {
      Bare(M.PackBytes(Find(es, Int(i)), level) + M.ItemBytes(es, i + 1, n, level));
    }
  }

  lemma Bare(s: seq<byte>)
    ensures [] + s == s
  {
  }

  /** The entries of a map: key, value, and the entries behind. */
  lemma MsgPackEntry(k: Value, v: Value, rest: Entries, level: nat)
    requires ProperEntries(Entry(k, v, rest)) && level <= 16
    ensures M.EntryBytes(Entry(k, v, rest), level)
            == M.PackBytes(k, level) + M.PackBytes(v, level) + M.EntryBytes(rest, level)
  {
  }

  /** Bytes that begin no value; a value of which bytes are missing. */
  lemma MsgPackRefused(b: byte, rest: seq<byte>)
    ensures b == 0xc1 || 0xc4 <= b < 0xca || 0xd4 <= b < 0xd9 ==> M.Unpack([b] + rest) == M.Fail(M.BadFormat)
    ensures M.Unpack([]) == M.Fail(M.MissingBytes)
    ensures (b == 0xcc || b == 0xd0 || b == 0xd9) && rest == [] ==> M.Unpack([b] + rest) == M.Fail(M.MissingBytes)
    ensures (b == 0xcd || b == 0xd1 || b == 0xda || b == 0xdc || b == 0xde) && |rest| < 2 ==>
              M.Unpack([b] + rest) == M.Fail(M.MissingBytes)
    ensures (b == 0xce || b == 0xd2 || b == 0xca || b == 0xdb || b == 0xdd || b == 0xdf) && |rest| < 4 ==>
              M.Unpack([b] + rest) == M.Fail(M.MissingBytes)
    ensures (b == 0xcf || b == 0xd3 || b == 0xcb) && |rest| < 8 ==> M.Unpack([b] + rest) == M.Fail(M.MissingBytes)
    ensures 0xa0 <= b < 0xc0 && |rest| < b - 0xa0 ==> M.Unpack([b] + rest) == M.Fail(M.MissingBytes)
  {
    M.HeadIs([b] + rest);
    M.UnpackUnfold([b] + rest);
    M.HeadIs([]);
    M.UnpackUnfold([]);
  }

  /** Floating-point numbers are their four or eight bytes; a number need not have its shortest form. */
  lemma MsgPackRead(b: byte, x: seq<byte>, rest: seq<byte>)
    ensures b == 0xca && |x| == 4 ==> M.Unpack([b] + (x + rest)) == M.Got(VOpaque(x), 5)
    ensures b == 0xcb && |x| == 8 ==> M.Unpack([b] + (x + rest)) == M.Got(VOpaque(x), 9)
    ensures b == 0xcc && |x| == 1 ==> M.Unpack([b] + (x + rest)) == M.Got(VInt(x[0]), 2)
    ensures b == 0xcd && |x| == 2 ==> M.Unpack([b] + (x + rest)) == M.Got(VInt(256 * (x[0] as int) + x[1]), 3)
    ensures b == 0xd0 && |x| == 1 ==> M.Unpack([b] + (x + rest)) == M.Got(VInt(if x[0] < 128 then x[0] as int else x[0] as int - 256), 2)
  {
    var s := [b] + (x + rest);
    M.HeadIs(s);
    M.UnpackUnfold(s);
    assert s[1..|x| + 1] == x;
    if |x| == 1 {
      assert x[..0] == [];
      assert FromBig(x) == x[0];
    } else if |x| == 2 {
      assert x[..1][..0] == [];
      assert FromBig(x[..1]) == x[0];
    }
  }

  // ---------------------------------------------------------------------------------------------------------
  // The Lua serializer

  /** The first byte is a type in its low three bits and a cookie above: nil 0, boolean 1, number 2, string 4 or 5. */
  lemma SeriScalars(v: Value)
    requires Proper(v) && S.Fits(v) && !v.Table?
    ensures S.PackBytes(v)
            == match v
               case Nil => [0]
               case Bool(b) => [if b then 1 + 8 * 1 else 1]
               case Int(i) => S.IntBytes(i)
               case Str(s) => S.StrBytes(s)
  {
  }

  lemma SeriSmall(i: int)
    requires 0 <= i < 65536
    ensures i == 0 ==> S.IntBytes(i) == [2]
    ensures 0 < i < 256 ==> S.IntBytes(i) == [2 + 8 * 1, i]
    ensures i >= 256 ==> S.IntBytes(i) == [2 + 8 * 2, i % 256, i / 256]
  {
    TwoBytes(i, 2);
    OneByte(i % 256, 1);
  }

  /** The wider integers: four or eight bytes, least significant first. */
  lemma SeriWide(i: int, u: nat, k: nat)
    requires -0x8000_0000_0000_0000 <= i < 0x8000_0000_0000_0000 && (i < 0 || i >= 65536)
    requires k == (if -0x8000_0000 <= i < 0x8000_0000 then 4 else 8)
    requires u == i + (if i >= 0 then 0 else if k == 4 then 0x1_0000_0000 else 0x1_0000_0000_0000_0000)
    ensures S.IntBytes(i) == [if k == 4 then 2 + 8 * 4 else 2 + 8 * 6] + LittleEndian(u, k)
  {
    if k == 4 {
      assert i % 0x1_0000_0000 == u;
    } else {
      assert i % 0x1_0000_0000_0000_0000 == u;
    }
  }

  /** Short strings carry their length in the cookie, longer ones in two or four bytes. */
  lemma SeriStrings(s: seq<byte>)
    requires |s| < 0x8000_0000
    ensures |s| < 32 ==> S.StrBytes(s) == [4 + 8 * |s|] + s
    ensures 32 <= |s| < 65536 ==> S.StrBytes(s) == [5 + 8 * 2] + [|s| % 256, |s| / 256] + s
    ensures |s| >= 65536 ==> S.StrBytes(s) == [5 + 8 * 4] + LittleEndian(|s|, 4) + s
  {
    if |s| < 65536 {
      TwoBytes(|s|, 2);
    }
  }

  /** A table: its border, the items up to it, the other entries, and a nil. */
  lemma SeriTable(es: Entries, border: nat)
    requires Proper(Table(es, border)) && S.Fits(Table(es, border))
    ensures S.PackBytes(Table(es, border))
            == (if border < 31 then [6 + 8 * border] else [254] + S.IntBytes(border))
               + (S.ItemBytes(es, 1, border) + (S.HashBytes(es, border) + [0]))
  {
  }

  /** Items stand in the order of their indices, holes among them as nil. */
  lemma {:induction false} SeriItems(es: Entries, j: nat, i: nat, n: nat)
    requires ProperEntries(es) && S.EntriesFit(es) && j <= i <= n
    ensures Proper(Find(es, Int(i))) && S.Fits(Find(es, Int(i)))
    ensures S.ItemBytes(es, j, n)
            == (if j == i then [] else S.ItemBytes(es, j, i - 1))
               + (S.PackBytes(Find(es, Int(i))) + S.ItemBytes(es, i + 1, n))
    decreases i - j
  {
    FindPresent(es, Int(i));
    S.FindFits(es, Int(i));
    if j < i {
      FindPresent(es, Int(j));
      S.FindFits(es, Int(j));
      SeriItems(es, j + 1, i, n);
      var first, v := S.PackBytes(Find(es, Int(j))), S.PackBytes(Find(es, Int(i)));
      var between := if j + 1 == i then [] else S.ItemBytes(es, j + 1, i - 1);
      assert S.ItemBytes(es, j, i - 1) == first + between;
      Associative(first, between, v + S.ItemBytes(es, i + 1, n));
    } else {
      Bare(S.PackBytes(Find(es, Int(i))) + S.ItemBytes(es, i + 1, n));
    }
  }

  /** The entries behind the items: those whose key is no index up to the border, key and value in turn. */
  lemma SeriEntry(k: Value, v: Value, rest: Entries, border: nat)
    requires ProperEntries(Entry(k, v, rest)) && S.EntriesFit(Entry(k, v, rest))
    ensures S.HashBytes(Entry(k, v, rest), border)
            == if k.Int? && 1 <= k.i <= border then S.HashBytes(rest, border)
               else S.PackBytes(k) + (S.PackBytes(v) + S.HashBytes(rest, border))
  {
  }

  /** First bytes that begin no value, and values of which bytes are missing. */
  lemma SeriRefused(t: nat, cookie: nat, rest: seq<byte>)
    requires t < 8 && cookie < 32
    requires t == 7 || (t == 2 && cookie != 0 && cookie != 1 && cookie != 2 && cookie != 4 && cookie != 6 && cookie != 8)
             || (t == 5 && cookie != 2 && cookie != 4) || (t == 4 && |rest| < cookie) || (t == 3 && |rest| < 8)
             || (t == 2 && |rest| < cookie)
    ensures S.ReadOne([t + 8 * cookie] + rest) == S.Fail(S.BadStream) && S.ReadOne([]) == S.Fail(S.BadStream)
  {
    var b: byte := t + 8 * cookie;
    S.ReadNothing();
    assert b % 8 == t && b / 8 == cookie;
    S.ReadPlain(b, rest);
  }

  /** Doubles and pointers are their eight bytes; a boolean is true for every cookie but 0. */
  lemma SeriRead(cookie: nat, x: seq<byte>, rest: seq<byte>)
    requires cookie < 32 && |x| == 8
    ensures S.ReadOne([2 + 8 * 8] + (x + rest)) == S.Got(VOpaque(x), 9)
    ensures S.ReadOne([3 + 8 * cookie] + (x + rest)) == S.Got(VOpaque(x), 9)
    ensures S.ReadOne([1 + 8 * cookie] + rest) == S.Got(VBool(cookie != 0), 1)
  {
    S.ReadPlain(2 + 8 * 8, x + rest);
    S.ReadPlain(3 + 8 * cookie, x + rest);
    S.ReadPlain(1 + 8 * cookie, rest);
    assert (x + rest)[..8] == x;
  }

  /** How many tables with entries lie one in another. */
  function Levels(v: Value): nat
    decreases v, 0
  {
    if v.Table? && v.entries.Entry? then 1 + EntriesLevels(v.entries) else 0
  }

  function EntriesLevels(es: Entries): nat
    decreases es, 1
  {
    match es
    case NoEntries => 0
    case Entry(_, v, rest) => if Levels(v) > EntriesLevels(rest) then Levels(v) else EntriesLevels(rest)
  }

  /** Packing refuses exactly the values of more than 32 levels, counted from where they stand. */
  lemma {:induction false} SeriDeepExactly(v: Value, depth: nat)
    ensures S.TooDeep(v, depth) <==> depth + Levels(v) > 32
    decreases v, 0
  {
    if v.Table? && v.entries.Entry? {
      EntriesDeepExactly(v.entries, depth + 1);
    }
  }

  lemma {:induction false} EntriesDeepExactly(es: Entries, depth: nat)
    requires es.Entry?
    ensures S.EntriesTooDeep(es, depth) <==> depth + EntriesLevels(es) > 32
    decreases es, 1
  {
    SeriDeepExactly(es.value, depth);
    if es.rest.Entry? {
      EntriesDeepExactly(es.rest, depth);
    }
  }
}
