// The MessagePack encoder as it runs: one growing buffer, one pass over a table, its header filled in afterwards.
module MsgPackBuffer {
  import opened Sequences
  import opened Bytes
  import opened LuaData
  import opened MsgPack

  const STACK_SIZE := 128

  // The low bytes of a word by shifts and masks, highest first; a shift right of a negative word keeps its sign.

  function One(n: int): seq<byte> {
    [n % 0x100]
  }

  function Two(n: int): seq<byte> {
    [n / 0x100 % 0x100, n % 0x100]
  }

  function Four(n: int): seq<byte> {
    [n / 0x100_0000 % 0x100, n / 0x1_0000 % 0x100, n / 0x100 % 0x100, n % 0x100]
  }

  function Eight(n: int): seq<byte> {
    [n / 0x100_0000_0000_0000 % 0x100, n / 0x1_0000_0000_0000 % 0x100, n / 0x100_0000_0000 % 0x100,
     n / 0x1_0000_0000 % 0x100, n / 0x100_0000 % 0x100, n / 0x1_0000 % 0x100, n / 0x100 % 0x100, n % 0x100]
  }

  // They are the big-endian form of the word, negative integers in two's complement.

  lemma OneIs(n: int)
    ensures One(n) == BigEndian(n % 0x100, 1)
  {
  }

  lemma TwoIs(n: int)
    ensures Two(n) == BigEndian(n % 0x1_0000, 2)
  {
    BigMore(n % 0x1_0000, 1);
    OneIs(n / 0x100);
    assert n % 0x1_0000 / 0x100 == n / 0x100 % 0x100;
  }

  lemma BigMore(n: nat, k: nat)
    ensures BigEndian(n, k + 1) == BigEndian(n / 0x100, k) + [n % 0x100]
  {
  }

  /** A small word is its own remainder. */
  lemma Small(n: int)
    ensures 0 <= n < 0x100 ==> n % 0x100 == n
    ensures 0 <= n < 0x1_0000 ==> n % 0x1_0000 == n
    ensures 0 <= n < 0x1_0000_0000 ==> n % 0x1_0000_0000 == n
    ensures 0 <= n < INT64_LIMIT ==> n % 0x1_0000_0000_0000_0000 == n
  {
  }

  lemma SmallTwo(n: nat)
    requires n < 0x1_0000
    ensures Two(n) == BigEndian(n, 2)
  {
    TwoIs(n);
    Small(n);
  }

  lemma SmallFour(n: nat)
    requires n < P32
    ensures Four(n) == BigEndian(n, 4)
  {
    FourIs(n);
    Small(n);
  }

  lemma BigTwice(n: nat, k: nat)
    ensures BigEndian(n, k + 2) == BigEndian(n / 0x1_0000, k) + Two(n)
  {
    var high, low := n / 0x100, BigEndian(n / 0x1_0000, k);
    BigMore(n, k + 1);
    BigMore(high, k);
    NestedTwo(n);
    assert low + [high % 0x100] + [n % 0x100] == low + [high % 0x100, n % 0x100];
  }

  lemma NestedTwo(n: nat)
    ensures n / 0x100 / 0x100 == n / 0x1_0000
  {
  }

  lemma TwoAgain(n: int)
    ensures Two(n % 0x1_0000) == Two(n)
  {
    TwoIs(n);
    TwoIs(n % 0x1_0000);
  }

  lemma FourSplits(n: int)
    ensures Four(n) == Two(n / 0x1_0000) + Two(n)
  {
    assert n / 0x1_0000 / 0x100 == n / 0x100_0000;
  }

  lemma HalvesOfFour(n: int)
    ensures n % 0x1_0000_0000 / 0x1_0000 == n / 0x1_0000 % 0x1_0000
    ensures n % 0x1_0000_0000 % 0x1_0000 == n % 0x1_0000
  {
  }

  lemma FourIs(n: int)
    ensures Four(n) == BigEndian(n % 0x1_0000_0000, 4)
  {
    var u: nat := n % 0x1_0000_0000;
    BigTwice(u, 2);
    HalvesOfFour(n);
    TwoIs(n / 0x1_0000);
    TwoAgain(u);
    TwoAgain(n);
    FourSplits(n);
  }

  lemma BigFourfold(n: nat, k: nat)
    ensures BigEndian(n, k + 4) == BigEndian(n / 0x1_0000_0000, k) + Four(n)
  {
    var high := BigEndian(n / 0x1_0000_0000, k);
    BigTwice(n, k + 2);
    BigTwice(n / 0x1_0000, k);
    NestedFour(n);
    FourSplits(n);
    Associative(high, Two(n / 0x1_0000), Two(n));
  }

  lemma NestedFour(n: nat)
    ensures n / 0x1_0000 / 0x1_0000 == n / 0x1_0000_0000
  {
  }

  lemma FourAgain(n: int)
    ensures Four(n % 0x1_0000_0000) == Four(n)
  {
    FourIs(n);
    FourIs(n % 0x1_0000_0000);
  }

  lemma HalvesOfEight(n: int)
    ensures n % 0x1_0000_0000_0000_0000 / 0x1_0000_0000 == n / 0x1_0000_0000 % 0x1_0000_0000
    ensures n % 0x1_0000_0000_0000_0000 % 0x1_0000_0000 == n % 0x1_0000_0000
  {
  }

  lemma EightSplits(n: int)
    ensures Eight(n) == Four(n / 0x1_0000_0000) + Four(n)
  {
    assert n / 0x1_0000_0000 / 0x100 == n / 0x100_0000_0000;
    assert n / 0x1_0000_0000 / 0x1_0000 == n / 0x1_0000_0000_0000;
    assert n / 0x1_0000_0000 / 0x100_0000 == n / 0x100_0000_0000_0000;
  }

  lemma EightIs(n: int)
    ensures Eight(n) == BigEndian(n % 0x1_0000_0000_0000_0000, 8)
  {
    var u: nat := n % 0x1_0000_0000_0000_0000;
    BigFourfold(u, 4);
    HalvesOfEight(n);
    FourIs(n / 0x1_0000_0000);
    FourAgain(u);
    FourAgain(n);
    EightSplits(n);
  }

  class Packer {
    /** The memory behind buf->b; `len` bytes are used and at least `free` more may be. */
    var b: seq<byte>
    var len: nat
    var free: nat
    var isStack: bool

    ghost predicate Valid()
      reads this
    {
      len + free <= |b|
    }

    ghost function Contents(): seq<byte>
      reads this
      requires Valid()
    {
      b[..len]
    }

    constructor ()
      ensures Valid() && Contents() == []
    {
      b, len, free, isStack := seq(STACK_SIZE, _ => 0), 0, STACK_SIZE, true;
    }

    /** mp_buf_append: grow to twice what is needed when the free space does not do. */
    method Append(s: seq<byte>)
      requires Valid()
      modifies this
      ensures Valid() && Contents() == old(Contents()) + s
    {
      if free < |s| {
        var newsize := (len + |s|) * 2;
        var unset: seq<byte> := seq(newsize - len, _ => 0);
        b := b[..len] + unset;
        free := newsize - len;
        isStack := false;
      }
      b := Overwrite(b, len, s);
      len := len + |s|;
      free := free - |s|;
      assert b[..len] == b[..old(len)] + s;
    }

    /** A type byte and the low byte of n. */
    method AppendOne(t: byte, n: int)
      requires Valid()
      modifies this
      ensures Valid() && Contents() == old(Contents()) + ([t] + BigEndian(n % 0x100, 1))
      ensures 0 <= n < 0x100 ==> Contents() == old(Contents()) + ([t] + BigEndian(n, 1))
    {
      OneIs(n);
      Small(n);
      Append([t] + One(n));
    }

    method AppendTwo(t: byte, n: int)
      requires Valid()
      modifies this
      ensures Valid() && Contents() == old(Contents()) + ([t] + BigEndian(n % 0x1_0000, 2))
      ensures 0 <= n < 0x1_0000 ==> Contents() == old(Contents()) + ([t] + BigEndian(n, 2))
    {
      TwoIs(n);
      Small(n);
      Append([t] + Two(n));
    }

    method AppendFour(t: byte, n: int)
      requires Valid()
      modifies this
      ensures Valid() && Contents() == old(Contents()) + ([t] + BigEndian(n % 0x1_0000_0000, 4))
      ensures 0 <= n < 0x1_0000_0000 ==> Contents() == old(Contents()) + ([t] + BigEndian(n, 4))
    {
      FourIs(n);
      Small(n);
      Append([t] + Four(n));
    }

    method AppendEight(t: byte, n: int)
      requires Valid()
      modifies this
      ensures Valid() && Contents() == old(Contents()) + ([t] + BigEndian(n % 0x1_0000_0000_0000_0000, 8))
      ensures 0 <= n < INT64_LIMIT ==> Contents() == old(Contents()) + ([t] + BigEndian(n, 8))
    {
      EightIs(n);
      Small(n);
      Append([t] + Eight(n));
    }

    /** mp_encode_bytes */
    method EncodeBytes(s: seq<byte>)
      requires Valid() && |s| < P32
      modifies this
      ensures Valid() && Contents() == old(Contents()) + (StrHead(|s|) + s)
    {
      Associative(Contents(), StrHead(|s|), s);
      EncodeStrHead(|s|);
      Append(s);
    }

    method EncodeStrHead(n: nat)
      requires Valid() && n < P32
      modifies this
      ensures Valid() && Contents() == old(Contents()) + StrHead(n)
    {
      if n < 32 {
        Append([0xa0 + n]);
      } else if n <= 0xff {
        AppendOne(0xd9, n);
      } else if n <= 0xffff {
        AppendTwo(0xda, n);
      } else {
        AppendFour(0xdb, n);
      }
    }

    /** mp_encode_int: the shortest of nine forms. */
    method EncodeInt(n: int)
      requires Valid() && -INT64_LIMIT <= n < INT64_LIMIT
      modifies this
      ensures Valid() && Contents() == old(Contents()) + IntBytes(n)
    {
      if n >= 0 {
        EncodePositive(n);
      } else {
        EncodeNegative(n);
      }
    }

    method EncodePositive(n: nat)
      requires Valid() && n < INT64_LIMIT
      modifies this
      ensures Valid() && Contents() == old(Contents()) + IntBytes(n)
    {
      if n <= 127 {
        Append([n]);
      } else if n <= 0xff {
        AppendOne(0xcc, n);
      } else if n <= 0xffff {
        AppendTwo(0xcd, n);
      } else if n <= 0xffff_ffff {
        AppendFour(0xce, n);
      } else {
        AppendEight(0xcf, n);
      }
    }

    method EncodeNegative(n: int)
      requires Valid() && -INT64_LIMIT <= n < 0
      modifies this
      ensures Valid() && Contents() == old(Contents()) + IntBytes(n)
    {
      if n >= -32 {
        Append(One(n));
      } else if n >= -128 {
        AppendOne(0xd0, n);
      } else if n >= -32768 {
        AppendTwo(0xd1, n);
      } else if n >= -0x8000_0000 {
        AppendFour(0xd2, n);
      } else {
        AppendEight(0xd3, n);
      }
    }

    /** mp_encode_array */
    method EncodeArrayHead(n: nat)
      requires Valid() && n < P32
      modifies this
      ensures Valid() && Contents() == old(Contents()) + ArrayHead(n)
    {
      if n <= 15 {
        Append([0x90 + n]);
      } else if n <= 0xffff {
        AppendTwo(0xdc, n);
      } else {
        AppendFour(0xdd, n);
      }
    }

    /** The header of a map of n pairs. */
    static method MapHeader(n: nat) returns (header: seq<byte>)
      requires n < P32
      ensures header == MapHead(n)
    {
      if n <= 15 {
        header := [0x80 + n];
      } else if n <= 0xffff {
        SmallTwo(n);
        header := [0xde] + Two(n);
      } else {
        SmallFour(n);
        header := [0xdf] + Four(n);
      }
    }

    /** The loop of table_is_an_array over the keys. */
    static method TableIsAnArray(es: Entries, border: nat) returns (r: bool)
      ensures r == IsArray(es, border)
    {
      if border == 0 {
        return false;
      }
      var count: nat, rest := 0, es;
      while rest.Entry?
        invariant count <= border && Scan(rest, border, count) == Scan(es, border, 0)
        decreases rest
      {
        var k := rest.key;
        if !k.Int? || k.i <= 0 || k.i > border {
          return false;
        }
        count := count + 1;
        if count > border {
          return false;
        }
        rest := rest.rest;
      }
      return count == border;
    }

    /** mp_encode_lua_type */
    method EncodeType(v: Value, level: nat)
      requires Valid() && Proper(v) && level <= MAX_NESTING
      modifies this
      ensures Valid() && Contents() == old(Contents()) + PackBytes(v, level)
      decreases Depth(v), 3, 0
    {
      match v
      case Str(s) => EncodeBytes(s);
      case Bool(x) => Append([if x then TRUE else FALSE]);
      case Int(i) => EncodeInt(i);
      case Nil => Append([NIL]);
      case Table(es, border) =>
        if level == MAX_NESTING {
          Append([NIL]);
          return;
        }
        var isArray := TableIsAnArray(es, border);
        if isArray {
          ArrayBorder(es, border);
          EncodeArray(es, border, level);
        } else {
          EncodeMap(es, level);
        }
    }

    method EncodeArray(es: Entries, n: nat, level: nat)
      requires Valid() && ProperEntries(es) && n < P32 && level < MAX_NESTING
      modifies this
      ensures Valid() && Contents() == old(Contents()) + (ArrayHead(n) + ItemBytes(es, 1, n, level + 1))
      decreases 1 + EntriesDepth(es), 1, 0
    {
      EncodeArrayHead(n);
      ghost var head := Contents();
      ghost var all := ItemBytes(es, 1, n, level + 1);
      ghost var done: seq<byte> := [];
      var j := 1;
      while j <= n
        invariant 1 <= j <= n + 1 && Valid() && Contents() == head + done
        invariant done + ItemBytes(es, j, n, level + 1) == all
      {
        FindPresent(es, Int(j));
        ghost var piece := PackBytes(Find(es, Int(j)), level + 1);
        Associative(done, piece, ItemBytes(es, j + 1, n, level + 1));
        Associative(head, done, piece);
        EncodeType(Find(es, Int(j)), level + 1);
        done := done + piece;
        j := j + 1;
      }
      assert done + [] == done;
      Associative(old(Contents()), ArrayHead(n), all);
    }

    /** One pass over the entries, with five bytes kept in front for the header. */
    method EncodeEntries(es: Entries, level: nat) returns (n: nat)
      requires Valid() && ProperEntries(es) && level <= MAX_NESTING
      modifies this
      ensures Valid() && n == Count(es) && Contents() == old(Contents()) + EntryBytes(es, level)
      decreases 1 + EntriesDepth(es), 0, 0
    {
      ghost var start := Contents();
      ghost var done: seq<byte> := [];
      var rest := es;
      n := 0;
      while rest.Entry?
        invariant Valid() && ProperEntries(rest) && EntriesDepth(rest) <= EntriesDepth(es) && n + Count(rest) == Count(es)
        invariant Contents() == start + done && done + EntryBytes(rest, level) == EntryBytes(es, level)
        decreases rest
      {
        ghost var first, second := PackBytes(rest.key, level), PackBytes(rest.value, level);
        Associative(done, first + second, EntryBytes(rest.rest, level));
        Associative(start, done, first + second);
        Associative(start + done, first, second);
        EncodeType(rest.key, level);
        EncodeType(rest.value, level);
        done := done + (first + second);
        n := n + 1;
        rest := rest.rest;
      }
      assert done + [] == done;
    }

    /** mp_encode_lua_table_as_map: the header is written last; a shorter one pulls the data back over the gap. */
    method EncodeMap(es: Entries, level: nat)
      requires Valid() && ProperEntries(es) && Count(es) < P32 && level < MAX_NESTING
      modifies this
      ensures Valid() && Contents() == old(Contents()) + (MapHead(Count(es)) + EntryBytes(es, level + 1))
      decreases 1 + EntriesDepth(es), 1, 0
    {
      ghost var before := Contents();
      var startPos: nat := len;
      Append([0, 0, 0, 0, 0]);
      var n := EncodeEntries(es, level + 1);
      var header := MapHeader(n);
      Gap(before, [0, 0, 0, 0, 0], EntryBytes(es, level + 1), header);
      Backfill(startPos, header);
    }

    static lemma Gap(before: seq<byte>, gap: seq<byte>, data: seq<byte>, header: seq<byte>)
      ensures (before + gap + data)[..|before|] == before && (before + gap + data)[|before| + |gap|..] == data
      ensures before + header + data == before + (header + data)
    {
    }

    /** Put the header where five bytes were kept, and move the data behind it up to it. */
    method Backfill(startPos: nat, header: seq<byte>)
      requires Valid() && startPos + 5 <= len && 1 <= |header| <= 5
      modifies this
      ensures Valid() && Contents() == old(Contents()[..startPos]) + header + old(Contents()[startPos + 5..])
    {
      var dataStart := startPos + 5;
      Filled(b, startPos, len, header);
      if |header| < 5 {
        var dataSize := len - dataStart;
        b := Overwrite(b, startPos + |header|, b[dataStart..len]);
        len := startPos + |header| + dataSize;
      }
      b := Overwrite(b, startPos, header);
    }

    static lemma Filled(b: seq<byte>, startPos: nat, len: nat, header: seq<byte>)
      requires startPos + 5 <= len <= |b| && |header| <= 5
      ensures var moved := Overwrite(b, startPos + |header|, b[startPos + 5..len]);
              var end := startPos + |header| + (len - startPos - 5);
              && Overwrite(moved, startPos, header)[..end] == b[..startPos] + header + b[startPos + 5..len]
              && (|header| == 5 ==> end == len && Overwrite(b, startPos, header)[..len] == b[..startPos] + header + b[startPos + 5..len])
              && b[..len][..startPos] == b[..startPos] && b[..len][startPos + 5..] == b[startPos + 5..len]
    {
      var data := b[startPos + 5..len];
      var moved := Overwrite(b, startPos + |header|, data);
      Twice(b, startPos, header, data);
      if |header| == 5 {
        Once(b, startPos, header, len);
      }
    }

    /** The data written first, the header in front of it afterwards. */
    static lemma Twice(b: seq<byte>, at: nat, header: seq<byte>, data: seq<byte>)
      requires at + |header| + |data| <= |b|
      ensures Overwrite(Overwrite(b, at + |header|, data), at, header)[..at + |header| + |data|] == b[..at] + header + data
    {
      var moved := Overwrite(b, at + |header|, data);
      Once(moved, at, header, at + |header| + |data|);
      assert moved[..at] == moved[..at + |header|][..at] == b[..at];
    }

    static lemma Once(b: seq<byte>, at: nat, header: seq<byte>, len: nat)
      requires at + |header| <= len <= |b|
      ensures Overwrite(b, at, header)[..len] == b[..at] + header + b[at + |header|..len]
    {
      var tail := b[at + |header|..];
      assert (b[..at] + header + tail)[..len] == b[..at] + header + tail[..len - at - |header|];
    }

    /** One argument of mp_pack: its bytes are taken out and the buffer is emptied. */
    method PackOne(v: Value) returns (bytes: seq<byte>)
      requires Valid() && Proper(v) && len == 0
      modifies this
      ensures Valid() && len == 0 && bytes == PackBytes(v, 0)
    {
      EncodeType(v, 0);
      bytes := b[..len];
      free, len := free + len, 0;
    }

    static lemma PackNext(vs: seq<Value>, i: nat, out: seq<byte>)
      requires (forall j :: 0 <= j < |vs| ==> Proper(vs[j])) && i < |vs|
      ensures out + PackAll(vs[i..]) == out + PackBytes(vs[i], 0) + PackAll(vs[i + 1..])
    {
      assert vs[i..][1..] == vs[i + 1..];
    }

    /** mp_pack: every value into the emptied buffer, the results one after the other. */
    method Pack(vs: seq<Value>) returns (out: seq<byte>)
      requires Valid() && len == 0 && forall i :: 0 <= i < |vs| ==> Proper(vs[i])
      modifies this
      ensures Valid() && out == PackAll(vs)
    {
      out := [];
      var i := 0;
      assert vs[0..] == vs;
      while i < |vs|
        invariant 0 <= i <= |vs| && Valid() && len == 0 && out + PackAll(vs[i..]) == PackAll(vs)
      {
        PackNext(vs, i, out);
        var bytes := PackOne(vs[i]);
        out := out + bytes;
        i := i + 1;
      }
      assert out + [] == out;
    }
  }

  // ---------------------------------------------------------------------------------------------------------
  // The reader

  class Cursor {
    const data: seq<byte>
    var p: nat

    ghost predicate Valid()
      reads this
    {
      p <= |data|
    }

    ghost function Rest(): seq<byte>
      reads this
      requires Valid()
    {
      data[p..]
    }

    constructor (data: seq<byte>)
      ensures Valid() && this.data == data && p == 0
    {
      this.data, p := data, 0;
    }

    /** A reader that ended with r, at p'. */
    static ghost predicate Took(u: Unpacked, r: Unpacked, p: nat, p': nat) {
      if u.Fail? then r == u else r == u && p' == p + u.used
    }

    /** mp_cur_need */
    predicate Need(n: nat)
      reads this
      requires Valid()
    {
      |data| - p >= n
    }

    function U16(i: nat): nat
      requires i + 2 <= |data|
    {
      var a: int, b: int := data[i], data[i + 1];
      a * 0x100 + b
    }

    function U32(i: nat): (n: nat)
      requires i + 4 <= |data|
    {
      Joined(data[i], data[i + 1], data[i + 2], data[i + 3])
    }

    static function Joined(a: int, b: int, c: int, d: int): int {
      a * 0x100_0000 + b * 0x1_0000 + c * 0x100 + d
    }

    function U64(i: nat): nat
      requires i + 8 <= |data|
    {
      U32(i) * 0x1_0000_0000 + U32(i + 4)
    }

    /** The shifted and joined bytes are the big-endian number. */
    lemma FieldBytes()
      requires Valid()
      ensures Need(2) ==> Field(Rest(), 1) == data[p + 1]
      ensures Need(3) ==> Field(Rest(), 2) == U16(p + 1)
      ensures Need(5) ==> Field(Rest(), 4) == U32(p + 1)
      ensures Need(9) ==> Field(Rest(), 8) == U64(p + 1)
    {
      if Need(2) {
        FieldOne();
      }
      if Need(3) {
        FieldIs(2);
        U16Is(p + 1);
      }
      if Need(5) {
        FieldFour();
      }
      if Need(9) {
        FieldIs(8);
        U64Is(p + 1);
      }
    }

    lemma FieldOne()
      requires Valid() && Need(2)
      ensures Field(Rest(), 1) == data[p + 1]
    {
      FieldIs(1);
      FromBigOne(data[p + 1]);
      assert data[p + 1..p + 2] == [data[p + 1]];
    }

    lemma FieldFour()
      requires Valid() && Need(5)
      ensures Field(Rest(), 4) == U32(p + 1)
    {
      FieldIs(4);
      FromBigFour(data[p + 1..p + 5]);
    }

    lemma FieldIs(k: nat)
      requires Valid() && Need(k + 1)
      ensures Field(Rest(), k) == FromBig(data[p + 1..p + 1 + k])
    {
      assert Rest()[1..k + 1] == data[p + 1..p + 1 + k];
    }

    lemma U16Is(i: nat)
      requires i + 2 <= |data|
      ensures FromBig(data[i..i + 2]) == U16(i)
    {
      FromBigOne(data[i]);
      FromBigMore([data[i]], data[i + 1]);
      assert data[i..i + 2] == [data[i]] + [data[i + 1]];
    }

    lemma U64Is(i: nat)
      requires i + 8 <= |data|
      ensures FromBig(data[i..i + 8]) == U64(i)
    {
      FromBigFour(data[i..i + 4]);
      FromBigFour(data[i + 4..i + 8]);
      FromBigJoin(data[i..i + 4], data[i + 4..i + 8]);
      assert data[i..i + 8] == data[i..i + 4] + data[i + 4..i + 8];
    }

    static lemma FromBigOne(a: byte)
      ensures FromBig([a]) == a
    {
      assert [a][..0] == [];
    }

    static lemma FromBigMore(s: seq<byte>, a: byte)
      ensures FromBig(s + [a]) == 0x100 * FromBig(s) + a
    {
      assert (s + [a])[..|s|] == s;
    }

    static lemma FromBigFour(s: seq<byte>)
      requires |s| == 4
      ensures FromBig(s) == Joined(s[0], s[1], s[2], s[3])
    {
      FromBigOne(s[0]);
      FromBigMore([s[0]], s[1]);
      FromBigMore([s[0]] + [s[1]], s[2]);
      FromBigMore([s[0]] + [s[1]] + [s[2]], s[3]);
      assert s == [s[0]] + [s[1]] + [s[2]] + [s[3]];
    }

    static lemma FromBigJoin(a: seq<byte>, b: seq<byte>)
      requires |b| == 4
      ensures FromBig(a + b) == FromBig(a) * 0x1_0000_0000 + FromBig(b)
    {
      FromBigFour(b);
      FromBigMore(a, b[0]);
      FromBigMore(a + [b[0]], b[1]);
      FromBigMore(a + [b[0]] + [b[1]], b[2]);
      FromBigMore(a + [b[0]] + [b[1]] + [b[2]], b[3]);
      assert a + b == a + [b[0]] + [b[1]] + [b[2]] + [b[3]];
    }

    /** mp_cur_consume behind a value that has been pushed. */
    method Push(v: Val, n: nat) returns (r: Unpacked)
      requires Valid() && Need(n)
      modifies this
      ensures Valid() && p == old(p) + n && r == Got(v, n)
    {
      p := p + n;
      return Got(v, n);
    }

    /** The integers of one to eight bytes behind the first byte. */
    method DecodeInt() returns (r: Unpacked)
      requires Valid() && p < |data| && data[p] in {0xcc, 0xcd, 0xce, 0xcf, 0xd0, 0xd1, 0xd2, 0xd3}
      modifies this
      ensures Valid() && p >= old(p) && Took(Unpack(old(Rest())), r, old(p), p)
    {
      UnpackUnfold(Rest());
      HeadIs(Rest());
      FieldBytes();
      var t := data[p];
      if t == 0xcc || t == 0xd0 {
        if !Need(2) {
          return Fail(MissingBytes);
        }
        r := Push(VInt(if t == 0xcc then data[p + 1] else Signed(data[p + 1], 0x80)), 2);
      } else if t == 0xcd || t == 0xd1 {
        if !Need(3) {
          return Fail(MissingBytes);
        }
        r := Push(VInt(if t == 0xcd then U16(p + 1) else Signed(U16(p + 1), 0x8000)), 3);
      } else if t == 0xce || t == 0xd2 {
        if !Need(5) {
          return Fail(MissingBytes);
        }
        r := Push(VInt(if t == 0xce then U32(p + 1) else Signed(U32(p + 1), 0x8000_0000)), 5);
      } else {
        if !Need(9) {
          return Fail(MissingBytes);
        }
        r := Push(VInt(Signed(U64(p + 1), INT64_LIMIT)), 9);
      }
    }

    /** nil, the booleans and the floating-point numbers. */
    method DecodeSimple() returns (r: Unpacked)
      requires Valid() && p < |data| && data[p] in {NIL, TRUE, FALSE, 0xca, 0xcb}
      modifies this
      ensures Valid() && p >= old(p) && Took(Unpack(old(Rest())), r, old(p), p)
    {
      UnpackUnfold(Rest());
      HeadIs(Rest());
      var t := data[p];
      if t == NIL {
        r := Push(VNil, 1);
      } else if t == TRUE || t == FALSE {
        r := Push(VBool(t == TRUE), 1);
      } else if t == 0xca {
        if !Need(5) {
          return Fail(MissingBytes);
        }
        assert Rest()[1..5] == data[p + 1..p + 5];
        r := Push(VOpaque(data[p + 1..p + 5]), 5);
      } else {
        if !Need(9) {
          return Fail(MissingBytes);
        }
        assert Rest()[1..9] == data[p + 1..p + 9];
        r := Push(VOpaque(data[p + 1..p + 9]), 9);
      }
    }

    /** A string of l bytes behind `off` bytes of head. */
    method PushString(off: nat, l: nat) returns (r: Unpacked)
      requires Valid() && Need(off)
      modifies this
      ensures Valid() && p >= old(p)
      ensures var rest := old(Rest());
              if |rest| < off + l then r == Fail(MissingBytes)
              else r == Got(VStr(rest[off..off + l]), off + l) && p == old(p) + off + l
    {
      if !Need(off + l) {
        return Fail(MissingBytes);
      }
      assert Rest()[off..off + l] == data[p + off..p + off + l];
      r := Push(VStr(data[p + off..p + off + l]), off + l);
    }

    /** The head of a string: its length and the bytes taken. */
    method RawHead() returns (fits: bool, l: nat, off: nat)
      requires Valid() && p < |data| && (data[p] in {0xd9, 0xda, 0xdb} || 0xa0 <= data[p] < 0xc0)
      ensures if !fits then HeadAt(Rest()) == Wrong(MissingBytes) else HeadAt(Rest()) == Run(l, off) && Need(off)
    {
      HeadIs(Rest());
      FieldBytes();
      var t := data[p];
      if t == 0xd9 {
        if !Need(2) {
          return false, 0, 0;
        }
        return true, data[p + 1], 2;
      } else if t == 0xda {
        if !Need(3) {
          return false, 0, 0;
        }
        return true, U16(p + 1), 3;
      } else if t == 0xdb {
        if !Need(5) {
          return false, 0, 0;
        }
        return true, U32(p + 1), 5;
      } else {
        return true, t - 0xa0, 1;
      }
    }

    method DecodeRaw() returns (r: Unpacked)
      requires Valid() && p < |data| && (data[p] in {0xd9, 0xda, 0xdb} || 0xa0 <= data[p] < 0xc0)
      modifies this
      ensures Valid() && p >= old(p) && Took(Unpack(old(Rest())), r, old(p), p)
    {
      UnpackUnfold(Rest());
      var fits, l, off := RawHead();
      if !fits {
        return Fail(MissingBytes);
      }
      r := PushString(off, l);
    }

    /** The head of an array or a map: the number of items or pairs and the bytes taken. */
    method TableHead() returns (fits: bool, l: nat, off: nat)
      requires Valid() && p < |data| && (data[p] in {0xdc, 0xdd, 0xde, 0xdf} || 0x80 <= data[p] < 0xa0)
      ensures var h := HeadAt(Rest()); var t := data[p];
              if !fits then h == Wrong(MissingBytes)
              else h == (if t in {0xdc, 0xdd} || 0x90 <= t < 0xa0 then Items(l, off) else Pairs(l, off))
                   && 1 <= off && Need(off)
    {
      HeadIs(Rest());
      FieldBytes();
      var t := data[p];
      if t == 0xdc || t == 0xde {
        if !Need(3) {
          return false, 0, 0;
        }
        return true, U16(p + 1), 3;
      } else if t == 0xdd || t == 0xdf {
        if !Need(5) {
          return false, 0, 0;
        }
        return true, U32(p + 1), 5;
      } else {
        return true, t % 16, 1;
      }
    }

    method DecodeTable() returns (r: Unpacked)
      requires Valid() && p < |data| && (data[p] in {0xdc, 0xdd, 0xde, 0xdf} || 0x80 <= data[p] < 0xa0)
      modifies this
      ensures Valid() && p >= old(p) && Took(Unpack(old(Rest())), r, old(p), p)
      decreases |data| - p, 0, 0
    {
      ghost var rest := Rest();
      UnpackUnfold(rest);
      var t := data[p];
      var fits, l, off := TableHead();
      if !fits {
        return Fail(MissingBytes);
      }
      p := p + off;
      assert rest[off..] == Rest();
      if t in {0xdc, 0xdd} || 0x90 <= t < 0xa0 {
        var f := DecodeArray(l);
        return AsTableOf(off, f);
      } else {
        var f := DecodeHash(l);
        return AsTableOf(off, f);
      }
    }

    /** mp_decode_to_lua_type: the switch over the first byte. */
    method DecodeType() returns (r: Unpacked)
      requires Valid()
      modifies this
      ensures Valid() && p >= old(p) && Took(Unpack(old(Rest())), r, old(p), p)
      decreases |data| - p, 0, 1
    {
      if !Need(1) {
        UnpackUnfold(Rest());
        HeadIs(Rest());
        return Fail(MissingBytes);
      }
      var t := data[p];
      if t in {0xcc, 0xcd, 0xce, 0xcf, 0xd0, 0xd1, 0xd2, 0xd3} {
        r := DecodeInt();
      } else if t in {NIL, TRUE, FALSE, 0xca, 0xcb} {
        r := DecodeSimple();
      } else if t in {0xd9, 0xda, 0xdb} || 0xa0 <= t < 0xc0 {
        r := DecodeRaw();
      } else if t in {0xdc, 0xdd, 0xde, 0xdf} || 0x80 <= t < 0xa0 {
        r := DecodeTable();
      } else {
        r := DecodeFixnum();
      }
    }

    method DecodeFixnum() returns (r: Unpacked)
      requires Valid() && p < |data| && (data[p] < 0x80 || data[p] >= 0xe0 || data[p] == 0xc1 || 0xc4 <= data[p] < 0xca
                                         || 0xd4 <= data[p] < 0xd9)
      modifies this
      ensures Valid() && p >= old(p) && Took(Unpack(old(Rest())), r, old(p), p)
    {
      UnpackUnfold(Rest());
      HeadIs(Rest());
      var t: int := data[p];
      if t < 0x80 {
        r := Push(VInt(t), 1);
      } else if t >= 0xe0 {
        r := Push(VInt(t - 0x100), 1);
      } else {
        return Fail(BadFormat);
      }
    }

    static function AsTableOf(off: nat, f: Filled): (u: Unpacked)
      ensures u == AsTable(off, f)
    {
      if f.Full? then Got(VTable(f.m), off + f.used) else Fail(f.e)
    }

    /** The result of a loop that has already taken `used` bytes. */
    static ghost predicate Ongoing(all: Filled, used: nat, rest: Filled) {
      all == Beyond(used, rest)
    }

    static lemma OngoingNext(all: Filled, used: nat, more: nat, rest: Filled)
      requires Ongoing(all, used, Beyond(more, rest))
      ensures Ongoing(all, used + more, rest)
    {
    }

    /** mp_decode_to_lua_array */
    method DecodeArray(n: nat) returns (f: Filled)
      requires Valid()
      modifies this
      ensures Valid() && p >= old(p) && f == UnpackItems(old(Rest()), n, 1, map[])
      ensures f.Full? ==> p == old(p) + f.used
      decreases |data| - p, n + 1, 0
    {
      var m: map<Val, Val>, left: nat, index: nat, used: nat := map[], n, 1, 0;
      ghost var all := UnpackItems(Rest(), n, 1, map[]);
      while left > 0
        invariant Valid() && p == old(p) + used && left <= n && 1 <= index
        invariant Ongoing(all, used, UnpackItems(Rest(), left, index, m))
        decreases left
      {
        ghost var rest := Rest();
        ItemsUnfold(rest, left, index, m);
        var v := DecodeType();
        if v.Fail? {
          return Broken(v.e);
        }
        assert rest[v.used..] == Rest();
        OngoingNext(all, used, v.used, UnpackItems(Rest(), left - 1, index + 1, SetTable(m, VInt(index), v.v)));
        m, left, index, used := SetTable(m, VInt(index), v.v), left - 1, index + 1, used + v.used;
      }
      ItemsUnfold(Rest(), 0, index, m);
      return Full(m, used);
    }

    /** mp_decode_to_lua_hash */
    method DecodeHash(n: nat) returns (f: Filled)
      requires Valid()
      modifies this
      ensures Valid() && p >= old(p) && f == UnpackPairs(old(Rest()), n, map[])
      ensures f.Full? ==> p == old(p) + f.used
      decreases |data| - p, n + 1, 0
    {
      var m: map<Val, Val>, left: nat, used: nat := map[], n, 0;
      ghost var all := UnpackPairs(Rest(), n, map[]);
      while left > 0
        invariant Valid() && p == old(p) + used && left <= n
        invariant Ongoing(all, used, UnpackPairs(Rest(), left, m))
        decreases left
      {
        ghost var rest := Rest();
        PairsUnfold(rest, left, m);
        var k := DecodeType();
        if k.Fail? {
          return Broken(k.e);
        }
        assert rest[k.used..] == Rest();
        var v := DecodeType();
        if v.Fail? {
          return Broken(v.e);
        }
        if k.v == VNil {
          return Broken(NilKey);
        }
        assert rest[k.used + v.used..] == Rest();
        OngoingNext(all, used, k.used + v.used, UnpackPairs(Rest(), left - 1, SetTable(m, k.v, v.v)));
        m, left, used := SetTable(m, k.v, v.v), left - 1, used + (k.used + v.used);
      }
      PairsUnfold(Rest(), 0, m);
      return Full(m, used);
    }

    /** mp_unpack: values until the input is used up, or the first error. */
    method UnpackFull() returns (r: Values)
      requires Valid()
      modifies this
      ensures r == UnpackAll(old(Rest()))
    {
      var vs: seq<Val> := [];
      ghost var all := UnpackAll(Rest());
      assert all.Values? ==> [] + all.vs == all.vs;
      while p < |data|
        invariant Valid()
        invariant all == Listed(vs, UnpackAll(Rest()))
        decreases |data| - p
      {
        ghost var rest := Rest();
        var v := DecodeType();
        if v.Fail? {
          return Bad(v.e);
        }
        assert rest[v.used..] == Rest();
        ListedNext(vs, v.v, UnpackAll(Rest()));
        vs := vs + [v.v];
      }
      assert vs + [] == vs;
      return Values(vs);
    }

    static ghost function Listed(vs: seq<Val>, more: Values): Values {
      if more.Values? then Values(vs + more.vs) else more
    }

    static lemma ListedNext(vs: seq<Val>, v: Val, more: Values)
      ensures Listed(vs + [v], more) == Listed(vs, Listed([v], more))
    {
      if more.Values? {
        assert vs + [v] + more.vs == vs + ([v] + more.vs);
      }
    }
  }
}
