// The Lua serializer as it runs: a chain of 128-byte blocks written piece by piece, flattened at the end, and a reader.
//
// The chain is the sequence of its blocks' buffers, the last one being the current block.
module SeriStream {
  import opened Sequences
  import opened Bytes
  import opened LuaData
  import opened Seri

  const BLOCK_SIZE := 128

  ghost function Flat(blocks: seq<seq<byte>>): (s: seq<byte>)
    requires forall i :: 0 <= i < |blocks| ==> |blocks[i]| == BLOCK_SIZE
    ensures |s| == BLOCK_SIZE * |blocks|
  {
    if blocks == [] then [] else blocks[0] + Flat(blocks[1..])
  }

  lemma {:induction false} FlatAppend(blocks: seq<seq<byte>>, b: seq<byte>)
    requires (forall i :: 0 <= i < |blocks| ==> |blocks[i]| == BLOCK_SIZE) && |b| == BLOCK_SIZE
    ensures Flat(blocks + [b]) == Flat(blocks) + b
  {
    if blocks == [] {
      assert ([] + [b])[1..] == [];
      assert b + [] == [] + b;
    } else {
      assert (blocks + [b])[1..] == blocks[1..] + [b];
      FlatAppend(blocks[1..], b);
      assert blocks[0] + (Flat(blocks[1..]) + b) == blocks[0] + Flat(blocks[1..]) + b;
    }
  }

  /** Full blocks, then the used part of the last one. */
  ghost function Chained(full: seq<seq<byte>>, last: seq<byte>, ptr: nat): seq<byte>
    requires (forall i :: 0 <= i < |full| ==> |full[i]| == BLOCK_SIZE) && ptr <= |last|
  {
    Flat(full) + last[..ptr]
  }

  // ---------------------------------------------------------------------------------------------------------
  // Where packing meets the depth limit

  ghost predicate ItemTooDeep(es: Entries, i: int, depth: nat) {
    TooDeep(Find(es, Int(i)), depth)
  }

  ghost predicate ItemsTooDeep(es: Entries, n: nat, depth: nat) {
    exists i: int :: 1 <= i <= n && ItemTooDeep(es, i, depth)
  }

  predicate HashTooDeep(es: Entries, border: nat, depth: nat) {
    match es
    case NoEntries => false
    case Entry(k, v, rest) =>
      (!InArray(k, border) && (depth > MAX_DEPTH || TooDeep(v, depth))) || HashTooDeep(rest, border, depth)
  }

  ghost predicate DeepAt(es: Entries, k: Value, depth: nat) {
    k in Keys(es) && TooDeep(Find(es, k), depth)
  }

  lemma {:induction false} DeepEntry(es: Entries, depth: nat)
    requires ProperEntries(es)
    ensures EntriesTooDeep(es, depth) <==> exists k :: DeepAt(es, k, depth)
    decreases es
  {
    match es
    case NoEntries =>
    case Entry(key, v, rest) =>
      DeepEntry(rest, depth);
      if depth > MAX_DEPTH || TooDeep(v, depth) {
        DeepFirst(key, v, rest, depth);
      } else if EntriesTooDeep(rest, depth) {
        var k :| DeepAt(rest, k, depth);
        DeepBehind(key, v, rest, k, depth);
        assert DeepAt(es, k, depth);
      } else {
        forall k
          ensures !DeepAt(es, k, depth)
        {
          DeepBehind(key, v, rest, k, depth);
        }
      }
  }

  lemma DeepFirst(key: Value, v: Value, rest: Entries, depth: nat)
    requires ProperEntries(Entry(key, v, rest)) && (depth > MAX_DEPTH || TooDeep(v, depth))
    ensures DeepAt(Entry(key, v, rest), key, depth)
  {
    assert Find(Entry(key, v, rest), key) == v;
  }

  lemma DeepBehind(key: Value, v: Value, rest: Entries, k: Value, depth: nat)
    requires ProperEntries(Entry(key, v, rest))
    ensures DeepAt(rest, k, depth) ==> k != key
    ensures DeepAt(Entry(key, v, rest), k, depth) <==> (k == key && TooDeep(v, depth)) || DeepAt(rest, k, depth)
  {
    assert Find(Entry(key, v, rest), key) == v;
    if k != key {
      assert Find(Entry(key, v, rest), k) == Find(rest, k);
    }
  }

  ghost predicate DeepOutside(es: Entries, border: nat, k: Value, depth: nat) {
    !InArray(k, border) && DeepAt(es, k, depth)
  }

  lemma {:induction false} DeepHash(es: Entries, border: nat, depth: nat)
    requires ProperEntries(es)
    ensures HashTooDeep(es, border, depth) <==> exists k :: DeepOutside(es, border, k, depth)
    decreases es
  {
    match es
    case NoEntries =>
    case Entry(key, v, rest) =>
      DeepHash(rest, border, depth);
      if !InArray(key, border) && (depth > MAX_DEPTH || TooDeep(v, depth)) {
        DeepFirst(key, v, rest, depth);
        assert DeepOutside(es, border, key, depth);
      } else if HashTooDeep(rest, border, depth) {
        var k :| DeepOutside(rest, border, k, depth);
        DeepBehind(key, v, rest, k, depth);
        assert DeepOutside(es, border, k, depth);
      } else {
        forall k
          ensures !DeepOutside(es, border, k, depth)
        {
          DeepBehind(key, v, rest, k, depth);
          assert !DeepOutside(rest, border, k, depth);
        }
      }
  }

  /** A table is refused when one of its two parts is; a hole is as deep as a value. */
  lemma DeepSplits(es: Entries, border: nat, depth: nat)
    requires ProperEntries(es) && IsBorder(es, border)
    ensures EntriesTooDeep(es, depth) <==> ItemsTooDeep(es, border, depth) || HashTooDeep(es, border, depth)
  {
    DeepEntry(es, depth);
    DeepHash(es, border, depth);
    if EntriesTooDeep(es, depth) {
      var k :| DeepAt(es, k, depth);
      if InArray(k, border) {
        assert k == Int(k.i) && ItemTooDeep(es, k.i, depth);
      } else {
        assert DeepOutside(es, border, k, depth);
      }
    }
    if HashTooDeep(es, border, depth) {
      var k :| DeepOutside(es, border, k, depth);
      assert DeepAt(es, k, depth);
    }
    if ItemsTooDeep(es, border, depth) {
      var i: int :| 1 <= i <= border && ItemTooDeep(es, i, depth);
      FindPresent(es, Int(i));
      var k := if Int(i) in Keys(es) then Int(i) else Int(border);
      assert DeepAt(es, k, depth);
    }
  }

  class Writer {
    /** The blocks before the current one, the current block, the bytes used in it, and the bytes written. */
    var full: seq<seq<byte>>
    var current: seq<byte>
    var ptr: nat
    var len: nat

    ghost predicate Valid()
      reads this
    {
      && (forall i :: 0 <= i < |full| ==> |full[i]| == BLOCK_SIZE)
      && |current| == BLOCK_SIZE && ptr <= BLOCK_SIZE && len == |full| * BLOCK_SIZE + ptr
    }

    ghost function Contents(): seq<byte>
      reads this
      requires Valid()
    {
      Chained(full, current, ptr)
    }

    constructor ()
      ensures Valid() && Contents() == []
    {
      full, current, ptr, len := [], seq(BLOCK_SIZE, _ => 0), 0, 0;
      new;
      assert Flat(full) == [] && current[..ptr] == [];
    }

    method NextBlock()
      requires Valid() && ptr == BLOCK_SIZE
      modifies this
      ensures Valid() && ptr == 0 && Contents() == old(Contents())
    {
      FlatAppend(full, current);
      assert current[..BLOCK_SIZE] == current;
      full := full + [current];
      current := seq(BLOCK_SIZE, _ => 0);
      ptr := 0;
      assert Flat(full) + [] == Flat(full);
    }

    /** memcpy into the current block. */
    method Copy(s: seq<byte>)
      requires Valid() && ptr + |s| <= BLOCK_SIZE
      modifies this
      ensures Valid() && ptr == old(ptr) + |s| && Contents() == old(Contents()) + s
    {
      ghost var before := current;
      current := Overwrite(current, ptr, s);
      ptr := ptr + |s|;
      len := len + |s|;
      Copied(Flat(full), before, old(ptr), s);
    }

    static lemma Copied(flat: seq<byte>, last: seq<byte>, ptr: nat, s: seq<byte>)
      requires ptr + |s| <= |last|
      ensures flat + Overwrite(last, ptr, s)[..ptr + |s|] == flat + last[..ptr] + s
    {
      assert Overwrite(last, ptr, s)[..ptr + |s|] == last[..ptr] + s;
    }

    /** wb_push: fill the current block, chain new ones while bytes are left. */
    method Push(buf: seq<byte>)
      requires Valid()
      modifies this
      ensures Valid() && Contents() == old(Contents()) + buf
    {
      if ptr == BLOCK_SIZE {
        NextBlock();
      }
      var k: nat := 0;
      assert buf[..0] == [];
      while ptr + (|buf| - k) > BLOCK_SIZE
        invariant Valid() && k <= |buf| && Contents() == old(Contents()) + buf[..k]
        invariant ptr < BLOCK_SIZE || |buf| == k
        decreases |buf| - k
      {
        var copy := BLOCK_SIZE - ptr;
        Pieces(old(Contents()), buf, k, k + copy);
        Copy(buf[k..k + copy]);
        k := k + copy;
        NextBlock();
      }
      Pieces(old(Contents()), buf, k, |buf|);
      Copy(buf[k..]);
    }

    static lemma Pieces(before: seq<byte>, buf: seq<byte>, i: nat, j: nat)
      requires i <= j <= |buf|
      ensures before + buf[..i] + buf[i..j] == before + buf[..j] && (j == |buf| ==> buf[i..j] == buf[i..] && buf[..j] == buf)
    {
      assert buf[..i] + buf[i..j] == buf[..j];
    }

    /** wb_integer: the tag of the shortest word that holds the integer, then the word. */
    method PushInteger(v: int)
      requires Valid() && -INT64_LIMIT <= v < INT64_LIMIT
      modifies this
      ensures Valid() && Contents() == old(Contents()) + IntBytes(v)
    {
      ToIntExact(v);
      if v == 0 {
        Push([Combine(TYPE_NUMBER, NUMBER_ZERO)]);
      } else if v != ToInt(v) {
        PushWord(NUMBER_QWORD, v % 0x1_0000_0000_0000_0000, 8);
      } else if v < 0 {
        PushWord(NUMBER_DWORD, v % 0x1_0000_0000, 4);
      } else if v < 0x100 {
        PushWord(NUMBER_BYTE, v, 1);
      } else if v < 0x1_0000 {
        PushWord(NUMBER_WORD, v, 2);
      } else {
        PushWord(NUMBER_DWORD, v, 4);
      }
    }

    /** A number's tag and the k bytes of a word. */
    method PushWord(cookie: nat, word: nat, k: nat)
      requires Valid() && cookie < 32
      modifies this
      ensures Valid() && Contents() == old(Contents()) + ([Combine(TYPE_NUMBER, cookie)] + LittleEndian(word, k))
    {
      Associative(Contents(), [Combine(TYPE_NUMBER, cookie)], LittleEndian(word, k));
      Push([Combine(TYPE_NUMBER, cookie)]);
      Push(LittleEndian(word, k));
    }

    /** The tag of a table and, from 31 items on, their number. */
    method PushSize(n: nat)
      requires Valid() && n < INT_LIMIT
      modifies this
      ensures Valid() && Contents() == old(Contents()) + ArrayHead(n)
    {
      if n >= MAX_COOKIE - 1 {
        Associative(Contents(), [Combine(TYPE_TABLE, MAX_COOKIE - 1)], IntBytes(n));
        Push([Combine(TYPE_TABLE, MAX_COOKIE - 1)]);
        PushInteger(n);
      } else {
        Push([Combine(TYPE_TABLE, n)]);
      }
    }

    /** wb_string */
    method PushString(s: seq<byte>)
      requires Valid() && |s| < INT_LIMIT
      modifies this
      ensures Valid() && Contents() == old(Contents()) + StrBytes(s)
    {
      ghost var before := Contents();
      if |s| < MAX_COOKIE {
        Push([Combine(TYPE_SHORT_STRING, |s|)]);
        if |s| > 0 {
          Push(s);
        }
        Three(before, [Combine(TYPE_SHORT_STRING, |s|)], [], s);
      } else {
        var k := if |s| < 0x1_0000 then 2 else 4;
        Push([Combine(TYPE_LONG_STRING, k)]);
        Push(LittleEndian(|s|, k));
        Push(s);
        Three(before, [Combine(TYPE_LONG_STRING, k)], LittleEndian(|s|, k), s);
      }
    }

    static lemma Three(w: seq<byte>, x: seq<byte>, y: seq<byte>, z: seq<byte>)
      ensures w + x + y + z == w + (x + y + z) && w + x + [] + z == w + x + z == w + (x + z) && (z == [] ==> w + x == w + (x + z))
    {
    }

    /** pack_one: false when a value lies deeper than MAX_DEPTH, an error that frees the blocks. */
    method PackOne(v: Value, depth: nat) returns (ok: bool)
      requires Valid() && Proper(v) && Fits(v)
      modifies this
      ensures Valid() && ok == !TooDeep(v, depth)
      ensures ok ==> Contents() == old(Contents()) + PackBytes(v)
      decreases Depth(v), 3, 0
    {
      if depth > MAX_DEPTH {
        return false;
      }
      ok := true;
      match v
      case Nil => Push([Combine(TYPE_NIL, 0)]);
      case Int(i) => PushInteger(i);
      case Bool(b) => Push([Combine(TYPE_BOOLEAN, if b then 1 else 0)]);
      case Str(s) => PushString(s);
      case Table(es, border) =>
        ok := PackTable(es, border, depth + 1);
    }

    /** wb_table: the array part up to the border, then the hash part and a nil. */
    method PackTable(es: Entries, border: nat, depth: nat) returns (ok: bool)
      requires Valid() && Proper(Table(es, border)) && Fits(Table(es, border))
      modifies this
      ensures Valid() && ok == !EntriesTooDeep(es, depth)
      ensures ok ==> Contents() == old(Contents()) + PackBytes(Table(es, border))
      decreases 1 + EntriesDepth(es), 2, 0
    {
      ghost var before := Contents();
      DeepSplits(es, border, depth);
      PushSize(border);
      ok := PackArray(es, border, depth);
      if !ok {
        return;
      }
      ok := PackHash(es, border, depth);
      if !ok {
        return;
      }
      Push([Combine(TYPE_NIL, 0)]);
      Four(before, ArrayHead(border), ItemBytes(es, 1, border), HashBytes(es, border), [Combine(TYPE_NIL, 0)]);
    }

    static lemma Four(v: seq<byte>, w: seq<byte>, x: seq<byte>, y: seq<byte>, z: seq<byte>)
      ensures v + w + x + y + z == v + (w + (x + (y + z)))
    {
    }

    /** wb_table_array behind its head. */
    method PackArray(es: Entries, n: nat, depth: nat) returns (ok: bool)
      requires Valid() && ProperEntries(es) && EntriesFit(es)
      modifies this
      ensures Valid() && ok == !ItemsTooDeep(es, n, depth)
      ensures ok ==> Contents() == old(Contents()) + ItemBytes(es, 1, n)
      decreases 1 + EntriesDepth(es), 1, 0
    {
      ghost var before := Contents();
      ghost var done: seq<byte> := [];
      var i := 1;
      while i <= n
        invariant 1 <= i <= n + 1 && Valid() && Contents() == before + done
        invariant done + ItemBytes(es, i, n) == ItemBytes(es, 1, n)
        invariant forall j :: 1 <= j < i ==> !ItemTooDeep(es, j, depth)
      {
        FindPresent(es, Int(i));
        FindFits(es, Int(i));
        ghost var piece := PackBytes(Find(es, Int(i)));
        Associative(done, piece, ItemBytes(es, i + 1, n));
        Associative(before, done, piece);
        ok := PackOne(Find(es, Int(i)), depth);
        if !ok {
          assert ItemTooDeep(es, i, depth);
          return;
        }
        done := done + piece;
        i := i + 1;
      }
      assert done + [] == done;
      return true;
    }

    /** wb_table_hash before its nil: the entries outside the array part. */
    method PackHash(es: Entries, border: nat, depth: nat) returns (ok: bool)
      requires Valid() && ProperEntries(es) && EntriesFit(es)
      modifies this
      ensures Valid() && ok == !HashTooDeep(es, border, depth)
      ensures ok ==> Contents() == old(Contents()) + HashBytes(es, border)
      decreases 1 + EntriesDepth(es), 1, 0
    {
      ghost var before := Contents();
      ghost var done: seq<byte> := [];
      var rest := es;
      while rest.Entry?
        invariant Valid() && ProperEntries(rest) && EntriesFit(rest) && EntriesDepth(rest) <= EntriesDepth(es)
        invariant Contents() == before + done && done + HashBytes(rest, border) == HashBytes(es, border)
        invariant HashTooDeep(rest, border, depth) == HashTooDeep(es, border, depth)
        decreases rest
      {
        if !InArray(rest.key, border) {
          ok := PackPair(rest.key, rest.value, depth);
          if !ok {
            return;
          }
          ghost var piece := PackBytes(rest.key) + PackBytes(rest.value);
          Associative(PackBytes(rest.key), PackBytes(rest.value), HashBytes(rest.rest, border));
          Associative(done, piece, HashBytes(rest.rest, border));
          Associative(before, done, piece);
          done := done + piece;
        }
        rest := rest.rest;
      }
      assert done + [] == done;
      return true;
    }

    method PackPair(k: Value, v: Value, depth: nat) returns (ok: bool)
      requires Valid() && IsScalar(k) && Proper(k) && Fits(k) && Proper(v) && Fits(v)
      modifies this
      ensures Valid() && ok == !(depth > MAX_DEPTH || TooDeep(v, depth))
      ensures ok ==> Contents() == old(Contents()) + (PackBytes(k) + PackBytes(v))
      decreases Depth(v), 4, 0
    {
      Associative(Contents(), PackBytes(k), PackBytes(v));
      ok := PackOne(k, depth);
      if !ok {
        return;
      }
      ok := PackOne(v, depth);
    }

    /** seri: copy the chain into one buffer, a block at a time. */
    method Flatten() returns (buffer: seq<byte>)
      requires Valid()
      ensures buffer == Contents()
    {
      buffer := [];
      var left: nat, b: nat := len, 0;
      assert full[..0] == [];
      while left > 0
        invariant b <= |full| + 1 && (b <= |full| ==> left == len - b * BLOCK_SIZE && buffer == Flat(full[..b]))
        invariant b == |full| + 1 ==> left == 0 && buffer == Contents()
        decreases left
      {
        if b == |full| {
          assert full[..b] == full;
        }
        var block := if b < |full| then full[b] else current;
        if left >= BLOCK_SIZE {
          if b < |full| {
            FlatAppend(full[..b], full[b]);
            assert full[..b + 1] == full[..b] + [full[b]];
          } else {
            assert current[..ptr] == current;
          }
          buffer := buffer + block;
          left := left - BLOCK_SIZE;
          b := b + 1;
        } else {
          buffer := buffer + block[..left];
          return;
        }
      }
      if b == |full| {
        assert full[..b] == full;
        assert Flat(full) + [] == Flat(full);
      }
    }
  }

  lemma PackNext(vs: seq<Value>, i: nat, out: seq<byte>)
    requires (forall j :: 0 <= j < |vs| ==> Proper(vs[j]) && Fits(vs[j])) && i < |vs|
    ensures out + PackAll(vs[i..]) == out + PackBytes(vs[i]) + PackAll(vs[i + 1..])
  {
    assert vs[i..][1..] == vs[i + 1..];
  }

  /** luaseri_pack: all values into one chain, flattened; false after a value that is too deep. */
  method Pack(vs: seq<Value>) returns (ok: bool, buffer: seq<byte>)
    requires forall i :: 0 <= i < |vs| ==> Proper(vs[i]) && Fits(vs[i])
    ensures ok <==> forall i :: 0 <= i < |vs| ==> !TooDeep(vs[i], 0)
    ensures ok ==> buffer == PackAll(vs)
  {
    var w := new Writer();
    var i := 0;
    assert vs[0..] == vs;
    assert [] + PackAll(vs) == PackAll(vs);
    while i < |vs|
      invariant 0 <= i <= |vs| && w.Valid() && fresh(w) && w.Contents() + PackAll(vs[i..]) == PackAll(vs)
      invariant forall j :: 0 <= j < i ==> !TooDeep(vs[j], 0)
    {
      PackNext(vs, i, w.Contents());
      ok := w.PackOne(vs[i], 0);
      if !ok {
        return false, [];
      }
      i := i + 1;
    }
    assert w.Contents() + [] == w.Contents();
    buffer := w.Flatten();
    return true, buffer;
  }

  // ---------------------------------------------------------------------------------------------------------
  // The reader

  class Reader {
    const data: seq<byte>
    var p: nat

    ghost predicate Valid()
      reads this
    {
      p <= |data|
    }

    ghost function Rest(): seq<byte>
      reads this
      requires Valid()
    {
      data[p..]
    }

    constructor (data: seq<byte>)
      ensures Valid() && this.data == data && p == 0
    {
      this.data, p := data, 0;
    }

    /** rb_read: the next n bytes, if there are so many. */
    method ReadBlock(n: nat) returns (ok: bool, block: seq<byte>)
      requires Valid()
      modifies this
      ensures Valid() && p >= old(p) && ok == (|old(Rest())| >= n)
      ensures ok ==> p == old(p) + n && block == old(Rest())[..n] && Rest() == old(Rest())[n..]
    {
      if |data| - p < n {
        return false, [];
      }
      block := data[p..p + n];
      p := p + n;
      return true, block;
    }

    /** get_integer: one, two, four or eight bytes of the host's words, the wider ones signed. */
    method ReadInteger(cookie: nat) returns (r: Number)
      requires Valid()
      modifies this
      ensures Valid() && p >= old(p) && r == GetInteger(cookie, old(Rest()))
      ensures r.Number? ==> p == old(p) + r.used && Rest() == old(Rest())[r.used..]
    {
      if cookie == NUMBER_ZERO {
        return Number(0, 0);
      } else if cookie == NUMBER_BYTE {
        var ok, block := ReadBlock(1);
        return if ok then Number(FromLittle(block), 1) else NoNumber;
      } else if cookie == NUMBER_WORD {
        var ok, block := ReadBlock(2);
        return if ok then Number(FromLittle(block), 2) else NoNumber;
      } else if cookie == NUMBER_DWORD {
        var ok, block := ReadBlock(4);
        return if ok then Number(Signed(FromLittle(block), INT_LIMIT), 4) else NoNumber;
      } else if cookie == NUMBER_QWORD {
        var ok, block := ReadBlock(8);
        return if ok then Number(Signed(FromLittle(block), INT64_LIMIT), 8) else NoNumber;
      } else {
        return NoNumber;
      }
    }

    /** get_buffer, `off` bytes behind the tag: a negative length passes the check of rb_read. */
    method ReadBuffer(n: int, off: nat) returns (r: Read)
      requires Valid()
      modifies this
      ensures Valid() && p >= old(p) && (r.Got? ==> p + off == old(p) + r.used)
      ensures r == if n < 0 then Fail(Outside)
                   else if |old(Rest())| < n then Fail(BadStream)
                   else Got(VStr(old(Rest())[..n]), off + n)
    {
      if n < 0 {
        return Fail(Outside);
      }
      var ok, block := ReadBlock(n);
      return if ok then Got(VStr(block), off + n) else Fail(BadStream);
    }

    /** The long strings: two or four bytes of length, the wider one passed on as an int. */
    method ReadLong(cookie: nat) returns (r: Read)
      requires Valid()
      modifies this
      ensures Valid() && p >= old(p) && r == Plain(TYPE_LONG_STRING, cookie, old(Rest()))
      ensures r.Got? ==> p == old(p) + r.used
    {
      ghost var rest := Rest();
      if cookie == 2 {
        var ok, size := ReadBlock(2);
        if !ok {
          return Fail(BadStream);
        }
        r := ReadBuffer(FromLittle(size), 2);
        Behind(rest, 2, FromLittle(size));
      } else {
        if cookie != 4 {
          return Fail(BadStream);
        }
        var ok, size := ReadBlock(4);
        if !ok {
          return Fail(BadStream);
        }
        r := ReadBuffer(ToInt(FromLittle(size)), 4);
        Behind(rest, 4, ToInt(FromLittle(size)));
      }
    }

    static lemma Behind(s: seq<byte>, off: nat, n: int)
      requires off <= |s|
      ensures 0 <= n && off + n <= |s| ==> s[off..][..n] == s[off..off + n]
    {
    }

    /** push_value for everything but tables: the switch over the type. */
    method PushValue(t: nat, cookie: nat) returns (r: Read)
      requires Valid() && t != TYPE_TABLE
      modifies this
      ensures Valid() && p >= old(p) && r == Plain(t, cookie, old(Rest())) && (r.Got? ==> p == old(p) + r.used)
    {
      if t == TYPE_NIL {
        return Got(VNil, 0);
      } else if t == TYPE_BOOLEAN {
        return Got(VBool(cookie != 0), 0);
      } else if t == TYPE_NUMBER && cookie != NUMBER_REAL {
        var i := ReadInteger(cookie);
        return if i.NoNumber? then Fail(BadStream) else Got(VInt(i.i), i.used);
      } else if t == TYPE_NUMBER || t == TYPE_USERDATA {
        var ok, block := ReadBlock(8);
        return if ok then Got(VOpaque(block), 8) else Fail(BadStream);
      } else if t == TYPE_SHORT_STRING {
        Behind(Rest(), 0, cookie);
        r := ReadBuffer(cookie, 0);
      } else if t == TYPE_LONG_STRING {
        r := ReadLong(cookie);
      } else {
        return Fail(BadStream);
      }
    }

    /** unpack_one: the tag byte and push_value. */
    method UnpackOne() returns (r: Read)
      requires Valid()
      modifies this
      ensures Valid() && p >= old(p) && r == ReadOne(old(Rest())) && (r.Got? ==> p == old(p) + r.used)
      decreases |data| - p, 0
    {
      ghost var rest := Rest();
      var ok, tag := ReadBlock(1);
      if !ok {
        ReadNothing();
        assert rest == [];
        return Fail(BadStream);
      }
      var b := tag[0];
      assert rest == [b] + Rest();
      if b % 8 != TYPE_TABLE {
        ReadPlain(b, Rest());
        r := PushValue(b % 8, b / 8);
        if r.Got? {
          r := Got(r.v, 1 + r.used);
        }
      } else {
        ReadTabled(b, Rest());
        r := UnpackTable(b / 8);
      }
    }

    /** The number of items: the cookie, or an integer behind its own tag byte, cast to int. */
    method ReadSize(cookie: nat) returns (size: Number)
      requires Valid()
      modifies this
      ensures Valid() && p >= old(p) && size == ArraySize(cookie, old(Rest()))
      ensures size.Number? ==> p == old(p) + size.used && Rest() == old(Rest())[size.used..]
    {
      if cookie != MAX_COOKIE - 1 {
        return Number(cookie, 0);
      }
      ghost var rest := Rest();
      var ok, tag := ReadBlock(1);
      if !ok {
        return NoNumber;
      }
      var kind := tag[0];
      if kind % 8 != TYPE_NUMBER || kind / 8 == NUMBER_REAL {
        return NoNumber;
      }
      assert Rest() == rest[1..];
      size := ReadInteger(kind / 8);
      if size.Number? {
        assert rest[1..][size.used..] == rest[size.used + 1..];
        size := Number(ToInt(size.i), size.used + 1);
      }
    }

    /** unpack_table, behind the tag byte. */
    method UnpackTable(cookie: nat) returns (r: Read)
      requires Valid()
      modifies this
      ensures Valid() && p >= old(p) && (r.Got? ==> p + 1 == old(p) + r.used)
      ensures var size := ArraySize(cookie, old(Rest()));
              r == if size.NoNumber? then Fail(BadStream)
                   else After(size.used + 1, ReadTable(old(Rest())[size.used..], size.i))
      decreases |data| - p, 5
    {
      ghost var rest := Rest();
      var size := ReadSize(cookie);
      if size.NoNumber? {
        return Fail(BadStream);
      }
      var items := UnpackItems(if size.i < 0 then 0 else size.i);
      if items.Broken? {
        return Fail(items.e);
      }
      assert rest[size.used..][items.used..] == Rest();
      var hash := UnpackHash(items.m);
      if hash.Broken? {
        return Fail(hash.e);
      }
      return Got(VTable(hash.m), size.used + 1 + (items.used + hash.used));
    }

    /** The result of a loop that has already taken `used` bytes. */
    static ghost predicate Ongoing(all: Filled, used: nat, rest: Filled) {
      all == Beyond(used, rest)
    }

    static lemma OngoingNext(all: Filled, used: nat, more: nat, rest: Filled)
      requires Ongoing(all, used, Beyond(more, rest))
      ensures Ongoing(all, used + more, rest)
    {
    }

    method UnpackItems(n: nat) returns (f: Filled)
      requires Valid()
      modifies this
      ensures Valid() && p >= old(p) && f == ReadItems(old(Rest()), n, 1, map[])
      ensures f.Full? ==> p == old(p) + f.used
      decreases |data| - p, 4
    {
      var m: map<Val, Val>, left: nat, index: nat, used: nat := map[], n, 1, 0;
      ghost var all := ReadItems(Rest(), n, 1, map[]);
      while left > 0
        invariant Valid() && p == old(p) + used && left <= n && 1 <= index
        invariant Ongoing(all, used, ReadItems(Rest(), left, index, m))
        decreases left
      {
        ghost var rest := Rest();
        ItemsUnfold(rest, left, index, m);
        var v := UnpackOne();
        if v.Fail? {
          return Broken(v.e);
        }
        assert rest[v.used..] == Rest();
        OngoingNext(all, used, v.used, ReadItems(Rest(), left - 1, index + 1, SetTable(m, VInt(index), v.v)));
        m, left, index, used := SetTable(m, VInt(index), v.v), left - 1, index + 1, used + v.used;
      }
      ItemsUnfold(Rest(), 0, index, m);
      return Full(m, used);
    }

    method UnpackHash(items: map<Val, Val>) returns (f: Filled)
      requires Valid()
      modifies this
      ensures Valid() && p >= old(p) && f == ReadHash(old(Rest()), items)
      ensures f.Full? ==> p == old(p) + f.used
      decreases |data| - p, 4
    {
      var m: map<Val, Val>, used: nat := items, 0;
      ghost var all := ReadHash(Rest(), items);
      while true
        invariant Valid() && p == old(p) + used
        invariant Ongoing(all, used, ReadHash(Rest(), m))
        decreases |data| - p
      {
        ghost var rest := Rest();
        HashUnfold(rest, m);
        var k := UnpackOne();
        if k.Fail? {
          return Broken(k.e);
        }
        if k.v == VNil {
          return Full(m, used + k.used);
        }
        assert rest[k.used..] == Rest();
        var v := UnpackOne();
        if v.Fail? {
          return Broken(v.e);
        }
        assert rest[k.used + v.used..] == Rest();
        OngoingNext(all, used, k.used + v.used, ReadHash(Rest(), SetTable(m, k.v, v.v)));
        m, used := SetTable(m, k.v, v.v), used + (k.used + v.used);
      }
    }

    /** luaseri_unpack: values until the input is used up. */
    method UnpackAll() returns (r: Values)
      requires Valid()
      modifies this
      ensures r == ReadAll(old(Rest()))
    {
      var vs: seq<Val> := [];
      ghost var all := ReadAll(Rest());
      assert all.Values? ==> [] + all.vs == all.vs;
      while p < |data|
        invariant Valid() && all == Listed(vs, ReadAll(Rest()))
        decreases |data| - p
      {
        ghost var rest := Rest();
        var v := UnpackOne();
        if v.Fail? {
          return Bad(v.e);
        }
        assert rest[v.used..] == Rest();
        ListedNext(vs, v.v, ReadAll(Rest()));
        vs := vs + [v.v];
      }
      assert vs + [] == vs;
      return Values(vs);
    }

    static ghost function Listed(vs: seq<Val>, more: Values): Values {
      if more.Values? then Values(vs + more.vs) else more
    }

    static lemma ListedNext(vs: seq<Val>, v: Val, more: Values)
      ensures Listed(vs + [v], more) == Listed(vs, Listed([v], more))
    {
      if more.Values? {
        assert vs + [v] + more.vs == vs + ([v] + more.vs);
      }
    }
  }
}
