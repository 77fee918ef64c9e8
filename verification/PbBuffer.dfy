// The growing output buffer of the protobuf encoder.
module PbBuffer {
  import opened Hiding
  import opened Bytes
  import opened PbVarint
  import opened PbSlice

  const SSO_SIZE := 16
  const MAX_SIZET := 0xFFFF_FFFF - 100
  /** The size is a field of 31 bits. */
  const SIZE_LIMIT := 0x8000_0000

  /** What a buffer holds after s was written from its start: the size has been cut to its field. */
  function Cut(s: seq<byte>): (r: seq<byte>) {
    s[..|s| % SIZE_LIMIT]
  }

  /** Everything written is held exactly while the total stays below 2^31. */
  lemma CutExactly(s: seq<byte>)
    ensures Cut(s) == s <==> |s| < SIZE_LIMIT
  {
    if |s| < SIZE_LIMIT {
      assert s[..|s|] == s;
    } else {
      assert |Cut(s)| < |s|;
    }
  }

  /** An addition leaves exactly what it should where there is room and the total stays below 2^31, and not otherwise. */
  lemma AddedExactly(before: seq<byte>, s: seq<byte>, room: bool)
    requires |before| < SIZE_LIMIT && s != []
    ensures (if room then Cut(before + s) else before) == before + s <==> room && |before| + |s| < SIZE_LIMIT
  {
    CutExactly(before + s);
    assert |before + s| > |before|;
  }

  /** Yet growth goes beyond that: 2^31 bytes find room in an empty buffer, which is empty afterwards. */
  lemma SizeWraps(s: seq<byte>)
    requires |s| == SIZE_LIMIT
    ensures |s| <= Largest() && Cut([] + s) == []
  {
    LargestIs();
    assert [] + s == s;
  }

  /** Where growth by half from n on ends. */
  ghost function Plateau(n: nat): (r: nat)
    requires n >= SSO_SIZE
    ensures r >= MAX_SIZET / 2
    decreases MAX_SIZET - n
  {
    if n < MAX_SIZET / 2 then Plateau(n + n / 2) else n
  }

  ghost predicate IsLargest(n: nat) {
    n >= MAX_SIZET / 2 && forall d {:trigger Opened(d)} :: Opened(d) ==> n == Plateau(SSO_SIZE)
  }

  /** The largest size a buffer can grow to. */
  ghost function Largest(): (n: nat)
    ensures IsLargest(n)
  {
    assert IsLargest(Plateau(SSO_SIZE));
    var n :| IsLargest(n);
    n
  }

  const LARGEST := 2_988_261_580

  /** Growth from n on ends at LARGEST. */
  ghost predicate Peaks(n: nat) {
    n >= SSO_SIZE && forall d {:trigger Opened(d)} :: Opened(d) ==> Plateau(n) == LARGEST
  }

  lemma GrowsTo(n: nat, m: nat)
    requires SSO_SIZE <= n < MAX_SIZET / 2 && m == n + n / 2 && Peaks(m)
    ensures Peaks(n)
  {
    assert Opened(true);
  }

  lemma LargestIs()
    ensures Largest() == LARGEST && Peaks(SSO_SIZE)
  {
    PeaksAtEnd();
    GrowsTo(1992174387, 2988261580); GrowsTo(1328116258, 1992174387); GrowsTo(885410839, 1328116258); GrowsTo(590273893, 885410839);
    GrowsTo(393515929, 590273893); GrowsTo(262343953, 393515929); GrowsTo(174895969, 262343953); GrowsTo(116597313, 174895969);
    GrowsTo(77731542, 116597313); GrowsTo(51821028, 77731542); GrowsTo(34547352, 51821028); GrowsTo(23031568, 34547352);
    GrowsTo(15354379, 23031568); GrowsTo(10236253, 15354379); GrowsTo(6824169, 10236253); GrowsTo(4549446, 6824169);
    GrowsTo(3032964, 4549446); GrowsTo(2021976, 3032964); GrowsTo(1347984, 2021976); GrowsTo(898656, 1347984);
    GrowsTo(599104, 898656); GrowsTo(399403, 599104); GrowsTo(266269, 399403); GrowsTo(177513, 266269);
    GrowsTo(118342, 177513); GrowsTo(78895, 118342); GrowsTo(52597, 78895); GrowsTo(35065, 52597);
    GrowsTo(23377, 35065); GrowsTo(15585, 23377); GrowsTo(10390, 15585); GrowsTo(6927, 10390);
    GrowsTo(4618, 6927); GrowsTo(3079, 4618); GrowsTo(2053, 3079); GrowsTo(1369, 2053);
    GrowsTo(913, 1369); GrowsTo(609, 913); GrowsTo(406, 609); GrowsTo(271, 406);
    GrowsTo(181, 271); GrowsTo(121, 181); GrowsTo(81, 121); GrowsTo(54, 81);
    GrowsTo(36, 54); GrowsTo(24, 36); GrowsTo(16, 24);
    assert Opened(true);
  }

  lemma PeaksAtEnd()
    ensures Peaks(LARGEST)
  {
  }

  method GrowSize(expected: nat) returns (newsize: nat)
    ensures newsize >= SSO_SIZE && (newsize >= expected <==> expected <= Largest())
  {
    LargestIs();
    newsize := SSO_SIZE;
    PeaksNext(newsize);
    while newsize < MAX_SIZET / 2 && newsize < expected
      invariant Peaks(newsize) && newsize <= LARGEST && (newsize >= MAX_SIZET / 2 ==> newsize == LARGEST)
      decreases MAX_SIZET - newsize
    {
      PeaksNext(newsize);
      newsize := newsize + newsize / 2;
      PeaksNext(newsize);
    }
  }

  lemma PeaksNext(n: nat)
    requires Peaks(n)
    ensures n <= LARGEST
    ensures if n < MAX_SIZET / 2 then Peaks(n + n / 2) else n == LARGEST
  {
    assert Opened(true);
    PlateauAbove(n);
  }

  lemma {:induction false} PlateauAbove(n: nat)
    requires n >= SSO_SIZE
    ensures Plateau(n) >= n
    decreases MAX_SIZET - n
  {
    if n < MAX_SIZET / 2 {
      PlateauAbove(n + n / 2);
    }
  }

  method FixedBytes(v: nat, k: nat) returns (ch: seq<byte>)
    ensures ch == LittleEndian(v, k)
  {
    ch := [];
    var n := v;
    while |ch| < k
      invariant |ch| <= k && ch + LittleEndian(n, k - |ch|) == LittleEndian(v, k)
    {
      FixedStep(ch, n, k - |ch|);
      ch := ch + [Octet(n)];
      n := n / 0x100;
    }
  }

  /** n & 0xFF */
  function Octet(n: nat): byte {
    n % 0x100
  }

  lemma FixedStep(ch: seq<byte>, n: nat, k: nat)
    requires k > 0
    ensures ch + LittleEndian(n, k) == ch + [Octet(n)] + LittleEndian(n / 0x100, k - 1)
  {
  }

  /** memmove the tail up by the head's length, then memcpy the head into the gap. */
  lemma Inserted(mem: seq<byte>, len: nat, size: nat, head: seq<byte>)
    requires len <= size && size + |head| <= |mem|
    ensures var moved := Overwrite(mem, len + |head|, mem[len..size]);
            Overwrite(moved, len, head)[..size + |head|] == mem[..size][..len] + head + mem[..size][len..]
  {
    var moved := Overwrite(mem, len + |head|, mem[len..size]);
    var r := Overwrite(moved, len, head);
    assert r[len + |head|..][..size - len] == moved[len + |head|..size + |head|] == mem[len..size];
    assert mem[..size][..len] == mem[..len] && mem[..size][len..] == mem[len..size];
    assert r[..size + |head|] == r[..len] + r[len..len + |head|] + r[len + |head|..size + |head|];
  }

  lemma Written(mem: seq<byte>, size: nat, bytes: seq<byte>)
    requires size + |bytes| <= |mem|
    ensures var end := (size + |bytes|) % SIZE_LIMIT;
            end <= size + |bytes| && Overwrite(mem, size, bytes)[..end] == Cut(mem[..size] + bytes)
  {
    var after := Overwrite(mem, size, bytes);
    assert after[..size + |bytes|] == mem[..size] + bytes;
    Prefix(after, (size + |bytes|) % SIZE_LIMIT, size + |bytes|);
  }

  lemma Prefix(s: seq<byte>, i: nat, j: nat)
    requires i <= j <= |s|
    ensures s[..j][..i] == s[..i]
  {
  }

  class Buffer {
    /** The memory the buffer owns, in place or on the heap: `size` bytes are in use. */
    var mem: seq<byte>
    var size: nat
    var heap: bool

    ghost predicate Valid()
      reads this
    {
      size <= |mem| && size < SIZE_LIMIT && (!heap ==> |mem| == SSO_SIZE)
    }

    ghost function Contents(): seq<byte>
      reads this
      requires Valid()
    {
      mem[..size]
    }

    /** Whether len more bytes can be had. */
    ghost predicate Room(len: nat)
      reads this
    {
      size + len <= |mem| || size + len <= Largest()
    }

    constructor ()
      ensures Valid() && Contents() == []
    {
      mem, size, heap := seq(SSO_SIZE, _ => 0), 0, false;
    }

    /** Make room for len bytes behind the contents. */
    method PrepBuffSize(len: nat) returns (ok: bool)
      requires Valid()
      modifies this
      ensures Valid() && size == old(size) && Contents() == old(Contents())
      ensures ok == old(Room(len))
      ensures ok ==> size + len <= |mem|
      ensures old(size) + len <= old(|mem|) ==> |mem| == old(|mem|)
    {
      var expected := size + len;
      if expected > |mem| {
        var newsize := GrowSize(expected);
        if newsize < expected {
          return false;
        }
        var unset: seq<byte> := seq(newsize - size, _ => 0);
        mem, heap := mem[..size] + unset, true;
      }
      return true;
    }

    /** memcpy behind the contents, then pb_addsize. */
    method Append(bytes: seq<byte>)
      requires Valid() && size + |bytes| <= |mem|
      modifies this
      ensures Valid() && Contents() == Cut(old(Contents()) + bytes) && |mem| == old(|mem|)
      ensures size == (old(size) + |bytes|) % SIZE_LIMIT
    {
      Written(mem, size, bytes);
      mem := Overwrite(mem, size, bytes);
      size := (size + |bytes|) % SIZE_LIMIT;
    }

    method AddSlice(s: seq<byte>) returns (n: nat)
      requires Valid()
      modifies this
      ensures Valid() && n == (if old(Room(|s|)) then |s| else 0)
      ensures Contents() == if old(Room(|s|)) then Cut(old(Contents()) + s) else old(Contents())
    {
      var ok := PrepBuffSize(|s|);
      if !ok {
        return 0;
      }
      Append(s);
      return |s|;
    }

    method AddVarint32(v: nat) returns (n: nat)
      requires Valid() && v < U32
      modifies this
      ensures Valid() && n == (if old(Room(5)) then |Varint(v)| else 0)
      ensures Contents() == if old(Room(5)) then Cut(old(Contents()) + Varint(v)) else old(Contents())
      ensures old(size) + 5 <= old(|mem|) ==> |mem| == old(|mem|)
      ensures n <= 5 && size == (old(size) + n) % SIZE_LIMIT
    {
      var ok := PrepBuffSize(5);
      if !ok {
        return 0;
      }
      var buff := Write32(v);
      Append(buff);
      return |buff|;
    }

    method AddVarint64(v: nat) returns (n: nat)
      requires Valid() && v < U64
      modifies this
      ensures Valid() && n == (if old(Room(10)) then |Varint(v)| else 0)
      ensures Contents() == if old(Room(10)) then Cut(old(Contents()) + Varint(v)) else old(Contents())
    {
      var ok := PrepBuffSize(10);
      if !ok {
        return 0;
      }
      var buff := Write64(v);
      Append(buff);
      return |buff|;
    }

    /** pb_addfixed32 and pb_addfixed64: k bytes, the lowest first. */
    method AddFixed(v: nat, k: nat) returns (n: nat)
      requires Valid()
      modifies this
      ensures Valid() && n == (if old(Room(k)) then k else 0)
      ensures Contents() == if old(Room(k)) then Cut(old(Contents()) + LittleEndian(v, k)) else old(Contents())
    {
      var ok := PrepBuffSize(k);
      if !ok {
        return 0;
      }
      var ch := FixedBytes(v, k);
      Append(ch);
      return k;
    }

    /** The room for both is made first; the length and the bytes are then added one after the other. */
    method AddBytes(s: seq<byte>) returns (n: nat)
      requires Valid() && |s| < U32
      modifies this
      ensures Valid() && n == (if old(Room(|s| + 5)) then |Varint(|s|)| + |s| else 0)
      ensures Contents() == if old(Room(|s| + 5)) then Cut(Cut(old(Contents()) + Varint(|s|)) + s) else old(Contents())
    {
      var ok := PrepBuffSize(|s| + 5);
      if !ok {
        return 0;
      }
      var l := AddVarint32(|s|);
      var m := AddSlice(s);
      return l + m;
    }

    /** Insert, in front of everything from offset len on, the length of that part. */
    method AddLength(len: nat) returns (ml: nat)
      requires Valid()
      modifies this
      ensures Valid()
      ensures old(size) < len ==> ml == 0 && Contents() == old(Contents())
      ensures old(size) >= len && !old(Room(|Varint(size - len)|)) ==> ml == 0 && Contents() == old(Contents())
      ensures old(size) >= len && old(Room(|Varint(size - len)|)) ==>
                var head := Varint(old(size) - len);
                ml == |head| && Contents() == Cut(old(Contents()[..len]) + head + old(Contents()[len..]))
    {
      if size < len {
        return 0;
      }
      var buff := Write64(size - len);
      var ok := PrepBuffSize(|buff|);
      if !ok {
        return 0;
      }
      InsertAt(len, buff);
      return |buff|;
    }

    /** memmove and memcpy, where there is room. */
    method InsertAt(len: nat, buff: seq<byte>)
      requires Valid() && len <= size && size + |buff| <= |mem|
      modifies this
      ensures Valid() && Contents() == Cut(old(Contents()[..len]) + buff + old(Contents()[len..]))
    {
      Inserted(mem, len, size, buff);
      var moved := Overwrite(mem, len + |buff|, mem[len..size]);
      mem := Overwrite(moved, len, buff);
      Prefix(mem, (size + |buff|) % SIZE_LIMIT, size + |buff|);
      size := (size + |buff|) % SIZE_LIMIT;
    }
  }
}
