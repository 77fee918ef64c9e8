module PbVarint {
  // Base-128 varints: the byte-at-a-time reader, the unrolled 32- and 64-bit readers and the unrolled writers.

  import opened Hiding
  import opened Bytes

  const U32 := 0x1_0000_0000
  const U64 := 0x1_0000_0000_0000_0000

  datatype Read = Fail | Got(value: nat, used: nat)

  // ---------------------------------------------------------------------------------------------------------
  // Meaning

  /** Seven bits per byte, lowest first. */
  ghost function Value(s: seq<byte>): nat {
    if s == [] then 0 else s[0] % 0x80 + 0x80 * Value(s[1..])
  }

  /** Number of bytes up to the first one without the continuation bit; 0 if the first `limit` bytes have none. */
  ghost function Extent(s: seq<byte>, limit: nat): (k: nat)
    ensures k <= |s| && k <= limit
  {
    if s == [] || limit == 0 then 0
    else if s[0] < 0x80 then 1
    else var k := Extent(s[1..], limit - 1); if k == 0 then 0 else k + 1
  }

  /** What reading a 64-bit varint at the start of s yields. */
  ghost function VarintOf(s: seq<byte>): (r: Read) {
    var k := Extent(s, 10);
    if k == 0 then Fail else Got(Value(s[..k]) % U64, k)
  }

  ghost predicate Reads(s: seq<byte>, r: Read) {
    && (r.Got? ==> 1 <= r.used <= 10 && r.used <= |s| && r.value < U64)
    && forall d {:trigger Opened(d)} :: Opened(d) ==> r == VarintOf(s)
  }

  /** VarintOf, kept closed. */
  ghost function VarintAt(s: seq<byte>): (r: Read)
    ensures Reads(s, r)
  {
    assert Reads(s, VarintOf(s));
    var r :| Reads(s, r);
    r
  }

  function Pow128(k: nat): (p: nat)
    ensures p > 0
  {
    if k == 0 then 1 else 0x80 * Pow128(k - 1)
  }

  lemma Regroup(p: nat, q: nat)
    ensures 0x80 * p * q == 0x80 * (p * q)
  {
  }

  lemma {:induction false} ValueAppend(s: seq<byte>, b: byte)
    ensures Value(s + [b]) == Value(s) + Pow128(|s|) * (b % 0x80)
    ensures Value(s) < Pow128(|s|)
  {
    if s != [] {
      assert (s + [b])[1..] == s[1..] + [b];
      ValueAppend(s[1..], b);
      Regroup(Pow128(|s| - 1), b % 0x80);
    }
  }

  lemma {:induction false} ExtentIs(s: seq<byte>, k: nat, limit: nat)
    requires k <= |s| && k <= limit && forall i :: 0 <= i < k ==> s[i] >= 0x80
    ensures k == limit || k == |s| ==> Extent(s, limit) == 0
    ensures k < limit && k < |s| && s[k] < 0x80 ==> Extent(s, limit) == k + 1
  {
    if k > 0 {
      ExtentIs(s[1..], k - 1, limit - 1);
    }
  }

  // ---------------------------------------------------------------------------------------------------------
  // Writing

  /** The shortest varint of n. */
  function Varint(n: nat): (s: seq<byte>)
    ensures |s| >= 1
  {
    if n < 0x80 then [n] else [n % 0x80 + 0x80] + Varint(n / 0x80)
  }

  lemma {:induction false} VarintLength(n: nat, k: nat)
    requires n < Pow128(k)
    ensures |Varint(n)| <= if k == 0 then 1 else k
  {
    if n >= 0x80 {
      assert k > 0;
      VarintLength(n / 0x80, k - 1);
    }
  }

  lemma LongVarint(b: byte, tail: seq<byte>, rest: seq<byte>, limit: nat)
    requires b >= 0x80 && 0 < |tail| < limit && Extent(tail + rest, limit - 1) == |tail|
    ensures Extent([b] + tail + rest, limit) == |tail| + 1 && Value([b] + tail) == b - 0x80 + 0x80 * Value(tail)
  {
    assert ([b] + tail + rest)[1..] == tail + rest && ([b] + tail)[1..] == tail;
  }

  lemma {:induction false} VarintExtent(n: nat, rest: seq<byte>, limit: nat)
    requires |Varint(n)| <= limit
    ensures Extent(Varint(n) + rest, limit) == |Varint(n)| && Value(Varint(n)) == n
  {
    if n >= 0x80 {
      var tail := Varint(n / 0x80);
      VarintExtent(n / 0x80, rest, limit - 1);
      LongVarint(n % 0x80 + 0x80, tail, rest, limit);
    }
  }

  lemma Limits()
    ensures Pow128(4) < U32 <= Pow128(5) && Pow128(9) < U64 <= Pow128(10)
  {
    assert Pow128(2) == 0x4000;
    assert Pow128(4) == 0x1000_0000;
    assert Pow128(6) == 0x400_0000_0000;
    assert Pow128(8) == 0x100_0000_0000_0000;
    assert Pow128(10) == 0x40_0000_0000_0000_0000;
  }

  /** A 32-bit read keeps the low 32 bits. */
  ghost function Varint32At(s: seq<byte>): (r: Read)
    ensures r.Got? ==> 1 <= r.used <= 10 && r.used <= |s| && r.value < U32
  {
    match VarintAt(s)
    case Fail => Fail
    case Got(v, k) => Got(v % U32, k)
  }

  /** Reading undoes writing, whatever follows. */
  lemma ReadWritten(n: nat, rest: seq<byte>)
    requires n < U64
    ensures |Varint(n)| <= 10 && VarintAt(Varint(n) + rest) == Got(n, |Varint(n)|)
  {
    assert Opened(true);
    Limits();
    VarintLength(n, 10);
    VarintExtent(n, rest, 10);
    assert (Varint(n) + rest)[..|Varint(n)|] == Varint(n);
  }

  /** n & 0x7F */
  function Low(n: nat): (p: byte)
    ensures p < 0x80
  {
    n % 0x80
  }

  /** p | 0x80 */
  function Flag(p: byte): byte
    requires p < 0x80
  {
    p + 0x80
  }

  /** *buff++ = p */
  function Put(buff: seq<byte>, p: byte): seq<byte> {
    buff + [p]
  }

  /** One more byte of the varint of `all`, of which n remains after buff. */
  lemma More(all: nat, buff: seq<byte>, n: nat)
    requires Varint(all) == buff + Varint(n)
    ensures n < 0x80 ==> Low(n) == n && n / 0x80 == 0 && Varint(all) == Put(buff, n)
    ensures n >= 0x80 ==> n / 0x80 > 0 && Varint(all) == Put(buff, Flag(Low(n))) + Varint(n / 0x80)
  {
  }

  /** The unrolled 64-bit writer. */
  method Write64(all: nat) returns (buff: seq<byte>)
    requires all < U64
    ensures buff == Varint(all) && |buff| <= 10
  {
    var n: nat, p: byte := all, 0;
    buff := [];
    More(all, buff, n); p := Low(n); n := n / 0x80; if n == 0 { return Put(buff, p); } buff := Put(buff, Flag(p));
    More(all, buff, n); p := Low(n); n := n / 0x80; if n == 0 { return Put(buff, p); } buff := Put(buff, Flag(p));
    More(all, buff, n); p := Low(n); n := n / 0x80; if n == 0 { return Put(buff, p); } buff := Put(buff, Flag(p));
    More(all, buff, n); p := Low(n); n := n / 0x80; if n == 0 { return Put(buff, p); } buff := Put(buff, Flag(p));
    More(all, buff, n); p := Low(n); n := n / 0x80; if n == 0 { return Put(buff, p); } buff := Put(buff, Flag(p));
    More(all, buff, n); p := Low(n); n := n / 0x80; if n == 0 { return Put(buff, p); } buff := Put(buff, Flag(p));
    More(all, buff, n); p := Low(n); n := n / 0x80; if n == 0 { return Put(buff, p); } buff := Put(buff, Flag(p));
    More(all, buff, n); p := Low(n); n := n / 0x80; if n == 0 { return Put(buff, p); } buff := Put(buff, Flag(p));
    More(all, buff, n); p := Low(n); n := n / 0x80; if n == 0 { return Put(buff, p); } buff := Put(buff, Flag(p));
    More(all, buff, n); p := Low(n);
    return Put(buff, p);
  }

  /** The unrolled 32-bit writer. */
  method Write32(all: nat) returns (buff: seq<byte>)
    requires all < U32
    ensures buff == Varint(all) && |buff| <= 5
  {
    var n: nat, p: byte := all, 0;
    buff := [];
    More(all, buff, n); p := Low(n); n := n / 0x80; if n == 0 { return Put(buff, p); } buff := Put(buff, Flag(p));
    More(all, buff, n); p := Low(n); n := n / 0x80; if n == 0 { return Put(buff, p); } buff := Put(buff, Flag(p));
    More(all, buff, n); p := Low(n); n := n / 0x80; if n == 0 { return Put(buff, p); } buff := Put(buff, Flag(p));
    More(all, buff, n); p := Low(n); n := n / 0x80; if n == 0 { return Put(buff, p); } buff := Put(buff, Flag(p));
    More(all, buff, n); p := n;
    return Put(buff, p);
  }
}
