// The slice cursor of the protobuf engine and its varint and fixed-width readers.
//
// `data` is the memory between the slice's start and its end, so an index in range is a read before the end.
module PbSlice {
  import opened Wrappers
  import opened Hiding
  import opened Bytes
  import opened PbVarint

  /** Without a continuation bit in the last byte, or with ten bytes left, the unrolled readers need no bounds check. */
  ghost predicate Enough(rest: seq<byte>) {
    rest != [] && rest[0] >= 0x80 && (|rest| >= 10 || rest[|rest| - 1] < 0x80)
  }

  /** The first k bytes all continue, and their seven-bit groups add up to v. */
  ghost predicate Seen(rest: seq<byte>, k: nat, v: nat) {
    && k <= |rest|
    && forall d {:trigger Opened(d)} :: Opened(d) ==>
         v == Value(rest[..k]) && forall i :: 0 <= i < k ==> rest[i] >= 0x80
  }

  /** The seven bits of byte number k, in place. */
  ghost function Group(b: byte, k: nat): nat {
    Pow128(k) * (b % 0x80)
  }

  /** The next byte: the last one, or another that continues. */
  lemma SeenStep(rest: seq<byte>, k: nat, v: nat)
    requires Seen(rest, k, v) && k < |rest| && k < 10
    ensures var b := rest[k]; var w := v + Group(b, k);
            if b < 0x80 then VarintAt(rest) == Got(w % U64, k + 1) else Seen(rest, k + 1, w)
    ensures rest[k] >= 0x80 && Enough(rest) && k < 9 ==> k + 1 < |rest|
    ensures rest[k] >= 0x80 && (k + 1 == |rest| || k == 9) ==> VarintAt(rest) == Fail
  {
    assert Opened(true);
    assert rest[..k + 1] == rest[..k] + [rest[k]];
    ValueAppend(rest[..k], rest[k]);
    ExtentIs(rest, k, 10);
    if rest[k] >= 0x80 {
      ExtentIs(rest, k + 1, 10);
    }
  }

  lemma SeenNothing(rest: seq<byte>)
    ensures Seen(rest, 0, 0)
    ensures rest == [] ==> VarintAt(rest) == Fail
  {
    assert Opened(true);
  }

  lemma Weights()
    ensures Pow128(0) == 1 && Pow128(1) == 0x80 && Pow128(2) == 0x4000 && Pow128(3) == 0x20_0000
    ensures Pow128(4) == 0x1000_0000 && Pow128(5) == 0x8_0000_0000 && Pow128(6) == 0x400_0000_0000
    ensures Pow128(7) == 0x2_0000_0000_0000 && Pow128(8) == 0x100_0000_0000_0000
    ensures Pow128(9) == 0x8000_0000_0000_0000
  {
    assert Pow128(2) == 0x4000;
    assert Pow128(4) == 0x1000_0000;
    assert Pow128(6) == 0x400_0000_0000;
    assert Pow128(8) == 0x100_0000_0000_0000;
  }

  /** 32-bit addition and subtraction. */
  function Add32(a: nat, b: nat): (c: nat)
    ensures c < U32
  {
    (a + b) % U32
  }

  function Sub32(a: nat, b: nat): (c: nat)
    ensures c < U32
  {
    (a - b) % U32
  }

  /** b << log2(m), 32 bits wide. */
  function Shl32(b: nat, m: nat): (c: nat)
    ensures c < U32
  {
    b * m % U32
  }

  // ---------------------------------------------------------------------------------------------------------
  // The unrolled readers, one byte at a time

  lemma ModAdd(a: int, b: int)
    ensures (a % U32 + b % U32) % U32 == (a + b) % U32 == (a % U32 + b) % U32
    ensures (a % U32 - b % U32) % U32 == (a - b) % U32
  {
  }

  /** The 32-bit accumulator holds the groups of the first k bytes, modulo 2^32. */
  ghost predicate Sum32(rest: seq<byte>, k: nat, n: nat) {
    && k <= |rest|
    && exists v: nat {:trigger Seen(rest, k, v)} :: Seen(rest, k, v) && n == v % U32
  }

  /** The accumulator after a byte that continues. */
  function Carry32(n: nat, b: byte, k: nat): nat {
    if k < 4 then Sub32(Add32(n, Shl32(b, Pow128(k))), Shl32(0x80, Pow128(k)))
    else if k == 4 then Add32(n, Shl32(b, Pow128(k)))
    else n
  }

  lemma AddSub32(v: nat, x: nat, y: nat)
    ensures Add32(v % U32, x % U32) == (v + x) % U32
    ensures v + x >= y ==> Sub32(Add32(v % U32, x % U32), y % U32) == (v + x - y) % U32
  {
    ModAdd(v, x);
    ModAdd(v + x, y);
  }

  lemma Early32(v: nat, b: byte, m: nat)
    ensures b < 0x80 ==> Add32(v % U32, Shl32(b, m)) == (v + m * (b % 0x80)) % U32
    ensures b >= 0x80 ==> Sub32(Add32(v % U32, Shl32(b, m)), Shl32(0x80, m)) == (v + m * (b % 0x80)) % U32
  {
    Spread(b, m);
    AddSub32(v, b * m, 0x80 * m);
  }

  lemma Fifth32(v: nat, b: byte)
    ensures Add32(v % U32, Shl32(b, 0x1000_0000)) == (v + 0x1000_0000 * (b % 0x80)) % U32
  {
    Early32(v, b, 0x1000_0000);
    assert Shl32(0x80, 0x1000_0000) == 0;
  }

  lemma Late32(v: nat, x: nat, m: nat, c: nat)
    requires m == U32 * c
    ensures (v + m * x) % U32 == v % U32
  {
    Whole(m, c, x);
    ModAdd(v, m * x);
  }

  lemma {:induction false} Multiple32(k: nat) returns (c: nat)
    requires k >= 5
    ensures Pow128(k) == U32 * c
  {
    if k == 5 {
      Weights();
      c := 8;
    } else {
      c := Multiple32(k - 1);
      c := 0x80 * c;
    }
  }

  lemma Carried32(v: nat, b: byte, k: nat)
    requires k < 10 && b >= 0x80
    ensures Carry32(v % U32, b, k) == (v + Group(b, k)) % U32
  {
    if k < 4 {
      Early32(v, b, Pow128(k));
    } else if k == 4 {
      Weights();
      Fifth32(v, b);
    } else {
      var c := Multiple32(k);
      Late32(v, b % 0x80, Pow128(k), c);
    }
  }

  /** The result when byte number k is the last one. */
  function Final32(n: nat, b: byte, k: nat): nat {
    if k < 5 then Add32(n, Shl32(b, Pow128(k))) else n
  }

  lemma Finished32(v: nat, b: byte, k: nat)
    requires k < 10 && b < 0x80
    ensures Final32(v % U32, b, k) == (v + Group(b, k)) % U32
  {
    if k < 5 {
      Early32(v, b, Pow128(k));
    } else {
      var c := Multiple32(k);
      Late32(v, b, Pow128(k), c);
    }
  }

  lemma Narrow(w: nat)
    ensures w % U64 % U32 == w % U32
  {
  }

  lemma Sum32Start(rest: seq<byte>)
    ensures Sum32(rest, 0, 0)
  {
    SeenNothing(rest);
  }

  /** One step of the unrolled 32-bit reader. */
  lemma Step32(rest: seq<byte>, k: nat, n: nat)
    requires Sum32(rest, k, n) && k < |rest| && k < 10
    ensures rest[k] < 0x80 ==> Varint32At(rest) == Got(Final32(n, rest[k], k), k + 1)
    ensures rest[k] >= 0x80 && k < 9 ==> Sum32(rest, k + 1, Carry32(n, rest[k], k))
    ensures rest[k] >= 0x80 && k < 9 && Enough(rest) ==> k + 1 < |rest|
    ensures rest[k] >= 0x80 && k == 9 ==> Varint32At(rest) == Fail
  {
    var v: nat :| Seen(rest, k, v) && n == v % U32;
    var b := rest[k];
    var w: nat := v + Group(b, k);
    SeenStep(rest, k, v);
    if b < 0x80 {
      Finished32(v, b, k);
      Narrow(w);
    } else {
      Carried32(v, b, k);
      assert Seen(rest, k + 1, w);
    }
  }

  lemma Spread(b: byte, m: nat)
    ensures b >= 0x80 ==> b * m - 0x80 * m == m * (b % 0x80)
    ensures b < 0x80 ==> b * m == m * (b % 0x80)
  {
    if b >= 0x80 {
      assert b % 0x80 == b - 0x80;
    }
  }

  lemma Whole(m: nat, c: nat, x: nat)
    requires m == U32 * c
    ensures m * x % U32 == 0
  {
    assert m * x == U32 * (c * x);
  }

  /** The length-prefixed bytes at the start of s and the space they take. */
  ghost function BytesAt(s: seq<byte>): (Option<seq<byte>>, nat) {
    match VarintAt(s)
    case Fail => (None, 0)
    case Got(len, k) => if |s| - k < len then (None, 0) else (Some(s[k..k + len]), k + len)
  }

  /** a | x << log2(m) in 64 bits; a has only bits below the shifted ones. */
  function OrShifted(a: nat, x: nat, m: nat): (c: nat)
    requires a < m
    ensures c < U64
  {
    (a + x * m) % U64
  }

  lemma Or64(rest: seq<byte>, v: nat, b: byte, i: nat)
    requires Seen(rest, i, v)
    ensures v % U64 < Pow128(i)
    ensures OrShifted(v % U64, Low(b), Pow128(i)) == (v + Group(b, i)) % U64
  {
    SeenBelow(rest, i, v);
    Commute(Low(b), Pow128(i));
    ModAdd64(v, Low(b) * Pow128(i));
  }

  lemma SeenBelow(rest: seq<byte>, i: nat, v: nat)
    requires Seen(rest, i, v)
    ensures v < Pow128(i) && v % U64 <= v
  {
    assert Opened(true);
    ValueAppend(rest[..i], 0);
  }

  lemma Commute(x: nat, y: nat)
    ensures x * y == y * x >= 0
  {
  }

  lemma ModAdd64(a: nat, b: nat)
    ensures (a % U64 + b) % U64 == (a + b) % U64
  {
  }

  // The 64-bit reader keeps three 32-bit accumulators for bits 0, 28 and 56 on.

  /** Adding a byte's bits to a 28-bit accumulator, and taking its continuation bit off again. */
  function Up(n: nat, b: byte, j: nat): nat {
    Add32(n, Shl32(b, Pow128(j)))
  }

  function Off(n: nat, j: nat): nat {
    Sub32(n, Shl32(0x80, Pow128(j)))
  }

  lemma Field(n: nat, b: byte, j: nat)
    requires j < 4 && n < Pow128(j)
    ensures (if b < 0x80 then Up(n, b, j) else Off(Up(n, b, j), j)) == n + Group(b, j) < Pow128(j + 1)
  {
    Early32(n, b, Pow128(j));
    SmallTimes(b % 0x80, Pow128(j));
    Weights();
    SmallIsSelf(n + Group(b, j));
  }

  lemma SmallIsSelf(x: nat)
    ensures x < U32 ==> x % U32 == x
  {
  }

  lemma SmallTimes(x: nat, m: nat)
    ensures x < 0x80 ==> m * x + m <= 0x80 * m
    ensures x < 0x100 ==> m * x + m <= 0x100 * m
  {
    assert x < 0x80 ==> m * (x + 1) <= m * 0x80;
    assert x < 0x100 ==> m * (x + 1) <= m * 0x100;
  }

  ghost predicate Sum64(rest: seq<byte>, k: nat, n1: nat, n2: nat, n3: nat) {
    && k <= |rest| && k < 10
    && n1 < Pow128(if k < 4 then k else 4)
    && n2 < Pow128(if k < 4 then 0 else if k < 8 then k - 4 else 4)
    && n3 < Pow128(if k < 8 then 0 else k - 8)
    && Seen(rest, k, n1 + 0x1000_0000 * n2 + 0x100_0000_0000_0000 * n3)
  }

  /** n1 | n2 << 28 | n3 << 56 */
  function Joined(n1: nat, n2: nat, n3: nat): nat
    requires n1 < 0x1000_0000 && n2 < 0x1000_0000
  {
    OrShifted(OrShifted(n1, n2, 0x1000_0000), n3, 0x100_0000_0000_0000)
  }

  lemma JoinedIs(n1: nat, n2: nat, n3: nat)
    requires n1 < 0x1000_0000 && n2 < 0x1000_0000
    ensures Joined(n1, n2, n3) == (n1 + 0x1000_0000 * n2 + 0x100_0000_0000_0000 * n3) % U64
  {
  }

  lemma GroupAt(b: byte, j: nat)
    requires j < 4
    ensures Group(b, j + 4) == 0x1000_0000 * Group(b, j)
    ensures j < 2 ==> Group(b, j + 8) == 0x100_0000_0000_0000 * Group(b, j)
  {
    Weights();
    Times(Pow128(j), b % 0x80);
  }

  lemma Times(m: nat, x: nat)
    ensures (0x1000_0000 * m) * x == 0x1000_0000 * (m * x)
    ensures (0x100_0000_0000_0000 * m) * x == 0x100_0000_0000_0000 * (m * x)
  {
  }

  /** After byte number k the accumulators are m1, m2, m3. */
  ghost predicate Taken64(rest: seq<byte>, k: nat, m1: nat, m2: nat, m3: nat)
    requires k < |rest|
  {
    && m1 < 0x1000_0000 && m2 < 0x1000_0000
    && (rest[k] < 0x80 ==> VarintAt(rest) == Got(Joined(m1, m2, m3), k + 1))
    && (rest[k] >= 0x80 && k < 9 ==> Sum64(rest, k + 1, m1, m2, m3) && (Enough(rest) ==> k + 1 < |rest|))
    && (rest[k] >= 0x80 && k == 9 ==> VarintAt(rest) == Fail)
  }

  // The step of a byte that lands in the first, second or third accumulator.

  lemma StepLow(rest: seq<byte>, k: nat, n1: nat, n2: nat, n3: nat)
    requires Sum64(rest, k, n1, n2, n3) && k < |rest| && k < 4
    ensures var b := rest[k];
            var n := if b < 0x80 then Up(n1, b, k) else Off(Up(n1, b, k), k);
            Taken64(rest, k, n, n2, n3)
  {
    SeenStep(rest, k, n1 + 0x1000_0000 * n2 + 0x100_0000_0000_0000 * n3);
    Weights();
    var b := rest[k];
    Field(n1, b, k);
    JoinedIs(n1 + Group(b, k), n2, n3);
  }

  lemma StepMid(rest: seq<byte>, k: nat, n1: nat, n2: nat, n3: nat)
    requires Sum64(rest, k, n1, n2, n3) && k < |rest| && 4 <= k < 8
    ensures var b := rest[k];
            var n := if b < 0x80 then Up(n2, b, k - 4) else Off(Up(n2, b, k - 4), k - 4);
            Taken64(rest, k, n1, n, n3)
  {
    SeenStep(rest, k, n1 + 0x1000_0000 * n2 + 0x100_0000_0000_0000 * n3);
    Weights();
    var b := rest[k];
    Field(n2, b, k - 4);
    GroupAt(b, k - 4);
    JoinedIs(n1, n2 + Group(b, k - 4), n3);
  }

  lemma StepHigh(rest: seq<byte>, k: nat, n1: nat, n2: nat, n3: nat)
    requires Sum64(rest, k, n1, n2, n3) && k < |rest| && 8 <= k
    ensures var b := rest[k];
            var n := if b < 0x80 then Up(n3, b, k - 8) else Off(Up(n3, b, k - 8), k - 8);
            Taken64(rest, k, n1, n2, n)
  {
    SeenStep(rest, k, n1 + 0x1000_0000 * n2 + 0x100_0000_0000_0000 * n3);
    Weights();
    var b := rest[k];
    Field(n3, b, k - 8);
    GroupAt(b, k - 8);
    JoinedIs(n1, n2, n3 + Group(b, k - 8));
  }

  lemma SingleByte(rest: seq<byte>)
    requires rest != [] && rest[0] < 0x80
    ensures VarintAt(rest) == Got(rest[0], 1) == Varint32At(rest)
  {
    assert Opened(true);
    assert Value(rest[..1]) == rest[0] by {
      assert rest[..1][1..] == [];
    }
  }

  class Slice {
    const data: seq<byte>
    var p: nat

    ghost predicate Valid()
      reads this
    {
      p <= |data|
    }

    /** The bytes not yet read. */
    ghost function Rest(): seq<byte>
      reads this
      requires Valid()
    {
      data[p..]
    }

    constructor (data: seq<byte>)
      ensures Valid() && this.data == data && Rest() == data
    {
      this.data, p := data, 0;
    }

    /** One byte at a time, at most ten. */
    method ReadVarintSlow() returns (r: Read)
      requires Valid()
      modifies this
      ensures Valid() && r == VarintAt(old(Rest()))
      ensures p == old(p) + if r == Fail then 0 else r.used
    {
      var o: nat := p;
      ghost var rest, v: nat := Rest(), 0;
      var n, i: nat := 0, 0;
      SeenNothing(rest);
      while p < |data| && i < 10
        invariant Valid() && i <= 10 && p == o + i && Seen(rest, i, v) && n == v % U64
        invariant i > 0 && (i == |rest| || i == 10) ==> VarintAt(rest) == Fail
        decreases |data| - p
      {
        var b: byte := data[p];
        assert rest[i] == b;
        SeenStep(rest, i, v);
        Or64(rest, v, b, i);
        p := p + 1;
        n := OrShifted(n, Low(b), Pow128(i));
        v := v + Group(b, i);
        i := i + 1;
        if b < 0x80 {
          return Got(n, i);
        }
      }
      p := o;
      return Fail;
    }

    /** The unrolled 32-bit reader; after the fifth byte only the continuation bits matter. */
    method ReadVarint32Fallback() returns (r: Read)
      requires Valid() && Enough(Rest())
      modifies this
      ensures Valid() && r == Varint32At(old(Rest()))
      ensures p == old(p) + if r == Fail then 0 else r.used
    {
      Weights();
      ghost var rest := Rest();
      Sum32Start(rest);
      var o, q: nat, b: byte := p, p, 0;
      b, q := data[q], q + 1; Step32(rest, 0, 0);
      var n: nat := b - 0x80;
      b, q := data[q], q + 1; Step32(rest, 1, n);
      n := Add32(n, Shl32(b, 0x80)); if b < 0x80 { p := q; return Got(n, q - o); }
      n := Sub32(n, Shl32(0x80, 0x80));
      b, q := data[q], q + 1; Step32(rest, 2, n);
      n := Add32(n, Shl32(b, 0x4000)); if b < 0x80 { p := q; return Got(n, q - o); }
      n := Sub32(n, Shl32(0x80, 0x4000));
      b, q := data[q], q + 1; Step32(rest, 3, n);
      n := Add32(n, Shl32(b, 0x200000)); if b < 0x80 { p := q; return Got(n, q - o); }
      n := Sub32(n, Shl32(0x80, 0x200000));
      b, q := data[q], q + 1; Step32(rest, 4, n);
      n := Add32(n, Shl32(b, 0x10000000)); if b < 0x80 { p := q; return Got(n, q - o); }
      b, q := data[q], q + 1; Step32(rest, 5, n); if b < 0x80 { p := q; return Got(n, q - o); }
      b, q := data[q], q + 1; Step32(rest, 6, n); if b < 0x80 { p := q; return Got(n, q - o); }
      b, q := data[q], q + 1; Step32(rest, 7, n); if b < 0x80 { p := q; return Got(n, q - o); }
      b, q := data[q], q + 1; Step32(rest, 8, n); if b < 0x80 { p := q; return Got(n, q - o); }
      b, q := data[q], q + 1; Step32(rest, 9, n); if b < 0x80 { p := q; return Got(n, q - o); }
      return Fail;
    }

    /** The unrolled 64-bit reader. */
    method ReadVarint64Fallback() returns (r: Read)
      requires Valid() && Enough(Rest())
      modifies this
      ensures Valid() && r == VarintAt(old(Rest()))
      ensures p == old(p) + if r == Fail then 0 else r.used
    {
      Weights();
      ghost var rest := Rest();
      SeenNothing(rest);
      var o, q: nat, b: byte := p, p, 0;
      b, q := data[q], q + 1; StepLow(rest, 0, 0, 0, 0);
      var n1: nat, n2: nat, n3: nat := b - 0x80, 0, 0;
      b, q := data[q], q + 1; StepLow(rest, 1, n1, n2, n3);
      n1 := Add32(n1, Shl32(b, 0x80)); if b < 0x80 { p := q; return Got(Joined(n1, n2, n3), q - o); }
      n1 := Sub32(n1, Shl32(0x80, 0x80));
      b, q := data[q], q + 1; StepLow(rest, 2, n1, n2, n3);
      n1 := Add32(n1, Shl32(b, 0x4000)); if b < 0x80 { p := q; return Got(Joined(n1, n2, n3), q - o); }
      n1 := Sub32(n1, Shl32(0x80, 0x4000));
      b, q := data[q], q + 1; StepLow(rest, 3, n1, n2, n3);
      n1 := Add32(n1, Shl32(b, 0x200000)); if b < 0x80 { p := q; return Got(Joined(n1, n2, n3), q - o); }
      n1 := Sub32(n1, Shl32(0x80, 0x200000));
      b, q := data[q], q + 1; StepMid(rest, 4, n1, n2, n3);
      n2 := Add32(n2, Shl32(b, 0x1)); if b < 0x80 { p := q; return Got(Joined(n1, n2, n3), q - o); }
      n2 := Sub32(n2, Shl32(0x80, 0x1));
      b, q := data[q], q + 1; StepMid(rest, 5, n1, n2, n3);
      n2 := Add32(n2, Shl32(b, 0x80)); if b < 0x80 { p := q; return Got(Joined(n1, n2, n3), q - o); }
      n2 := Sub32(n2, Shl32(0x80, 0x80));
      b, q := data[q], q + 1; StepMid(rest, 6, n1, n2, n3);
      n2 := Add32(n2, Shl32(b, 0x4000)); if b < 0x80 { p := q; return Got(Joined(n1, n2, n3), q - o); }
      n2 := Sub32(n2, Shl32(0x80, 0x4000));
      b, q := data[q], q + 1; StepMid(rest, 7, n1, n2, n3);
      n2 := Add32(n2, Shl32(b, 0x200000)); if b < 0x80 { p := q; return Got(Joined(n1, n2, n3), q - o); }
      n2 := Sub32(n2, Shl32(0x80, 0x200000));
      b, q := data[q], q + 1; StepHigh(rest, 8, n1, n2, n3);
      n3 := Add32(n3, Shl32(b, 0x1)); if b < 0x80 { p := q; return Got(Joined(n1, n2, n3), q - o); }
      n3 := Sub32(n3, Shl32(0x80, 0x1));
      b, q := data[q], q + 1; StepHigh(rest, 9, n1, n2, n3);
      n3 := Add32(n3, Shl32(b, 0x80)); if b < 0x80 { p := q; return Got(Joined(n1, n2, n3), q - o); }
      return Fail;
    }

    method ReadVarint32() returns (r: Read)
      requires Valid()
      modifies this
      ensures Valid() && r == Varint32At(old(Rest()))
      ensures p == old(p) + if r == Fail then 0 else r.used
    {
      if p >= |data| {
        SeenNothing([]);
        return Fail;
      }
      if data[p] < 0x80 {
        SingleByte(Rest());
        p := p + 1;
        return Got(data[p - 1], 1);
      }
      if |data| - p >= 10 || data[|data| - 1] < 0x80 {
        r := ReadVarint32Fallback();
        return;
      }
      r := ReadVarintSlow();
      if r.Got? {
        r := Got(r.value % U32, r.used);
      }
    }

    method ReadVarint64() returns (r: Read)
      requires Valid()
      modifies this
      ensures Valid() && r == VarintAt(old(Rest()))
      ensures p == old(p) + if r == Fail then 0 else r.used
    {
      if p >= |data| {
        SeenNothing([]);
        return Fail;
      }
      if data[p] < 0x80 {
        SingleByte(Rest());
        p := p + 1;
        return Got(data[p - 1], 1);
      }
      if |data| - p >= 10 || data[|data| - 1] < 0x80 {
        r := ReadVarint64Fallback();
        return;
      }
      r := ReadVarintSlow();
    }

    /** pb_readfixed32 and pb_readfixed64: k little-endian bytes, the highest first. */
    method ReadFixed(k: nat) returns (r: Read)
      requires Valid()
      modifies this
      ensures Valid() && r == if |old(Rest())| < k then Fail else Got(FromLittle(old(Rest())[..k]), k)
      ensures p == old(p) + if r == Fail then 0 else k
    {
      if p + k > |data| {
        return Fail;
      }
      var n: nat, i := 0, k;
      ghost var bytes := Rest()[..k];
      while i > 0
        invariant p == old(p) && 0 <= i <= k && n == FromLittle(bytes[i..])
      {
        i := i - 1;
        assert bytes[i..][1..] == bytes[i + 1..];
        n := n * 0x100 + data[p + i];
      }
      p := p + k;
      return Got(n, k);
    }

    /** A length-prefixed run of bytes; on failure nothing is consumed. */
    method ReadBytes() returns (r: Option<seq<byte>>)
      requires Valid()
      modifies this
      ensures Valid() && r == BytesAt(old(Rest())).0 && p == old(p) + BytesAt(old(Rest())).1
    {
      var o := p;
      var len := ReadVarint64();
      if len.Fail? || |data| - p < len.value {
        p := o;
        return None;
      }
      assert data[o..][len.used..len.used + len.value] == data[p..p + len.value];
      r := Some(data[p..p + len.value]);
      p := p + len.value;
    }
  }
}
