module RobinHood {
  // The bucket ring of the dense hash map, over plain sequences.
  //
  // A bucket packs "256 * distance + one fingerprint byte" into `df` (the map's m_dist_and_fingerprint) and the index
  // of its entry in the dense value vector into `idx`. A zero `df` is a free bucket. Distances count from 1, the
  // home bucket. The hash is an arbitrary function with 64-bit results.

  import opened Hiding
  import opened Powers

  const DIST_INC := 256
  const MAX_BUCKET_COUNT := 0x1_0000_0000
  const INITIAL_SHIFTS := 62
  const HASH_RANGE := 0x1_0000_0000_0000_0000

  datatype Bucket = Bucket(df: nat, idx: nat)

  const FREE := Bucket(0, 0)

  // ---------------------------------------------------------------------------------------------------------
  // Sizes and home buckets

  function Min(a: nat, b: nat): nat {
    if a < b then a else b
  }

  /**
   * Number of buckets for a given shift: 2^(64 - shifts), capped at the index type's range. A shift of 0 has none: 1
   * would be shifted by the whole width of its word.
   */
  function NumBuckets(shifts: nat): nat
    requires 0 < shifts <= 64
  {
    Min(MAX_BUCKET_COUNT, Pow2(64 - shifts))
  }

  /** floor(n * 0.8F); the product is exact because n is a power of two and 0.8F = 13421773 / 2^24. */
  function MaxLoad(n: nat): nat {
    n * 13421773 / 16777216
  }

  /** m_max_bucket_capacity after allocating for a shift. */
  function Capacity(shifts: nat): nat
    requires 0 < shifts <= 64
  {
    if NumBuckets(shifts) == MAX_BUCKET_COUNT then MAX_BUCKET_COUNT else MaxLoad(NumBuckets(shifts))
  }

  /** The home bucket: the hash's upper bits, truncated to the 32-bit index type. */
  function Home(hash: nat, shifts: nat): nat {
    hash / Pow2(shifts) % MAX_BUCKET_COUNT
  }

  lemma DivBelow(x: nat, d: nat, n: nat)
    requires d > 0 && x < d * n
    ensures x / d < n
  {
    assert x == d * (x / d) + x % d;
    assert d * (x / d) < d * n;
  }

  lemma IndexRange()
    ensures Pow2(32) == MAX_BUCKET_COUNT
  {
    assert Pow2(8) == 256;
    Pow2Add(8, 8);
    Pow2Add(16, 16);
  }

  lemma HashQuotient(hash: nat, shifts: nat)
    requires shifts <= 64 && hash < HASH_RANGE
    ensures hash / Pow2(shifts) < Pow2(64 - shifts)
  {
    IndexRange();
    Pow2Add(32, 32);
    Pow2Add(shifts, 64 - shifts);
    DivBelow(hash, Pow2(shifts), Pow2(64 - shifts));
  }

  /** Every 64-bit hash has its home inside the ring. */
  lemma HomeInRing(hash: nat, shifts: nat)
    requires 0 < shifts <= INITIAL_SHIFTS && hash < HASH_RANGE
    ensures 4 <= NumBuckets(shifts) <= MAX_BUCKET_COUNT
    ensures Home(hash, shifts) < NumBuckets(shifts)
  {
    HashQuotient(hash, shifts);
    AtLeastFour(64 - shifts);
    TruncateBelow(hash / Pow2(shifts), Pow2(64 - shifts));
  }

  lemma TruncateBelow(x: nat, n: nat)
    requires x < n
    ensures x % MAX_BUCKET_COUNT < Min(MAX_BUCKET_COUNT, n)
  {
  }

  lemma AtLeastFour(e: nat)
    requires e >= 2
    ensures Pow2(e) >= 4
  {
    Pow2Monotone(2, e);
  }

  lemma CapacityBelowBuckets(shifts: nat)
    requires 0 < shifts <= INITIAL_SHIFTS
    ensures 4 <= NumBuckets(shifts) <= MAX_BUCKET_COUNT
    ensures 3 <= Capacity(shifts) <= NumBuckets(shifts)
    ensures NumBuckets(shifts) < MAX_BUCKET_COUNT ==> Capacity(shifts) < NumBuckets(shifts)
  {
    HomeInRing(0, shifts);
  }

  lemma BelowMaximum(shifts: nat)
    requires 0 < shifts <= 64
    ensures NumBuckets(shifts) < MAX_BUCKET_COUNT <==> shifts > 32
  {
    IndexRange();
    if shifts <= 32 {
      Pow2Monotone(32, 64 - shifts);
    } else {
      Pow2Monotone(65 - shifts, 32);
    }
  }

  /** Lowering the shift by one doubles the ring, which makes room for at least one more entry. */
  lemma Doubling(shifts: nat)
    requires 32 < shifts <= INITIAL_SHIFTS
    ensures NumBuckets(shifts - 1) == 2 * NumBuckets(shifts)
    ensures Capacity(shifts) + 1 <= Capacity(shifts - 1)
    ensures Capacity(shifts) + 1 < MAX_BUCKET_COUNT
  {
    IndexRange();
    Pow2Monotone(65 - shifts, 32);
    BelowMaximum(shifts);
    CapacityBelowBuckets(shifts);
  }

  lemma BucketsMonotone(a: nat, b: nat)
    requires 0 < a <= b <= 64
    ensures NumBuckets(b) <= NumBuckets(a) && MaxLoad(NumBuckets(b)) <= MaxLoad(NumBuckets(a))
  {
    Pow2Monotone(64 - b, 64 - a);
    LoadMonotone(NumBuckets(b), NumBuckets(a));
  }

  lemma LoadMonotone(m: nat, n: nat)
    requires m <= n
    ensures MaxLoad(m) <= MaxLoad(n)
  {
  }

  /** A shift chosen for a size, or any smaller one, leaves room for that many entries. */
  lemma Roomy(s: nat, t: nat, size: nat)
    requires 0 < t <= s <= INITIAL_SHIFTS && MaxLoad(NumBuckets(s)) >= size
    ensures size <= Capacity(t) <= NumBuckets(t) && size < MAX_BUCKET_COUNT
  {
    BucketsMonotone(t, s);
    CapacityBelowBuckets(t);
  }

  /** calc_shifts_for_size from the shift s on: the largest shift with room for the size, or 0. */
  function ShiftsFor(s: nat, size: nat): (r: nat)
    requires s <= INITIAL_SHIFTS
    ensures r <= s && (r > 0 ==> MaxLoad(NumBuckets(r)) >= size)
    ensures forall t :: r < t <= s ==> MaxLoad(NumBuckets(t)) < size
  {
    if s > 0 && MaxLoad(NumBuckets(s)) < size then ShiftsFor(s - 1, size) else s
  }

  /** No shift has room for a size exactly when the maximal ring, at its load factor, has not. */
  lemma ShiftsRunOut(size: nat)
    ensures ShiftsFor(INITIAL_SHIFTS, size) == 0 <==> size > MaxLoad(MAX_BUCKET_COUNT)
  {
    BelowMaximum(32);
    BelowMaximum(1);
    var r := ShiftsFor(INITIAL_SHIFTS, size);
    if r == 0 {
      assert MaxLoad(NumBuckets(1)) < size;
    } else {
      LoadMonotone(NumBuckets(r), MAX_BUCKET_COUNT);
    }
  }

  /** The first size that fails; the one before it takes the largest shift that gives the maximal ring. */
  lemma FirstSizeWithoutShift(size: nat)
    requires size == 3_435_973_889
    ensures ShiftsFor(INITIAL_SHIFTS, size) == 0 && ShiftsFor(INITIAL_SHIFTS, size - 1) == 32
  {
    ShiftsRunOut(size);
    ShiftsRunOut(size - 1);
    BelowMaximum(32);
    HalfRing();
    var r := ShiftsFor(INITIAL_SHIFTS, size - 1);
    if r > 32 {
      BucketsMonotone(33, r);
    }
  }

  lemma HalfRing()
    ensures NumBuckets(33) == 0x8000_0000
  {
    IndexRange();
    assert Pow2(32) == 2 * Pow2(31);
  }

  // ---------------------------------------------------------------------------------------------------------
  // Ring arithmetic

  function Next(b: nat, n: nat): (r: nat)
    requires b < n
    ensures r < n
  {
    if b + 1 == n then 0 else b + 1
  }

  /** The bucket d steps after h. */
  function Fwd(h: nat, d: nat, n: nat): (r: nat)
    requires h < n && d <= n
    ensures r < n
  {
    if h + d < n then h + d else h + d - n
  }

  /** The bucket d steps before b. */
  function Back(b: nat, d: nat, n: nat): (r: nat)
    requires b < n && d <= n
    ensures r < n
  {
    if b >= d then b - d else b + n - d
  }

  /** Steps from a forward to b, between 0 and n - 1. */
  function Gap(a: nat, b: nat, n: nat): (r: nat)
    requires a < n && b < n
    ensures r < n
  {
    if b >= a then b - a else b + n - a
  }

  // ---------------------------------------------------------------------------------------------------------
  // The invariant

  /** A bucket at distance 2 or more follows one whose value is at least its own minus one step. */
  ghost predicate RingOk(bs: seq<Bucket>) {
    && |bs| >= 4
    && (forall b :: 0 <= b < |bs| && bs[b].df == 0 ==> bs[b] == FREE)
    && (forall b :: 0 <= b < |bs| && bs[b].df != 0 ==> bs[b].df >= DIST_INC)
    && (forall b {:trigger Next(b, |bs|)} :: 0 <= b < |bs| && bs[Next(b, |bs|)].df >= 2 * DIST_INC
          ==> bs[b].df + DIST_INC >= bs[Next(b, |bs|)].df)
  }

  /** df records the fingerprint of hash and the true ring distance of b from the home bucket. */
  ghost predicate Describes(df: nat, hash: nat, shifts: nat, b: nat, n: nat) {
    && 1 <= df / DIST_INC <= n
    && df % DIST_INC == hash % DIST_INC
    && Home(hash, shifts) < n
    && b == Fwd(Home(hash, shifts), df / DIST_INC - 1, n)
  }

  /** Value i is stored at bucket pos[i]. */
  ghost predicate StoredAt<K, V>(h: K -> nat, shifts: nat, vs: seq<(K, V)>, bs: seq<Bucket>, i: nat, p: nat)
    requires i < |vs|
  {
    && p < |bs| && bs[p].df != 0 && bs[p].idx == i
    && Describes(bs[p].df, h(vs[i].0), shifts, p, |bs|)
  }

  /** The values below |pos|, apart from `missing`, are in bijection with the occupied buckets. */
  ghost predicate IndexedBut<K, V>(h: K -> nat, shifts: nat, vs: seq<(K, V)>, bs: seq<Bucket>, pos: seq<nat>,
                                   missing: int) {
    && missing < |pos| <= |vs|
    && (forall i :: 0 <= i < |pos| && i != missing ==> StoredAt(h, shifts, vs, bs, i, pos[i]))
    && (forall b :: 0 <= b < |bs| && bs[b].df != 0 ==>
          bs[b].idx < |pos| && bs[b].idx != missing && pos[bs[b].idx] == b)
  }

  /** Some bucket is free or holds an entry at its home: probing and shifting stop there at the latest. */
  ghost predicate Anchored(bs: seq<Bucket>) {
    exists a :: 0 <= a < |bs| && bs[a].df < 2 * DIST_INC
  }

  /** The ring indexes the first |pos| values apart from `missing` (-1 for none). */
  ghost predicate IndexOk<K, V>(h: K -> nat, shifts: nat, vs: seq<(K, V)>, bs: seq<Bucket>, pos: seq<nat>,
                                missing: int) {
    forall d {:trigger Opened(d)} :: Opened(d) ==>
      RingOk(bs) && Anchored(bs) && IndexedBut(h, shifts, vs, bs, pos, missing)
  }

  lemma EmptyIndex<K, V>(h: K -> nat, shifts: nat, vs: seq<(K, V)>, bs: seq<Bucket>)
    requires |bs| >= 4 && forall b :: 0 <= b < |bs| ==> bs[b] == FREE
    ensures IndexOk(h, shifts, vs, bs, [], -1)
  {
    assert bs[0] == FREE;
  }

  /** An occupied bucket points at an indexed value. */
  lemma BucketPoints<K, V>(h: K -> nat, shifts: nat, vs: seq<(K, V)>, bs: seq<Bucket>, pos: seq<nat>, missing: int,
                           b: nat)
    requires IndexOk(h, shifts, vs, bs, pos, missing) && b < |bs| && bs[b].df != 0
    ensures bs[b].idx < |pos| <= |vs| && bs[b].idx != missing && pos[bs[b].idx] == b
  {
    assert Opened(true);
  }

  /** Only the indexed prefix of the vector matters to the ring. */
  lemma SamePrefix<K, V>(h: K -> nat, shifts: nat, vs: seq<(K, V)>, ws: seq<(K, V)>, bs: seq<Bucket>, pos: seq<nat>)
    requires IndexOk(h, shifts, vs, bs, pos, -1) && |pos| <= |ws|
    requires forall i :: 0 <= i < |pos| && i < |vs| ==> ws[i] == vs[i]
    ensures IndexOk(h, shifts, ws, bs, pos, -1)
  {
    assert Opened(true);
    forall i | 0 <= i < |pos|
      ensures StoredAt(h, shifts, ws, bs, i, pos[i])
    {
      assert StoredAt(h, shifts, vs, bs, i, pos[i]);
    }
  }

  // ---------------------------------------------------------------------------------------------------------
  // Walking back along a probe chain

  /** The df values seen when stepping back from a bucket drop by at most one step each. */
  lemma {:induction false} ChainBack(bs: seq<Bucket>, b: nat, df: nat, i: nat)
    requires RingOk(bs) && b < |bs| && i <= |bs|
    requires df >= 2 * DIST_INC ==> bs[Back(b, 1, |bs|)].df + DIST_INC >= df
    requires 1 <= i && df >= DIST_INC * (i + 1)
    ensures bs[Back(b, i, |bs|)].df + DIST_INC * i >= df
  {
    if i > 1 {
      ChainBack(bs, b, df, i - 1);
      assert Next(Back(b, i, |bs|), |bs|) == Back(b, i - 1, |bs|);
    }
  }

  /** While a bucket is free, no carried or stored distance exceeds the number of buckets. */
  lemma DistanceBound(bs: seq<Bucket>, b: nat, df: nat, free: nat)
    requires RingOk(bs) && b < |bs| && free < |bs| && bs[free].df == 0
    requires df >= 2 * DIST_INC ==> bs[Back(b, 1, |bs|)].df + DIST_INC >= df
    ensures df / DIST_INC <= |bs|
  {
    var g := if free == b then |bs| else Gap(free, b, |bs|);
    assert Back(b, g, |bs|) == free;
    if df / DIST_INC > g {
      ChainBack(bs, b, df, g);
    }
  }

  /** On the probe path of an entry stored at p, every earlier bucket holds at least the probe's value. */
  lemma ProbeChain(bs: seq<Bucket>, p: nat, hash: nat, shifts: nat, d: nat)
    requires RingOk(bs) && p < |bs| && Describes(bs[p].df, hash, shifts, p, |bs|)
    requires d < bs[p].df / DIST_INC
    ensures bs[Fwd(Home(hash, shifts), d, |bs|)].df >= DIST_INC * (d + 1) + hash % DIST_INC
  {
    var back := bs[p].df / DIST_INC - 1 - d;
    if back > 0 {
      assert Next(Back(p, 1, |bs|), |bs|) == p;
      ChainBack(bs, p, bs[p].df, back);
      assert Back(p, back, |bs|) == Fwd(Home(hash, shifts), d, |bs|);
    }
  }

  // ---------------------------------------------------------------------------------------------------------
  // Probing

  /** The (dist_and_fingerprint, bucket_idx) pair a probe loop carries. */
  datatype Probe = Probe(df: nat, b: nat)

  function FirstProbe(hash: nat, shifts: nat): Probe {
    Probe(DIST_INC + hash % DIST_INC, Home(hash, shifts))
  }

  function Advance(p: Probe, n: nat): Probe
    requires p.b < n
  {
    Probe(p.df + DIST_INC, Next(p.b, n))
  }

  /** Steps a probe may still take; it never goes twice round the ring. */
  function Left(p: Probe, n: nat): int {
    n + 2 - p.df / DIST_INC
  }

  /** Bucket b carries exactly df and points at the key. */
  ghost predicate Holds<K, V>(vs: seq<(K, V)>, bs: seq<Bucket>, key: K, df: nat, b: nat)
    requires b < |bs|
  {
    bs[b].df == df && bs[b].idx < |vs| && vs[bs[b].idx].0 == key
  }

  /** The probe is at its distance from home and met no bucket equal in df whose key matches. */
  ghost predicate Missed<K, V>(vs: seq<(K, V)>, bs: seq<Bucket>, key: K, hash: nat, shifts: nat, p: Probe) {
    && 1 <= p.df / DIST_INC <= |bs| + 1
    && p.df % DIST_INC == hash % DIST_INC
    && Home(hash, shifts) < |bs|
    && p.b == Fwd(Home(hash, shifts), p.df / DIST_INC - 1, |bs|)
    && (forall e :: 0 <= e < p.df / DIST_INC - 1 ==>
          !Holds(vs, bs, key, DIST_INC * (e + 1) + hash % DIST_INC, Fwd(Home(hash, shifts), e, |bs|)))
  }

  ghost predicate Probing<K, V>(h: K -> nat, shifts: nat, vs: seq<(K, V)>, bs: seq<Bucket>, key: K, p: Probe) {
    && p.b < |bs| && p.df >= DIST_INC
    && forall d {:trigger Opened(d)} :: Opened(d) ==> Missed(vs, bs, key, h(key), shifts, p)
  }

  /** The bucket before the probe holds at least the probe's value minus one step. */
  ghost predicate Follows(bs: seq<Bucket>, p: Probe) {
    p.b < |bs| && (p.df >= 2 * DIST_INC ==> bs[Back(p.b, 1, |bs|)].df + DIST_INC >= p.df)
  }

  lemma ProbeStart<K, V>(h: K -> nat, shifts: nat, vs: seq<(K, V)>, bs: seq<Bucket>, key: K)
    requires 0 < shifts <= INITIAL_SHIFTS && h(key) < HASH_RANGE && |bs| == NumBuckets(shifts)
    ensures Probing(h, shifts, vs, bs, key, FirstProbe(h(key), shifts))
    ensures Follows(bs, FirstProbe(h(key), shifts))
  {
    HomeInRing(h(key), shifts);
  }

  lemma ProbeStep<K, V>(h: K -> nat, shifts: nat, vs: seq<(K, V)>, bs: seq<Bucket>, pos: seq<nat>, key: K, p: Probe)
    requires IndexOk(h, shifts, vs, bs, pos, -1)
    requires Probing(h, shifts, vs, bs, key, p) && !Holds(vs, bs, key, p.df, p.b)
    requires p.df <= bs[p.b].df || p.df < 3 * DIST_INC
    ensures Probing(h, shifts, vs, bs, key, Advance(p, |bs|))
    ensures p.df <= bs[p.b].df ==> Follows(bs, Advance(p, |bs|))
    ensures p.df == bs[p.b].df ==> Advance(p, |bs|).df >= bs[Advance(p, |bs|).b].df
    ensures 0 < Left(Advance(p, |bs|), |bs|) < Left(p, |bs|)
  {
    assert Opened(true);
    assert bs[p.b].df != 0 ==> StoredAt(h, shifts, vs, bs, bs[p.b].idx, p.b);
    MissedStep(vs, bs, key, h(key), shifts, p);
    assert Back(Next(p.b, |bs|), 1, |bs|) == p.b;
  }

  lemma MissedStep<K, V>(vs: seq<(K, V)>, bs: seq<Bucket>, key: K, hash: nat, shifts: nat, p: Probe)
    requires p.b < |bs| && Missed(vs, bs, key, hash, shifts, p) && !Holds(vs, bs, key, p.df, p.b)
    requires p.df / DIST_INC <= |bs|
    ensures Missed(vs, bs, key, hash, shifts, Advance(p, |bs|))
    ensures Left(Advance(p, |bs|), |bs|) == Left(p, |bs|) - 1
  {
    assert (p.df + DIST_INC) / DIST_INC == p.df / DIST_INC + 1;
    assert (p.df + DIST_INC) % DIST_INC == p.df % DIST_INC;
  }

  lemma ProbedBefore<K, V>(vs: seq<(K, V)>, bs: seq<Bucket>, key: K, hash: nat, shifts: nat, p: Probe, t: nat)
    requires Missed(vs, bs, key, hash, shifts, p) && 1 <= t < p.df / DIST_INC
    ensures !Holds(vs, bs, key, DIST_INC * t + hash % DIST_INC, Fwd(Home(hash, shifts), t - 1, |bs|))
  {
  }

  /** Meeting a smaller value proves the key absent: it would have had to be found before. */
  lemma ProbeMiss<K, V>(h: K -> nat, shifts: nat, vs: seq<(K, V)>, bs: seq<Bucket>, pos: seq<nat>, key: K,
                        p: Probe, i: nat)
    requires IndexOk(h, shifts, vs, bs, pos, -1) && i < |pos| <= |vs|
    requires Probing(h, shifts, vs, bs, key, p) && p.df > bs[p.b].df
    ensures vs[i].0 != key
  {
    assert Opened(true);
    assert StoredAt(h, shifts, vs, bs, i, pos[i]);
    if vs[i].0 == key {
      var t: nat := bs[pos[i]].df / DIST_INC;
      if p.df / DIST_INC <= t {
        ProbeChain(bs, pos[i], h(key), shifts, p.df / DIST_INC - 1);
      } else {
        ProbedBefore(vs, bs, key, h(key), shifts, p, t);
      }
    }
  }

  lemma ProbeMissAll<K, V>(h: K -> nat, shifts: nat, vs: seq<(K, V)>, bs: seq<Bucket>, pos: seq<nat>, key: K,
                           p: Probe)
    requires IndexOk(h, shifts, vs, bs, pos, -1) && |pos| <= |vs|
    requires Probing(h, shifts, vs, bs, key, p) && p.df > bs[p.b].df
    ensures forall i :: 0 <= i < |pos| ==> vs[i].0 != key
  {
    forall i: nat | i < |pos|
      ensures vs[i].0 != key
    {
      ProbeMiss(h, shifts, vs, bs, pos, key, p, i);
    }
  }

  /** Appending a value leaves a finished probe in place. */
  lemma AppendKeepsProbe<K, V>(h: K -> nat, shifts: nat, vs: seq<(K, V)>, bs: seq<Bucket>, pos: seq<nat>, kv: (K, V),
                               p: Probe)
    requires IndexOk(h, shifts, vs, bs, pos, -1) && |pos| == |vs|
    requires Probing(h, shifts, vs, bs, kv.0, p)
    ensures Probing(h, shifts, vs + [kv], bs, kv.0, p)
  {
    assert Opened(true);
    var ws := vs + [kv];
    forall e: nat, c: nat | e < |bs| && Holds(ws, bs, kv.0, c, e) && c != 0
      ensures Holds(vs, bs, kv.0, c, e)
    {
      assert bs[e].idx < |vs|;
    }
  }

  // ---------------------------------------------------------------------------------------------------------
  // Placing an entry and shifting up

  /** A bucket in hand may be put at q without breaking the ring order. */
  ghost predicate Fits(bs: seq<Bucket>, df: nat, q: nat)
    requires q < |bs|
  {
    && df >= DIST_INC
    && df >= bs[q].df
    && (df >= 2 * DIST_INC ==> bs[Back(q, 1, |bs|)].df + DIST_INC >= df)
  }

  lemma FitsKeepsRing(bs: seq<Bucket>, c: Bucket, q: nat)
    requires RingOk(bs) && q < |bs| && Fits(bs, c.df, q)
    ensures RingOk(bs[q := c])
    ensures bs[q].df != 0 ==> Fits(bs[q := c], bs[q].df + DIST_INC, Next(q, |bs|))
  {
    var n := |bs|;
    var cs := bs[q := c];
    forall b | 0 <= b < n && cs[Next(b, n)].df >= 2 * DIST_INC
      ensures cs[b].df + DIST_INC >= cs[Next(b, n)].df
    {
      if Next(b, n) == q {
        assert Back(q, 1, n) == b;
      }
    }
    assert Back(Next(q, n), 1, n) == q;
  }

  /** Bucket c is in hand and goes to q; every other value below |pos| is indexed, and a bucket is free. */
  ghost predicate InHand<K, V>(h: K -> nat, shifts: nat, vs: seq<(K, V)>, bs: seq<Bucket>, pos: seq<nat>,
                               c: Bucket, q: nat, free: nat)
    requires q < |bs| && free < |bs| && c.idx < |pos| <= |vs|
  {
    && RingOk(bs) && bs[free].df == 0
    && IndexedBut(h, shifts, vs, bs, pos, c.idx)
    && Fits(bs, c.df, q)
    && Describes(c.df, h(vs[c.idx].0), shifts, q, |bs|)
  }

  ghost predicate Carrying<K, V>(h: K -> nat, shifts: nat, vs: seq<(K, V)>, bs: seq<Bucket>, pos: seq<nat>,
                                 c: Bucket, q: nat, free: nat) {
    && q < |bs| && free < |bs| && c.idx < |pos| <= |vs|
    && forall d {:trigger Opened(d)} :: Opened(d) ==> InHand(h, shifts, vs, bs, pos, c, q, free)
  }

  function Pushed(b: Bucket): Bucket {
    Bucket(b.df + DIST_INC, b.idx)
  }

  /** Fewer indexed values than buckets leave a bucket free. */
  lemma SomeFree<K, V>(h: K -> nat, shifts: nat, vs: seq<(K, V)>, bs: seq<Bucket>, pos: seq<nat>) returns (free: nat)
    requires IndexOk(h, shifts, vs, bs, pos, -1) && |pos| < |bs|
    ensures free < |bs| && bs[free].df == 0
  {
    assert Opened(true);
    if forall b :: 0 <= b < |bs| ==> bs[b].df != 0 {
      Pigeonhole(seq(|bs|, b requires 0 <= b < |bs| => bs[b].idx), |pos|);
    }
    free :| free < |bs| && bs[free].df == 0;
  }

  /** A sequence of numbers below n that is longer than n repeats one. */
  lemma {:induction false} Pigeonhole(s: seq<nat>, n: nat)
    requires |s| > n && forall i :: 0 <= i < |s| ==> s[i] < n
    ensures exists i, j :: 0 <= i < j < |s| && s[i] == s[j]
    decreases n
  {
    var last := s[|s| - 1];
    if i :| 0 <= i < |s| - 1 && s[i] == last {
      assert s[i] == s[|s| - 1];
    } else {
      var t := seq(|s| - 1, i requires 0 <= i < |s| - 1 => if s[i] == n - 1 then last else s[i]);
      Pigeonhole(t, n - 1);
    }
  }

  /** Where probing stopped, the next value can be taken in hand. */
  lemma ShiftStart<K, V>(h: K -> nat, shifts: nat, vs: seq<(K, V)>, bs: seq<Bucket>, pos: seq<nat>, p: Probe, free: nat)
    requires IndexOk(h, shifts, vs, bs, pos, -1) && |pos| < |vs| && free < |bs| && bs[free].df == 0
    requires Probing(h, shifts, vs, bs, vs[|pos|].0, p) && Follows(bs, p) && p.df >= bs[p.b].df
    ensures Carrying(h, shifts, vs, bs, pos + [0], Bucket(p.df, |pos|), p.b, free)
  {
    assert Opened(true);
    DistanceBound(bs, p.b, p.df, free);
    assert Describes(p.df, h(vs[|pos|].0), shifts, p.b, |bs|);
    forall i | 0 <= i < |pos|
      ensures StoredAt(h, shifts, vs, bs, i, (pos + [0])[i])
    {
      assert StoredAt(h, shifts, vs, bs, i, pos[i]);
    }
  }

  lemma ShiftStep<K, V>(h: K -> nat, shifts: nat, vs: seq<(K, V)>, bs: seq<Bucket>, pos: seq<nat>,
                        c: Bucket, q: nat, free: nat)
    requires Carrying(h, shifts, vs, bs, pos, c, q, free) && bs[q].df != 0
    ensures Carrying(h, shifts, vs, bs[q := c], pos[c.idx := q], Pushed(bs[q]), Next(q, |bs|), free)
    ensures Gap(Next(q, |bs|), free, |bs|) < Gap(q, free, |bs|)
  {
    assert Opened(true);
    var i := bs[q].idx;
    assert StoredAt(h, shifts, vs, bs, i, q);
    FitsKeepsRing(bs, c, q);
    DistanceBound(bs[q := c], Next(q, |bs|), bs[q].df + DIST_INC, free);
    DescribesPushed(bs[q].df, h(vs[i].0), shifts, q, |bs|);
    StoreInHand(h, shifts, vs, bs, pos, c, q, i);
  }

  lemma DescribesPushed(df: nat, hash: nat, shifts: nat, q: nat, n: nat)
    requires q < n && Describes(df, hash, shifts, q, n) && (df + DIST_INC) / DIST_INC <= n
    ensures Describes(df + DIST_INC, hash, shifts, Next(q, n), n)
  {
    assert (df + DIST_INC) / DIST_INC == df / DIST_INC + 1;
    assert (df + DIST_INC) % DIST_INC == df % DIST_INC;
  }

  /** Putting c down at q stores its value there and takes out the one q pointed at, if any. */
  lemma StoreInHand<K, V>(h: K -> nat, shifts: nat, vs: seq<(K, V)>, bs: seq<Bucket>, pos: seq<nat>,
                          c: Bucket, q: nat, out: int)
    requires q < |bs| && c.idx < |pos| && c.df != 0 && IndexedBut(h, shifts, vs, bs, pos, c.idx)
    requires Describes(c.df, h(vs[c.idx].0), shifts, q, |bs|)
    requires out == if bs[q].df == 0 then -1 else bs[q].idx
    ensures IndexedBut(h, shifts, vs, bs[q := c], pos[c.idx := q], out)
  {
    var bs', pos' := bs[q := c], pos[c.idx := q];
    forall i | 0 <= i < |pos| && i != out
      ensures StoredAt(h, shifts, vs, bs', i, pos'[i])
    {
      if i != c.idx {
        assert StoredAt(h, shifts, vs, bs, i, pos[i]);
      }
    }
  }

  lemma ShiftEnd<K, V>(h: K -> nat, shifts: nat, vs: seq<(K, V)>, bs: seq<Bucket>, pos: seq<nat>,
                       c: Bucket, q: nat, free: nat)
    requires Carrying(h, shifts, vs, bs, pos, c, q, free) && bs[q].df == 0
    ensures IndexOk(h, shifts, vs, bs[q := c], pos[c.idx := q], -1)
  {
    assert Opened(true);
    FitsKeepsRing(bs, c, q);
    StoreInHand(h, shifts, vs, bs, pos, c, q, -1);
    var a := Next(free, |bs|);
    assert bs[a].df < 2 * DIST_INC;
    assert if q == free then bs[q := c][a].df < 2 * DIST_INC else bs[q := c][free].df == 0;
  }

  // ---------------------------------------------------------------------------------------------------------
  // Backward shift: bucket `hole` is to be vacated, its stale content is still there

  ghost predicate IndexedAround<K, V>(h: K -> nat, shifts: nat, vs: seq<(K, V)>, bs: seq<Bucket>, pos: seq<nat>,
                                      gone: nat, hole: nat) {
    && gone < |pos| <= |vs| && hole < |bs|
    && (forall i :: 0 <= i < |pos| && i != gone ==> pos[i] != hole && StoredAt(h, shifts, vs, bs, i, pos[i]))
    && (forall b :: 0 <= b < |bs| && b != hole && bs[b].df != 0 ==>
          bs[b].idx < |pos| && bs[b].idx != gone && pos[bs[b].idx] == b)
  }

  /** Bucket a ends the shift at the latest. */
  ghost predicate Hollow<K, V>(h: K -> nat, shifts: nat, vs: seq<(K, V)>, bs: seq<Bucket>, pos: seq<nat>,
                               gone: nat, hole: nat, a: nat) {
    && hole < |bs| && a < |bs|
    && forall d {:trigger Opened(d)} :: Opened(d) ==>
         && RingOk(bs) && bs[hole].df != 0 && bs[a].df < 2 * DIST_INC
         && IndexedAround(h, shifts, vs, bs, pos, gone, hole)
  }

  function Moved(b: Bucket): Bucket
    requires b.df >= DIST_INC
  {
    Bucket(b.df - DIST_INC, b.idx)
  }

  lemma HoleKeepsRing(bs: seq<Bucket>, hole: nat)
    requires RingOk(bs) && hole < |bs| && bs[hole].df != 0
    requires bs[Next(hole, |bs|)].df >= 2 * DIST_INC
    ensures RingOk(bs[hole := Moved(bs[Next(hole, |bs|)])])
  {
    var n, nb := |bs|, Next(hole, |bs|);
    var bs' := bs[hole := Moved(bs[nb])];
    forall b | 0 <= b < n && bs'[Next(b, n)].df >= 2 * DIST_INC
      ensures bs'[b].df + DIST_INC >= bs'[Next(b, n)].df
    {
      assert bs[Next(b, n)].df >= 2 * DIST_INC;
    }
  }

  lemma DescribesMoved(df: nat, hash: nat, shifts: nat, hole: nat, n: nat)
    requires hole < n && Describes(df, hash, shifts, Next(hole, n), n) && df >= 2 * DIST_INC
    ensures Describes(df - DIST_INC, hash, shifts, hole, n)
  {
    assert (df - DIST_INC) / DIST_INC == df / DIST_INC - 1;
    assert (df - DIST_INC) % DIST_INC == df % DIST_INC;
  }

  lemma HoleStep<K, V>(h: K -> nat, shifts: nat, vs: seq<(K, V)>, bs: seq<Bucket>, pos: seq<nat>,
                       gone: nat, hole: nat)
    requires |bs| >= 4 && hole < |bs| && bs[hole].df != 0
    requires IndexedAround(h, shifts, vs, bs, pos, gone, hole)
    requires bs[Next(hole, |bs|)].df >= 2 * DIST_INC
    ensures var nb := Next(hole, |bs|);
            bs[nb].idx < |pos|
            && IndexedAround(h, shifts, vs, bs[hole := Moved(bs[nb])], pos[bs[nb].idx := hole], gone, nb)
  {
    var n, nb := |bs|, Next(hole, |bs|);
    var m := bs[nb].idx;
    var pos' := pos[m := hole];
    var bs' := bs[hole := Moved(bs[nb])];
    assert pos[m] == nb && m != gone && StoredAt(h, shifts, vs, bs, m, nb);
    DescribesMoved(bs[nb].df, h(vs[m].0), shifts, hole, n);
    forall i | 0 <= i < |pos| && i != gone
      ensures pos'[i] != nb && StoredAt(h, shifts, vs, bs', i, pos'[i])
    {
      if i != m {
        assert StoredAt(h, shifts, vs, bs, i, pos[i]) && pos[i] != nb;
      }
    }
    forall b | 0 <= b < n && b != nb && bs'[b].df != 0
      ensures bs'[b].idx < |pos| && bs'[b].idx != gone && pos'[bs'[b].idx] == b
    {
      if b != hole {
        assert bs[b].idx != m;
      }
    }
  }

  lemma HollowStart<K, V>(h: K -> nat, shifts: nat, vs: seq<(K, V)>, bs: seq<Bucket>, pos: seq<nat>, b: nat)
    returns (a: nat)
    requires IndexOk(h, shifts, vs, bs, pos, -1) && b < |bs| && bs[b].df != 0
    ensures Hollow(h, shifts, vs, bs, pos, bs[b].idx, b, a)
  {
    assert Opened(true);
    a :| a < |bs| && bs[a].df < 2 * DIST_INC;
    var gone := bs[b].idx;
    forall i | 0 <= i < |pos| && i != gone
      ensures pos[i] != b && StoredAt(h, shifts, vs, bs, i, pos[i])
    {
    }
  }

  lemma HollowStep<K, V>(h: K -> nat, shifts: nat, vs: seq<(K, V)>, bs: seq<Bucket>, pos: seq<nat>,
                         gone: nat, hole: nat, a: nat)
    requires Hollow(h, shifts, vs, bs, pos, gone, hole, a)
    requires bs[Next(hole, |bs|)].df >= 2 * DIST_INC
    ensures var nb := Next(hole, |bs|);
            bs[nb].idx < |pos|
            && Hollow(h, shifts, vs, bs[hole := Moved(bs[nb])], pos[bs[nb].idx := hole], gone, nb, a)
            && Gap(Next(nb, |bs|), a, |bs|) < Gap(nb, a, |bs|)
  {
    assert Opened(true);
    HoleKeepsRing(bs, hole);
    HoleStep(h, shifts, vs, bs, pos, gone, hole);
  }

  /** Freeing the hole leaves a proper ring without the erased entry. */
  lemma HollowEnd<K, V>(h: K -> nat, shifts: nat, vs: seq<(K, V)>, bs: seq<Bucket>, pos: seq<nat>,
                        gone: nat, hole: nat, a: nat)
    requires Hollow(h, shifts, vs, bs, pos, gone, hole, a)
    requires bs[Next(hole, |bs|)].df < 2 * DIST_INC
    ensures gone < |pos| <= |vs| && IndexOk(h, shifts, vs, bs[hole := FREE], pos, gone)
  {
    assert Opened(true);
    var bs' := bs[hole := FREE];
    assert bs'[hole].df < 2 * DIST_INC;
    forall i | 0 <= i < |pos| && i != gone
      ensures StoredAt(h, shifts, vs, bs', i, pos[i])
    {
      assert StoredAt(h, shifts, vs, bs, i, pos[i]);
    }
  }

  // ---------------------------------------------------------------------------------------------------------
  // Finding the bucket of a known value

  /** Bucket p is the only one that points at value i; d steps from home the walk has not passed it. */
  ghost predicate Walking(bs: seq<Bucket>, i: nat, hash: nat, shifts: nat, p: nat, d: nat) {
    && p < |bs| && Home(hash, shifts) < |bs| && d < bs[p].df / DIST_INC <= |bs|
    && forall o {:trigger Opened(o)} :: Opened(o) ==>
         && RingOk(bs) && bs[p].idx == i && Describes(bs[p].df, hash, shifts, p, |bs|)
         && (forall b :: 0 <= b < |bs| && bs[b].df != 0 && bs[b].idx == i ==> b == p)
  }

  lemma WalkStart<K, V>(h: K -> nat, shifts: nat, vs: seq<(K, V)>, bs: seq<Bucket>, pos: seq<nat>, missing: int, i: nat)
    requires IndexOk(h, shifts, vs, bs, pos, missing) && i < |pos| <= |vs| && i != missing
    ensures Walking(bs, i, h(vs[i].0), shifts, pos[i], 0)
    ensures bs[pos[i]].df != 0 && bs[pos[i]].idx == i
  {
    assert Opened(true);
    assert StoredAt(h, shifts, vs, bs, i, pos[i]);
  }

  /** The walk passes no free bucket, so an index that matches is the one looked for. */
  lemma WalkStep(bs: seq<Bucket>, i: nat, hash: nat, shifts: nat, p: nat, d: nat)
    requires Walking(bs, i, hash, shifts, p, d)
    ensures var c := Fwd(Home(hash, shifts), d, |bs|);
            if bs[c].idx == i then c == p
            else Walking(bs, i, hash, shifts, p, d + 1) && Next(c, |bs|) == Fwd(Home(hash, shifts), d + 1, |bs|)
  {
    assert Opened(true);
    ProbeChain(bs, p, hash, shifts, d);
  }

  // ---------------------------------------------------------------------------------------------------------
  // Overwriting an erased value with the last one

  /** Overwriting with the last element (unless it is the last itself) and popping. */
  function SwapRemove<T>(s: seq<T>, i: nat): seq<T>
    requires i < |s|
  {
    var t := if i != |s| - 1 then s[i := s[|s| - 1]] else s;
    t[..|s| - 1]
  }

  lemma SwapRemoveAt<T>(s: seq<T>, i: nat)
    requires i < |s|
    ensures |SwapRemove(s, i)| == |s| - 1
    ensures forall j :: 0 <= j < |s| - 1 ==> SwapRemove(s, i)[j] == if j == i then s[|s| - 1] else s[j]
  {
  }

  /** The ring after bucket c has been redirected to value i. */
  function Redirect(bs: seq<Bucket>, c: nat, i: nat): seq<Bucket>
    requires c < |bs|
  {
    bs[c := Bucket(bs[c].df, i)]
  }

  lemma SwapRemoveLast<K, V>(h: K -> nat, shifts: nat, vs: seq<(K, V)>, bs: seq<Bucket>, pos: seq<nat>)
    requires |pos| == |vs| > 0 && IndexOk(h, shifts, vs, bs, pos, |vs| - 1)
    ensures IndexOk(h, shifts, SwapRemove(vs, |vs| - 1), bs, SwapRemove(pos, |vs| - 1), -1)
  {
    assert Opened(true);
    var ws, ps := SwapRemove(vs, |vs| - 1), SwapRemove(pos, |vs| - 1);
    forall i | 0 <= i < |ps|
      ensures StoredAt(h, shifts, ws, bs, i, ps[i])
    {
      assert StoredAt(h, shifts, vs, bs, i, pos[i]);
    }
  }

  lemma SwapRemoveInner<K, V>(h: K -> nat, shifts: nat, vs: seq<(K, V)>, bs: seq<Bucket>, pos: seq<nat>, gone: nat)
    requires |pos| == |vs| && gone < |vs| - 1 && IndexOk(h, shifts, vs, bs, pos, gone)
    ensures pos[|vs| - 1] < |bs|
    ensures IndexOk(h, shifts, SwapRemove(vs, gone), Redirect(bs, pos[|vs| - 1], gone), SwapRemove(pos, gone), -1)
  {
    assert Opened(true);
    var last := |vs| - 1;
    assert StoredAt(h, shifts, vs, bs, last, pos[last]);
    var bs', ws, ps := Redirect(bs, pos[last], gone), SwapRemove(vs, gone), SwapRemove(pos, gone);
    SwapRemoveAt(vs, gone);
    SwapRemoveAt(pos, gone);
    forall i | 0 <= i < |ps|
      ensures StoredAt(h, shifts, ws, bs', i, ps[i])
    {
      assert i != gone ==> StoredAt(h, shifts, vs, bs, i, pos[i]);
    }
    var a :| 0 <= a < |bs| && bs[a].df < 2 * DIST_INC;
    assert bs'[a].df < 2 * DIST_INC;
  }
}
