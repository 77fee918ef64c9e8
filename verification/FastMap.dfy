// The dense Robin-Hood hash map behind MFFastMap: a vector of entries without holes and a ring of buckets.
module FastMap {
  import opened Hiding
  import opened Powers
  import opened RobinHood
  import opened DenseVector
  import Duplicates

  datatype Lookup = Found(at: nat) | Missing

  /** Sizing the ring: too many entries, a shift of 0 (after which nothing is known), or done. */
  datatype Sizing = TooMany | Undefined | Sized

  /** The size a ring is asked for: what is wanted, within the maximum, and what is there. */
  function Needed(wanted: nat, have: nat): nat {
    var capa := Min(wanted, MAX_BUCKET_COUNT);
    if capa < have then have else capa
  }

  datatype Insertion = Inserted(at: nat) | Present(at: nat) | Overflow

  class Table<K(==,!new), V> {
    const hash: K -> nat
    var values: seq<(K, V)>
    var buckets: seq<Bucket>
    var maxBucketCapacity: nat
    var shifts: nat
    ghost var pos: seq<nat>

    /** The bucket array is sized for the shift; the hash is 64 bits wide. */
    ghost predicate Shaped()
      reads this
    {
      && (forall k :: hash(k) < HASH_RANGE)
      && 0 < shifts <= INITIAL_SHIFTS
      && |buckets| == NumBuckets(shifts)
      && maxBucketCapacity == Capacity(shifts)
    }

    /** The ring indexes the first |pos| values. */
    ghost predicate Ring()
      reads this
    {
      Shaped() && |pos| <= |values| && IndexOk(hash, shifts, values, buckets, pos, -1)
    }

    ghost predicate Valid()
      reads this
    {
      Ring() && |pos| == |values| <= maxBucketCapacity && Distinct(values)
    }

    /** The finite map the table stands for. */
    ghost function Contents(): map<K, V>
      reads this
    {
      ToMap(values)
    }

    constructor (hash: K -> nat)
      requires forall k :: hash(k) < HASH_RANGE
      ensures Valid() && values == [] && this.hash == hash
    {
      this.hash := hash;
      values := [];
      shifts := INITIAL_SHIFTS;
      maxBucketCapacity := Capacity(INITIAL_SHIFTS);
      buckets := seq(NumBuckets(INITIAL_SHIFTS), _ => FREE);
      pos := [];
      new;
      CapacityBelowBuckets(INITIAL_SHIFTS);
      EmptyIndex(hash, shifts, values, buckets);
    }

    method ClearBuckets()
      requires Shaped()
      modifies this`buckets, this`pos
      ensures Ring() && pos == [] && forall b :: 0 <= b < |buckets| ==> buckets[b] == FREE
    {
      CapacityBelowBuckets(shifts);
      buckets := seq(|buckets|, _ => FREE);
      pos := [];
      EmptyIndex(hash, shifts, values, buckets);
    }

    method Clear()
      requires Valid()
      modifies this
      ensures Valid() && values == [] && Contents() == map[]
    {
      values := [];
      ClearBuckets();
    }

    // -------------------------------------------------------------------------------------------------------
    // Building the index

    /** Probe until the bucket's value is no larger than the probe's. */
    method NextWhileLess(key: K) returns (p: Probe)
      requires Ring()
      ensures Probing(hash, shifts, values, buckets, key, p)
      ensures Follows(buckets, p) && p.df >= buckets[p.b].df
    {
      ProbeStart(hash, shifts, values, buckets, key);
      p := FirstProbe(hash(key), shifts);
      while p.df < buckets[p.b].df
        invariant Probing(hash, shifts, values, buckets, key, p) && Follows(buckets, p)
        decreases Left(p, |buckets|)
      {
        ProbeStep(hash, shifts, values, buckets, pos, key, p);
        p := Advance(p, |buckets|);
      }
    }

    /** Index the value number |pos| where its probe ended: shift the ring up to the first free bucket. */
    method PlaceAndShiftUp(p: Probe, valueIdx: nat)
      requires Ring() && valueIdx == |pos| && |pos| < |values| && |pos| < |buckets|
      requires Probing(hash, shifts, values, buckets, values[|pos|].0, p)
      requires Follows(buckets, p) && p.df >= buckets[p.b].df
      modifies this`buckets, this`pos
      ensures Ring() && |pos| == old(|pos|) + 1
    {
      ghost var free := SomeFree(hash, shifts, values, buckets, pos);
      ShiftStart(hash, shifts, values, buckets, pos, p, free);
      var bucket, place: nat, n: nat := Bucket(p.df, valueIdx), p.b, |buckets|;
      pos := pos + [0];
      while buckets[place].df != 0
        invariant Shaped() && |pos| == old(|pos|) + 1 && |buckets| == n && place < n && free < n
        invariant Carrying(hash, shifts, values, buckets, pos, bucket, place, free)
        decreases Gap(place, free, n)
      {
        ShiftStep(hash, shifts, values, buckets, pos, bucket, place, free);
        pos := pos[bucket.idx := place];
        buckets, bucket, place := buckets[place := bucket], Pushed(buckets[place]), Next(place, n);
      }
      ShiftEnd(hash, shifts, values, buckets, pos, bucket, place, free);
      pos := pos[bucket.idx := place];
      buckets := buckets[place := bucket];
    }

    method ClearAndFillBucketsFromValues()
      requires Shaped() && |values| < MAX_BUCKET_COUNT && |values| <= |buckets|
      modifies this`buckets, this`pos
      ensures Ring() && |pos| == |values|
    {
      ClearBuckets();
      var valueIdx := 0;
      while valueIdx < |values|
        invariant Ring() && |pos| == valueIdx <= |values| && |buckets| == |old(buckets)|
      {
        var p := NextWhileLess(values[valueIdx].0);
        PlaceAndShiftUp(p, valueIdx);
        valueIdx := valueIdx + 1;
      }
    }

    method AllocateBucketsFromShift()
      requires 0 < shifts <= INITIAL_SHIFTS
      modifies this`buckets, this`maxBucketCapacity
      ensures |buckets| == NumBuckets(shifts) && maxBucketCapacity == Capacity(shifts)
    {
      CapacityBelowBuckets(shifts);
      var n := NumBuckets(shifts);
      buckets := seq(n, _ => FREE);
      maxBucketCapacity := if n == MAX_BUCKET_COUNT then MAX_BUCKET_COUNT else MaxLoad(n);
    }

    /** Double the ring and rehash, or drop the value just appended when the index type is exhausted. */
    method IncreaseSize() returns (ok: bool)
      requires Ring() && |values| == |pos| + 1 == maxBucketCapacity + 1
      modifies this
      ensures Ring() && |pos| == |values| <= maxBucketCapacity
      ensures ok == (old(maxBucketCapacity) != MAX_BUCKET_COUNT)
      ensures values == if ok then old(values) else old(values)[..|old(values)| - 1]
    {
      CapacityBelowBuckets(shifts);
      if maxBucketCapacity == MAX_BUCKET_COUNT {
        SamePrefix(hash, shifts, values, values[..|values| - 1], buckets, pos);
        values := values[..|values| - 1];
        return false;
      }
      BelowMaximum(shifts);
      Doubling(shifts);
      shifts := shifts - 1;
      AllocateBucketsFromShift();
      CapacityBelowBuckets(shifts);
      ClearAndFillBucketsFromValues();
      return true;
    }

    /** Index the value just appended where its probe ended, or grow. */
    method PlaceElement(p: Probe) returns (r: Insertion)
      requires Ring() && |values| == |pos| + 1 <= maxBucketCapacity + 1
      requires Probing(hash, shifts, values, buckets, values[|pos|].0, p)
      requires Follows(buckets, p) && p.df >= buckets[p.b].df
      modifies this
      ensures Ring() && |pos| == |values| <= maxBucketCapacity
      ensures r == if old(|pos|) == MAX_BUCKET_COUNT then Overflow else Inserted(old(|pos|))
      ensures values == if r == Overflow then old(values)[..|old(values)| - 1] else old(values)
    {
      CapacityBelowBuckets(shifts);
      var valueIdx := |values| - 1;
      if |values| > maxBucketCapacity {
        var ok := IncreaseSize();
        return if ok then Inserted(valueIdx) else Overflow;
      }
      PlaceAndShiftUp(p, valueIdx);
      return Inserted(valueIdx);
    }

    // -------------------------------------------------------------------------------------------------------
    // Inserting

    /** The probe loop shared by the inserting operations. */
    method Locate(key: K) returns (p: Probe, found: bool)
      requires Ring()
      ensures p.b < |buckets|
      ensures found ==> buckets[p.b].idx < |pos| && values[buckets[p.b].idx].0 == key
      ensures !found ==> forall i :: 0 <= i < |pos| ==> values[i].0 != key
      ensures !found ==> Probing(hash, shifts, values, buckets, key, p)
      ensures !found ==> Follows(buckets, p) && p.df >= buckets[p.b].df
    {
      ProbeStart(hash, shifts, values, buckets, key);
      p := FirstProbe(hash(key), shifts);
      while p.df <= buckets[p.b].df
        invariant Probing(hash, shifts, values, buckets, key, p) && Follows(buckets, p)
        decreases Left(p, |buckets|)
      {
        BucketPoints(hash, shifts, values, buckets, pos, -1, p.b);
        if p.df == buckets[p.b].df && values[buckets[p.b].idx].0 == key {
          return p, true;
        }
        ProbeStep(hash, shifts, values, buckets, pos, key, p);
        p := Advance(p, |buckets|);
      }
      ProbeMissAll(hash, shifts, values, buckets, pos, key, p);
      return p, false;
    }

    /** Insert the key unless it is present. */
    method TryEmplace(key: K, value: V) returns (r: Insertion)
      requires Valid()
      modifies this
      ensures Valid()
      ensures r.Present? ==> values == old(values) && r.at < |values| && values[r.at].0 == key
      ensures !r.Present? ==> key !in old(Contents())
      ensures r.Inserted? ==> values == old(values) + [(key, value)] && r.at == |old(values)|
      ensures r.Overflow? ==> values == old(values) && |values| == MAX_BUCKET_COUNT
      ensures Contents() == if r.Inserted? then old(Contents())[key := value] else old(Contents())
    {
      var p, found := Locate(key);
      if found {
        return Present(buckets[p.b].idx);
      }
      AppendDistinct(values, (key, value));
      AppendKeepsProbe(hash, shifts, values, buckets, pos, (key, value), p);
      SamePrefix(hash, shifts, values, values + [(key, value)], buckets, pos);
      values := values + [(key, value)];
      r := PlaceElement(p);
      assert r.Overflow? ==> values == old(values);
    }

    /** The general emplace: append first, pop again when the key turns out to be present. */
    method Emplace(key: K, value: V) returns (r: Insertion)
      requires Valid()
      modifies this
      ensures Valid()
      ensures r.Present? ==> values == old(values) && r.at < |values| && values[r.at].0 == key
      ensures !r.Present? ==> key !in old(Contents())
      ensures r.Inserted? ==> values == old(values) + [(key, value)] && r.at == |old(values)|
      ensures r.Overflow? ==> values == old(values) && |values| == MAX_BUCKET_COUNT
      ensures Contents() == if r.Inserted? then old(Contents())[key := value] else old(Contents())
    {
      ghost var before := values;
      SamePrefix(hash, shifts, values, values + [(key, value)], buckets, pos);
      values := values + [(key, value)];
      var p, found := Locate(key);
      if found {
        SamePrefix(hash, shifts, values, before, buckets, pos);
        values := values[..|values| - 1];
        assert values == before;
        return Present(buckets[p.b].idx);
      }
      assert forall i :: 0 <= i < |before| ==> before[i] == values[i];
      AppendDistinct(before, (key, value));
      r := PlaceElement(p);
      assert r.Overflow? ==> values == before;
    }

    method InsertOrAssign(key: K, value: V) returns (r: Insertion)
      requires Valid()
      modifies this
      ensures Valid()
      ensures r.Present? <==> key in old(Contents())
      ensures Contents() == if r.Overflow? then old(Contents()) else old(Contents())[key := value]
      ensures !r.Overflow? ==> r.at < |values| && values[r.at] == (key, value)
    {
      r := TryEmplace(key, value);
      if r.Present? {
        AssignKeepsDistinct(values, r.at, value);
        AssignKeepsIndex(hash, shifts, values, buckets, pos, r.at, value);
        values := values[r.at := (values[r.at].0, value)];
      }
    }

    // -------------------------------------------------------------------------------------------------------
    // Lookup

    /** The unrolled lookup: two unconditional checks, then a loop. */
    method Find(key: K) returns (r: Lookup)
      requires Valid()
      ensures r.Found? <==> key in Contents()
      ensures r.Found? ==> r.at < |values| && values[r.at] == (key, Contents()[key])
    {
      if |values| == 0 {
        return Missing;
      }
      ProbeStart(hash, shifts, values, buckets, key);
      var p := FirstProbe(hash(key), shifts);
      var hit := Matches(key, p);
      if hit {
        return Found(buckets[p.b].idx);
      }
      ProbeStep(hash, shifts, values, buckets, pos, key, p);
      p := Advance(p, |buckets|);
      hit := Matches(key, p);
      if hit {
        return Found(buckets[p.b].idx);
      }
      ProbeStep(hash, shifts, values, buckets, pos, key, p);
      p := Advance(p, |buckets|);
      while true
        invariant Probing(hash, shifts, values, buckets, key, p)
        decreases Left(p, |buckets|)
      {
        hit := Matches(key, p);
        if hit {
          return Found(buckets[p.b].idx);
        }
        if p.df > buckets[p.b].df {
          ProbeMissAll(hash, shifts, values, buckets, pos, key, p);
          KeyAbsent(values, key);
          return Missing;
        }
        ProbeStep(hash, shifts, values, buckets, pos, key, p);
        p := Advance(p, |buckets|);
      }
    }

    /** The check every probe makes: equal value, then equal key. */
    method Matches(key: K, p: Probe) returns (hit: bool)
      requires Valid() && Probing(hash, shifts, values, buckets, key, p)
      ensures hit <==> Holds(values, buckets, key, p.df, p.b)
      ensures hit ==> key in Contents() && values[buckets[p.b].idx] == (key, Contents()[key])
    {
      if p.df != buckets[p.b].df {
        return false;
      }
      BucketPoints(hash, shifts, values, buckets, pos, -1, p.b);
      KeyAt(values, buckets[p.b].idx);
      return values[buckets[p.b].idx].0 == key;
    }

    // -------------------------------------------------------------------------------------------------------
    // Erasing

    /** Erase the entry bucket b points at: backward shift, then move the last value into the hole. */
    method DoErase(b: nat) returns (removed: (K, V))
      requires Valid() && b < |buckets| && buckets[b].df != 0
      modifies this`values, this`buckets, this`pos
      ensures Valid()
      ensures var i := old(buckets[b].idx);
              i < |old(values)| && removed == old(values)[i] && values == SwapRemove(old(values), i)
      ensures Contents() == old(Contents()) - {removed.0}
    {
      var gone := buckets[b].idx;
      BucketPoints(hash, shifts, values, buckets, pos, -1, b);
      SwapRemoveMap(values, gone);
      CloseHole(b);
      removed := values[gone];
      MoveLastInto(gone);
    }

    /** The backward shift: buckets move down until a free one or one at its home follows. */
    method CloseHole(b: nat)
      requires Ring() && b < |buckets| && buckets[b].df != 0
      modifies this`buckets, this`pos
      ensures Shaped() && |pos| == old(|pos|) && old(buckets[b].idx) < |pos|
      ensures IndexOk(hash, shifts, values, buckets, pos, old(buckets[b].idx))
    {
      ghost var a := HollowStart(hash, shifts, values, buckets, pos, b);
      ghost var gone := buckets[b].idx;
      var n, hole: nat := |buckets|, b;
      var next: nat := Next(hole, n);
      while buckets[next].df >= 2 * DIST_INC
        invariant Shaped() && |pos| == old(|pos|) && |buckets| == n && hole < n && next == Next(hole, n) && a < n
        invariant Hollow(hash, shifts, values, buckets, pos, gone, hole, a)
        decreases Gap(next, a, n)
      {
        HollowStep(hash, shifts, values, buckets, pos, gone, hole, a);
        pos := pos[buckets[next].idx := hole];
        buckets := buckets[hole := Moved(buckets[next])];
        hole, next := next, Next(next, n);
      }
      HollowEnd(hash, shifts, values, buckets, pos, gone, hole, a);
      buckets := buckets[hole := FREE];
    }

    /** Walk from the home of value i to the bucket that stores its index. */
    method FindIndex(i: nat, ghost missing: int) returns (c: nat)
      requires Shaped() && i < |pos| <= |values| && i != missing
      requires IndexOk(hash, shifts, values, buckets, pos, missing)
      ensures c == pos[i] && c < |buckets| && buckets[c].df != 0 && buckets[c].idx == i
    {
      WalkStart(hash, shifts, values, buckets, pos, missing, i);
      c := Home(hash(values[i].0), shifts);
      ghost var d: nat := 0;
      while buckets[c].idx != i
        invariant Walking(buckets, i, hash(values[i].0), shifts, pos[i], d)
        invariant c == Fwd(Home(hash(values[i].0), shifts), d, |buckets|)
        decreases buckets[pos[i]].df / DIST_INC - d
      {
        WalkStep(buckets, i, hash(values[i].0), shifts, pos[i], d);
        c, d := Next(c, |buckets|), d + 1;
      }
      WalkStep(buckets, i, hash(values[i].0), shifts, pos[i], d);
    }

    /** Replace value `gone` by the last one, redirect that one's bucket, and pop. */
    method MoveLastInto(gone: nat)
      requires Shaped() && gone < |pos| == |values|
      requires IndexOk(hash, shifts, values, buckets, pos, gone)
      modifies this`values, this`buckets, this`pos
      ensures Ring() && |pos| == |values| && values == SwapRemove(old(values), gone)
    {
      var last := |values| - 1;
      if gone != last {
        SwapRemoveInner(hash, shifts, values, buckets, pos, gone);
        var c := FindIndex(last, gone);
        buckets := Redirect(buckets, c, gone);
      } else {
        SwapRemoveLast(hash, shifts, values, buckets, pos);
      }
      pos := SwapRemove(pos, gone);
      values := SwapRemove(values, gone);
    }

    /** The probe of an erase by key: skip greater buckets, then walk the run of equal ones. */
    method LocateRun(key: K) returns (p: Probe)
      requires Valid()
      ensures p.b < |buckets| && p.df >= DIST_INC
      ensures p.df == buckets[p.b].df ==> buckets[p.b].idx < |values| && values[buckets[p.b].idx].0 == key
      ensures p.df != buckets[p.b].df ==> key !in Contents()
    {
      p := NextWhileLess(key);
      var hit := Matches(key, p);
      while p.df == buckets[p.b].df && !hit
        invariant Probing(hash, shifts, values, buckets, key, p) && p.df >= buckets[p.b].df
        invariant hit <==> Holds(values, buckets, key, p.df, p.b)
        decreases Left(p, |buckets|)
      {
        ProbeStep(hash, shifts, values, buckets, pos, key, p);
        p := Advance(p, |buckets|);
        hit := Matches(key, p);
      }
      if p.df != buckets[p.b].df {
        ProbeMissAll(hash, shifts, values, buckets, pos, key, p);
        KeyAbsent(values, key);
      }
    }

    method EraseKey(key: K) returns (removed: nat)
      requires Valid()
      modifies this`values, this`buckets, this`pos
      ensures Valid() && Contents() == old(Contents()) - {key}
      ensures removed == if key in old(Contents()) then 1 else 0
      ensures |values| == |old(values)| - removed
    {
      if |values| == 0 {
        return 0;
      }
      var p := LocateRun(key);
      if p.df != buckets[p.b].df {
        return 0;
      }
      KeyAt(values, buckets[p.b].idx);
      var _ := DoErase(p.b);
      return 1;
    }

    /** Erase through an iterator: the entry number i goes, the last one takes its place. */
    method EraseAt(i: nat)
      requires Valid() && i < |values|
      modifies this`values, this`buckets, this`pos
      ensures Valid() && values == SwapRemove(old(values), i)
      ensures Contents() == old(Contents()) - {old(values)[i].0}
    {
      var b := FindIndex(i, -1);
      var _ := DoErase(b);
    }

    /** First loop of a range erase: m entries from the end fill the front of the gap. */
    method FillGap(first: nat, m: nat)
      requires Valid() && first + 2 * m <= |values|
      modifies this`values, this`buckets, this`pos
      ensures Valid() && values == FillRange(old(values), first, m)
    {
      var idx: nat := first;
      while idx != first + m
        invariant Valid() && first <= idx <= first + m
        invariant values == FillRange(old(values), first, idx - first)
      {
        EraseAt(idx);
        idx := idx + 1;
      }
    }

    /** Second loop: what is left of the gap is at the end now and is popped from the back. */
    method PopTail(mid: nat, last: nat)
      requires Valid() && mid <= last && (mid == last || last == |values|)
      modifies this`values, this`buckets, this`pos
      ensures Valid() && |old(values)| >= last - mid && values == old(values)[..|old(values)| - (last - mid)]
    {
      var idx: nat := last;
      while idx != mid
        invariant Valid() && mid <= idx <= last
        invariant |values| == |old(values)| - (last - idx) && values == old(values)[..|values|]
      {
        idx := idx - 1;
        EraseAt(idx);
      }
    }

    /** Erase the entries numbered first to last - 1. */
    method EraseRange(first: nat, last: nat)
      requires Valid() && first <= last <= |values|
      modifies this`values, this`buckets, this`pos
      ensures Valid() && values == CutRange(old(values), first, last)
      ensures multiset(values) == multiset(old(values)[..first] + old(values)[last..])
    {
      CutRangeExact(values, first, last);
      FillRangeEnd(values, first, last);
      var m: nat := Min(last - first, |values| - last);
      FillGap(first, m);
      PopTail(first + m, last);
    }

    /** Erase every entry the predicate selects, going from back to front. */
    method EraseIf(pred: (K, V) -> bool) returns (removed: nat)
      requires Valid()
      modifies this`values, this`buckets, this`pos
      ensures Valid()
      ensures multiset(values) == multiset(Rejects(old(values), pred))
      ensures removed == |old(values)| - |values|
    {
      ghost var vs := values;
      var oldSize, idx: nat := |values|, |values|;
      assert Swept(vs, vs, |vs|, pred);
      while idx != 0
        invariant Valid() && Swept(vs, values, idx, pred)
      {
        idx := idx - 1;
        SweepStep(vs, values, idx, pred);
        if pred(values[idx].0, values[idx].1) {
          EraseAt(idx);
        }
      }
      SweepEnd(vs, values, pred);
      return oldSize - |values|;
    }

    // -------------------------------------------------------------------------------------------------------
    // Replacing the whole vector

    method CalcShiftsForSize(size: nat) returns (s: nat)
      ensures s == ShiftsFor(INITIAL_SHIFTS, size)
    {
      s := INITIAL_SHIFTS;
      while s > 0 && MaxLoad(NumBuckets(s)) < size
        invariant s <= INITIAL_SHIFTS && ShiftsFor(s, size) == ShiftsFor(INITIAL_SHIFTS, size)
      {
        s := s - 1;
      }
    }

    /** Size the ring for more entries, never down. A size beyond the load of the maximal ring leaves no shift. */
    method Reserve(wanted: nat) returns (r: Sizing)
      requires Valid()
      modifies this
      ensures r == if Needed(wanted, |values|) <= MaxLoad(MAX_BUCKET_COUNT) then Sized else Undefined
      ensures values == old(values)
      ensures r.Sized? ==> Valid() && maxBucketCapacity >= Min(wanted, MAX_BUCKET_COUNT)
    {
      var size := Needed(wanted, |values|);
      ShiftsRunOut(size);
      var s := CalcShiftsForSize(size);
      if s == 0 {
        return Undefined;
      }
      Roomy(s, Min(s, shifts), size);
      if s < shifts {
        Resize(s);
      }
      return Sized;
    }

    /** Size the ring for a number of entries, up or down. */
    method Rehash(count: nat) returns (r: Sizing)
      requires Valid()
      modifies this
      ensures r == if Needed(count, |values|) <= MaxLoad(MAX_BUCKET_COUNT) then Sized else Undefined
      ensures values == old(values)
      ensures r.Sized? ==> Valid() && shifts == ShiftsFor(INITIAL_SHIFTS, Needed(count, |values|))
    {
      var size := Needed(count, |values|);
      ShiftsRunOut(size);
      var s := CalcShiftsForSize(size);
      if s == 0 {
        return Undefined;
      }
      if s != shifts {
        Roomy(s, s, size);
        Resize(s);
      }
      return Sized;
    }

    /** A ring for the shift s with all values indexed again. */
    method Resize(s: nat)
      requires Valid() && 0 < s <= INITIAL_SHIFTS && |values| <= Capacity(s) <= NumBuckets(s) && |values| < MAX_BUCKET_COUNT
      modifies this`shifts, this`buckets, this`maxBucketCapacity, this`pos
      ensures Valid() && shifts == s
    {
      shifts := s;
      AllocateBucketsFromShift();
      ClearAndFillBucketsFromValues();
    }

    /**
     * Adopt a whole vector and drop its surplus duplicates, each replaced by the last entry. Vectors of more than 2^32
     * entries are refused; of those let through, the ones beyond the load of the maximal ring leave no shift.
     */
    method Replace(container: seq<(K, V)>) returns (r: Sizing)
      requires Valid()
      modifies this
      ensures r.TooMany? <==> |container| > MAX_BUCKET_COUNT
      ensures r.Sized? <==> |container| <= MaxLoad(MAX_BUCKET_COUNT)
      ensures r.TooMany? ==> values == old(values) && Valid()
      ensures r.Sized? ==> Valid() && OnePerKey(container, values) && values == Duplicates.Kept([], container)
    {
      if |container| > MAX_BUCKET_COUNT {
        return TooMany;
      }
      ShiftsRunOut(|container|);
      var s := CalcShiftsForSize(|container|);
      if s == 0 {
        return Undefined;
      }
      Roomy(s, Min(s, shifts), |container|);
      if s < shifts {
        shifts := s;
        AllocateBucketsFromShift();
      }
      ClearBuckets();
      SamePrefix(hash, shifts, values, container, buckets, pos);
      values := container;
      AdoptValues();
      return Sized;
    }

    /** The indexing loop of replace; its bound is the vector's size truncated to the index type. */
    method AdoptValues()
      requires Ring() && pos == [] && |values| <= |buckets| && |values| <= maxBucketCapacity
      requires |values| < MAX_BUCKET_COUNT
      modifies this`values, this`buckets, this`pos
      ensures Valid() && OnePerKey(old(values), values) && values == Duplicates.Kept([], old(values))
    {
      ghost var all := values;
      OnePerKeyStart(all);
      assert all[..0] == [] && all[0..] == all;
      var valueIdx: nat := 0;
      while valueIdx != |values| % MAX_BUCKET_COUNT
        invariant Ring() && |pos| == valueIdx <= |values| <= |all| && |buckets| == |old(buckets)|
        invariant Distinct(values[..valueIdx]) && OnePerKey(all, values)
        invariant Duplicates.Kept(values[..valueIdx], values[valueIdx..]) == Duplicates.Kept([], all)
        decreases |values| - valueIdx
      {
        valueIdx := AdoptOne(valueIdx, all);
      }
      assert values[..|values|] == values;
    }

    /** Index value number valueIdx, or drop it when its key is indexed already. */
    method AdoptOne(valueIdx: nat, ghost all: seq<(K, V)>) returns (next: nat)
      requires Ring() && |pos| == valueIdx < |values| <= |buckets|
      requires Distinct(values[..valueIdx]) && OnePerKey(all, values)
      modifies this`values, this`buckets, this`pos
      ensures Ring() && |pos| == next <= |values| <= |old(values)| && |buckets| == |old(buckets)|
      ensures Distinct(values[..next]) && OnePerKey(all, values)
      ensures |values| - next < |old(values)| - valueIdx
      ensures Duplicates.Kept(values[..next], values[next..]) == Duplicates.Kept(old(values)[..valueIdx], old(values)[valueIdx..])
    {
      var p, found := Locate(values[valueIdx].0);
      if found {
        DropDuplicate(all, values, buckets[p.b].idx, valueIdx);
        Duplicates.Dropping(values, buckets[p.b].idx, valueIdx);
        SwapRemovePrefix(values, valueIdx);
        SamePrefix(hash, shifts, values, SwapRemove(values, valueIdx), buckets, pos);
        values := SwapRemove(values, valueIdx);
        next := valueIdx;
      } else {
        ExtendPrefix(values, valueIdx);
        Duplicates.Keeping(values, valueIdx);
        PlaceAndShiftUp(p, valueIdx);
        next := valueIdx + 1;
      }
    }
  }

  lemma AssignKeepsIndex<K, V>(h: K -> nat, shifts: nat, vs: seq<(K, V)>, bs: seq<Bucket>, pos: seq<nat>, i: nat, v: V)
    requires IndexOk(h, shifts, vs, bs, pos, -1) && |pos| == |vs| && i < |vs|
    ensures IndexOk(h, shifts, vs[i := (vs[i].0, v)], bs, pos, -1)
  {
    assert Opened(true);
    forall j | 0 <= j < |pos|
      ensures StoredAt(h, shifts, vs[i := (vs[i].0, v)], bs, j, pos[j])
    {
      assert StoredAt(h, shifts, vs, bs, j, pos[j]);
    }
  }

  /** In tables of fewer than 2^24 buckets every stored and probed value fits the 32-bit field of the source. */
  lemma DistancesFit<K, V>(h: K -> nat, shifts: nat, vs: seq<(K, V)>, bs: seq<Bucket>, pos: seq<nat>, key: K, p: Probe)
    requires IndexOk(h, shifts, vs, bs, pos, -1) && |bs| < 0x100_0000 - 1
    requires Probing(h, shifts, vs, bs, key, p)
    ensures p.df < 0x1_0000_0000
    ensures forall b :: 0 <= b < |bs| ==> bs[b].df < 0x1_0000_0000
  {
    assert Opened(true);
    forall b | 0 <= b < |bs|
      ensures bs[b].df < 0x1_0000_0000
    {
      assert bs[b].df != 0 ==> StoredAt(h, shifts, vs, bs, bs[b].idx, b);
    }
  }
}
