// The scatter hash table of the protobuf engine: open addressing with relocation into the chains of PbChains.
//
// Slots are numbered; the program's byte offsets are these numbers times entry_size. Slot 0 belongs to key 0.
module PbTable {
  import opened Wrappers
  import opened Hiding
  import opened PbChains
  import opened Powers

  const MIN_HASHTABLE_SIZE := 8
  const MAX_HASHSIZE := 0xFFFF_FFFF - 100

  /** Doubling from n until the wanted size or the limit is reached. */
  function Doubled(n: nat, wanted: nat, limit: nat): (size: nat)
    requires n > 0
    ensures size >= n
    decreases limit - n
  {
    if n < limit && n < wanted then Doubled(2 * n, wanted, limit) else n
  }

  /** The number of slots pb_resizetable settles on. */
  function NewSize(wanted: nat, entrySize: nat): (size: nat)
    requires entrySize > 0
    ensures size >= MIN_HASHTABLE_SIZE
  {
    Doubled(MIN_HASHTABLE_SIZE, wanted, MAX_HASHSIZE / entrySize)
  }

  /**
   * The size is a power of two, so masking the hash is Scatter's remainder; it is the least one of at least 8 and
   * `wanted`, and falls short of `wanted` only at the limit.
   */
  lemma NewSizeFits(wanted: nat, entrySize: nat)
    requires entrySize > 0
    ensures var n := NewSize(wanted, entrySize);
            && (exists e: nat :: n == Pow2(e))
            && (n >= wanted || n >= MAX_HASHSIZE / entrySize)
            && (n == MIN_HASHTABLE_SIZE || (n % 2 == 0 && n / 2 < wanted && n / 2 < MAX_HASHSIZE / entrySize))
  {
    assert Pow2(3) == 8;
    DoubledFits(3, wanted, MAX_HASHSIZE / entrySize);
  }

  lemma {:induction false} DoubledFits(e: nat, wanted: nat, limit: nat)
    ensures var n := Doubled(Pow2(e), wanted, limit);
            && (exists g: nat :: n == Pow2(g))
            && (n >= wanted || n >= limit)
            && (n == Pow2(e) || (n % 2 == 0 && n / 2 < wanted && n / 2 < limit))
    decreases limit - Pow2(e)
  {
    if Pow2(e) < limit && Pow2(e) < wanted {
      assert Pow2(e + 1) == 2 * Pow2(e);
      DoubledFits(e + 1, wanted, limit);
    }
  }

  class Table<V(==)> {
    const entrySize: nat
    const zero: V
    var size: nat
    var lastfree: nat
    var hasZero: bool
    var hash: seq<Slot<V>>
    ghost var chains: seq<seq<nat>>
    ghost var entries: map<int, V>

    ghost predicate Valid()
      reads this
    {
      && entrySize > 0 && |hash| == size
      && (size == 0 ==> entries == map[] && !hasZero)
      && (size > 0 ==>
            && size > 1 && 1 <= lastfree <= size
            && Holding(hash, chains, zero, entries, lastfree) && |entries| < size
            && (!hasZero ==> hash[0].val == zero))
    }

    /** The payload of key 0; absent reads as zeroed. */
    ghost function ZeroValue(): V
      reads this
      requires Valid()
    {
      if size == 0 then zero else hash[0].val
    }

    /** Every slot of a key other than 0 is taken and the table has reached its largest size. */
    ghost predicate Saturated()
      reads this
      requires Valid()
    {
      size > 0 && |entries| == size - 1 && NewSize(2 * size, entrySize) < 2 * size
    }

    ghost predicate Room(key: int)
      reads this
      requires Valid()
    {
      size > 0 && (key == 0 || |entries| < size - 1)
    }

    constructor (entrySize: nat, zero: V)
      requires entrySize > 0
      ensures Valid() && size == 0 && entries == map[] && !hasZero && this.entrySize == entrySize && this.zero == zero
    {
      this.entrySize, this.zero := entrySize, zero;
      size, lastfree, hasZero, hash := 0, 0, false, [];
      chains, entries := [], map[];
    }

    /** The empty table a resize fills. */
    constructor Sized(size: nat, entrySize: nat, zero: V, hasZero: bool)
      requires entrySize > 0 && size > 1
      ensures Valid() && this.size == size && entries == map[] && this.entrySize == entrySize && this.zero == zero
      ensures this.hasZero == hasZero && ZeroValue() == zero
    {
      this.entrySize, this.zero := entrySize, zero;
      this.size, lastfree, this.hasZero := size, size, hasZero;
      hash := Blank(size, zero);
      chains, entries := seq(size, _ => []), map[];
      new;
      HoldingNothing(size, zero);
    }

    method MainSlot(key: int) returns (p: nat)
      requires Valid() && size > 1 && key != 0
      ensures 1 <= p < size && p == MainPos(key, size)
    {
      p := Scatter(key, size);
      assert Opened(true);
    }

    method Get(key: int) returns (r: Option<nat>)
      requires Valid()
      ensures key == 0 ==> r == if hasZero then Some(0) else None
      ensures key != 0 ==> (r.Some? <==> key in entries)
      ensures r.Some? ==> r.value < size && hash[r.value].key == key && (r.value == 0 <==> key == 0)
      ensures key != 0 && r.Some? ==> hash[r.value].val == entries[key]
    {
      if size == 0 {
        return None;
      }
      if key == 0 {
        if hasZero {
          return Some(0);
        }
        return None;
      }
      ghost var m: nat, j: nat := LookupStart(hash, chains, zero, entries, lastfree, key);
      var e: nat := MainSlot(key);
      while hash[e].key != key
        invariant Searching(hash, chains, zero, key, e, m, j)
        decreases |chains[m]| - j
      {
        LookupStep(hash, chains, zero, entries, lastfree, key, e, m, j);
        if hash[e].next == 0 {
          return None;
        }
        e := After(hash, e);
        j := Succ(j);
      }
      LookupHit(hash, chains, zero, entries, lastfree, e);
      return Some(e);
    }

    /** Overwrite the payload of a key found or added before. */
    method Store(e: nat, v: V)
      requires Valid() && e < size && (e == 0 || hash[e].key != 0) && (e == 0 ==> hasZero)
      modifies this`hash, this`entries
      ensures Valid() && |hash| == old(|hash|) && hash[e].key == old(hash[e].key) && hash[e].val == v
      ensures entries == if e == 0 then old(entries) else old(entries[hash[e].key := v])
      ensures ZeroValue() == if e == 0 then v else old(ZeroValue())
      ensures |entries| == old(|entries|)
    {
      if e == 0 {
        OverwriteZero(hash, chains, zero, entries, lastfree, v);
      } else {
        Overwrite(hash, chains, zero, entries, lastfree, e, v);
        SameSize(entries, hash[e].key, v);
        entries := entries[hash[e].key := v];
      }
      hash := hash[e := Slot(hash[e].key, hash[e].next, v)];
    }

    /** The new key goes into its free main position. */
    method TakeMainSlot(key: int, mp: nat)
      requires Valid() && size > 1 && key != 0 && key !in entries && mp == MainPos(key, size) && hash[mp].key == 0
      modifies this`hash, this`chains, this`entries
      ensures Valid() && |hash| == old(|hash|) && hash[mp].key == key && hash[mp].val == zero
      ensures entries == old(entries)[key := zero] && ZeroValue() == old(ZeroValue())
      ensures old(|entries|) < size - 1 && |entries| == old(|entries|) + 1
    {
      AddFree(hash, chains, zero, entries, lastfree, key);
      hash := hash[mp := Slot(key, hash[mp].next, zero)];
      chains := chains[mp := [mp]];
      entries := entries[key := zero];
      NoneFree(hash, chains, zero, entries, lastfree);
    }

    /** Walk lastfree down to a free slot; without one the table is full. */
    method FindFree() returns (f: Option<nat>)
      requires Valid() && size > 1
      modifies this`lastfree
      ensures 1 <= lastfree <= old(lastfree)
      ensures f.None? ==> Valid() && |entries| == size - 1 && FullFrom(hash, 1)
      ensures f.Some? ==>
                && 1 <= f.value < size && lastfree == f.value && hash[f.value].key == 0 && hash[f.value].next == 0
                && Holding(hash, chains, zero, entries, f.value + 1) && |entries| < size - 1
    {
      while lastfree > 1
        invariant 1 <= lastfree <= old(lastfree) && Valid()
      {
        ScanDown(hash, chains, zero, entries, lastfree);
        if hash[lastfree - 1].key == 0 && hash[lastfree - 1].next == 0 {
          NoneFree(hash, chains, zero, entries, lastfree);
          lastfree := lastfree - 1;
          return Some(lastfree);
        }
        lastfree := lastfree - 1;
      }
      NoneFree(hash, chains, zero, entries, lastfree);
      return None;
    }

    /** Slots, chains and entries around the free slot f, before it is used. */
    ghost predicate Spare(f: nat)
      reads this
    {
      && entrySize > 0 && |hash| == size > 1 && 1 <= f < size && lastfree == f && hash[f].key == 0 && hash[f].next == 0
      && Holding(hash, chains, zero, entries, f + 1) && |entries| < size - 1
      && (!hasZero ==> hash[0].val == zero)
    }

    /** The main position is held by a key of the same chain: the new key goes to f, linked in behind it. */
    method LinkBehind(key: int, mp: nat, f: nat)
      requires Spare(f) && key != 0 && key !in entries && mp == MainPos(key, size) && hash[mp].key != 0
      requires MainPos(hash[mp].key, size) == mp
      modifies this`hash, this`chains, this`entries
      ensures Valid() && |hash| == old(|hash|) && hash[f].key == key && hash[f].val == zero
      ensures entries == old(entries)[key := zero] && hash[0].val == old(hash[0].val)
      ensures |entries| == old(|entries|) + 1
    {
      AddBehind(hash, chains, zero, entries, f, key);
      var next := if hash[mp].next != 0 then mp + hash[mp].next - f else hash[f].next;
      var linked := hash[f := Slot(key, next, zero)][mp := Slot(hash[mp].key, f - mp, hash[mp].val)];
      assert linked == PutBehind(hash, mp, f, key, zero);
      hash := linked;
      chains := Spliced(chains, mp, f);
      entries := entries[key := zero];
    }

    /** The slot before mp in the chain of mp's key. */
    method Predecessor(mp: nat, f: nat) returns (on: nat, ghost m: nat, ghost j: nat)
      requires Spare(f) && 1 <= mp < size && hash[mp].key != 0 && MainPos(hash[mp].key, size) != mp
      ensures m == MainPos(hash[mp].key, size) && m < |chains| && 0 < j < |chains[m]|
      ensures chains[m][j] == mp && chains[m][j - 1] == on
      ensures on < size && After(hash, on) == mp
    {
      m, j := OccupantOf(hash, chains, zero, entries, f + 1, mp);
      ghost var i: nat := 0;
      on := Scatter(hash[mp].key, size);
      assert on == m by {
        assert Opened(true);
      }
      OccupantNext(hash, chains, zero, entries, f + 1, m, i, j);
      while After(hash, on) != mp
        invariant i < j && on == chains[m][i] && on < size && 0 <= After(hash, on) && After(hash, on) == chains[m][i + 1]
        decreases j - i
      {
        i := i + 1;
        OccupantNext(hash, chains, zero, entries, f + 1, m, i, j);
        on := After(hash, on);
      }
      OccupantNext(hash, chains, zero, entries, f + 1, m, i, j);
    }

    /** The main position is held by a key of another chain: that key moves to f and leaves the slot to the new one. */
    method MoveAway(key: int, mp: nat, f: nat)
      requires Spare(f) && key != 0 && key !in entries && mp == MainPos(key, size) && hash[mp].key != 0
      requires MainPos(hash[mp].key, size) != mp
      modifies this`hash, this`chains, this`entries
      ensures Valid() && |hash| == old(|hash|) && hash[mp].key == key && hash[mp].val == zero
      ensures entries == old(entries)[key := zero] && hash[0].val == old(hash[0].val)
      ensures |entries| == old(|entries|) + 1
    {
      var on: nat, m: nat, j: nat := Predecessor(mp, f);
      AddInstead(hash, chains, zero, entries, f, key, m, j);
      var moved := Slot(hash[mp].key, if hash[mp].next != 0 then hash[mp].next + mp - f else 0, hash[mp].val);
      var relinked := hash[on := Slot(hash[on].key, f - on, hash[on].val)][f := moved][mp := Slot(key, 0, zero)];
      assert relinked == PutInstead(hash, mp, on, f, key, zero);
      hash := relinked;
      chains := Moved(chains, m, j, f, mp);
      entries := entries[key := zero];
    }

    /** Add an absent key (or reset key 0) and return its slot, the payload zeroed. Only a saturated table refuses. */
    method NewKey(key: int) returns (r: Option<nat>)
      requires Valid() && (key != 0 ==> key !in entries)
      modifies this
      ensures Valid()
      ensures r.None? <==> key != 0 && old(Saturated())
      ensures r.None? ==> entries == old(entries) && hash == old(hash) && hasZero == old(hasZero)
      ensures r.Some? ==>
                r.value < size && hash[r.value].key == key && hash[r.value].val == zero && (r.value == 0 <==> key == 0)
      ensures r.Some? && key != 0 ==>
                && entries == old(entries)[key := zero] && |entries| == old(|entries|) + 1
                && ZeroValue() == old(ZeroValue())
      ensures key == 0 ==> hasZero && entries == old(entries) && ZeroValue() == zero
      ensures old(Room(key)) ==> size == old(size)
      ensures r.Some? ==> hasZero == (old(hasZero) || key == 0 || (old(size) > 0 && !old(Room(key))))
      decreases if Room(key) then 0 else 2
    {
      if size == 0 {
        var n := Resize(2 * size);
        if n == 0 {
          return None;
        }
      }
      if key == 0 {
        hasZero := true;
        Store(0, zero);
        return Some(0);
      }
      var mp := MainSlot(key);
      if hash[mp].key == 0 {
        TakeMainSlot(key, mp);
        return Some(mp);
      }
      var free := FindFree();
      if free == None {
        ghost var h0 := hash;
        ZeroAfterFull(hash, size, zero);
        var n := Resize(2 * size);
        if n == 0 {
          return None;
        }
        r := NewKey(key);
        return r;
      }
      var f := free.value;
      var main := Scatter(hash[mp].key, size);
      assert main == MainPos(hash[mp].key, size) by {
        assert Opened(true);
      }
      if main != mp {
        MoveAway(key, mp, f);
        return Some(mp);
      } else {
        LinkBehind(key, mp, f);
        return Some(f);
      }
    }

    /** One step of a resize: with room left, adding an entry to the new table never resizes again. */
    method ReAdd(key: int, v: V)
      requires Valid() && Room(key) && (key != 0 ==> key !in entries)
      modifies this
      ensures Valid() && size == old(size)
      ensures entries == if key == 0 then old(entries) else old(entries)[key := v]
      ensures ZeroValue() == if key == 0 then v else old(ZeroValue())
      ensures hasZero == (old(hasZero) || key == 0)
      decreases 1, 0
    {
      var e := NewKey(key);
      Store(e.value, v);
    }

    /**
     * Move every entry into a larger table; 0 when the size limit is reached. An empty slot is re-added under key 0
     * together with its zeroed payload, so the payload of key 0 survives only when no slot is empty.
     */
    method Resize(wanted: nat) returns (n: nat)
      requires Valid() && wanted >= size
      modifies this
      ensures Valid()
      ensures n == 0 <==> NewSize(wanted, entrySize) < wanted
      ensures n == 0 ==> entries == old(entries) && hash == old(hash) && hasZero == old(hasZero)
      ensures n > 0 ==>
                && size == n == NewSize(wanted, entrySize) && entries == old(entries)
                && hasZero == (old(hasZero) || old(size) > 0)
                && ZeroValue() == ZeroAfter(old(hash), old(size), zero)
      decreases 1, 2
    {
      n := NewSize(wanted, entrySize);
      if n < wanted {
        return 0;
      }
      var nt := Copied(n);
      size, lastfree, hasZero, hash := nt.size, nt.lastfree, nt.hasZero, nt.hash;
      chains, entries := nt.chains, nt.entries;
    }

    /** A table of n slots with all entries re-added. */
    method Copied(n: nat) returns (nt: Table<V>)
      requires Valid() && n >= size && n > 1
      ensures fresh(nt) && nt.Valid() && nt.size == n && nt.entrySize == entrySize && nt.zero == zero
      ensures nt.entries == entries && nt.hasZero == (hasZero || size > 0)
      ensures nt.ZeroValue() == ZeroAfter(hash, size, zero)
      decreases 1, 1
    {
      nt := new Table.Sized(n, entrySize, zero, hasZero);
      var i := 0;
      while i < size
        invariant i <= size && fresh(nt)
        invariant nt.Valid() && nt.size == n && nt.entrySize == entrySize && nt.zero == zero
        invariant nt.entries == Upto(hash, i) && nt.ZeroValue() == ZeroAfter(hash, i, zero)
        invariant nt.hasZero == (hasZero || i > 0)
      {
        CopyNext(hash, chains, zero, entries, lastfree, i);
        nt.ReAdd(hash[i].key, hash[i].val);
        i := i + 1;
      }
      if size > 0 {
        CopyAll(hash, chains, zero, entries, lastfree);
      }
    }

    /** Find a key or add it. */
    method Set(key: int) returns (r: Option<nat>)
      requires Valid()
      modifies this
      ensures Valid()
      ensures r.None? <==> key != 0 && key !in old(entries) && old(Saturated())
      ensures r.None? ==> entries == old(entries) && ZeroValue() == old(ZeroValue())
      ensures r.Some? ==> r.value < size && hash[r.value].key == key && (r.value == 0 <==> key == 0)
      ensures r.Some? && key != 0 ==>
                && entries == (if key in old(entries) then old(entries) else old(entries)[key := zero])
                && hash[r.value].val == entries[key] && ZeroValue() == old(ZeroValue())
      ensures key == 0 ==> hasZero && entries == old(entries) && ZeroValue() == old(ZeroValue())
      ensures hasZero == (old(hasZero) || key == 0 || (r.Some? && key !in old(entries) && old(size) > 0 && !old(Room(key))))
    {
      r := Get(key);
      if r.None? {
        r := NewKey(key);
      }
    }
  }
}
