module PbChains {
  // The collision chains of the protobuf hash table, over plain sequences.
  //
  // Every slot holds a key, the relative position `next` of the following slot of its chain (0 at the end) and a
  // payload. Key 0 marks a free slot; slot 0 is reserved for key 0. A chain starts at its keys' main position.

  import opened Hiding

  datatype Slot<V> = Slot(key: int, next: int, val: V)

  /** The low bits of the multiplicative hash; only key 0 may live in slot 0. */
  function Scatter(key: int, size: nat): (p: nat)
    requires key != 0 && size > 1
    ensures 1 <= p < size
  {
    var h := key * 2654435761 % size;
    if h == 0 then 1 else h
  }

  ghost predicate Scatters(key: int, size: nat, p: nat)
    requires key != 0 && size > 1
  {
    forall d {:trigger Opened(d)} :: Opened(d) ==> p == Scatter(key, size)
  }

  /** The main position of a key: Scatter, kept closed. */
  ghost function MainPos(key: int, size: nat): (p: nat)
    requires key != 0 && size > 1
    ensures 1 <= p < size && Scatters(key, size, p)
  {
    assert Scatters(key, size, Scatter(key, size));
    var p :| Scatters(key, size, p);
    assert Opened(true);
    p
  }

  /** Slot p holds a key whose main position is m. */
  ghost predicate Belongs<V>(hash: seq<Slot<V>>, p: nat, m: nat)
    requires |hash| > 1
  {
    1 <= p < |hash| && hash[p].key != 0 && MainPos(hash[p].key, |hash|) == m
  }

  /** The slot after number j of a chain is the one its `next` leads to; the last one's `next` is 0. */
  ghost predicate Linked<V>(hash: seq<Slot<V>>, c: seq<nat>, j: nat)
    requires j < |c|
  {
    c[j] < |hash| && c[j] + hash[c[j]].next == if j + 1 < |c| then c[j + 1] else c[j]
  }

  /** c lists, from m on, the slots of the chain of main position m. */
  ghost predicate Links<V>(hash: seq<Slot<V>>, c: seq<nat>, m: nat)
    requires |hash| > 1
  {
    && (c != [] ==> c[0] == m)
    && (forall j :: 0 <= j < |c| ==> Belongs(hash, c[j], m))
    && (forall j {:trigger Linked(hash, c, j)} :: 0 <= j < |c| ==> Linked(hash, c, j))
    && (forall i, j :: 0 <= i < j < |c| ==> c[i] != c[j])
  }

  ghost predicate Slots<V>(hash: seq<Slot<V>>, chains: seq<seq<nat>>, zero: V)
    requires |hash| == |chains| > 1
  {
    && hash[0].key == 0 && hash[0].next == 0
    && (forall p :: 1 <= p < |hash| && hash[p].key == 0 ==> hash[p] == Slot(0, 0, zero))
    && (forall p :: 1 <= p < |hash| && hash[p].key != 0 ==> p in chains[MainPos(hash[p].key, |hash|)])
    && (forall p, q :: 1 <= p < q < |hash| && hash[p].key != 0 ==> hash[p].key != hash[q].key)
  }

  /** Every key is reachable from its main position, keys are unique, free slots are blank. */
  ghost predicate Chained<V>(hash: seq<Slot<V>>, chains: seq<seq<nat>>, zero: V) {
    && |hash| == |chains| > 1
    && forall d {:trigger Opened(d)} :: Opened(d) ==>
         Slots(hash, chains, zero) && forall m :: 0 <= m < |hash| ==> Links(hash, chains[m], m)
  }

  /** The finite map from non-zero keys to payloads. */
  ghost predicate Represents<V>(hash: seq<Slot<V>>, m: map<int, V>) {
    forall d {:trigger Opened(d)} :: Opened(d) ==>
      && (forall p :: 1 <= p < |hash| && hash[p].key != 0 ==> hash[p].key in m && m[hash[p].key] == hash[p].val)
      && (forall k :: k in m ==> k != 0 && exists p :: 1 <= p < |hash| && hash[p].key == k)
  }

  ghost function Occupied<V>(hash: seq<Slot<V>>): set<nat> {
    set p | 1 <= p < |hash| && hash[p].key != 0
  }

  function Blank<V>(size: nat, zero: V): (s: seq<Slot<V>>)
    ensures |s| == size
  {
    seq(size, _ => Slot(0, 0, zero))
  }

  lemma EmptyChained<V>(size: nat, zero: V)
    requires size > 1
    ensures Chained(Blank(size, zero), seq(size, _ => []), zero)
    ensures Represents(Blank(size, zero), map[])
    ensures Occupied(Blank(size, zero)) == {}
  {
  }

  // ---------------------------------------------------------------------------------------------------------
  // Lookup

  ghost predicate Absent<V>(hash: seq<Slot<V>>, key: int) {
    forall p :: 1 <= p < |hash| ==> hash[p].key != key
  }

  /** A lookup is at slot c[j] of the chain that runs through the key's main position, and has not missed the key. */
  ghost predicate Walk<V>(hash: seq<Slot<V>>, chains: seq<seq<nat>>, zero: V, key: int, m: nat, j: nat) {
    && Chained(hash, chains, zero) && key != 0 && m < |hash| && j < |chains[m]| && chains[m][j] < |hash|
    && forall d {:trigger Opened(d)} :: Opened(d) ==>
         && (m == MainPos(key, |hash|) ==> forall i :: 0 <= i < j ==> chains[m][i] < |hash| && hash[chains[m][i]].key != key)
         && (m != MainPos(key, |hash|) ==>
               hash[MainPos(key, |hash|)].key != 0 && MainPos(hash[MainPos(key, |hash|)].key, |hash|) == m)
  }

  lemma ChainAt<V>(hash: seq<Slot<V>>, chains: seq<seq<nat>>, zero: V, m: nat)
    requires Chained(hash, chains, zero) && m < |hash|
    ensures Links(hash, chains[m], m)
  {
    assert Opened(true);
  }

  lemma WalkStart<V>(hash: seq<Slot<V>>, chains: seq<seq<nat>>, zero: V, key: int) returns (m: nat, j: nat)
    requires Chained(hash, chains, zero) && key != 0
    ensures var p := MainPos(key, |hash|);
            if hash[p].key == 0 then hash[p].next == 0 && Absent(hash, key)
            else Walk(hash, chains, zero, key, m, j) && chains[m][j] == p
  {
    assert Opened(true);
    var p := MainPos(key, |hash|);
    ChainAt(hash, chains, zero, p);
    m, j := p, 0;
    if hash[p].key == 0 {
      NoChain(hash, chains, zero, key);
    } else {
      m := MainPos(hash[p].key, |hash|);
      ChainAt(hash, chains, zero, m);
      j :| j < |chains[m]| && chains[m][j] == p;
    }
  }

  /** Without a chain at its main position a key is absent. */
  lemma NoChain<V>(hash: seq<Slot<V>>, chains: seq<seq<nat>>, zero: V, key: int)
    requires Chained(hash, chains, zero) && key != 0
    requires var p := MainPos(key, |hash|); hash[p].key == 0 || MainPos(hash[p].key, |hash|) != p
    ensures Absent(hash, key)
  {
    assert Opened(true);
    ChainAt(hash, chains, zero, MainPos(key, |hash|));
  }

  lemma WalkStep<V>(hash: seq<Slot<V>>, chains: seq<seq<nat>>, zero: V, key: int, m: nat, j: nat)
    requires Walk(hash, chains, zero, key, m, j) && hash[chains[m][j]].key != key
    ensures var p := chains[m][j];
            if hash[p].next == 0 then Absent(hash, key)
            else Walk(hash, chains, zero, key, m, j + 1) && p + hash[p].next == chains[m][j + 1]
  {
    assert Opened(true);
    ChainAt(hash, chains, zero, m);
    assert Linked(hash, chains[m], j);
    if hash[chains[m][j]].next == 0 {
      if m == MainPos(key, |hash|) {
        WalkedWhole(hash, chains, zero, key);
      } else {
        NoChain(hash, chains, zero, key);
      }
    } else {
      assert Belongs(hash, chains[m][j + 1], m);
    }
  }

  lemma WalkedWhole<V>(hash: seq<Slot<V>>, chains: seq<seq<nat>>, zero: V, key: int)
    requires Chained(hash, chains, zero) && key != 0
    requires forall p :: p in chains[MainPos(key, |hash|)] ==> p < |hash| && hash[p].key != key
    ensures Absent(hash, key)
  {
    assert Opened(true);
  }

  /** The slot that `next` of slot e leads to. */
  function After<V>(hash: seq<Slot<V>>, e: nat): int
    requires e < |hash|
  {
    e + hash[e].next
  }

  ghost function Succ(j: nat): nat {
    j + 1
  }

  /** A lookup has reached slot e: a free main position, or slot number j of chain m. */
  ghost predicate Searching<V>(hash: seq<Slot<V>>, chains: seq<seq<nat>>, zero: V, key: int, e: nat, m: nat, j: nat) {
    && 1 <= e < |hash| && m < |chains|
    && forall d {:trigger Opened(d)} :: Opened(d) ==>
         if hash[e].key == 0 then hash[e].next == 0 && key != 0 && Absent(hash, key)
         else Walk(hash, chains, zero, key, m, j) && chains[m][j] == e
  }

  lemma SearchStart<V>(hash: seq<Slot<V>>, chains: seq<seq<nat>>, zero: V, key: int) returns (m: nat, j: nat)
    requires Chained(hash, chains, zero) && key != 0
    ensures Searching(hash, chains, zero, key, MainPos(key, |hash|), m, j)
  {
    m, j := WalkStart(hash, chains, zero, key);
    if m >= |chains| {
      m := 0;
    }
  }

  lemma SearchStep<V>(hash: seq<Slot<V>>, chains: seq<seq<nat>>, zero: V, key: int, e: nat, m: nat, j: nat)
    requires Searching(hash, chains, zero, key, e, m, j) && hash[e].key != key
    ensures hash[e].next == 0 ==> Absent(hash, key)
    ensures hash[e].next != 0 ==>
              && 0 <= After(hash, e) && Searching(hash, chains, zero, key, After(hash, e), m, Succ(j))
              && j + 1 < |chains[m]|
  {
    assert Opened(true);
    if hash[e].key != 0 {
      WalkStep(hash, chains, zero, key, m, j);
      if hash[e].next != 0 {
        ChainAt(hash, chains, zero, m);
        assert Belongs(hash, chains[m][j + 1], m);
      }
    }
  }

  // ---------------------------------------------------------------------------------------------------------
  // Insertion

  /** The key goes into its free main position. */
  ghost function PutFree<V>(hash: seq<Slot<V>>, p: nat, key: int, zero: V): seq<Slot<V>>
    requires p < |hash|
  {
    hash[p := Slot(key, hash[p].next, zero)]
  }

  /** A chain is unaffected by changes to other slots. */
  lemma LinksElsewhere<V>(hash: seq<Slot<V>>, hash': seq<Slot<V>>, c: seq<nat>, m: nat)
    requires |hash| == |hash'| > 1 && Links(hash, c, m)
    requires forall p :: p in c && p < |hash| ==> hash'[p].key == hash[p].key && hash'[p].next == hash[p].next
    ensures Links(hash', c, m)
  {
    forall j | 0 <= j < |c|
      ensures Belongs(hash', c[j], m) && Linked(hash', c, j)
    {
      assert Belongs(hash, c[j], m) && Linked(hash, c, j);
      assert c[j] in c;
    }
  }

  lemma NoLinks<V>(hash: seq<Slot<V>>, c: seq<nat>, p: nat)
    requires |hash| > 1 && Links(hash, c, p) && !Belongs(hash, p, p)
    ensures c == []
  {
  }

  lemma PutFreeChained<V>(hash: seq<Slot<V>>, chains: seq<seq<nat>>, zero: V, key: int)
    requires Chained(hash, chains, zero) && key != 0 && Absent(hash, key)
    requires hash[MainPos(key, |hash|)].key == 0
    ensures var p := MainPos(key, |hash|);
            && Chained(PutFree(hash, p, key, zero), chains[p := [p]], zero)
            && Gains(hash, PutFree(hash, p, key, zero), p, key, zero)
  {
    assert Opened(true);
    var p := MainPos(key, |hash|);
    var hash', chains' := PutFree(hash, p, key, zero), chains[p := [p]];
    assert Exchanged(hash, hash', p, p, p);
    ChainAt(hash, chains, zero, p);
    assert Linked(hash', [p], 0);
    forall m | 0 <= m < |hash|
      ensures Links(hash', chains'[m], m)
    {
      ChainAt(hash, chains, zero, m);
      if m != p {
        OffChain(hash, chains[m], m, p);
        LinksElsewhere(hash, hash', chains[m], m);
      }
    }
    forall q | 1 <= q < |hash| && hash'[q].key != 0
      ensures q in chains'[MainPos(hash'[q].key, |hash|)]
    {
      if q != p {
        NoLinks(hash, chains[p], p);
      }
    }
  }

  /** A slot that does not belong to main position m is not on its chain. */
  lemma OffChain<V>(hash: seq<Slot<V>>, c: seq<nat>, m: nat, p: nat)
    requires |hash| > 1 && Links(hash, c, m) && !Belongs(hash, p, m)
    ensures p !in c
  {
  }

  /** The key is linked in right behind its main position, which a key of the same chain occupies. */
  ghost function PutBehind<V>(hash: seq<Slot<V>>, p: nat, f: nat, key: int, zero: V): seq<Slot<V>>
    requires p < |hash| && f < |hash|
  {
    hash[f := Slot(key, if hash[p].next != 0 then p + hash[p].next - f else hash[f].next, zero)]
        [p := Slot(hash[p].key, f - p, hash[p].val)]
  }

  ghost function Spliced(chains: seq<seq<nat>>, p: nat, f: nat): seq<seq<nat>>
    requires p < |chains| && chains[p] != []
  {
    var c: seq<nat> := [p, f];
    chains[p := c + chains[p][1..]]
  }

  lemma SplicedLinks<V>(hash: seq<Slot<V>>, c: seq<nat>, key: int, p: nat, f: nat, zero: V)
    requires |hash| > 1 && c != [] && Links(hash, c, p) && key != 0 && MainPos(key, |hash|) == p
    requires 1 <= f < |hash| && hash[f].key == 0 && hash[f].next == 0
    ensures p < |hash| && Links(PutBehind(hash, p, f, key, zero), [p, f] + c[1..], p)
  {
    assert Belongs(hash, c[0], p) && Linked(hash, c, 0);
    OffChain(hash, c, p, f);
    var hash', c' := PutBehind(hash, p, f, key, zero), [p, f] + c[1..];
    forall j | 0 <= j < |c'|
      ensures Belongs(hash', c'[j], p) && Linked(hash', c', j)
    {
      if j >= 2 {
        assert c'[j] == c[j - 1] && Belongs(hash, c[j - 1], p) && Linked(hash, c, j - 1);
      }
    }
  }

  lemma PutBehindChained<V>(hash: seq<Slot<V>>, chains: seq<seq<nat>>, zero: V, key: int, f: nat)
    requires Chained(hash, chains, zero) && key != 0 && Absent(hash, key)
    requires 1 <= f < |hash| && hash[f].key == 0
    requires var p := MainPos(key, |hash|); hash[p].key != 0 && MainPos(hash[p].key, |hash|) == p
    ensures var p := MainPos(key, |hash|);
            chains[p] != []
            && Chained(PutBehind(hash, p, f, key, zero), Spliced(chains, p, f), zero)
            && Gains(hash, PutBehind(hash, p, f, key, zero), f, key, zero)
  {
    assert Opened(true);
    var p := MainPos(key, |hash|);
    assert p in chains[p];
    ChainAt(hash, chains, zero, p);
    SplicedLinks(hash, chains[p], key, p, f, zero);
    var hash', chains' := PutBehind(hash, p, f, key, zero), Spliced(chains, p, f);
    assert Exchanged(hash, hash', f, p, f);
    forall m | 0 <= m < |hash|
      ensures Links(hash', chains'[m], m)
    {
      ChainAt(hash, chains, zero, m);
      if m != p {
        OffChain(hash, chains[m], m, p);
        OffChain(hash, chains[m], m, f);
        LinksElsewhere(hash, hash', chains[m], m);
      }
    }
    forall q | 1 <= q < |hash| && hash'[q].key != 0
      ensures q in chains'[MainPos(hash'[q].key, |hash|)]
    {
      if q == f {
        assert chains'[p][1] == f;
      } else if MainPos(hash[q].key, |hash|) == p {
        var i :| 0 <= i < |chains[p]| && chains[p][i] == q;
        assert chains'[p][if i == 0 then 0 else i + 1] == q;
      }
    }
  }

  /** A key of another chain is moved from p to f, and the new key takes its main position p. */
  ghost function PutInstead<V>(hash: seq<Slot<V>>, p: nat, prev: nat, f: nat, key: int, zero: V): seq<Slot<V>>
    requires p < |hash| && f < |hash| && prev < |hash|
  {
    hash[prev := Slot(hash[prev].key, f - prev, hash[prev].val)]
        [f := Slot(hash[p].key, if hash[p].next != 0 then hash[p].next + p - f else 0, hash[p].val)]
        [p := Slot(key, 0, zero)]
  }

  ghost function Moved(chains: seq<seq<nat>>, m: nat, j: nat, f: nat, p: nat): seq<seq<nat>>
    requires m < |chains| && p < |chains| && j < |chains[m]|
  {
    var c: seq<nat> := chains[m][j := f];
    var alone: seq<nat> := [p];
    chains[m := c][p := alone]
  }

  lemma MovedLinks<V>(hash: seq<Slot<V>>, c: seq<nat>, m: nat, j: nat, p: nat, f: nat, key: int, zero: V)
    requires |hash| > 1 && Links(hash, c, m) && 0 < j < |c| && c[j] == p
    requires 1 <= f < |hash| && hash[f].key == 0
    ensures Belongs(hash, c[j - 1], m) && Belongs(hash, p, m)
    ensures Links(PutInstead(hash, p, c[j - 1], f, key, zero), c[j := f], m)
  {
    assert Belongs(hash, c[j - 1], m) && Belongs(hash, p, m) && Linked(hash, c, j - 1) && Linked(hash, c, j);
    OffChain(hash, c, m, f);
    var hash', c' := PutInstead(hash, p, c[j - 1], f, key, zero), c[j := f];
    forall i | 0 <= i < |c'|
      ensures Belongs(hash', c'[i], m) && Linked(hash', c', i)
    {
      assert Belongs(hash, c[i], m) && Linked(hash, c, i);
    }
  }

  lemma PutInsteadChained<V>(hash: seq<Slot<V>>, chains: seq<seq<nat>>, zero: V, key: int, f: nat, m: nat, j: nat)
    requires Chained(hash, chains, zero) && key != 0 && Absent(hash, key)
    requires 1 <= f < |hash| && hash[f].key == 0
    requires var p := MainPos(key, |hash|);
             hash[p].key != 0 && m == MainPos(hash[p].key, |hash|) != p && 0 < j < |chains[m]| && chains[m][j] == p
    ensures var p := MainPos(key, |hash|);
            chains[m][j - 1] < |hash|
            && Chained(PutInstead(hash, p, chains[m][j - 1], f, key, zero), Moved(chains, m, j, f, p), zero)
            && Gains(hash, PutInstead(hash, p, chains[m][j - 1], f, key, zero), p, key, zero)
  {
    assert Opened(true);
    var p, prev := MainPos(key, |hash|), chains[m][j - 1];
    ChainAt(hash, chains, zero, m);
    ChainAt(hash, chains, zero, p);
    NoLinks(hash, chains[p], p);
    MovedLinks(hash, chains[m], m, j, p, f, key, zero);
    var hash', chains' := PutInstead(hash, p, prev, f, key, zero), Moved(chains, m, j, f, p);
    assert Exchanged(hash, hash', p, p, f);
    assert Linked(hash', [p], 0);
    forall k | 0 <= k < |hash|
      ensures Links(hash', chains'[k], k)
    {
      ChainAt(hash, chains, zero, k);
      if k != m && k != p {
        OffChain(hash, chains[k], k, p);
        OffChain(hash, chains[k], k, f);
        OffChain(hash, chains[k], k, prev);
        LinksElsewhere(hash, hash', chains[k], k);
      }
    }
    InsteadReached(hash, chains, zero, key, f, m, j);
  }

  /** Every occupied slot is still on the chain of its main position. */
  lemma InsteadReached<V>(hash: seq<Slot<V>>, chains: seq<seq<nat>>, zero: V, key: int, f: nat, m: nat, j: nat)
    requires Chained(hash, chains, zero) && key != 0 && 1 <= f < |hash| && hash[f].key == 0
    requires var p := MainPos(key, |hash|);
             hash[p].key != 0 && m == MainPos(hash[p].key, |hash|) != p && 0 < j < |chains[m]| && chains[m][j] == p
             && chains[m][j - 1] < |hash|
    ensures var p := MainPos(key, |hash|);
            var hash', chains' := PutInstead(hash, p, chains[m][j - 1], f, key, zero), Moved(chains, m, j, f, p);
            forall q :: 1 <= q < |hash| && hash'[q].key != 0 ==> q in chains'[MainPos(hash'[q].key, |hash|)]
  {
    assert Opened(true);
    var p, prev := MainPos(key, |hash|), chains[m][j - 1];
    ChainAt(hash, chains, zero, m);
    var hash', chains' := PutInstead(hash, p, prev, f, key, zero), Moved(chains, m, j, f, p);
    forall q | 1 <= q < |hash| && hash'[q].key != 0
      ensures q in chains'[MainPos(hash'[q].key, |hash|)]
    {
      if q == f {
        assert chains'[m][j] == f;
      } else if q != p && MainPos(hash[q].key, |hash|) == m {
        var i :| 0 <= i < |chains[m]| && chains[m][i] == q;
        assert chains'[m][i] == q;
      }
    }
  }

  // ---------------------------------------------------------------------------------------------------------
  // Contents

  /** A slot other than slot 0 takes a key that was absent; every other key keeps its payload. */
  ghost predicate Gains<V>(hash: seq<Slot<V>>, hash': seq<Slot<V>>, x: nat, key: int, v: V) {
    && |hash'| == |hash| && 1 <= x < |hash| && key != 0 && hash'[x].key == key && hash'[x].val == v
    && exists p: nat, f: nat {:trigger Exchanged(hash, hash', x, p, f)} :: Exchanged(hash, hash', x, p, f)
  }

  /** Apart from slot x, the only difference in keys and payloads is that slot f may have received slot p's. */
  ghost predicate Exchanged<V>(hash: seq<Slot<V>>, hash': seq<Slot<V>>, x: nat, p: nat, f: nat) {
    && |hash'| == |hash| && 1 <= p < |hash| && 1 <= f < |hash| && hash[f].key == 0 && (x == p || x == f)
    && (p != f && x == p ==> hash[p].key != 0 && hash'[f].key == hash[p].key && hash'[f].val == hash[p].val)
    && (forall q :: 0 <= q < |hash| && q != x && q != f ==> hash'[q].key == hash[q].key && hash'[q].val == hash[q].val)
  }

  lemma GainRepresents<V>(hash: seq<Slot<V>>, hash': seq<Slot<V>>, x: nat, key: int, v: V, m: map<int, V>)
    requires Gains(hash, hash', x, key, v) && Absent(hash, key) && Represents(hash, m)
    ensures Represents(hash', m[key := v])
  {
    assert Opened(true);
    var p: nat, f: nat :| Exchanged(hash, hash', x, p, f);
    forall k | k in m
      ensures exists q :: 1 <= q < |hash'| && hash'[q].key == k
    {
      var q :| 1 <= q < |hash| && hash[q].key == k;
      assert hash'[if q == x then f else q].key == k;
    }
  }

  lemma GainOccupies<V>(hash: seq<Slot<V>>, hash': seq<Slot<V>>, x: nat, key: int, v: V)
    requires Gains(hash, hash', x, key, v)
    ensures |Occupied(hash')| == |Occupied(hash)| + 1
  {
    var p: nat, f: nat :| Exchanged(hash, hash', x, p, f);
    assert Occupied(hash') == Occupied(hash) + {f};
  }

  /** Slots from lastfree on are taken. */
  ghost predicate FullFrom<V>(hash: seq<Slot<V>>, lastfree: nat) {
    forall p {:trigger hash[p]} :: 1 <= p < |hash| && lastfree <= p ==> hash[p].key != 0
  }

  lemma GainKeepsFull<V>(hash: seq<Slot<V>>, hash': seq<Slot<V>>, x: nat, key: int, v: V, lastfree: nat)
    requires Gains(hash, hash', x, key, v)
    requires FullFrom(hash, lastfree) || (FullFrom(hash, lastfree + 1) && exists p :: Exchanged(hash, hash', x, p, lastfree))
    ensures FullFrom(hash', lastfree)
  {
    var p: nat, f: nat :| Exchanged(hash, hash', x, p, f) && (FullFrom(hash, lastfree) || f == lastfree);
    assert hash'[f].key != 0 && hash'[x].key != 0;
  }

  ghost function SlotNumbers(n: nat): (s: set<nat>)
    ensures forall p :: p in s <==> 1 <= p < n
    ensures n >= 1 ==> |s| == n - 1
  {
    if n <= 1 then {} else SlotNumbers(n - 1) + {n - 1}
  }

  lemma FullMeansNoneFree<V>(hash: seq<Slot<V>>)
    requires |hash| > 1 && FullFrom(hash, 1)
    ensures |Occupied(hash)| == |hash| - 1
  {
    assert Occupied(hash) == SlotNumbers(|hash|);
  }

  /** The occupant p of another chain's main position is number j > 0 of its own chain, which starts at m. */
  lemma OccupantPlace<V>(hash: seq<Slot<V>>, chains: seq<seq<nat>>, zero: V, p: nat) returns (m: nat, j: nat)
    requires Chained(hash, chains, zero) && 1 <= p < |hash| && hash[p].key != 0
    ensures m == MainPos(hash[p].key, |hash|) && j < |chains[m]| && chains[m][j] == p && chains[m][0] == m
    ensures m != p ==> 0 < j
  {
    assert Opened(true);
    m := MainPos(hash[p].key, |hash|);
    ChainAt(hash, chains, zero, m);
    j :| 0 <= j < |chains[m]| && chains[m][j] == p;
  }

  lemma ChainNext<V>(hash: seq<Slot<V>>, chains: seq<seq<nat>>, zero: V, m: nat, i: nat, j: nat)
    requires Chained(hash, chains, zero) && m < |hash| && i < j < |chains[m]|
    ensures chains[m][i] < |hash| && chains[m][i + 1] < |hash| && chains[m][i] + hash[chains[m][i]].next == chains[m][i + 1]
    ensures chains[m][i + 1] == chains[m][j] ==> i + 1 == j
  {
    ChainAt(hash, chains, zero, m);
    assert Linked(hash, chains[m], i) && Belongs(hash, chains[m][i + 1], m);
  }

  ghost function Stored<V>(hash: seq<Slot<V>>, e: nat, v: V): seq<Slot<V>>
    requires e < |hash|
  {
    hash[e := Slot(hash[e].key, hash[e].next, v)]
  }

  /** Storing a payload into a found slot. */
  lemma StoreChained<V>(hash: seq<Slot<V>>, chains: seq<seq<nat>>, zero: V, e: nat, v: V)
    requires Chained(hash, chains, zero) && e < |hash| && (e == 0 || hash[e].key != 0)
    ensures Chained(Stored(hash, e, v), chains, zero)
  {
    assert Opened(true);
    var hash' := Stored(hash, e, v);
    assert forall p :: 0 <= p < |hash| ==> hash'[p].key == hash[p].key && hash'[p].next == hash[p].next;
    forall k | 0 <= k < |hash|
      ensures Links(hash', chains[k], k)
    {
      LinksElsewhere(hash, hash', chains[k], k);
    }
  }

  lemma StoreRepresents<V>(hash: seq<Slot<V>>, m: map<int, V>, e: nat, v: V)
    requires Represents(hash, m) && e < |hash| && (e == 0 || hash[e].key != 0)
    requires forall p :: 1 <= p < |hash| && p != e && hash[p].key != 0 ==> hash[p].key != hash[e].key
    ensures Occupied(Stored(hash, e, v)) == Occupied(hash)
    ensures e == 0 ==> Represents(Stored(hash, e, v), m)
    ensures e > 0 ==> hash[e].key in m && Represents(Stored(hash, e, v), m[hash[e].key := v])
  {
    assert Opened(true);
    var hash' := Stored(hash, e, v);
    forall k | k in m
      ensures exists p :: 1 <= p < |hash'| && hash'[p].key == k
    {
      var p :| 1 <= p < |hash| && hash[p].key == k;
      assert hash'[p].key == k;
    }
  }

  lemma StoreKeeps<V>(hash: seq<Slot<V>>, chains: seq<seq<nat>>, zero: V, m: map<int, V>, e: nat, v: V)
    requires Chained(hash, chains, zero) && Represents(hash, m) && e < |hash| && (e == 0 || hash[e].key != 0)
    ensures var hash' := Stored(hash, e, v);
            && Chained(hash', chains, zero) && Occupied(hash') == Occupied(hash)
            && (e == 0 ==> Represents(hash', m))
            && (e > 0 ==> hash[e].key in m && Represents(hash', m[hash[e].key := v]))
  {
    StoreChained(hash, chains, zero, e, v);
    assert Opened(true);
    StoreRepresents(hash, m, e, v);
  }

  lemma AbsentMeans<V>(hash: seq<Slot<V>>, m: map<int, V>, key: int)
    requires Represents(hash, m) && key != 0
    ensures Absent(hash, key) <==> key !in m
  {
    assert Opened(true);
  }

  lemma PresentAt<V>(hash: seq<Slot<V>>, m: map<int, V>, p: nat)
    requires Represents(hash, m) && 1 <= p < |hash| && hash[p].key != 0
    ensures hash[p].key in m && m[hash[p].key] == hash[p].val
  {
    assert Opened(true);
  }

  lemma SlotZero<V>(hash: seq<Slot<V>>, chains: seq<seq<nat>>, zero: V)
    requires Chained(hash, chains, zero)
    ensures hash[0].key == 0 && hash[0].next == 0
  {
    assert Opened(true);
  }

  // ---------------------------------------------------------------------------------------------------------
  // Rehashing

  /** The entries of the slots 1 .. i-1. */
  ghost function Upto<V>(hash: seq<Slot<V>>, i: nat): map<int, V>
    requires i <= |hash|
  {
    if i <= 1 then map[]
    else if hash[i - 1].key == 0 then Upto(hash, i - 1)
    else Upto(hash, i - 1)[hash[i - 1].key := hash[i - 1].val]
  }

  lemma {:induction false} UptoKeys<V>(hash: seq<Slot<V>>, i: nat, k: int)
    requires i <= |hash|
    ensures k in Upto(hash, i) <==> k != 0 && exists p :: 1 <= p < i && hash[p].key == k
  {
    if i > 1 {
      UptoKeys(hash, i - 1, k);
    }
  }

  lemma {:induction false} UptoCount<V>(hash: seq<Slot<V>>, i: nat)
    requires i <= |hash|
    ensures |Upto(hash, i)| <= if i <= 1 then 0 else i - 1
  {
    if i > 1 {
      UptoCount(hash, i - 1);
    }
  }

  lemma UptoFresh<V>(hash: seq<Slot<V>>, chains: seq<seq<nat>>, zero: V, i: nat)
    requires Chained(hash, chains, zero) && 1 <= i < |hash| && hash[i].key != 0
    ensures hash[i].key !in Upto(hash, i)
  {
    assert Opened(true);
    UptoKeys(hash, i, hash[i].key);
  }

  lemma {:induction false} UptoValue<V>(hash: seq<Slot<V>>, m: map<int, V>, i: nat, k: int)
    requires Represents(hash, m) && i <= |hash| && k in Upto(hash, i)
    ensures k in m && Upto(hash, i)[k] == m[k]
  {
    UptoKeys(hash, i, k);
    if hash[i - 1].key != 0 {
      PresentAt(hash, m, i - 1);
    }
    if hash[i - 1].key == 0 || hash[i - 1].key != k {
      UptoValue(hash, m, i - 1, k);
    }
  }

  lemma UptoAll<V>(hash: seq<Slot<V>>, m: map<int, V>)
    requires Represents(hash, m)
    ensures Upto(hash, |hash|) == m
  {
    forall k | k in m
      ensures k in Upto(hash, |hash|)
    {
      assert Opened(true);
      UptoKeys(hash, |hash|, k);
    }
    forall k | k in Upto(hash, |hash|)
      ensures k in m && Upto(hash, |hash|)[k] == m[k]
    {
      UptoValue(hash, m, |hash|, k);
    }
  }

  /** What re-adding the slots 0 .. i-1 leaves in slot 0: an empty slot is re-added under key 0. */
  ghost function ZeroAfter<V>(hash: seq<Slot<V>>, i: nat, zero: V): V
    requires i <= |hash|
  {
    if i == 0 then zero
    else if i == 1 || hash[i - 1].key == 0 then hash[i - 1].val
    else ZeroAfter(hash, i - 1, zero)
  }

  /** In a full table the payload of key 0 survives. */
  lemma {:induction false} ZeroAfterFull<V>(hash: seq<Slot<V>>, i: nat, zero: V)
    requires FullFrom(hash, 1) && 1 <= i <= |hash|
    ensures ZeroAfter(hash, i, zero) == hash[0].val
  {
    if i > 1 {
      assert hash[i - 1].key != 0;
      ZeroAfterFull(hash, i - 1, zero);
    }
  }

  /** With an empty slot in the table it does not: key 0 reads as zeroed afterwards. */
  lemma {:induction false} ZeroAfterHollow<V>(hash: seq<Slot<V>>, chains: seq<seq<nat>>, zero: V, i: nat, p: nat)
    requires Chained(hash, chains, zero) && 1 <= p < i <= |hash| && hash[p].key == 0
    ensures ZeroAfter(hash, i, zero) == zero
  {
    assert Opened(true);
    if hash[i - 1].key != 0 {
      ZeroAfterHollow(hash, chains, zero, i - 1, p);
    }
  }

  // ---------------------------------------------------------------------------------------------------------
  // The whole table

  /** The slots are chained, hold exactly the entries, and those from lastfree on are taken. */
  ghost predicate Holding<V>(hash: seq<Slot<V>>, chains: seq<seq<nat>>, zero: V, entries: map<int, V>, lastfree: nat) {
    && |hash| == |chains| > 1 && hash[0].key == 0
    && forall d {:trigger Opened(d)} :: Opened(d) ==>
         && 1 <= lastfree <= |hash| && Chained(hash, chains, zero) && Represents(hash, entries)
         && FullFrom(hash, lastfree) && |entries| == |Occupied(hash)| < |hash|
  }

  lemma HoldingNothing<V>(size: nat, zero: V)
    requires size > 1
    ensures Holding(Blank(size, zero), seq(size, _ => []), zero, map[], size)
  {
    EmptyChained(size, zero);
  }

  lemma LookupStart<V>(hash: seq<Slot<V>>, chains: seq<seq<nat>>, zero: V, entries: map<int, V>, lastfree: nat, key: int)
      returns (m: nat, j: nat)
    requires Holding(hash, chains, zero, entries, lastfree) && key != 0
    ensures Searching(hash, chains, zero, key, MainPos(key, |hash|), m, j)
  {
    assert Opened(true);
    m, j := SearchStart(hash, chains, zero, key);
  }

  /** Following `next` either stays on the search's chain, with fewer slots left, or shows the key is absent. */
  lemma LookupStep<V>(hash: seq<Slot<V>>, chains: seq<seq<nat>>, zero: V, entries: map<int, V>, lastfree: nat,
                      key: int, e: nat, m: nat, j: nat)
    requires Holding(hash, chains, zero, entries, lastfree) && Searching(hash, chains, zero, key, e, m, j)
    requires hash[e].key != key && key != 0
    ensures hash[e].next == 0 ==> key !in entries
    ensures hash[e].next != 0 ==>
              && 0 <= After(hash, e) && Searching(hash, chains, zero, key, After(hash, e), m, Succ(j))
              && j + 1 < |chains[m]|
  {
    SearchStep(hash, chains, zero, key, e, m, j);
    assert Opened(true);
    AbsentMeans(hash, entries, key);
  }

  lemma LookupHit<V>(hash: seq<Slot<V>>, chains: seq<seq<nat>>, zero: V, entries: map<int, V>, lastfree: nat, e: nat)
    requires Holding(hash, chains, zero, entries, lastfree) && 1 <= e < |hash| && hash[e].key != 0
    ensures hash[e].key in entries && entries[hash[e].key] == hash[e].val
  {
    assert Opened(true);
    PresentAt(hash, entries, e);
  }

  lemma ScanDown<V>(hash: seq<Slot<V>>, chains: seq<seq<nat>>, zero: V, entries: map<int, V>, lastfree: nat)
    requires Holding(hash, chains, zero, entries, lastfree) && 1 < lastfree
    ensures lastfree <= |hash|
    ensures if hash[lastfree - 1].key == 0 then hash[lastfree - 1].next == 0
            else Holding(hash, chains, zero, entries, lastfree - 1)
  {
    assert Opened(true);
  }

  /** When the free-slot scan has come down to slot 1 the table is full, and only then. */
  lemma NoneFree<V>(hash: seq<Slot<V>>, chains: seq<seq<nat>>, zero: V, entries: map<int, V>, lastfree: nat)
    requires Holding(hash, chains, zero, entries, lastfree)
    ensures 1 <= lastfree <= |hash| && |entries| < |hash|
    ensures lastfree == 1 ==> |entries| == |hash| - 1 && FullFrom(hash, 1)
    ensures (exists f :: 1 <= f < |hash| && hash[f].key == 0) ==> |entries| < |hash| - 1
  {
    assert Opened(true);
    if lastfree == 1 {
      FullMeansNoneFree(hash);
    }
    if f :| 1 <= f < |hash| && hash[f].key == 0 {
      var one: set<nat> := {f};
      SubsetSize(Occupied(hash) + one, SlotNumbers(|hash|));
      assert |Occupied(hash) + one| == |Occupied(hash)| + 1;
    }
  }

  lemma {:induction false} SubsetSize<T>(a: set<T>, b: set<T>)
    requires a <= b
    ensures |a| <= |b|
  {
    if x :| x in a {
      SubsetSize(a - {x}, b - {x});
    }
  }

  lemma AddFree<V>(hash: seq<Slot<V>>, chains: seq<seq<nat>>, zero: V, entries: map<int, V>, lastfree: nat, key: int)
    requires Holding(hash, chains, zero, entries, lastfree) && key != 0 && key !in entries
    requires hash[MainPos(key, |hash|)].key == 0
    ensures var p := MainPos(key, |hash|);
            && Holding(PutFree(hash, p, key, zero), chains[p := [p]], zero, entries[key := zero], lastfree)
            && PutFree(hash, p, key, zero)[0] == hash[0]
    ensures |entries| < |hash| - 1
  {
    assert Opened(true);
    AbsentMeans(hash, entries, key);
    PutFreeChained(hash, chains, zero, key);
    var p := MainPos(key, |hash|);
    NoneFree(hash, chains, zero, entries, lastfree);
    Gained(hash, chains, PutFree(hash, p, key, zero), chains[p := [p]], p, key, zero, entries, lastfree);
  }

  /** Adding a key to the slots adds it to the entries. */
  lemma Gained<V>(hash: seq<Slot<V>>, chains: seq<seq<nat>>, hash': seq<Slot<V>>, chains': seq<seq<nat>>,
                  x: nat, key: int, zero: V, entries: map<int, V>, lastfree: nat)
    requires Gains(hash, hash', x, key, zero) && Represents(hash, entries) && Chained(hash', chains', zero)
    requires key !in entries && 1 <= lastfree <= |hash| && |entries| == |Occupied(hash)| < |hash| - 1
    requires FullFrom(hash, lastfree) || (FullFrom(hash, lastfree + 1) && exists p :: Exchanged(hash, hash', x, p, lastfree))
    ensures Holding(hash', chains', zero, entries[key := zero], lastfree)
  {
    SlotZero(hash', chains', zero);
    AbsentMeans(hash, entries, key);
    GainRepresents(hash, hash', x, key, zero, entries);
    GainOccupies(hash, hash', x, key, zero);
    GainKeepsFull(hash, hash', x, key, zero, lastfree);
  }

  /** Both ways of using the free slot f, the highest free one. */
  lemma AddBehind<V>(hash: seq<Slot<V>>, chains: seq<seq<nat>>, zero: V, entries: map<int, V>, f: nat, key: int)
    requires Holding(hash, chains, zero, entries, f + 1) && key != 0 && key !in entries
    requires 1 <= f < |hash| && hash[f].key == 0
    requires var p := MainPos(key, |hash|); hash[p].key != 0 && MainPos(hash[p].key, |hash|) == p
    ensures var p := MainPos(key, |hash|);
            && chains[p] != []
            && Holding(PutBehind(hash, p, f, key, zero), Spliced(chains, p, f), zero, entries[key := zero], f)
            && PutBehind(hash, p, f, key, zero)[0] == hash[0]
  {
    assert Opened(true);
    var p := MainPos(key, |hash|);
    AbsentMeans(hash, entries, key);
    PutBehindChained(hash, chains, zero, key, f);
    NoneFree(hash, chains, zero, entries, f + 1);
    var hash' := PutBehind(hash, p, f, key, zero);
    assert Exchanged(hash, hash', f, p, f);
    Gained(hash, chains, hash', Spliced(chains, p, f), f, key, zero, entries, f);
  }

  lemma AddInstead<V>(hash: seq<Slot<V>>, chains: seq<seq<nat>>, zero: V, entries: map<int, V>, f: nat, key: int,
                      m: nat, j: nat)
    requires Holding(hash, chains, zero, entries, f + 1) && key != 0 && key !in entries
    requires 1 <= f < |hash| && hash[f].key == 0
    requires var p := MainPos(key, |hash|);
             hash[p].key != 0 && m == MainPos(hash[p].key, |hash|) != p && 0 < j < |chains[m]| && chains[m][j] == p
    ensures var p := MainPos(key, |hash|);
            && chains[m][j - 1] < |hash|
            && Holding(PutInstead(hash, p, chains[m][j - 1], f, key, zero), Moved(chains, m, j, f, p), zero,
                       entries[key := zero], f)
            && PutInstead(hash, p, chains[m][j - 1], f, key, zero)[0] == hash[0]
  {
    assert Opened(true);
    var p := MainPos(key, |hash|);
    AbsentMeans(hash, entries, key);
    PutInsteadChained(hash, chains, zero, key, f, m, j);
    NoneFree(hash, chains, zero, entries, f + 1);
    var hash' := PutInstead(hash, p, chains[m][j - 1], f, key, zero);
    assert Exchanged(hash, hash', p, p, f);
    ChainAt(hash, chains, zero, m);
    assert Belongs(hash, chains[m][j - 1], m);
    Gained(hash, chains, hash', Moved(chains, m, j, f, p), p, key, zero, entries, f);
  }

  lemma Overwrite<V>(hash: seq<Slot<V>>, chains: seq<seq<nat>>, zero: V, entries: map<int, V>, lastfree: nat,
                     e: nat, v: V)
    requires Holding(hash, chains, zero, entries, lastfree) && 1 <= e < |hash| && hash[e].key != 0
    ensures hash[e].key in entries
            && Holding(Stored(hash, e, v), chains, zero, entries[hash[e].key := v], lastfree)
  {
    assert Holding(hash, chains, zero, entries, lastfree) ==> Opened(true);
    StoreKeeps(hash, chains, zero, entries, e, v);
    SameSize(entries, hash[e].key, v);
    StoreFull(hash, e, v, lastfree);
  }

  lemma OverwriteZero<V>(hash: seq<Slot<V>>, chains: seq<seq<nat>>, zero: V, entries: map<int, V>, lastfree: nat, v: V)
    requires Holding(hash, chains, zero, entries, lastfree)
    ensures Holding(Stored(hash, 0, v), chains, zero, entries, lastfree)
  {
    assert Holding(hash, chains, zero, entries, lastfree) ==> Opened(true);
    StoreKeeps(hash, chains, zero, entries, 0, v);
    StoreFull(hash, 0, v, lastfree);
  }

  lemma SameSize<V>(m: map<int, V>, k: int, v: V)
    requires k in m
    ensures |m[k := v]| == |m|
  {
    assert m[k := v].Keys == m.Keys;
  }

  lemma StoreFull<V>(hash: seq<Slot<V>>, e: nat, v: V, lastfree: nat)
    requires e < |hash| && FullFrom(hash, lastfree)
    ensures FullFrom(Stored(hash, e, v), lastfree)
  {
  }

  lemma OccupantOf<V>(hash: seq<Slot<V>>, chains: seq<seq<nat>>, zero: V, entries: map<int, V>, lastfree: nat, p: nat)
      returns (m: nat, j: nat)
    requires Holding(hash, chains, zero, entries, lastfree) && 1 <= p < |hash| && hash[p].key != 0
    ensures m == MainPos(hash[p].key, |hash|) && j < |chains[m]| && chains[m][j] == p && chains[m][0] == m
    ensures m != p ==> 0 < j
  {
    assert Opened(true);
    m, j := OccupantPlace(hash, chains, zero, p);
  }

  lemma OccupantNext<V>(hash: seq<Slot<V>>, chains: seq<seq<nat>>, zero: V, entries: map<int, V>, lastfree: nat,
                        m: nat, i: nat, j: nat)
    requires Holding(hash, chains, zero, entries, lastfree) && m < |hash| && i < j < |chains[m]|
    ensures chains[m][i] < |hash| && chains[m][i + 1] < |hash| && chains[m][i] + hash[chains[m][i]].next == chains[m][i + 1]
    ensures chains[m][i + 1] == chains[m][j] ==> i + 1 == j
  {
    assert Opened(true);
    ChainNext(hash, chains, zero, m, i, j);
  }

  // ---------------------------------------------------------------------------------------------------------
  // Copying into a larger table

  lemma CopyNext<V>(hash: seq<Slot<V>>, chains: seq<seq<nat>>, zero: V, entries: map<int, V>, lastfree: nat, i: nat)
    requires Holding(hash, chains, zero, entries, lastfree) && i < |hash|
    ensures hash[i].key !in Upto(hash, i)
    ensures Upto(hash, i + 1) == if hash[i].key == 0 then Upto(hash, i) else Upto(hash, i)[hash[i].key := hash[i].val]
    ensures ZeroAfter(hash, i + 1, zero) == if hash[i].key == 0 then hash[i].val else ZeroAfter(hash, i, zero)
    ensures |Upto(hash, i)| < |hash| - 1
  {
    assert Opened(true);
    UptoCount(hash, i);
    UptoKeys(hash, i, 0);
    if hash[i].key != 0 {
      UptoFresh(hash, chains, zero, i);
    }
  }

  lemma CopyAll<V>(hash: seq<Slot<V>>, chains: seq<seq<nat>>, zero: V, entries: map<int, V>, lastfree: nat)
    requires Holding(hash, chains, zero, entries, lastfree)
    ensures Upto(hash, |hash|) == entries
  {
    assert Opened(true);
    UptoAll(hash, entries);
  }
}
