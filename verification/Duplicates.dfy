module Duplicates {
  // Which of several entries of one key the hash map keeps when it adopts a whole vector: the one it reads first,
  // where every surplus entry read is followed by the entry then at the end of the vector.

  import opened Wrappers
  import opened Hiding
  import opened RobinHood
  import opened DenseVector

  /** The first entry of a key. */
  ghost function First<K, V>(vs: seq<(K, V)>, k: K): (r: Option<(K, V)>)
    ensures r.Some? ==> r.value in vs && r.value.0 == k
    ensures r.None? ==> forall i :: 0 <= i < |vs| ==> vs[i].0 != k
  {
    if vs == [] then None else if vs[0].0 == k then Some(vs[0]) else First(vs[1..], k)
  }

  lemma {:induction false} FirstAppend<K, V>(a: seq<(K, V)>, b: seq<(K, V)>, k: K)
    ensures First(a + b, k) == if First(a, k).Some? then First(a, k) else First(b, k)
  {
    if a == [] {
      assert a + b == b;
    } else {
      assert (a + b)[1..] == a[1..] + b;
      FirstAppend(a[1..], b, k);
    }
  }

  lemma {:induction false} FirstOfDistinct<K, V>(vs: seq<(K, V)>, i: nat)
    requires Distinct(vs) && i < |vs|
    ensures First(vs, vs[i].0) == Some(vs[i])
  {
    if i > 0 {
      FirstOfDistinct(vs[1..], i - 1);
    }
  }

  /** What is left to read when rest[0] is dropped: the last entry comes first. */
  ghost function Refilled<K, V>(rest: seq<(K, V)>): seq<(K, V)>
    requires rest != []
  {
    if |rest| == 1 then [] else [rest[|rest| - 1]] + rest[1..|rest| - 1]
  }

  /** The entries kept of rest behind those kept so far. */
  ghost function Kept<K, V>(kept: seq<(K, V)>, rest: seq<(K, V)>): seq<(K, V)>
    decreases |rest|
  {
    if rest == [] then kept
    else if First(kept, rest[0].0).Some? then Kept(kept, Refilled(rest))
    else Kept(kept + [rest[0]], rest[1..])
  }

  /** The vector to read after entry n is dropped. */
  lemma RefilledIs<K, V>(vs: seq<(K, V)>, n: nat)
    requires n < |vs|
    ensures var ws := SwapRemove(vs, n); n <= |ws| && ws[..n] == vs[..n] && ws[n..] == Refilled(vs[n..])
  {
    SwapRemoveAt(vs, n);
    var ws := SwapRemove(vs, n);
    assert ws[..n] == vs[..n];
    if n == |vs| - 1 {
      assert ws[n..] == [];
    } else {
      assert ws[n..] == [vs[|vs| - 1]] + vs[n + 1..|vs| - 1];
      assert vs[n..][1..|vs| - n - 1] == vs[n + 1..|vs| - 1];
    }
  }

  /** Reading entry n when entry i has its key already. */
  lemma Dropping<K, V>(vs: seq<(K, V)>, i: nat, n: nat)
    requires i < n < |vs| && vs[i].0 == vs[n].0
    ensures var ws := SwapRemove(vs, n); n <= |ws| && Kept(ws[..n], ws[n..]) == Kept(vs[..n], vs[n..])
  {
    RefilledIs(vs, n);
    assert vs[..n][i].0 == vs[n..][0].0;
  }

  /** Reading entry n of a new key. */
  lemma Keeping<K, V>(vs: seq<(K, V)>, n: nat)
    requires n < |vs| && forall i :: 0 <= i < n ==> vs[i].0 != vs[n].0
    ensures Kept(vs[..n + 1], vs[n + 1..]) == Kept(vs[..n], vs[n..])
  {
    assert vs[n..][0] == vs[n] && vs[n..][1..] == vs[n + 1..] && vs[..n] + [vs[n]] == vs[..n + 1];
  }

  lemma AppendApart<K, V>(kept: seq<(K, V)>, x: (K, V))
    requires Distinct(kept) && First(kept, x.0).None?
    ensures Distinct(kept + [x])
  {
  }

  // ---------------------------------------------------------------------------------------------------------
  // Which entry that is

  /** What is kept once stays where it is, and a vector of distinct keys is kept as it is. */
  lemma {:induction false} KeptBegins<K, V>(kept: seq<(K, V)>, rest: seq<(K, V)>)
    requires Distinct(kept)
    ensures kept <= Kept(kept, rest) && Distinct(Kept(kept, rest))
    ensures Distinct(kept + rest) ==> Kept(kept, rest) == kept + rest
    decreases |rest|
  {
    if rest == [] {
      assert kept + rest == kept;
    } else if First(kept, rest[0].0).Some? {
      KeptBegins(kept, Refilled(rest));
      NotApart(kept, rest);
    } else {
      AppendApart(kept, rest[0]);
      KeptBegins(kept + [rest[0]], rest[1..]);
      assert kept + rest == kept + [rest[0]] + rest[1..];
    }
  }

  lemma NotApart<K, V>(kept: seq<(K, V)>, rest: seq<(K, V)>)
    requires rest != [] && First(kept, rest[0].0).Some?
    ensures !Distinct(kept + rest)
  {
    var e := First(kept, rest[0].0).value;
    var i: nat :| i < |kept| && kept[i] == e;
    assert (kept + rest)[i].0 == (kept + rest)[|kept|].0;
  }

  /** Every entry kept is the first of its key. */
  ghost predicate AllFirst<K, V>(ws: seq<(K, V)>, vs: seq<(K, V)>) {
    forall i :: 0 <= i < |ws| ==> First(vs, ws[i].0) == Some(ws[i])
  }

  /** The last entry of rest is moved in front of an earlier one of its key, which is another entry and not kept yet. */
  ghost predicate Overtakes<K, V>(kept: seq<(K, V)>, rest: seq<(K, V)>)
    requires rest != []
  {
    var last := rest[|rest| - 1];
    First(kept, last.0).None? && First(rest[1..], last.0) != Some(last)
  }

  /** No surplus entry is replaced by one that overtakes another. */
  ghost predicate Orderly<K, V>(kept: seq<(K, V)>, rest: seq<(K, V)>)
    decreases |rest|
  {
    if rest == [] then true
    else if First(kept, rest[0].0).None? then Orderly(kept + [rest[0]], rest[1..])
    else |rest| == 1 || (!Overtakes(kept, rest) && Orderly(kept, Refilled(rest)))
  }

  lemma Aside<K, V>(x: (K, V), vs: seq<(K, V)>, k: K)
    ensures First([x] + vs, k) == if x.0 == k then Some(x) else First(vs, k)
    ensures First(vs + [x], k) == if First(vs, k).Some? then First(vs, k) else if x.0 == k then Some(x) else None
  {
    OneEntry(x, k);
    FirstAppend([x], vs, k);
    FirstAppend(vs, [x], k);
  }

  /** Putting y in front of mid, in the place of x. */
  lemma Moved<K, V>(kept: seq<(K, V)>, x: (K, V), mid: seq<(K, V)>, y: (K, V), k: K)
    requires First(kept, x.0).Some?
    requires k != y.0 || First(kept, k).Some? || First(mid + [y], k) == Some(y)
    ensures First(kept + ([y] + mid), k) == First(kept + ([x] + (mid + [y])), k)
  {
    FirstAppend(kept, [y] + mid, k);
    FirstAppend(kept, [x] + (mid + [y]), k);
    if First(kept, k).None? {
      Aside(x, mid + [y], k);
      Aside(y, mid, k);
    }
  }

  lemma Parts<K, V>(rest: seq<(K, V)>)
    requires |rest| > 1
    ensures var x, mid, y := rest[0], rest[1..|rest| - 1], rest[|rest| - 1];
            rest == [x] + (mid + [y]) && rest[1..] == mid + [y] && Refilled(rest) == [y] + mid
  {
  }

  /** The first entries are the same before and after a surplus entry is dropped, but for one that is overtaken. */
  lemma FirstsStay<K, V>(kept: seq<(K, V)>, rest: seq<(K, V)>, k: K)
    requires |rest| > 1 && First(kept, rest[0].0).Some?
    requires k != rest[|rest| - 1].0 || !Overtakes(kept, rest)
    ensures First(kept + Refilled(rest), k) == First(kept + rest, k)
  {
    Parts(rest);
    Moved(kept, rest[0], rest[1..|rest| - 1], rest[|rest| - 1], k);
  }

  lemma OneEntry<K, V>(x: (K, V), k: K)
    ensures First([x], k) == if x.0 == k then Some(x) else None
  {
    assert First([x][1..], k) == None;
  }

  /** The entry that overtakes is kept, and is not the first of its key. */
  lemma OvertakenLost<K, V>(kept: seq<(K, V)>, rest: seq<(K, V)>)
    requires |rest| > 1 && Distinct(kept) && First(kept, rest[0].0).Some? && Overtakes(kept, rest)
    ensures !AllFirst(Kept(kept, Refilled(rest)), kept + rest)
  {
    var x, mid, y, ws := rest[0], rest[1..|rest| - 1], rest[|rest| - 1], Kept(kept, Refilled(rest));
    Parts(rest);
    KeptNext(kept, y, mid);
    AppendApart(kept, y);
    KeptBegins(kept + [y], mid);
    assert ws[|kept|] == (kept + [y])[|kept|] == y;
    FirstAppend(kept, [x] + (mid + [y]), y.0);
    Aside(x, mid + [y], y.0);
  }

  lemma KeptNext<K, V>(kept: seq<(K, V)>, y: (K, V), mid: seq<(K, V)>)
    requires First(kept, y.0).None?
    ensures Kept(kept, [y] + mid) == Kept(kept + [y], mid)
  {
    assert ([y] + mid)[1..] == mid;
  }

  /**
   * Every key keeps its first entry if and only if no surplus entry read is replaced by one from the end of the vector
   * that overtakes another entry of its own key.
   */
  lemma {:induction false} FirstKeptExactly<K, V>(kept: seq<(K, V)>, rest: seq<(K, V)>)
    requires Distinct(kept)
    ensures AllFirst(Kept(kept, rest), kept + rest) <==> Orderly(kept, rest)
    decreases |rest|
  {
    if rest == [] || (|rest| == 1 && First(kept, rest[0].0).Some?) {
      forall i | 0 <= i < |kept|
        ensures First(kept + rest, kept[i].0) == Some(kept[i])
      {
        FirstOfDistinct(kept, i);
        FirstAppend(kept, rest, kept[i].0);
      }
      assert rest != [] ==> Kept(kept, []) == kept;
    } else if First(kept, rest[0].0).None? {
      AppendApart(kept, rest[0]);
      FirstKeptExactly(kept + [rest[0]], rest[1..]);
      assert kept + rest == kept + [rest[0]] + rest[1..];
    } else if Overtakes(kept, rest) {
      OvertakenLost(kept, rest);
    } else {
      FirstKeptExactly(kept, Refilled(rest));
      var ws := Kept(kept, Refilled(rest));
      forall i | 0 <= i < |ws|
        ensures First(kept + Refilled(rest), ws[i].0) == First(kept + rest, ws[i].0)
      {
        FirstsStay(kept, rest, ws[i].0);
      }
    }
  }

  /** One duplicate in front of two entries of another key: that key keeps its last entry. */
  lemma LastKept<V>(a: V, b: V, c: V, d: V)
    ensures Kept([], [(1, a), (1, b), (2, c), (2, d)]) == [(1, a), (2, d)]
  {
    var vs: seq<(int, V)> := [(1, a), (1, b), (2, c), (2, d)];
    var rest := vs[1..];
    var none: seq<(int, V)> := [];
    assert none + [(1, a)] == [(1, a)];
    assert Kept(none, vs) == Kept([(1, a)], rest);
    assert Refilled(rest) == [(2, d), (2, c)];
    OneEntry((1, a), 1);
    assert Kept([(1, a)], rest) == Kept([(1, a)], [(2, d), (2, c)]);
    OneEntry((1, a), 2);
    var two: seq<(int, V)> := [(2, d), (2, c)];
    assert two[1..] == [(2, c)] && [(1, a)] + [(2, d)] == [(1, a), (2, d)];
    assert Kept([(1, a)], two) == Kept([(1, a), (2, d)], [(2, c)]);
    FirstAppend([(1, a)], [(2, d)], 2);
    OneEntry((2, d), 2);
    assert Refilled([(2, c)]) == [];
  }
}
