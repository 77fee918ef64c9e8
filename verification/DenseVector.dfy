module DenseVector {
  // What the dense hash map does to its value vector, seen as a sequence of (key, value) pairs.

  import opened Hiding
  import opened RobinHood

  ghost predicate Distinct<K, V>(vs: seq<(K, V)>) {
    forall i, j :: 0 <= i < j < |vs| ==> vs[i].0 != vs[j].0
  }

  /** The finite map a vector of distinct keys stands for. */
  ghost function ToMap<K, V>(vs: seq<(K, V)>): map<K, V> {
    if |vs| == 0 then map[] else ToMap(vs[..|vs| - 1])[vs[|vs| - 1].0 := vs[|vs| - 1].1]
  }

  /** The keys of the map are those in the vector, each with its own value. */
  lemma {:induction false} ToMapAt<K, V>(vs: seq<(K, V)>)
    requires Distinct(vs)
    ensures forall i :: 0 <= i < |vs| ==> vs[i].0 in ToMap(vs) && ToMap(vs)[vs[i].0] == vs[i].1
    ensures forall k :: k in ToMap(vs) ==> exists i :: 0 <= i < |vs| && vs[i].0 == k
  {
    if |vs| > 0 {
      var ws := vs[..|vs| - 1];
      ToMapAt(ws);
      assert forall i :: 0 <= i < |ws| ==> ws[i] == vs[i];
      forall k | k in ToMap(vs)
        ensures exists i :: 0 <= i < |vs| && vs[i].0 == k
      {
        if k in ToMap(ws) {
          var i :| 0 <= i < |ws| && ws[i].0 == k;
          assert vs[i].0 == k;
        } else {
          assert vs[|vs| - 1].0 == k;
        }
      }
    }
  }

  lemma KeyAt<K, V>(vs: seq<(K, V)>, i: nat)
    requires Distinct(vs) && i < |vs|
    ensures vs[i].0 in ToMap(vs) && ToMap(vs)[vs[i].0] == vs[i].1
  {
    ToMapAt(vs);
  }

  lemma IndexOfKey<K, V>(vs: seq<(K, V)>, k: K) returns (i: nat)
    requires Distinct(vs) && k in ToMap(vs)
    ensures i < |vs| && vs[i] == (k, ToMap(vs)[k])
  {
    ToMapAt(vs);
    i :| i < |vs| && vs[i].0 == k;
  }

  lemma KeyAbsent<K, V>(vs: seq<(K, V)>, k: K)
    requires Distinct(vs) && forall i :: 0 <= i < |vs| ==> vs[i].0 != k
    ensures k !in ToMap(vs)
  {
    if k in ToMap(vs) {
      var _ := IndexOfKey(vs, k);
    }
  }

  lemma AppendDistinct<K, V>(vs: seq<(K, V)>, kv: (K, V))
    requires Distinct(vs) && forall i :: 0 <= i < |vs| ==> vs[i].0 != kv.0
    ensures Distinct(vs + [kv]) && kv.0 !in ToMap(vs)
    ensures ToMap(vs + [kv]) == ToMap(vs)[kv.0 := kv.1]
  {
    KeyAbsent(vs, kv.0);
    assert (vs + [kv])[..|vs|] == vs;
  }

  lemma AssignKeepsDistinct<K, V>(vs: seq<(K, V)>, i: nat, v: V)
    requires Distinct(vs) && i < |vs|
    ensures Distinct(vs[i := (vs[i].0, v)]) && vs[i].0 in ToMap(vs)
    ensures ToMap(vs[i := (vs[i].0, v)]) == ToMap(vs)[vs[i].0 := v]
  {
    var ws := vs[i := (vs[i].0, v)];
    assert forall j :: 0 <= j < |vs| ==> ws[j].0 == vs[j].0;
    assert Distinct(ws);
    KeyAt(vs, i);
    forall k | k in ToMap(vs)
      ensures k in ToMap(ws) && ToMap(ws)[k] == if k == vs[i].0 then v else ToMap(vs)[k]
    {
      var j := IndexOfKey(vs, k);
      KeyAt(ws, j);
    }
    forall k | k in ToMap(ws)
      ensures k in ToMap(vs)
    {
      var j := IndexOfKey(ws, k);
      KeyAt(vs, j);
    }
  }

  lemma SwapRemoveKeepsDistinct<K, V>(vs: seq<(K, V)>, i: nat)
    requires Distinct(vs) && i < |vs|
    ensures Distinct(SwapRemove(vs, i))
  {
    SwapRemoveAt(vs, i);
  }

  /** Erasing by overwriting with the last entry removes exactly one key from the map. */
  lemma SwapRemoveMap<K, V>(vs: seq<(K, V)>, i: nat)
    requires Distinct(vs) && i < |vs|
    ensures Distinct(SwapRemove(vs, i))
    ensures ToMap(SwapRemove(vs, i)) == ToMap(vs) - {vs[i].0}
  {
    SwapRemoveKeepsDistinct(vs, i);
    var last, ws := |vs| - 1, SwapRemove(vs, i);
    forall k | k in ToMap(vs) && k != vs[i].0
      ensures k in ToMap(ws) && ToMap(ws)[k] == ToMap(vs)[k]
    {
      var j := IndexOfKey(vs, k);
      SwapRemoveAt(vs, i);
      KeyAt(ws, if j == last then i else j);
    }
    forall k | k in ToMap(ws)
      ensures k in ToMap(vs) && k != vs[i].0
    {
      var j := IndexOfKey(ws, k);
      SwapRemoveAt(vs, i);
      KeyAt(vs, if j == i then last else j);
    }
  }

  // ---------------------------------------------------------------------------------------------------------
  // Range erase

  /** The vector after erasing m entries from `first` on, each time the one at the moving front. */
  function FillRange<T>(s: seq<T>, first: nat, m: nat): (r: seq<T>)
    requires first + 2 * m <= |s| || (m == 0 && first <= |s|)
    ensures |r| == |s| - m
  {
    if m == 0 then s else SwapRemove(FillRange(s, first, m - 1), first + m - 1)
  }

  /** The last m elements of a sequence, in reverse order. */
  function LastReversed<T>(s: seq<T>, m: nat): (r: seq<T>)
    requires m <= |s|
  {
    seq(m, i requires 0 <= i < m => s[|s| - 1 - i])
  }

  /** After m steps, m entries from the end have moved to the front of the range, in reverse order. */
  lemma {:induction false} FillRangeAt<T>(s: seq<T>, first: nat, m: nat, j: nat)
    requires first + 2 * m <= |s| && j < |s| - m
    ensures FillRange(s, first, m)[j] == if first <= j < first + m then s[|s| - 1 - (j - first)] else s[j]
  {
    if m > 0 {
      FillRangeAt(s, first, m - 1, j);
      FillRangeAt(s, first, m - 1, |s| - m);
      SwapRemoveAt(FillRange(s, first, m - 1), first + m - 1);
    }
  }

  /** What a range erase leaves: the part before, the moved entries in reverse order, the rest of the part after. */
  function CutRange<T>(s: seq<T>, first: nat, last: nat): seq<T>
    requires first <= last <= |s|
  {
    var m := Min(last - first, |s| - last);
    s[..first] + LastReversed(s, m) + s[last..|s| - m]
  }

  lemma FillRangeEnd<T>(s: seq<T>, first: nat, last: nat)
    requires first <= last <= |s|
    ensures var m := Min(last - first, |s| - last);
            FillRange(s, first, m)[..|s| - m - (last - first - m)] == CutRange(s, first, last)
  {
    var m: nat := Min(last - first, |s| - last);
    var r := FillRange(s, first, m)[..|s| - m - (last - first - m)];
    forall j: nat | j < |r|
      ensures r[j] == CutRange(s, first, last)[j]
    {
      FillRangeAt(s, first, m, j);
    }
  }

  lemma {:induction false} LastReversedExact<T>(s: seq<T>, m: nat)
    requires m <= |s|
    ensures multiset(LastReversed(s, m)) == multiset(s[|s| - m..])
  {
    if m > 0 {
      LastReversedExact(s, m - 1);
      assert LastReversed(s, m) == LastReversed(s, m - 1) + [s[|s| - m]];
      assert s[|s| - m..] == [s[|s| - m]] + s[|s| - (m - 1)..];
    }
  }

  lemma Regroup<T>(a: seq<T>, b: seq<T>, c: seq<T>, d: seq<T>)
    requires multiset(b) == multiset(d)
    ensures multiset(a + b + c) == multiset(a + (c + d))
  {
    assert multiset(a + b + c) == multiset(a) + multiset(b) + multiset(c);
    assert multiset(a + (c + d)) == multiset(a) + (multiset(c) + multiset(d));
  }

  lemma CutPartsExact<T>(s: seq<T>, first: nat, last: nat, m: nat)
    requires first <= last && last + m <= |s|
    ensures multiset(s[..first] + LastReversed(s, m) + s[last..|s| - m]) == multiset(s[..first] + s[last..])
  {
    var c, d := s[last..|s| - m], s[|s| - m..];
    assert s[last..] == c + d;
    LastReversedExact(s, m);
    Regroup(s[..first], LastReversed(s, m), c, d);
  }

  /** Precisely the elements outside [first, last) survive a range erase. */
  lemma CutRangeExact<T>(s: seq<T>, first: nat, last: nat)
    requires first <= last <= |s|
    ensures multiset(CutRange(s, first, last)) == multiset(s[..first] + s[last..])
  {
    CutPartsExact(s, first, last, Min(last - first, |s| - last));
  }

  // ---------------------------------------------------------------------------------------------------------
  // Erasing by predicate

  /** The entries a predicate does not select, in order. */
  function Rejects<K, V>(vs: seq<(K, V)>, pred: (K, V) -> bool): (r: seq<(K, V)>)
    ensures |r| <= |vs|
  {
    if |vs| == 0 then []
    else (if pred(vs[0].0, vs[0].1) then [] else [vs[0]]) + Rejects(vs[1..], pred)
  }

  /** Entries below idx are still those of vs; from idx on exactly the rejected entries of vs remain. */
  ghost predicate Swept<K, V>(vs: seq<(K, V)>, ws: seq<(K, V)>, idx: nat, pred: (K, V) -> bool) {
    && idx <= |vs| && idx <= |ws|
    && ws[..idx] == vs[..idx]
    && multiset(ws[idx..]) == multiset(Rejects(vs[idx..], pred))
  }

  lemma SwapRemoveTail<T>(s: seq<T>, i: nat)
    requires i < |s|
    ensures SwapRemove(s, i)[..i] == s[..i]
    ensures multiset(SwapRemove(s, i)[i..]) == multiset(s[i + 1..])
  {
    if i < |s| - 1 {
      assert SwapRemove(s, i)[i..] == [s[|s| - 1]] + s[i + 1..|s| - 1];
      assert s[i + 1..] == s[i + 1..|s| - 1] + [s[|s| - 1]];
    } else {
      assert SwapRemove(s, i)[i..] == [] == s[i + 1..];
    }
  }

  lemma SweepStep<K, V>(vs: seq<(K, V)>, ws: seq<(K, V)>, idx: nat, pred: (K, V) -> bool)
    requires idx < |vs| && Swept(vs, ws, idx + 1, pred)
    ensures pred(ws[idx].0, ws[idx].1) ==> Swept(vs, SwapRemove(ws, idx), idx, pred)
    ensures !pred(ws[idx].0, ws[idx].1) ==> Swept(vs, ws, idx, pred)
  {
    assert ws[idx] == ws[..idx + 1][idx] == vs[idx];
    assert vs[idx..][1..] == vs[idx + 1..];
    assert ws[..idx] == ws[..idx + 1][..idx] == vs[..idx];
    if pred(ws[idx].0, ws[idx].1) {
      SwapRemoveTail(ws, idx);
      assert Rejects(vs[idx..], pred) == Rejects(vs[idx + 1..], pred);
    } else {
      assert ws[idx..] == [vs[idx]] + ws[idx + 1..];
    }
  }

  lemma SweepEnd<K, V>(vs: seq<(K, V)>, ws: seq<(K, V)>, pred: (K, V) -> bool)
    requires Swept(vs, ws, 0, pred)
    ensures multiset(ws) == multiset(Rejects(vs, pred)) && |ws| == |Rejects(vs, pred)|
  {
    assert ws[0..] == ws && vs[0..] == vs;
    assert |multiset(ws)| == |ws| && |multiset(Rejects(vs, pred))| == |Rejects(vs, pred)|;
  }

  // ---------------------------------------------------------------------------------------------------------
  // Dropping duplicates

  ghost function Keys<K, V>(vs: seq<(K, V)>): set<K> {
    set i | 0 <= i < |vs| :: vs[i].0
  }

  /** ws holds entries of vs only, and for every key of vs at least one. */
  ghost predicate OnePerKey<K, V>(vs: seq<(K, V)>, ws: seq<(K, V)>) {
    forall d {:trigger Opened(d)} :: Opened(d) ==> Keys(ws) == Keys(vs) && forall e :: e in ws ==> e in vs
  }

  lemma OnePerKeyStart<K, V>(vs: seq<(K, V)>)
    ensures OnePerKey(vs, vs)
  {
  }

  lemma DropDuplicate<K, V>(vs: seq<(K, V)>, ws: seq<(K, V)>, i: nat, j: nat)
    requires i < j < |ws| && ws[i].0 == ws[j].0 && OnePerKey(vs, ws)
    ensures OnePerKey(vs, SwapRemove(ws, j))
  {
    assert Opened(true);
    var last := |ws| - 1;
    var us := SwapRemove(ws, j);
    SwapRemoveAt(ws, j);
    forall k | k in Keys(ws)
      ensures k in Keys(us)
    {
      var m: nat :| m < |ws| && ws[m].0 == k;
      var m' := if m == j then i else if m == last then j else m;
      assert us[m'].0 == k;
    }
    assert Keys(us) == Keys(ws);
  }

  lemma SwapRemovePrefix<K, V>(vs: seq<(K, V)>, n: nat)
    requires n < |vs| && Distinct(vs[..n])
    ensures n <= |SwapRemove(vs, n)| && Distinct(SwapRemove(vs, n)[..n])
    ensures forall i :: 0 <= i < n ==> SwapRemove(vs, n)[i] == vs[i]
  {
    SwapRemoveAt(vs, n);
    assert SwapRemove(vs, n)[..n] == vs[..n];
  }

  lemma ExtendPrefix<K, V>(vs: seq<(K, V)>, n: nat)
    requires n < |vs| && Distinct(vs[..n]) && forall i :: 0 <= i < n ==> vs[i].0 != vs[n].0
    ensures Distinct(vs[..n + 1])
  {
    assert vs[..n + 1] == vs[..n] + [vs[n]];
  }
}
