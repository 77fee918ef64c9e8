// Sums of a per-element count over a sequence.
module Counting {
  function If(b: bool, n: nat): nat {
    if b then n else 0
  }

  ghost function Total<T>(xs: seq<T>, f: (T, nat) -> nat, k: nat): nat {
    if xs == [] then 0 else f(xs[0], k) + Total(xs[1..], f, k)
  }

  lemma {:induction false} TotalUpdate<T>(xs: seq<T>, i: nat, x: T, f: (T, nat) -> nat, k: nat)
    requires i < |xs|
    ensures Total(xs[i := x], f, k) == Total(xs, f, k) - f(xs[i], k) + f(x, k)
  {
    var ys := xs[i := x];
    if i > 0 {
      TotalUpdate(xs[1..], i - 1, x, f, k);
      assert ys[1..] == xs[1..][i - 1 := x];
    } else {
      assert ys[1..] == xs[1..];
    }
  }

  lemma {:induction false} TotalHas<T>(xs: seq<T>, i: nat, f: (T, nat) -> nat, k: nat)
    requires i < |xs|
    ensures f(xs[i], k) <= Total(xs, f, k)
  {
    if i > 0 {
      TotalHas(xs[1..], i - 1, f, k);
    }
  }

  /** Two different threads count twice. */
  lemma {:induction false} TotalTwo<T>(xs: seq<T>, i: nat, j: nat, f: (T, nat) -> nat, k: nat)
    requires i < j < |xs|
    ensures f(xs[i], k) + f(xs[j], k) <= Total(xs, f, k)
  {
    if i > 0 {
      TotalTwo(xs[1..], i - 1, j - 1, f, k);
    } else {
      TotalHas(xs[1..], j - 1, f, k);
    }
  }

  lemma {:induction false} TotalZero<T>(xs: seq<T>, f: (T, nat) -> nat, k: nat)
    requires forall i :: 0 <= i < |xs| ==> f(xs[i], k) == 0
    ensures Total(xs, f, k) == 0
  {
    if xs != [] {
      TotalZero(xs[1..], f, k);
    }
  }


  lemma {:induction false} TotalSome<T>(xs: seq<T>, f: (T, nat) -> nat, k: nat) returns (i: nat)
    requires Total(xs, f, k) > 0
    ensures i < |xs| && f(xs[i], k) > 0
  {
    if f(xs[0], k) > 0 {
      i := 0;
    } else {
      i := TotalSome(xs[1..], f, k);
      i := i + 1;
    }
  }


  lemma {:induction false} TotalAppend<T>(xs: seq<T>, x: T, f: (T, nat) -> nat, k: nat)
    ensures Total(xs + [x], f, k) == Total(xs, f, k) + f(x, k)
  {
    if xs != [] {
      assert (xs + [x])[1..] == xs[1..] + [x];
      TotalAppend(xs[1..], x, f, k);
    }
  }
}
