module TimingWheel {
  // The arithmetic of the hierarchical timing wheel: which tick an entry is released at.
  //
  // Wheel i has b buckets and drops its front bucket at every tick divisible by b^i. `pops[i]` counts the drops so
  // far. An entry of wheel 0 is a task; an entry of a higher wheel is a wrapper that, when dropped, puts its inner
  // entry into the wheel below.

  import opened Hiding

  datatype Entry = Task(id: nat) | Deferred(delay: nat, level: nat, t: nat, inner: Entry)

  type Wheels = seq<seq<set<Entry>>>

  function IdOf(x: Entry): nat {
    match x
    case Task(id) => id
    case Deferred(_, _, _, inner) => IdOf(inner)
  }

  /** x may be kept in wheel i. */
  predicate WellFormed(x: Entry, i: nat) {
    match x
    case Task(_) => i == 0
    case Deferred(delay, level, _, inner) => i > 0 && level == i - 1 && delay > 0 && WellFormed(inner, level)
  }

  /** The bucket a wrapper puts its inner entry into. */
  function Slot(delay: nat, t: nat, b: nat): (r: nat)
    requires b > 0 && delay > 0
    ensures r < b
  {
    (delay + t % b - 1) % b
  }

  /** The delay carried to the next wheel. */
  function Carry(delay: nat, t: nat, b: nat): nat
    requires b > 0 && delay > 0
  {
    (delay + t % b - 1) / b
  }

  /** The tick at which the task inside x is dropped, if x is dropped by the p-th drop of wheel i. */
  function FireTick(x: Entry, i: nat, p: nat, b: nat): nat
    requires b > 0 && WellFormed(x, i)
    decreases x
  {
    match x
    case Task(_) => p
    case Deferred(delay, level, t, inner) => FireTick(inner, level, b * p + Slot(delay, t, b) + 1, b)
  }

  // ---------------------------------------------------------------------------------------------------------
  // Where an insertion ends up

  /** The drop of wheel i that releases an entry inserted there with this delay when t drops have happened. */
  function Target(i: nat, t: nat, delay: nat, n: nat, b: nat): nat
    requires b > 0 && i < n && delay > 0
    decreases n - i
  {
    if delay <= b then t + delay
    else if i == n - 1 then t + b
    else
      CarryPositive(delay, t, b);
      b * Target(i + 1, t / b, Carry(delay, t, b), n, b) + Slot(delay, t, b) + 1
  }

  /** The tick at which a task inserted now with this delay is released. */
  function Due(now: nat, delay: nat, n: nat, b: nat): nat
    requires b > 0 && n > 0 && delay > 0
  {
    Target(0, now, delay, n, b)
  }

  /** Some wheel has a bucket for the delay. */
  predicate Fits(i: nat, t: nat, delay: nat, n: nat, b: nat)
    requires b > 0 && i < n && delay > 0
    decreases n - i
  {
    delay <= b || (i < n - 1 && (CarryPositive(delay, t, b); Fits(i + 1, t / b, Carry(delay, t, b), n, b)))
  }

  lemma CarryPositive(delay: nat, t: nat, b: nat)
    requires b > 0 && delay > 0
    ensures delay > b ==> Carry(delay, t, b) > 0
  {
    if delay > b {
      QuotientAtLeast(delay + t % b - 1, b, 1);
    }
  }

  lemma QuotientAtLeast(x: nat, b: nat, q: nat)
    requires b > 0 && x >= b * q
    ensures x / b >= q
  {
    assert x == b * (x / b) + x % b;
    assert b * (x / b + 1) > b * q;
  }

  lemma QuotientAtMost(x: nat, b: nat, q: nat)
    requires b > 0 && x < b * (q + 1)
    ensures x / b <= q
  {
    assert x == b * (x / b) + x % b;
    assert b * (x / b) < b * (q + 1);
  }

  /** An entry is released exactly when due if and only if some wheel has a bucket for it, and never late. */
  lemma {:induction false} TargetExact(i: nat, t: nat, delay: nat, n: nat, b: nat)
    requires b > 0 && i < n && delay > 0
    ensures Target(i, t, delay, n, b) <= t + delay
    ensures Target(i, t, delay, n, b) == t + delay <==> Fits(i, t, delay, n, b)
    ensures Target(i, t, delay, n, b) > t
    decreases n - i
  {
    if delay > b && i < n - 1 {
      CarryPositive(delay, t, b);
      TargetExact(i + 1, t / b, Carry(delay, t, b), n, b);
      OneLevel(t, delay, Target(i + 1, t / b, Carry(delay, t, b), n, b), b);
    }
  }

  /** Coming down one wheel from drop p keeps the distance to the due drop. */
  lemma OneLevel(t: nat, delay: nat, p: nat, b: nat)
    requires b > 0 && delay > 0 && t / b < p <= t / b + Carry(delay, t, b)
    ensures t < b * p + Slot(delay, t, b) + 1 <= t + delay
    ensures b * p + Slot(delay, t, b) + 1 == t + delay <==> p == t / b + Carry(delay, t, b)
  {
    var u, q := t / b, Carry(delay, t, b);
    assert t == b * u + t % b;
    assert delay + t % b - 1 == b * q + Slot(delay, t, b);
    assert b * (u + q) == b * u + b * q;
    Scaled(b, p, u + q);
    Scaled(b, u + 1, p);
    assert b * (u + 1) == b * u + b;
  }

  /** Multiplying by b keeps the order and, when strict, widens it to at least b. */
  lemma Scaled(b: nat, x: int, y: int)
    requires b > 0 && x <= y
    ensures b * x <= b * y
    ensures x < y ==> b * x + b <= b * y
  {
    if x < y {
      assert b * (x + 1) <= b * y;
    }
  }

  function Pow(b: nat, e: nat): nat {
    if e == 0 then 1 else b * Pow(b, e - 1)
  }

  /** Every delay of at most b^n ticks fits, whatever the current tick. */
  lemma {:induction false} FitsUpToPow(i: nat, t: nat, delay: nat, n: nat, b: nat)
    requires b > 0 && i < n && delay > 0
    requires delay <= Pow(b, n - i)
    ensures Fits(i, t, delay, n, b)
    decreases n - i
  {
    if delay > b {
      assert Pow(b, 1) == b * Pow(b, 0) == b;
      assert i < n - 1;
      CarryPositive(delay, t, b);
      var m := Pow(b, n - i - 1);
      assert b * (m + 1) == b * m + b;
      QuotientAtMost(delay + t % b - 1, b, m);
      FitsUpToPow(i + 1, t / b, Carry(delay, t, b), n, b);
    }
  }

  /** An insertion that has come to wheel i with this delay will release its task at tick due. */
  ghost predicate Rising(x: Entry, i: nat, t: nat, delay: nat, id: nat, due: nat, n: nat, b: nat) {
    && b > 0 && i < n && delay > 0
    && forall d {:trigger Opened(d)} :: Opened(d) ==>
         WellFormed(x, i) && IdOf(x) == id && FireTick(x, i, Target(i, t, delay, n, b), b) == due
  }

  lemma RiseStart(id: nat, now: nat, delay: nat, n: nat, b: nat)
    requires b > 0 && n > 0 && delay > 0
    ensures Rising(Task(id), 0, now, delay, id, Due(now, delay, n, b), n, b)
  {
  }

  /** Wrapping once more keeps the release tick. */
  lemma RiseStep(x: Entry, i: nat, t: nat, delay: nat, id: nat, due: nat, n: nat, b: nat)
    requires Rising(x, i, t, delay, id, due, n, b) && delay > b && i < n - 1
    ensures Rising(Deferred(delay, i, t, x), i + 1, t / b, Carry(delay, t, b), id, due, n, b)
  {
    assert Opened(true);
    CarryPositive(delay, t, b);
  }

  lemma RiseEnd(x: Entry, i: nat, t: nat, delay: nat, id: nat, due: nat, n: nat, b: nat)
    requires Rising(x, i, t, delay, id, due, n, b) && (delay <= b || i == n - 1)
    ensures WellFormed(x, i)
    ensures var j := if delay <= b then delay - 1 else b - 1;
            0 <= j < b && PairAt(x, i, t + j + 1, b) == (id, due)
  {
    assert Opened(true);
  }

  // ---------------------------------------------------------------------------------------------------------
  // The agenda: all (task id, release tick) pairs held by the wheels

  /** pops[i] is now / b^i. */
  ghost predicate Counting(now: nat, pops: seq<nat>, b: nat) {
    && b > 0 && |pops| > 0
    && pops[0] == now
    && forall i :: 0 <= i < |pops| - 1 ==> pops[i + 1] == pops[i] / b
  }

  ghost predicate Arranged(ws: Wheels, n: nat, b: nat) {
    && |ws| == n
    && (forall i :: 0 <= i < n ==> |ws[i]| == b)
    && (forall d {:trigger Opened(d)} :: Opened(d) ==> Fitting(ws, n, b))
  }

  ghost predicate Fitting(ws: Wheels, n: nat, b: nat)
    requires |ws| == n && forall i :: 0 <= i < n ==> |ws[i]| == b
  {
    forall i, j, x :: 0 <= i < n && 0 <= j < b && x in ws[i][j] ==> WellFormed(x, i)
  }

  /** The pair contributed by x in bucket j of wheel i. */
  ghost function PairAt(x: Entry, i: nat, p: nat, b: nat): (nat, nat)
    requires b > 0 && WellFormed(x, i)
  {
    (IdOf(x), FireTick(x, i, p, b))
  }

  ghost function Pairs(ws: Wheels, pops: seq<nat>, b: nat): set<(nat, nat)>
    requires b > 0 && Arranged(ws, |pops|, b)
  {
    assert Opened(true);
    set i, j, x | 0 <= i < |ws| && 0 <= j < b && x in ws[i][j] :: PairAt(x, i, pops[i] + j + 1, b)
  }

  /** All pairs held by the wheels; the definition stays closed outside InAgenda and FromAgenda. */
  ghost function Agenda(ws: Wheels, pops: seq<nat>, b: nat): set<(nat, nat)>
    requires b > 0 && Arranged(ws, |pops|, b)
  {
    assert forall d {:trigger Opened(d)} :: Opened(d) ==> Pairs(ws, pops, b) == Pairs(ws, pops, b);
    var a :| forall d {:trigger Opened(d)} :: Opened(d) ==> a == Pairs(ws, pops, b);
    a
  }

  function AddTo(ws: Wheels, i: nat, j: nat, x: Entry): Wheels
    requires i < |ws| && j < |ws[i]|
  {
    ws[i := ws[i][j := ws[i][j] + {x}]]
  }

  lemma InAgenda(ws: Wheels, pops: seq<nat>, b: nat, i: nat, j: nat, x: Entry)
    requires b > 0 && Arranged(ws, |pops|, b) && i < |ws| && j < b && x in ws[i][j]
    ensures WellFormed(x, i) && PairAt(x, i, pops[i] + j + 1, b) in Agenda(ws, pops, b)
  {
    assert Opened(true);
  }

  lemma FromAgenda(ws: Wheels, pops: seq<nat>, b: nat, q: (nat, nat)) returns (i: nat, j: nat, x: Entry)
    requires b > 0 && Arranged(ws, |pops|, b) && q in Agenda(ws, pops, b)
    ensures i < |ws| && j < b && x in ws[i][j] && WellFormed(x, i) && q == PairAt(x, i, pops[i] + j + 1, b)
  {
    assert Opened(true);
    i, j, x :| i < |ws| && j < b && x in ws[i][j] && q == PairAt(x, i, pops[i] + j + 1, b);
  }

  lemma AddToArranged(ws: Wheels, n: nat, b: nat, i: nat, j: nat, x: Entry)
    requires Arranged(ws, n, b) && i < |ws| && j < b && WellFormed(x, i)
    ensures Arranged(AddTo(ws, i, j, x), n, b)
  {
    assert Opened(true);
  }

  lemma AddToHolds(ws: Wheels, i: nat, j: nat, x: Entry, i': nat, j': nat, y: Entry)
    requires i < |ws| && j < |ws[i]| && i' < |ws| && j' < |ws[i']|
    ensures |AddTo(ws, i, j, x)| == |ws| && |AddTo(ws, i, j, x)[i']| == |ws[i']|
    ensures y in AddTo(ws, i, j, x)[i'][j'] <==> y in ws[i'][j'] || (i' == i && j' == j && y == x)
  {
  }

  lemma AddToAgenda(ws: Wheels, pops: seq<nat>, b: nat, i: nat, j: nat, x: Entry)
    requires b > 0 && Arranged(ws, |pops|, b) && i < |ws| && j < b && WellFormed(x, i)
    ensures Arranged(AddTo(ws, i, j, x), |pops|, b)
    ensures Agenda(AddTo(ws, i, j, x), pops, b) == Agenda(ws, pops, b) + {PairAt(x, i, pops[i] + j + 1, b)}
  {
    AddToArranged(ws, |pops|, b, i, j, x);
    var a, a', added := Agenda(ws, pops, b), Agenda(AddTo(ws, i, j, x), pops, b), PairAt(x, i, pops[i] + j + 1, b);
    forall q | q in a'
      ensures q in a + {added}
    {
      var i', j', y := FromAgenda(AddTo(ws, i, j, x), pops, b, q);
      AddToHolds(ws, i, j, x, i', j', y);
      if y in ws[i'][j'] {
        InAgenda(ws, pops, b, i', j', y);
      }
    }
    forall q | q in a
      ensures q in a'
    {
      var i', j', y := FromAgenda(ws, pops, b, q);
      AddToHolds(ws, i, j, x, i', j', y);
      InAgenda(AddTo(ws, i, j, x), pops, b, i', j', y);
    }
    AddToHolds(ws, i, j, x, i, j, x);
    InAgenda(AddTo(ws, i, j, x), pops, b, i, j, x);
    SameSet(a', a + {added});
  }

  lemma SameSet<T>(a: set<T>, b: set<T>)
    requires forall q {:trigger q in a} :: q in a ==> q in b
    requires forall q {:trigger q in b} :: q in b ==> q in a
    ensures a == b
  {
  }

  function Rotated(ws: Wheels, i: nat): Wheels
    requires i < |ws| && |ws[i]| > 0
  {
    ws[i := ws[i][1..] + [{}]]
  }

  /** The pairs of the entries in a dropped bucket. */
  ghost function Dropped(tmp: set<Entry>, i: nat, p: nat, b: nat): set<(nat, nat)>
    requires b > 0 && forall x :: x in tmp ==> WellFormed(x, i)
  {
    set x | x in tmp :: PairAt(x, i, p, b)
  }

  lemma RotatedArranged(ws: Wheels, n: nat, b: nat, i: nat)
    requires b > 0 && Arranged(ws, n, b) && i < |ws|
    ensures Arranged(Rotated(ws, i), n, b)
    ensures forall j :: 0 <= j < b - 1 ==> Rotated(ws, i)[i][j] == ws[i][j + 1]
    ensures Rotated(ws, i)[i][b - 1] == {}
    ensures forall x :: x in ws[i][0] ==> WellFormed(x, i)
  {
    assert Opened(true);
  }

  /** Dropping the front bucket takes exactly its pairs out of the agenda. */
  lemma RotateAgenda(ws: Wheels, pops: seq<nat>, b: nat, i: nat)
    requires b > 0 && Arranged(ws, |pops|, b) && i < |ws|
    ensures Arranged(Rotated(ws, i), |pops|, b)
    ensures forall x :: x in ws[i][0] ==> WellFormed(x, i)
    ensures Agenda(ws, pops, b)
         == Agenda(Rotated(ws, i), pops[i := pops[i] + 1], b) + Dropped(ws[i][0], i, pops[i] + 1, b)
  {
    var ws', pops' := Rotated(ws, i), pops[i := pops[i] + 1];
    RotatedArranged(ws, |pops|, b, i);
    var a, rest, out := Agenda(ws, pops, b), Agenda(ws', pops', b), Dropped(ws[i][0], i, pops[i] + 1, b);
    forall q | q in a
      ensures q in rest + out
    {
      var i', j', x := FromAgenda(ws, pops, b, q);
      if i' == i && j' > 0 {
        InAgenda(ws', pops', b, i, j' - 1, x);
      } else if i' != i {
        InAgenda(ws', pops', b, i', j', x);
      }
    }
    forall q | q in rest
      ensures q in a
    {
      var i', j', x := FromAgenda(ws', pops', b, q);
      InAgenda(ws, pops, b, i', if i' == i then j' + 1 else j', x);
    }
    forall q | q in out
      ensures q in a
    {
      var x :| x in ws[i][0] && q == PairAt(x, i, pops[i] + 1, b);
      InAgenda(ws, pops, b, i, 0, x);
    }
    SameSet(a, rest + out);
  }

  // ---------------------------------------------------------------------------------------------------------
  // Nothing is released before the next tick, and only the front bucket of wheel 0 at it

  lemma {:induction false} FireTickLater(x: Entry, i: nat, p: nat, b: nat, now: nat, pops: seq<nat>)
    requires b > 0 && WellFormed(x, i) && i < |pops| && Counting(now, pops, b)
    requires p > pops[i]
    ensures FireTick(x, i, p, b) > now
    ensures i > 0 ==> FireTick(x, i, p, b) > now + 1
    decreases x
  {
    match x
    case Task(_) =>
    case Deferred(delay, level, t, inner) =>
      var p' := b * p + Slot(delay, t, b) + 1;
      assert pops[i] == pops[level] / b;
      assert pops[level] == b * pops[i] + pops[level] % b;
      Scaled(b, pops[i] + 1, p);
      assert p' > pops[level] + 1;
      FireTickLater(inner, level, p', b, now, pops);
  }

  /** Between ticks every pair of the agenda lies in the future. */
  lemma AgendaLater(ws: Wheels, pops: seq<nat>, b: nat, now: nat, q: (nat, nat))
    requires Arranged(ws, |pops|, b) && Counting(now, pops, b) && q in Agenda(ws, pops, b)
    ensures q.1 > now
  {
    var i, j, x := FromAgenda(ws, pops, b, q);
    FireTickLater(x, i, pops[i] + j + 1, b, now, pops);
  }

  /** Once wheel 0 has turned for tick now + 1, what is left is released after that tick. */
  lemma TurnedLater(ws: Wheels, was: seq<nat>, b: nat, now: nat, q: (nat, nat))
    requires Arranged(ws, |was|, b) && Counting(now, was, b) && q in Agenda(ws, was[0 := now + 1], b)
    ensures q.1 > now + 1
  {
    var pops := was[0 := now + 1];
    var i, j, x := FromAgenda(ws, pops, b, q);
    if i > 0 {
      FireTickLater(x, i, pops[i] + j + 1, b, now, was);
    }
  }

  ghost function Later(a: set<(nat, nat)>, t: nat): set<(nat, nat)> {
    set q | q in a && q.1 > t
  }

  /** Turning wheel 0 removes exactly the pairs due at the new tick. */
  lemma TurnFirst(ws: Wheels, was: seq<nat>, b: nat, now: nat)
    requires Arranged(ws, |was|, b) && Counting(now, was, b)
    ensures Arranged(Rotated(ws, 0), |was|, b)
    ensures Agenda(Rotated(ws, 0), was[0 := now + 1], b) == Later(Agenda(ws, was, b), now + 1)
    ensures forall x :: x in ws[0][0] ==> x.Task?
    ensures forall id: nat :: (id, now + 1) in Agenda(ws, was, b) <==> Task(id) in ws[0][0]
    ensures forall q :: q in Agenda(ws, was, b) ==> q.1 > now
  {
    forall q | q in Agenda(ws, was, b)
      ensures q.1 > now
    {
      AgendaLater(ws, was, b, now, q);
    }
    RotateAgenda(ws, was, b, 0);
    var a, rest := Agenda(ws, was, b), Agenda(Rotated(ws, 0), was[0 := now + 1], b);
    forall q | q in rest
      ensures q.1 > now + 1 && q in a
    {
      TurnedLater(Rotated(ws, 0), was, b, now, q);
    }
    forall q | q in Dropped(ws[0][0], 0, now + 1, b)
      ensures q.1 == now + 1
    {
    }
    SameSet(rest, Later(a, now + 1));
    forall id: nat | (id, now + 1) in a
      ensures Task(id) in ws[0][0]
    {
      assert (id, now + 1) in Dropped(ws[0][0], 0, now + 1, b);
      var x :| x in ws[0][0] && PairAt(x, 0, now + 1, b) == (id, now + 1);
      assert x == Task(id);
    }
    forall id: nat | Task(id) in ws[0][0]
      ensures (id, now + 1) in a
    {
      assert PairAt(Task(id), 0, now + 1, b) == (id, now + 1);
    }
  }

  // ---------------------------------------------------------------------------------------------------------
  // Which wheels turn at a tick

  lemma DivDiv(t: nat, p: nat, b: nat)
    requires p > 0 && b > 0
    ensures p * b > 0
    ensures t / (p * b) == t / p / b
    ensures t % (p * b) == 0 <==> t % p == 0 && t / p % b == 0
  {
    DivDivAt(t, p, b, t / p, t % p, t / p / b, t / p % b);
  }

  lemma DivDivAt(t: nat, p: nat, b: nat, v: nat, r: nat, w: nat, s: nat)
    requires t == p * v + r && v == b * w + s && r < p && s < b
    ensures p * b > 0
    ensures t / (p * b) == w
    ensures t % (p * b) == 0 <==> r == 0 && s == 0
  {
    Regrouped(p, b, w, s);
    Scaled(p, s + 1, b);
    Scaled(p, 0, s);
    assert p * (s + 1) == p * s + p;
    DivUnique(t, p * b, w, p * s + r);
  }

  lemma Regrouped(p: nat, b: nat, w: nat, s: nat)
    ensures p * (b * w + s) == (p * b) * w + p * s
  {
    assert p * (b * w + s) == p * (b * w) + p * s;
  }

  lemma DivUnique(t: nat, d: nat, w: nat, m: nat)
    requires d > 0 && t == d * w + m && m < d
    ensures t / d == w && t % d == m
  {
    assert t == d * (t / d) + t % d;
    Ordered(d, t / d, w);
    Ordered(d, w, t / d);
  }

  lemma Ordered(d: nat, x: nat, y: nat)
    requires d > 0
    ensures x < y ==> d * x + d <= d * y
  {
    if x < y {
      Scaled(d, x, y);
    }
  }

  /** The next multiple of b raises the quotient, any other successor keeps it. */
  lemma SuccDiv(x: nat, b: nat)
    requires b > 0
    ensures (x + 1) / b == if (x + 1) % b == 0 then x / b + 1 else x / b
    ensures (x + 1) % b == 0 ==> x + 1 == b * ((x + 1) / b)
  {
    var q, r := x / b, x % b;
    assert x == b * q + r;
    if r + 1 == b {
      assert b * (q + 1) == b * q + b;
      DivUnique(x + 1, b, q + 1, 0);
    } else {
      DivUnique(x + 1, b, q, r + 1);
    }
  }

  /** v is the count of wheel i after tick t, given that lower wheels have turned already and w was its count. */
  ghost predicate Turning(t: nat, pow: nat, v: nat, w: nat) {
    && pow > 0 && v == t / pow
    && v == if t % pow == 0 then w + 1 else w
  }

  lemma TurningNext(t: nat, pow: nat, v: nat, w: nat, b: nat)
    requires b > 0 && Turning(t, pow, v, w)
    ensures Turning(t, pow * b, v / b, w / b)
    ensures t % (pow * b) == 0 ==> v == b * (v / b)
  {
    DivDiv(t, pow, b);
    SuccDiv(w, b);
  }
}
