// Lua values as the serializers meet them: trees in iteration order with a border, and what they mean.
module LuaData {
  import opened Bytes

  const INT64_LIMIT := 0x8000_0000_0000_0000
  const P32 := 0x1_0000_0000

  /** A table lists its entries in some order of lua_next; `border` is the length lua_rawlen answers. */
  datatype Value = Nil | Bool(b: bool) | Int(i: int) | Str(s: seq<byte>) | Table(entries: Entries, border: nat)
  datatype Entries = NoEntries | Entry(key: Value, value: Value, rest: Entries)

  /** The value itself: a table as a map, without order or border. A floating-point number or a pointer is kept as its bytes. */
  datatype Val = VNil | VBool(b: bool) | VInt(i: int) | VStr(s: seq<byte>) | VOpaque(raw: seq<byte>) | VTable(m: map<Val, Val>)

  predicate IsScalar(v: Value) {
    v.Bool? || v.Int? || v.Str?
  }

  function Keys(es: Entries): set<Value> {
    match es
    case NoEntries => {}
    case Entry(k, _, rest) => {k} + Keys(rest)
  }

  function Count(es: Entries): nat {
    match es
    case NoEntries => 0
    case Entry(_, _, rest) => 1 + Count(rest)
  }

  function Find(es: Entries, k: Value): Value {
    match es
    case NoEntries => Nil
    case Entry(key, v, rest) => if key == k then v else Find(rest, k)
  }

  /** lua_rawlen may answer any border: the last index before an absent one. */
  predicate IsBorder(es: Entries, n: nat) {
    (n == 0 || Int(n) in Keys(es)) && Int(n + 1) !in Keys(es)
  }

  /** Integers are 64-bit, strings shorter than 2^32, table keys scalars, each once, and table values not nil. */
  predicate Proper(v: Value) {
    match v
    case Int(i) => -INT64_LIMIT <= i < INT64_LIMIT
    case Str(s) => |s| < P32
    case Table(es, border) => ProperEntries(es) && IsBorder(es, border) && Count(es) < P32
    case _ => true
  }

  predicate ProperEntries(es: Entries) {
    match es
    case NoEntries => true
    case Entry(k, v, rest) =>
      IsScalar(k) && Proper(k) && k !in Keys(rest) && !v.Nil? && Proper(v) && ProperEntries(rest)
  }

  function ScalarVal(v: Value): Val {
    match v
    case Bool(b) => VBool(b)
    case Int(i) => VInt(i)
    case Str(s) => VStr(s)
    case _ => VNil
  }

  /** The table with k set to v; storing nil stores nothing. */
  function Store(m: map<Val, Val>, k: Val, v: Val): map<Val, Val> {
    if v == VNil then m else m[k := v]
  }

  /** The value down to `levels` levels of tables; a table further down counts as nil. */
  function Meaning(v: Value, levels: nat): Val
    decreases v, 0
  {
    if !v.Table? then ScalarVal(v)
    else if levels == 0 then VNil
    else VTable(EntriesMeaning(v.entries, levels - 1))
  }

  function EntriesMeaning(es: Entries, levels: nat): map<Val, Val>
    decreases es, 1
  {
    match es
    case NoEntries => map[]
    case Entry(k, v, rest) => Store(EntriesMeaning(rest, levels), ScalarVal(k), Meaning(v, levels))
  }

  function Depth(v: Value): nat
    decreases v, 0
  {
    if v.Table? then 1 + EntriesDepth(v.entries) else 0
  }

  function EntriesDepth(es: Entries): nat
    decreases es, 1
  {
    match es
    case NoEntries => 0
    case Entry(_, v, rest) => if Depth(v) > EntriesDepth(rest) then Depth(v) else EntriesDepth(rest)
  }

  /** Nothing is cut off a value that is not deeper than the levels. */
  lemma {:induction false} WholeMeaning(v: Value, levels: nat)
    requires Depth(v) <= levels
    ensures Meaning(v, levels) == Meaning(v, Depth(v))
    decreases v, 0
  {
    if v.Table? {
      EntriesWhole(v.entries, levels - 1, EntriesDepth(v.entries));
    }
  }

  lemma {:induction false} EntriesWhole(es: Entries, levels: nat, fewer: nat)
    requires EntriesDepth(es) <= fewer && EntriesDepth(es) <= levels
    ensures EntriesMeaning(es, levels) == EntriesMeaning(es, fewer)
    decreases es, 1
  {
    match es
    case NoEntries =>
    case Entry(_, v, rest) =>
      WholeMeaning(v, levels);
      WholeMeaning(v, fewer);
      EntriesWhole(rest, levels, fewer);
  }

  // ---------------------------------------------------------------------------------------------------------
  // Integer keys

  lemma {:induction false} FindPresent(es: Entries, k: Value)
    requires ProperEntries(es)
    ensures Find(es, k).Nil? <==> k !in Keys(es)
    ensures !Find(es, k).Nil? ==> Proper(Find(es, k)) && Depth(Find(es, k)) <= EntriesDepth(es)
    decreases es
  {
    match es
    case NoEntries =>
    case Entry(_, _, rest) => FindPresent(rest, k);
  }

  lemma {:induction false} CountIsKeys(es: Entries)
    requires ProperEntries(es)
    ensures Count(es) == |Keys(es)|
  {
    match es
    case NoEntries =>
    case Entry(k, _, rest) =>
      CountIsKeys(rest);
      assert Keys(es) == Keys(rest) + {k};
  }

  function Indices(n: nat): (s: set<Value>)
    ensures forall v :: v in s <==> v.Int? && 1 <= v.i <= n
    ensures |s| == n
  {
    if n == 0 then {} else Indices(n - 1) + {Int(n)}
  }

  lemma {:induction false} SubsetCount<T>(a: set<T>, b: set<T>)
    requires a <= b
    ensures |a| <= |b| && (|a| == |b| ==> a == b)
  {
    if x :| x in a {
      SubsetCount(a - {x}, b - {x});
    } else {
      assert a == {};
    }
  }

  // ---------------------------------------------------------------------------------------------------------
  // What a table's entries mean, key by key

  predicate IsKeyVal(x: Val) {
    x.VBool? || x.VInt? || x.VStr?
  }

  function KeyOf(x: Val): Value
    requires IsKeyVal(x)
  {
    match x
    case VBool(b) => Bool(b)
    case VInt(i) => Int(i)
    case VStr(s) => Str(s)
  }

  /** What a table holds at key x, if anything. */
  function MeaningAt(es: Entries, levels: nat, x: Val): Val {
    if IsKeyVal(x) then Meaning(Find(es, KeyOf(x)), levels) else VNil
  }

  /** m holds exactly what `at` says: VNil is absent. */
  ghost predicate Holds(m: map<Val, Val>, at: Val -> Val) {
    forall x :: (x in m <==> at(x) != VNil) && (x in m ==> m[x] == at(x))
  }

  lemma HoldsSame(m: map<Val, Val>, m': map<Val, Val>, at: Val -> Val)
    requires Holds(m, at) && Holds(m', at)
    ensures m == m'
  {
    assert forall x :: x in m <==> x in m';
  }

  lemma {:induction false} EntriesHold(es: Entries, levels: nat)
    requires ProperEntries(es)
    ensures Holds(EntriesMeaning(es, levels), x => MeaningAt(es, levels, x))
    decreases es
  {
    match es
    case NoEntries =>
    case Entry(k, v, rest) =>
      EntriesHold(rest, levels);
      FindPresent(rest, k);
      forall x
        ensures var m := EntriesMeaning(es, levels);
                (x in m <==> MeaningAt(es, levels, x) != VNil) && (x in m ==> m[x] == MeaningAt(es, levels, x))
      {
        assert IsKeyVal(x) ==> (KeyOf(x) == k <==> x == ScalarVal(k));
      }
  }

  /** lua_settable: a nil value removes the key. */
  function SetTable(m: map<Val, Val>, k: Val, v: Val): map<Val, Val> {
    if v == VNil then m - {k} else m[k := v]
  }

  // What reading the items or entries of a table one after the other builds.

  function FillItems(es: Entries, j: nat, n: nat, levels: nat, m: map<Val, Val>): map<Val, Val>
    requires j <= n + 1
    decreases n + 1 - j
  {
    if j == n + 1 then m
    else FillItems(es, j + 1, n, levels, SetTable(m, VInt(j), Meaning(Find(es, Int(j)), levels)))
  }

  function FillEntries(es: Entries, levels: nat, m: map<Val, Val>): map<Val, Val> {
    match es
    case NoEntries => m
    case Entry(k, v, rest) => FillEntries(rest, levels, SetTable(m, ScalarVal(k), Meaning(v, levels)))
  }

  lemma {:induction false} FillItemsAt(es: Entries, j: nat, n: nat, levels: nat, m: map<Val, Val>, x: Val)
    requires j <= n + 1
    ensures var r := FillItems(es, j, n, levels, m);
            if x.VInt? && j <= x.i <= n then
              var v := Meaning(Find(es, Int(x.i)), levels); (x in r <==> v != VNil) && (x in r ==> r[x] == v)
            else (x in r <==> x in m) && (x in r ==> r[x] == m[x])
    decreases n + 1 - j
  {
    if j < n + 1 {
      FillItemsAt(es, j + 1, n, levels, SetTable(m, VInt(j), Meaning(Find(es, Int(j)), levels)), x);
    }
  }

  lemma {:induction false} FillEntriesAt(es: Entries, levels: nat, m: map<Val, Val>, x: Val)
    requires ProperEntries(es)
    ensures var r := FillEntries(es, levels, m);
            if IsKeyVal(x) && KeyOf(x) in Keys(es) then
              var v := MeaningAt(es, levels, x); (x in r <==> v != VNil) && (x in r ==> r[x] == v)
            else (x in r <==> x in m) && (x in r ==> r[x] == m[x])
    decreases es
  {
    match es
    case NoEntries =>
    case Entry(k, v, rest) =>
      FillEntriesAt(rest, levels, SetTable(m, ScalarVal(k), Meaning(v, levels)), x);
      FindPresent(rest, k);
      assert IsKeyVal(x) ==> (KeyOf(x) == k <==> x == ScalarVal(k));
  }

  lemma FilledEntries(es: Entries, levels: nat)
    requires ProperEntries(es)
    ensures FillEntries(es, levels, map[]) == EntriesMeaning(es, levels)
  {
    EntriesHold(es, levels);
    forall x
      ensures var m := FillEntries(es, levels, map[]);
              (x in m <==> MeaningAt(es, levels, x) != VNil) && (x in m ==> m[x] == MeaningAt(es, levels, x))
    {
      FillEntriesAt(es, levels, map[], x);
      if IsKeyVal(x) {
        FindPresent(es, KeyOf(x));
      }
    }
    HoldsSame(FillEntries(es, levels, map[]), EntriesMeaning(es, levels), x => MeaningAt(es, levels, x));
  }

  // ---------------------------------------------------------------------------------------------------------
  // The same value

  /** x is the Lua value v: the same scalar, or a table of as many keys, each of v's with the same value under it. */
  predicate Same(v: Value, x: Val)
    decreases v, 0
  {
    match v
    case Nil => x == VNil
    case Bool(b) => x == VBool(b)
    case Int(i) => x == VInt(i)
    case Str(s) => x == VStr(s)
    case Table(es, _) => x.VTable? && SameTable(es, x.m)
  }

  predicate SameTable(es: Entries, m: map<Val, Val>)
    decreases es, 2
  {
    |m| == Count(es) && SameEntries(es, m)
  }

  predicate SameEntries(es: Entries, m: map<Val, Val>)
    decreases es, 1
  {
    match es
    case NoEntries => true
    case Entry(k, v, rest) => SameUnder(k, v, m) && SameEntries(rest, m)
  }

  predicate SameUnder(k: Value, v: Value, m: map<Val, Val>)
    decreases v, 1
  {
    match k
    case Bool(b) => VBool(b) in m && Same(v, m[VBool(b)])
    case Int(i) => VInt(i) in m && Same(v, m[VInt(i)])
    case Str(s) => VStr(s) in m && Same(v, m[VStr(s)])
    case _ => false
  }

  lemma {:induction false} SameBeside(es: Entries, m: map<Val, Val>, x: Val, y: Val)
    requires ProperEntries(es) && SameEntries(es, m) && IsKeyVal(x) && KeyOf(x) !in Keys(es)
    ensures SameEntries(es, m[x := y])
    decreases es
  {
    match es
    case NoEntries =>
    case Entry(k, _, rest) =>
      assert IsScalar(k);
      SameBeside(rest, m, x, y);
  }

  /** A value not deeper than the levels means itself. */
  lemma {:induction false} MeansItself(v: Value, levels: nat)
    requires (v.Table? ==> ProperEntries(v.entries)) && Depth(v) <= levels
    ensures Same(v, Meaning(v, levels)) && (Meaning(v, levels) == VNil ==> v.Nil?)
    decreases v, 0
  {
    match v
    case Table(es, border) =>
      var m := EntriesThemselves(es, levels - 1);
      MeansTable(es, border, levels, m);
    case _ => SameScalar(v, levels);
  }

  lemma MeansTable(es: Entries, border: nat, levels: nat, m: map<Val, Val>)
    requires levels > 0 && m == EntriesMeaning(es, levels - 1) && SameTable(es, m)
    ensures Same(Table(es, border), Meaning(Table(es, border), levels)) && Meaning(Table(es, border), levels) != VNil
  {
  }

  lemma SameScalar(v: Value, levels: nat)
    requires !v.Table?
    ensures Same(v, Meaning(v, levels)) && (Meaning(v, levels) == VNil ==> v.Nil?)
  {
  }

  lemma {:induction false} EntriesThemselves(es: Entries, levels: nat) returns (m: map<Val, Val>)
    requires ProperEntries(es) && EntriesDepth(es) <= levels
    ensures m == EntriesMeaning(es, levels) && SameTable(es, m)
    decreases es, 1
  {
    m := EntriesMeaning(es, levels);
    match es
    case NoEntries =>
    case Entry(k, v, rest) =>
      MeansItself(v, levels);
      var m' := EntriesThemselves(rest, levels);
      EntriesHold(rest, levels);
      FindPresent(rest, k);
      assert IsKeyVal(ScalarVal(k)) && KeyOf(ScalarVal(k)) == k;
      EntryAdded(k, v, rest, m', Meaning(v, levels));
  }

  lemma EntryAdded(k: Value, v: Value, rest: Entries, m: map<Val, Val>, y: Val)
    requires IsScalar(k) && k !in Keys(rest) && ProperEntries(rest)
    requires SameTable(rest, m) && ScalarVal(k) !in m && Same(v, y)
    ensures SameTable(Entry(k, v, rest), m[ScalarVal(k) := y])
  {
    SameBeside(rest, m, ScalarVal(k), y);
  }
}
