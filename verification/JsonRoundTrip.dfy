module JsonRoundTrip {
  // Decoding what was encoded: for every value that prints, exactly what reads back, and when that is the value itself.

  import opened Wrappers
  import opened Bytes
  import opened Decimal
  import opened JsonText
  import opened Json

  /** A table has a key once, is counted, and is no excessively sparse array. */
  predicate Regular(v: Json)
    decreases Depth(v), 0, 0
  {
    v.Table? ==>
      && Distinct(v.members) && MembersRegular(v.members)
      && !ShapeOf(v.members).TooSparse? && !ShapeOf(v.members).Uncounted?
  }

  predicate MembersRegular(ms: Members)
    decreases MembersDepth(ms), 1, Count(ms)
  {
    match ms
    case NoMembers => true
    case Member(_, v, rest) => Regular(v) && MembersRegular(rest)
  }

  predicate Encodable(v: Json) {
    ExactNumbers(v) && Regular(v)
  }

  predicate MembersEncodable(ms: Members) {
    MembersExact(ms) && MembersRegular(ms)
  }

  lemma {:induction false} FindEncodable(ms: Members, k: Key)
    requires MembersEncodable(ms)
    ensures Encodable(Find(ms, k))
    decreases ms
  {
    match ms
    case NoMembers =>
    case Member(_, _, rest) => FindEncodable(rest, k);
  }

  /** The nesting limit is the only thing that can stop such a value from printing. */
  lemma {:induction false} PrintsUnlessDeep(v: Json, depth: nat)
    requires Regular(v)
    ensures Printable(v, depth) <==> NotTooDeep(v, depth)
    decreases Depth(v), 0, 0
  {
    if v.Table? && depth < MAX_DEPTH {
      var shape := ShapeOf(v.members);
      if shape.Length? && shape.n > 0 {
        ScanKeys(v.members, 0, 0);
        ItemsPrint(v.members, 1, shape.n, depth + 1);
        ItemsDepth(v.members, shape.n);
      } else {
        MembersPrint(v.members, depth + 1);
      }
    }
  }

  predicate NotTooDeep(v: Json, depth: nat) {
    v.Table? ==> Depth(v) + depth <= 1000
  }

  lemma {:induction false} MembersPrint(ms: Members, depth: nat)
    requires MembersRegular(ms)
    ensures MembersPrintable(ms, depth) <==> (MembersDepth(ms) > 0 ==> MembersDepth(ms) + depth <= MAX_DEPTH)
    decreases MembersDepth(ms), 1, Count(ms)
  {
    match ms
    case NoMembers =>
    case Member(_, v, rest) =>
      PrintsUnlessDeep(v, depth);
      MembersPrint(rest, depth);
  }

  lemma {:induction false} FindRegular(ms: Members, k: Key)
    requires MembersRegular(ms)
    ensures Regular(Find(ms, k))
    decreases ms
  {
    match ms
    case NoMembers =>
    case Member(_, _, rest) => FindRegular(rest, k);
  }

  lemma {:induction false} ItemsPrint(ms: Members, j: int, n: int, depth: nat)
    requires MembersRegular(ms) && 1 <= j <= n
    ensures ItemsPrintable(ms, j, n, depth) <==> forall i :: j <= i <= n ==> NotTooDeep(Find(ms, Index(i)), depth)
    decreases MembersDepth(ms), 1, n - j
  {
    FindDepth(ms, Index(j));
    FindRegular(ms, Index(j));
    PrintsUnlessDeep(Find(ms, Index(j)), depth);
    if j < n {
      ItemsPrint(ms, j + 1, n, depth);
    }
  }

  /** Every key of an array is one of its indices. */
  lemma {:induction false} ScanKeys(ms: Members, max: int, items: int)
    ensures var shape := Scan(ms, max, items);
            shape.Length? ==> max <= shape.n && forall k :: k in Keys(ms) ==> k.Index? && 1 <= k.i <= shape.n
  {
    match ms
    case NoMembers =>
    case Member(k, _, rest) =>
      if k.Index? && k.i >= 1 {
        ScanKeys(rest, if k.i > max then k.i else max, items + 1);
      }
  }

  /** Some item of an array is as deep as its deepest member. */
  lemma ItemsDepth(ms: Members, n: int)
    requires Distinct(ms) && forall k :: k in Keys(ms) ==> k.Index? && 1 <= k.i <= n
    ensures forall i :: Depth(Find(ms, Index(i))) <= MembersDepth(ms)
    ensures MembersDepth(ms) > 0 ==> exists i :: 1 <= i <= n && Depth(Find(ms, Index(i))) == MembersDepth(ms)
  {
    forall i
      ensures Depth(Find(ms, Index(i))) <= MembersDepth(ms)
    {
      FindDepth(ms, Index(i));
    }
    if MembersDepth(ms) > 0 {
      var k := Deepest(ms);
      assert Index(k.i) == k;
    }
  }

  lemma {:induction false} Deepest(ms: Members) returns (k: Key)
    requires Distinct(ms) && MembersDepth(ms) > 0
    ensures k in Keys(ms) && Depth(Find(ms, k)) == MembersDepth(ms)
  {
    k := ms.key;
    if Depth(ms.value) < MembersDepth(ms) {
      k := Deepest(ms.rest);
    }
  }

  // ---------------------------------------------------------------------------------------------------------
  // What a value means, and what its text reads as

  function Meaning(v: Json): Val
    decreases Depth(v), 0, 0
  {
    match v
    case Null => VNull
    case Bool(b) => VBool(b)
    case Int(i) => VInt(i)
    case Str(s) => VStr(s)
    case Table(ms) => VTable(MembersMeaning(ms))
  }

  function MembersMeaning(ms: Members): map<Key, Val>
    decreases MembersDepth(ms), 1, Count(ms)
  {
    match ms
    case NoMembers => map[]
    case Member(k, v, rest) => MembersMeaning(rest)[k := Meaning(v)]
  }

  /** A number key becomes the string of its digits. */
  function NameOf(k: Key): seq<byte> {
    if k.Name? then k.s else IntText(k.i)
  }

  function Reading(v: Json): Val
    decreases Depth(v), 0, 0
  {
    match v
    case Null => VNull
    case Bool(b) => VBool(b)
    case Int(i) => VInt(i)
    case Str(s) => VStr(s)
    case Table(ms) =>
      var shape := ShapeOf(ms);
      VTable(if shape.Length? && shape.n > 0 then FillItems(ms, 1, shape.n, map[]) else FillMembers(ms, map[]))
  }

  function FillItems(ms: Members, j: int, n: int, m: map<Key, Val>): map<Key, Val>
    requires 1 <= j <= n
    decreases MembersDepth(ms), 1, n - j
  {
    FindDepth(ms, Index(j));
    var m' := m[Index(j) := Reading(Find(ms, Index(j)))];
    if j == n then m' else FillItems(ms, j + 1, n, m')
  }

  function FillMembers(ms: Members, m: map<Key, Val>): map<Key, Val>
    decreases MembersDepth(ms), 1, Count(ms)
  {
    match ms
    case NoMembers => m
    case Member(k, v, rest) => FillMembers(rest, m[Name(NameOf(k)) := Reading(v)])
  }

  // ---------------------------------------------------------------------------------------------------------
  // Reading the printed pieces

  lemma {:induction false} PlainEscaped(s: seq<byte>)
    requires forall i :: 0 <= i < |s| ==> IsDigit(s[i]) || s[i] == 45
    ensures Escaped(s) == s
  {
    if s != [] {
      PlainEscaped(s[1..]);
      assert Escape(s[0]) == [s[0]];
    }
  }

  lemma KeyTextIs(k: Key)
    ensures KeyText(k) == StrText(NameOf(k)) + [58]
  {
    if k.Index? {
      PlainEscaped(IntText(k.i));
      assert [QUOTE] + IntText(k.i) + [QUOTE, 58] == [QUOTE] + IntText(k.i) + [QUOTE] + [58];
    }
  }

  lemma KeyRead(k: Key, rest: seq<byte>, strtod: seq<byte> -> nat)
    ensures KeyAt(KeyText(k) + rest, strtod) == Some((NameOf(k), |KeyText(k)|))
    ensures (KeyText(k) + rest)[|KeyText(k)|..] == rest
  {
    KeyTextIs(k);
    var name := StrText(NameOf(k));
    assert KeyText(k) + rest == name + ([58] + rest);
    StrToken(NameOf(k), [58] + rest, strtod);
    assert (name + ([58] + rest))[|name|..] == [58] + rest;
    SignToken(58, rest, strtod);
  }

  lemma ItemLast(t: seq<byte>, rest: seq<byte>, v: Val, i: nat, m: map<Key, Val>, depth: nat, strtod: seq<byte> -> nat)
    requires ValueAt(t + ([93] + rest), depth, strtod) == Got(v, |t|)
    ensures ItemsAt(t + ([93] + rest), i, m, depth, strtod) == Got(VTable(m[Index(i) := v]), |t| + 1)
  {
    ItemsStep(t + ([93] + rest), i, m, depth, strtod);
    assert (t + ([93] + rest))[|t|..] == [93] + rest;
    SignToken(93, rest, strtod);
  }

  lemma ItemMore(t: seq<byte>, rest: seq<byte>, v: Val, i: nat, m: map<Key, Val>, depth: nat, strtod: seq<byte> -> nat)
    requires ValueAt(t + ([44] + rest), depth, strtod) == Got(v, |t|)
    ensures ItemsAt(t + ([44] + rest), i, m, depth, strtod)
            == Beyond(|t| + 1, ItemsAt(rest, i + 1, m[Index(i) := v], depth, strtod))
  {
    ItemsStep(t + ([44] + rest), i, m, depth, strtod);
    assert (t + ([44] + rest))[|t|..] == [44] + rest;
    assert (t + ([44] + rest))[|t| + 1..] == rest;
    SignToken(44, rest, strtod);
  }

  lemma Behind(a: seq<byte>, b: seq<byte>, c: seq<byte>)
    ensures (a + (b + c))[|a| + |b|..] == c
  {
  }

  lemma PairsFrom(s: seq<byte>, key: seq<byte>, n: nat, l: nat, v: Val, m: map<Key, Val>, depth: nat,
                  strtod: seq<byte> -> nat)
    requires KeyAt(s, strtod) == Some((key, n)) && n + l < |s| && ValueAt(s[n..], depth, strtod) == Got(v, l)
    ensures TokenAt(s[n + l..], strtod) == (ObjEnd, 1) ==>
              PairsAt(s, m, depth, strtod) == Got(VTable(m[Name(key) := v]), n + l + 1)
    ensures TokenAt(s[n + l..], strtod) == (Comma, 1) ==>
              PairsAt(s, m, depth, strtod)
              == Beyond(n + l + 1, PairsAt(s[n + l + 1..], m[Name(key) := v], depth, strtod))
  {
    PairsStep(s, m, depth, strtod);
  }

  lemma PairLast(k: Key, t: seq<byte>, rest: seq<byte>, v: Val, m: map<Key, Val>, depth: nat, strtod: seq<byte> -> nat)
    requires ValueAt(t + ([125] + rest), depth, strtod) == Got(v, |t|)
    ensures PairsAt(KeyText(k) + (t + ([125] + rest)), m, depth, strtod)
            == Got(VTable(m[Name(NameOf(k)) := v]), |KeyText(k)| + |t| + 1)
  {
    KeyRead(k, t + ([125] + rest), strtod);
    Behind(KeyText(k), t, [125] + rest);
    SignToken(125, rest, strtod);
    PairsFrom(KeyText(k) + (t + ([125] + rest)), NameOf(k), |KeyText(k)|, |t|, v, m, depth, strtod);
  }

  lemma PairMore(k: Key, t: seq<byte>, rest: seq<byte>, v: Val, m: map<Key, Val>, depth: nat, strtod: seq<byte> -> nat)
    requires ValueAt(t + ([44] + rest), depth, strtod) == Got(v, |t|)
    ensures PairsAt(KeyText(k) + (t + ([44] + rest)), m, depth, strtod)
            == Beyond(|KeyText(k)| + |t| + 1, PairsAt(rest, m[Name(NameOf(k)) := v], depth, strtod))
  {
    KeyRead(k, t + ([44] + rest), strtod);
    Behind(KeyText(k), t, [44] + rest);
    Further(KeyText(k), t, 44, rest);
    SignToken(44, rest, strtod);
    PairsFrom(KeyText(k) + (t + ([44] + rest)), NameOf(k), |KeyText(k)|, |t|, v, m, depth, strtod);
  }

  lemma Further(a: seq<byte>, b: seq<byte>, c: byte, d: seq<byte>)
    ensures (a + (b + ([c] + d)))[|a| + |b| + 1..] == d
  {
  }

  lemma ArrayRead(items: seq<byte>, rest: seq<byte>, v: Val, depth: nat, strtod: seq<byte> -> nat)
    requires depth < MAX_DEPTH && ItemsAt(items + ([93] + rest), 1, map[], depth + 1, strtod) == Got(v, |items| + 1)
    ensures ValueAt([91] + (items + [93]) + rest, depth, strtod) == Got(v, |items| + 2)
  {
    var s := items + ([93] + rest);
    assert [91] + (items + [93]) + rest == [91] + s;
    SignToken(91, s, strtod);
    ValueArray([91] + s, depth, strtod);
    ItemsStep(s, 1, map[], depth + 1, strtod);
    ValueScalar(s, depth + 1, strtod);
  }

  lemma ObjectRead(pairs: seq<byte>, rest: seq<byte>, v: Val, depth: nat, strtod: seq<byte> -> nat)
    requires depth < MAX_DEPTH && PairsAt(pairs + ([125] + rest), map[], depth + 1, strtod) == Got(v, |pairs| + 1)
    ensures ValueAt([123] + (pairs + [125]) + rest, depth, strtod) == Got(v, |pairs| + 2)
  {
    var s := pairs + ([125] + rest);
    assert [123] + (pairs + [125]) + rest == [123] + s;
    SignToken(123, s, strtod);
    ValueObject([123] + s, depth, strtod);
    PairsStep(s, map[], depth + 1, strtod);
  }

  lemma EmptyRead(rest: seq<byte>, depth: nat, strtod: seq<byte> -> nat)
    requires depth < MAX_DEPTH
    ensures ValueAt([123] + ([] + [125]) + rest, depth, strtod) == Got(VTable(map[]), 2)
  {
    var s := [125] + rest;
    assert [123] + ([] + [125]) + rest == [123] + s;
    SignToken(123, s, strtod);
    ValueObject([123] + s, depth, strtod);
    SignToken(125, rest, strtod);
  }

  lemma ScalarRead(v: Json, rest: seq<byte>, depth: nat, strtod: seq<byte> -> nat)
    requires !v.Table? && Encodable(v) && Follows(rest)
    ensures ValueAt(Text(v) + rest, depth, strtod) == Got(Reading(v), |Text(v)|)
  {
    ValueScalar(Text(v) + rest, depth, strtod);
    match v
    case Null => WordToken(rest, strtod);
    case Bool(_) => WordToken(rest, strtod);
    case Int(i) => IntToken(i, rest, strtod);
    case Str(s) => StrToken(s, rest, strtod);
  }

  // ---------------------------------------------------------------------------------------------------------
  // Round trip

  lemma TableText(ms: Members)
    ensures var shape := ShapeOf(ms);
            if shape.Length? && shape.n > 0 then
              && Text(Table(ms)) == [91] + (ItemsText(ms, 1, shape.n) + [93])
              && Reading(Table(ms)) == VTable(FillItems(ms, 1, shape.n, map[]))
            else
              && Text(Table(ms)) == [123] + (MembersText(ms) + [125])
              && Reading(Table(ms)) == VTable(FillMembers(ms, map[]))
  {
  }

  /** A printed value reads as Reading says, and nothing of what follows is taken. */
  lemma {:induction false} ValueRead(v: Json, rest: seq<byte>, depth: nat, strtod: seq<byte> -> nat)
    requires Encodable(v) && Follows(rest) && Depth(v) + depth <= MAX_DEPTH
    ensures ValueAt(Text(v) + rest, depth, strtod) == Got(Reading(v), |Text(v)|)
    decreases Depth(v), 0, 1
  {
    if v.Table? {
      TableRead(v.members, rest, depth, strtod);
    } else {
      ScalarRead(v, rest, depth, strtod);
    }
  }

  lemma {:induction false} TableRead(ms: Members, rest: seq<byte>, depth: nat, strtod: seq<byte> -> nat)
    requires Encodable(Table(ms)) && Follows(rest) && Depth(Table(ms)) + depth <= MAX_DEPTH
    ensures ValueAt(Text(Table(ms)) + rest, depth, strtod) == Got(Reading(Table(ms)), |Text(Table(ms))|)
    decreases 1 + MembersDepth(ms), 0, 0
  {
    TableText(ms);
    if ShapeOf(ms).Length? && ShapeOf(ms).n > 0 {
      ArrayTableRead(ms, ShapeOf(ms).n, rest, depth, strtod);
    } else {
      ObjectTableRead(ms, rest, depth, strtod);
    }
  }

  lemma {:induction false} ArrayTableRead(ms: Members, n: int, rest: seq<byte>, depth: nat, strtod: seq<byte> -> nat)
    requires MembersEncodable(ms) && n >= 1 && MembersDepth(ms) + depth + 1 <= MAX_DEPTH
    ensures ValueAt([91] + (ItemsText(ms, 1, n) + [93]) + rest, depth, strtod)
            == Got(VTable(FillItems(ms, 1, n, map[])), |ItemsText(ms, 1, n)| + 2)
    decreases MembersDepth(ms), 2, 0
  {
    ItemsRead(ms, 1, n, map[], rest, depth + 1, strtod);
    ArrayRead(ItemsText(ms, 1, n), rest, VTable(FillItems(ms, 1, n, map[])), depth, strtod);
  }

  lemma {:induction false} ObjectTableRead(ms: Members, rest: seq<byte>, depth: nat, strtod: seq<byte> -> nat)
    requires MembersEncodable(ms) && MembersDepth(ms) + depth + 1 <= MAX_DEPTH
    ensures ValueAt([123] + (MembersText(ms) + [125]) + rest, depth, strtod)
            == Got(VTable(FillMembers(ms, map[])), |MembersText(ms)| + 2)
    decreases MembersDepth(ms), 2, 0
  {
    if ms.NoMembers? {
      EmptyRead(rest, depth, strtod);
    } else {
      MembersRead(ms, map[], rest, depth + 1, strtod);
      ObjectRead(MembersText(ms), rest, VTable(FillMembers(ms, map[])), depth, strtod);
    }
  }

  lemma {:induction false} ItemsRead(ms: Members, j: int, n: int, m: map<Key, Val>, rest: seq<byte>, depth: nat,
                                     strtod: seq<byte> -> nat)
    requires MembersEncodable(ms) && 1 <= j <= n && MembersDepth(ms) + depth <= MAX_DEPTH
    ensures ItemsAt(ItemsText(ms, j, n) + ([93] + rest), j, m, depth, strtod)
            == Got(VTable(FillItems(ms, j, n, m)), |ItemsText(ms, j, n)| + 1)
    decreases MembersDepth(ms), 1, n - j
  {
    var item := Find(ms, Index(j));
    FindDepth(ms, Index(j));
    FindEncodable(ms, Index(j));
    if j == n {
      ValueRead(item, [93] + rest, depth, strtod);
      ItemLast(Text(item), rest, Reading(item), j, m, depth, strtod);
      assert ItemsText(ms, j, n) == Text(item);
    } else {
      var more := ItemsText(ms, j + 1, n);
      var tail := more + ([93] + rest);
      ValueRead(item, [44] + tail, depth, strtod);
      ItemMore(Text(item), tail, Reading(item), j, m, depth, strtod);
      ItemsRead(ms, j + 1, n, m[Index(j) := Reading(item)], rest, depth, strtod);
      Regroup(Text(item), more, [93] + rest);
    }
  }

  lemma Regroup(t: seq<byte>, more: seq<byte>, rest: seq<byte>)
    ensures t + ([44] + more) + rest == t + ([44] + (more + rest))
  {
  }

  lemma {:induction false} MembersRead(ms: Members, m: map<Key, Val>, rest: seq<byte>, depth: nat,
                                       strtod: seq<byte> -> nat)
    requires MembersEncodable(ms) && ms.Member? && MembersDepth(ms) + depth <= MAX_DEPTH
    ensures PairsAt(MembersText(ms) + ([125] + rest), m, depth, strtod)
            == Got(VTable(FillMembers(ms, m)), |MembersText(ms)| + 1)
    decreases MembersDepth(ms), 1, Count(ms)
  {
    var k, v := ms.key, ms.value;
    if ms.rest.NoMembers? {
      ValueRead(v, [125] + rest, depth, strtod);
      PairLast(k, Text(v), rest, Reading(v), m, depth, strtod);
      Joined(KeyText(k), Text(v), [], [125] + rest);
    } else {
      var more := MembersText(ms.rest);
      var tail := more + ([125] + rest);
      ValueRead(v, [44] + tail, depth, strtod);
      PairMore(k, Text(v), tail, Reading(v), m, depth, strtod);
      MembersRead(ms.rest, m[Name(NameOf(k)) := Reading(v)], rest, depth, strtod);
      Regroup(Text(v), more, [125] + rest);
      Joined(KeyText(k), Text(v), [44] + more, [125] + rest);
    }
  }

  lemma Joined(key: seq<byte>, t: seq<byte>, more: seq<byte>, rest: seq<byte>)
    ensures key + (t + more) + rest == key + (t + more + rest)
    ensures more == [] ==> t + more == t
  {
  }

  /** No printed text holds a NUL, so the check against UTF-16 and UTF-32 never stops one. */
  ghost predicate NoNul(s: seq<byte>) {
    forall i :: 0 <= i < |s| ==> s[i] != 0
  }

  lemma NoNulJoin(a: seq<byte>, b: seq<byte>)
    requires NoNul(a) && NoNul(b)
    ensures NoNul(a + b)
  {
  }

  lemma NoNulBetween(a: byte, s: seq<byte>, b: byte)
    requires NoNul(s) && a != 0 && b != 0
    ensures NoNul([a] + (s + [b]))
  {
  }

  lemma StrNoNul(s: seq<byte>)
    ensures NoNul(StrText(s))
  {
    EscapedHasNoNul(s);
  }

  lemma {:induction false} TextNoNul(v: Json)
    ensures NoNul(Text(v))
    decreases Depth(v), 0, 0
  {
    match v
    case Str(s) => StrNoNul(s);
    case Table(ms) =>
      var shape := ShapeOf(ms);
      TableText(ms);
      if shape.Length? && shape.n > 0 {
        ItemsNoNul(ms, 1, shape.n);
        NoNulBetween(91, ItemsText(ms, 1, shape.n), 93);
      } else {
        MembersNoNul(ms);
        NoNulBetween(123, MembersText(ms), 125);
      }
    case _ =>
  }

  lemma {:induction false} ItemsNoNul(ms: Members, j: int, n: int)
    requires 1 <= j <= n
    ensures NoNul(ItemsText(ms, j, n))
    decreases MembersDepth(ms), 1, n - j
  {
    FindDepth(ms, Index(j));
    TextNoNul(Find(ms, Index(j)));
    if j < n {
      ItemsNoNul(ms, j + 1, n);
    }
  }

  lemma {:induction false} MembersNoNul(ms: Members)
    ensures NoNul(MembersText(ms))
    decreases MembersDepth(ms), 1, Count(ms)
  {
    match ms
    case NoMembers =>
    case Member(k, v, rest) =>
      KeyTextIs(k);
      StrNoNul(NameOf(k));
      TextNoNul(v);
      MembersNoNul(rest);
      if rest.Member? {
        NoNulJoin([44], MembersText(rest));
      }
      NoNulJoin(Text(v), if rest.NoMembers? then [] else [44] + MembersText(rest));
      NoNulJoin(KeyText(k), Text(v) + if rest.NoMembers? then [] else [44] + MembersText(rest));
  }

  /** Decoding an encoded value, for every value that prints. */
  lemma DecodeText(v: Json, strtod: seq<byte> -> nat)
    requires Encodable(v) && Printable(v, 0)
    ensures Decode(Text(v), strtod) == Some(Reading(v))
  {
    PrintsUnlessDeep(v, 0);
    ValueRead(v, [], 0, strtod);
    assert Text(v) + [] == Text(v);
    TextNoNul(v);
    assert Text(v)[|Text(v)|..] == [];
    TokenIs([], strtod);
  }

  // ---------------------------------------------------------------------------------------------------------
  // When the value read is the value printed

  /** The keys are exactly 1 to n, n >= 1. */
  predicate Dense(ms: Members) {
    Count(ms) >= 1 && Keys(ms) == Indices(Count(ms))
  }

  /** Every table is a dense array or has only string keys. */
  predicate Plain(v: Json)
    decreases Depth(v), 0, 0
  {
    v.Table? ==> (Dense(v.members) || AllNames(v.members)) && PlainMembers(v.members)
  }

  predicate PlainMembers(ms: Members)
    decreases MembersDepth(ms), 1, Count(ms)
  {
    match ms
    case NoMembers => true
    case Member(_, v, rest) => Plain(v) && PlainMembers(rest)
  }

  lemma {:induction false} PlainMembersIff(ms: Members)
    requires Distinct(ms)
    ensures PlainMembers(ms) <==> forall k :: k in Keys(ms) ==> Plain(Find(ms, k))
    decreases ms
  {
    match ms
    case NoMembers =>
    case Member(key, v, rest) =>
      PlainMembersIff(rest);
      assert Keys(ms) == {key} + Keys(rest);
      assert Find(ms, key) == v;
      assert forall k :: k in Keys(rest) ==> k in Keys(ms) && Find(ms, k) == Find(rest, k);
      if forall k :: k in Keys(ms) ==> Plain(Find(ms, k)) {
        assert Plain(Find(ms, key));
      }
  }

  lemma {:induction false} AllNamesIff(ms: Members)
    ensures AllNames(ms) <==> forall k :: k in Keys(ms) ==> k.Name?
  {
    match ms
    case NoMembers =>
    case Member(_, _, rest) => AllNamesIff(rest);
  }

  lemma {:induction false} MeaningAt(ms: Members)
    ensures MembersMeaning(ms).Keys == Keys(ms)
    ensures forall k :: k in Keys(ms) ==> MembersMeaning(ms)[k] == Meaning(Find(ms, k))
    decreases ms
  {
    match ms
    case NoMembers =>
    case Member(_, _, rest) => MeaningAt(rest);
  }

  lemma {:induction false} ItemsAre(ms: Members, j: int, n: int, m: map<Key, Val>, k: Key)
    requires 1 <= j <= n
    ensures var r := FillItems(ms, j, n, m);
            if k.Index? && j <= k.i <= n then k in r && r[k] == Reading(Find(ms, k))
            else (k in r <==> k in m) && (k in r ==> r[k] == m[k])
    decreases n - j
  {
    if j < n {
      ItemsAre(ms, j + 1, n, m[Index(j) := Reading(Find(ms, Index(j)))], k);
    }
  }

  lemma {:induction false} MembersAre(ms: Members, m: map<Key, Val>, k: Key)
    requires Distinct(ms) && AllNames(ms)
    ensures var r := FillMembers(ms, m);
            if k in Keys(ms) then k in r && r[k] == Reading(Find(ms, k))
            else (k in r <==> k in m) && (k in r ==> r[k] == m[k])
    decreases ms
  {
    match ms
    case NoMembers =>
    case Member(key, v, rest) => MembersAre(rest, m[key := Reading(v)], k);
  }

  lemma {:induction false} MembersAreNamed(ms: Members, m: map<Key, Val>)
    requires forall k :: k in m ==> k.Name?
    ensures forall k :: k in FillMembers(ms, m) ==> k.Name?
    decreases ms
  {
    match ms
    case NoMembers =>
    case Member(k, v, rest) => MembersAreNamed(rest, m[Name(NameOf(k)) := Reading(v)]);
  }

  /** The keys of a table read back are those of the table just when it is dense or has only string keys. */
  lemma KeysKept(ms: Members)
    requires Distinct(ms) && !ShapeOf(ms).TooSparse? && !ShapeOf(ms).Uncounted?
    ensures var m := Reading(Table(ms)).m;
            && (m.Keys == Keys(ms) <==> Dense(ms) || AllNames(ms))
            && (Dense(ms) || AllNames(ms) ==> forall k :: k in m ==> m[k] == Reading(Find(ms, k)))
  {
    var shape, m := ShapeOf(ms), Reading(Table(ms)).m;
    AllNamesIff(ms);
    if Dense(ms) {
      DenseIsArray(ms, Count(ms));
    }
    if AllNames(ms) {
      NamesAreObject(ms);
    }
    if shape.Length? && shape.n > 0 {
      ArrayKeys(ms, shape.n);
    } else {
      ObjectKeys(ms);
    }
  }

  lemma ArrayKeys(ms: Members, n: int)
    requires Distinct(ms) && n >= 1
    ensures var m := FillItems(ms, 1, n, map[]);
            && m.Keys == Indices(n)
            && (forall k :: k in m ==> m[k] == Reading(Find(ms, k)))
            && (m.Keys == Keys(ms) ==> Dense(ms))
  {
    var m := FillItems(ms, 1, n, map[]);
    forall k
      ensures k in m <==> k in Indices(n)
      ensures k in m ==> m[k] == Reading(Find(ms, k))
    {
      ItemsAre(ms, 1, n, map[], k);
    }
    assert m.Keys == Indices(n);
    CountIsKeys(ms);
  }

  lemma ObjectKeys(ms: Members)
    requires Distinct(ms)
    ensures var m := FillMembers(ms, map[]);
            && (m.Keys == Keys(ms) <==> AllNames(ms))
            && (AllNames(ms) ==> forall k :: k in m ==> m[k] == Reading(Find(ms, k)))
  {
    var m := FillMembers(ms, map[]);
    MembersAreNamed(ms, map[]);
    AllNamesIff(ms);
    if AllNames(ms) {
      forall k
        ensures k in m <==> k in Keys(ms)
        ensures k in m ==> m[k] == Reading(Find(ms, k))
      {
        MembersAre(ms, map[], k);
      }
      assert m.Keys == Keys(ms);
    }
  }

  /** The value read is the value printed exactly when every table is a dense array or has only string keys. */
  lemma {:induction false} SameIffPlain(v: Json)
    requires Encodable(v)
    ensures Reading(v) == Meaning(v) <==> Plain(v)
    decreases Depth(v)
  {
    if v.Table? {
      var ms := v.members;
      forall k | k in Keys(ms)
        ensures Reading(Find(ms, k)) == Meaning(Find(ms, k)) <==> Plain(Find(ms, k))
      {
        FindDepth(ms, k);
        FindEncodable(ms, k);
        SameIffPlain(Find(ms, k));
      }
      PlainMembersIff(ms);
      TablesSame(ms);
    }
  }

  lemma TablesSame(ms: Members)
    requires Distinct(ms) && !ShapeOf(ms).TooSparse? && !ShapeOf(ms).Uncounted?
    ensures Reading(Table(ms)) == Meaning(Table(ms))
            <==> (Dense(ms) || AllNames(ms)) && forall k :: k in Keys(ms) ==> Reading(Find(ms, k)) == Meaning(Find(ms, k))
  {
    KeysKept(ms);
    MeaningAt(ms);
    var m, m' := Reading(Table(ms)).m, MembersMeaning(ms);
    if m == m' {
      forall k | k in Keys(ms)
        ensures Reading(Find(ms, k)) == Meaning(Find(ms, k))
      {
        assert k in m;
      }
    }
  }

  /** Round trip: trees of byte strings, booleans, null, exact integers, dense arrays and string-keyed objects. */
  lemma RoundTrip(v: Json, strtod: seq<byte> -> nat)
    requires Encodable(v) && Printable(v, 0)
    ensures Decode(Text(v), strtod) == Some(Meaning(v)) <==> Plain(v)
  {
    DecodeText(v, strtod);
    SameIffPlain(v);
  }
}
