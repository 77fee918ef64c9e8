module PbLaws {
  // What the protobuf decoder makes of one field on the wire, in literal tags and values.

  import opened Wrappers
  import opened Hiding
  import opened Sequences
  import opened Bytes
  import opened PbVarint
  import opened PbNumbers
  import opened PbSkip
  import opened PbSlice
  import opened PbSchema
  import opened PbMessage
  import opened PbDecode
  import opened PbRoundTrip
  import G = PbGroups

  /** Seven bits to a byte, lowest first, every byte but the last with its top bit set. */
  lemma VarintBytes(n: nat)
    ensures n < 0x80 ==> Varint(n) == [n]
    ensures 0x80 <= n < 0x4000 ==> Varint(n) == [n % 0x80 + 0x80, n / 0x80]
    ensures n >= 0x4000 ==> Varint(n) == [n % 0x80 + 0x80, n / 0x80 % 0x80 + 0x80] + Varint(n / 0x4000)
  {
    if n >= 0x4000 {
      assert n / 0x80 / 0x80 == n / 0x4000;
    }
  }

  /** The wire type a value of the kind is sent with. */
  function SentAs(k: Kind): nat {
    match k
    case EnumK(_) => 0
    case MessageK(_) => 2
    case ScalarK(t) =>
      match t
      case BytesT => 2
      case Fixed32T => 5
      case SFixed32T => 5
      case Fixed64T => 1
      case SFixed64T => 1
      case _ => 0
  }

  // ---------------------------------------------------------------------------------------------------------
  // What is written

  /** Scalars: 0 or 1; a length and the bytes; four or eight bytes; the varint of the 64-bit word, or of the zigzag code. */
  lemma ScalarForms(t: Scalar, v: Val)
    requires InRange(t, v)
    ensures v.VBool? ==> ScalarBytes(t, v) == [if v.b then 1 else 0]
    ensures v.VBytes? ==> ScalarBytes(t, v) == Varint(|v.s|) + v.s
    ensures t == UInt32T ==> ScalarBytes(t, v) == Varint(v.i)
    ensures t == Fixed32T ==> ScalarBytes(t, v) == LittleEndian(v.i, 4)
    ensures t == SFixed32T ==> ScalarBytes(t, v) == LittleEndian(if v.i < 0 then 0x1_0000_0000 + v.i else v.i, 4)
    ensures t == Int64T || t == UInt64T ==>
              ScalarBytes(t, v) == Varint(if v.i < 0 then 0x1_0000_0000_0000_0000 + v.i else v.i)
    ensures t == Fixed64T || t == SFixed64T ==>
              ScalarBytes(t, v) == LittleEndian(if v.i < 0 then 0x1_0000_0000_0000_0000 + v.i else v.i, 8)
  {
    if v.VInt? {
      WordForms(v.i);
    }
  }

  lemma WordForms(i: int)
    ensures -0x8000_0000 <= i < 0x1_0000_0000 ==>
              i % 0x1_0000_0000_0000_0000 % 0x1_0000_0000 == if i < 0 then 0x1_0000_0000 + i else i
    ensures -0x8000_0000_0000_0000 <= i < 0x8000_0000_0000_0000 ==>
              i % 0x1_0000_0000_0000_0000 == if i < 0 then 0x1_0000_0000_0000_0000 + i else i
  {
  }

  /** Signed 32-bit integers: the word extended to 64 bits, or the zigzag code. */
  lemma SignedForms(t: Scalar, v: Val)
    requires InRange(t, v)
    ensures t == Int32T ==> ScalarBytes(t, v) == Varint(if v.i < 0 then 0x1_0000_0000_0000_0000 + v.i else v.i)
    ensures t == SInt32T || t == SInt64T ==> ScalarBytes(t, v) == Varint(if v.i < 0 then -2 * v.i - 1 else 2 * v.i)
  {
    if t == Int32T {
      WordForms(v.i);
      ExpandSigExtends(v.i);
    } else if t == SInt32T {
      WordForms(v.i);
      Zigzag32(v.i);
    } else if t == SInt64T {
      WordForms(v.i);
      Zigzag64(v.i);
    }
  }

  /** A single field: its tag and its value, but nothing for the nought of a proto3 type outside a oneof. */
  lemma SingleForm(sch: Schema, proto3: bool, f: FieldDef, y: Val)
    requires FitsField(sch, f, Leaf(y)) && f.shape.Single? && f.kind.ScalarK? && InRange(f.kind.t, y)
    ensures FieldBytes(sch, proto3, f, Leaf(y))
            == if proto3 && f.shape == Single(false) && y == Nought(f.kind.t) then []
               else Varint(f.number * 8 + SentAs(f.kind)) + ScalarBytes(f.kind.t, y)
  {
    assert FitsRaw(sch, f.kind, Leaf(y));
    assert RawBytes(sch, f.kind, Leaf(y)) == ScalarBytes(f.kind.t, y);
    assert Tag(f.number, WireOf(f.kind)) == f.number * 8 + SentAs(f.kind);
  }

  /** A nested message: its tag, the length of its bytes, and its bytes. */
  lemma NestedForm(sch: Schema, proto3: bool, f: FieldDef, fields: Fields)
    requires FitsField(sch, f, Message(fields)) && f.shape.Single? && f.kind.MessageK?
    requires f.kind.id in sch && FitsMessage(sch, sch[f.kind.id], fields)
    ensures var body := MessageBytes(sch, sch[f.kind.id], fields);
            FieldBytes(sch, proto3, f, Message(fields)) == Varint(f.number * 8 + 2) + (Varint(|body|) + body)
  {
    var body := MessageBytes(sch, sch[f.kind.id], fields);
    assert FitsRaw(sch, f.kind, Message(fields));
    assert RawBytes(sch, f.kind, Message(fields)) == Varint(|body|) + body;
    assert Tag(f.number, WireOf(f.kind)) == f.number * 8 + 2;
  }

  /** Each of the scalars behind the tag. */
  function TaggedScalars(tag: nat, t: Scalar, vs: seq<Val>): seq<byte>
    requires forall i :: 0 <= i < |vs| ==> InRange(t, vs[i])
  {
    if vs == [] then [] else Varint(tag) + ScalarBytes(t, vs[0]) + TaggedScalars(tag, t, vs[1..])
  }

  /** A packed field is one tag, one length and the items; another one is a tag and an item at a time. */
  lemma RepeatedForm(sch: Schema, proto3: bool, f: FieldDef, vs: seq<Val>)
    requires FitsField(sch, f, List(Leaves(vs))) && FitsItems(sch, f.kind, Leaves(vs))
    requires f.shape.Repeated? && f.kind.ScalarK? && forall i :: 0 <= i < |vs| ==> InRange(f.kind.t, vs[i])
    ensures var body := ScalarsBytes(f.kind.t, vs);
            FieldBytes(sch, proto3, f, List(Leaves(vs)))
            == if f.shape.packed then Varint(f.number * 8 + 2) + (Varint(|body|) + body)
               else TaggedScalars(f.number * 8 + SentAs(f.kind), f.kind.t, vs)
  {
    assert Tag(f.number, BYTES) == f.number * 8 + 2;
    if f.shape.packed {
      LeavesPacked(sch, f.kind.t, vs);
    } else {
      LeavesTagged(sch, f, f.kind.t, vs);
    }
  }

  lemma {:induction false} LeavesPacked(sch: Schema, t: Scalar, vs: seq<Val>)
    requires FitsItems(sch, ScalarK(t), Leaves(vs)) && forall i :: 0 <= i < |vs| ==> InRange(t, vs[i])
    ensures PackedBytes(sch, ScalarK(t), Leaves(vs)) == ScalarsBytes(t, vs)
  {
    if vs != [] {
      LeavesPacked(sch, t, vs[1..]);
      assert RawBytes(sch, ScalarK(t), Leaf(vs[0])) == ScalarBytes(t, vs[0]);
    }
  }

  lemma {:induction false} LeavesTagged(sch: Schema, f: FieldDef, t: Scalar, vs: seq<Val>)
    requires f.kind == ScalarK(t)
    requires FitsItems(sch, f.kind, Leaves(vs)) && forall i :: 0 <= i < |vs| ==> InRange(t, vs[i])
    ensures ItemBytes(sch, f, Leaves(vs)) == TaggedScalars(f.number * 8 + SentAs(f.kind), t, vs)
  {
    if vs != [] {
      LeavesTagged(sch, f, t, vs[1..]);
      PartForm(sch, f.number, t, vs[0], false);
    }
  }

  /** A tag and a scalar, but nothing for a nought that is ignored. */
  lemma PartForm(sch: Schema, number: nat, t: Scalar, y: Val, ignoreZero: bool)
    requires InRange(t, y)
    ensures TaggedBytes(sch, number, ScalarK(t), Leaf(y), ignoreZero)
            == if ignoreZero && y == Nought(t) then [] else Varint(number * 8 + SentAs(ScalarK(t))) + ScalarBytes(t, y)
  {
    assert RawBytes(sch, ScalarK(t), Leaf(y)) == ScalarBytes(t, y);
    assert Tag(number, WireOf(ScalarK(t))) == number * 8 + SentAs(ScalarK(t));
  }

  lemma KeyForm(key: Scalar, x: Val)
    requires InRange(key, x)
    ensures KeyBytes(key, x) == if x == Nought(key) then [] else Varint(8 + SentAs(ScalarK(key))) + ScalarBytes(key, x)
  {
    assert Tag(1, ScalarWire(key)) == 8 + SentAs(ScalarK(key));
  }

  /** Key and value of an entry as fields 1 and 2, where they are not nought. */
  function EntryParts(key: Scalar, t: Scalar, x: Val, y: Val): seq<byte>
    requires InRange(key, x) && InRange(t, y)
  {
    (if x == Nought(key) then [] else Varint(1 * 8 + SentAs(ScalarK(key))) + ScalarBytes(key, x))
    + (if y == Nought(t) then [] else Varint(2 * 8 + SentAs(ScalarK(t))) + ScalarBytes(t, y))
  }

  lemma EntryBody(sch: Schema, key: Scalar, t: Scalar, x: Val, y: Val, second: nat)
    requires InRange(key, x) && InRange(t, y) && second == 2
    ensures EntryBytes(sch, key, ScalarK(t), x, Leaf(y)) == EntryParts(key, t, x, y)
  {
    KeyForm(key, x);
    PartForm(sch, second, t, y, true);
  }

  /** A map entry: the field's tag, a length, and its parts. */
  lemma EntryForm(sch: Schema, number: nat, key: Scalar, t: Scalar, x: Val, y: Val)
    requires InRange(key, x) && InRange(t, y)
    ensures var body := EntryParts(key, t, x, y);
            OneEntry(sch, number, key, ScalarK(t), x, Leaf(y)) == Varint(number * 8 + 2) + (Varint(|body|) + body)
  {
    EntryBody(sch, key, t, x, y, 2);
    assert Tag(number, BYTES) == number * 8 + 2;
  }

  /** f is field `number` of the type. */
  ghost predicate IsField(sch: Schema, t: TypeDef, f: FieldDef) {
    SchemaOk(sch) && TypeOk(sch, t) && f.name in t.byName && t.byName[f.name] == f
  }

  /** A known field: its tag, then what the field makes of the bytes behind it. */
  lemma Arrives(sch: Schema, t: TypeDef, f: FieldDef, wire: nat, s: seq<byte>, acc: LuaTable)
    requires IsField(sch, t, f) && wire < 8
    ensures var r := FieldAt(sch, f, f.number * 8 + wire, s, acc);
            && (r.None? ==> MessageAt(sch, t, Varint(f.number * 8 + wire) + s, acc) == None)
            && (r.Some? ==> r.value.1 <= |s| && MessageAt(sch, t, Varint(f.number * 8 + wire) + s, acc)
                                                == MessageAt(sch, t, s[r.value.1..], r.value.0))
  {
    var head := Varint(f.number * 8 + wire);
    assert Tag(f.number, wire) == f.number * 8 + wire;
    TagRead(f.number, wire, s);
    MessageStep(sch, t, head + s, acc);
    var r := FieldAt(sch, f, f.number * 8 + wire, s, acc);
    if r.Some? {
      Tail(head, s, r.value.1);
    }
  }

  lemma Tail(head: seq<byte>, s: seq<byte>, n: nat)
    requires |head| + n <= |head + s|
    ensures (head + s)[|head| + n..] == s[n..] && (head + s)[|head|..] == s
  {
  }

  /** A field of the message, behind which more follows. */
  lemma Cut(a: seq<byte>, b: seq<byte>)
    ensures (a + b)[|a|..] == b
  {
  }

  // ---------------------------------------------------------------------------------------------------------
  // Fields the type does not know

  /** A field the type does not know is skipped whole, whatever its wire type, groups with all they hold included. */
  lemma UnknownSkipped(sch: Schema, t: TypeDef, number: nat, v: G.Value, more: seq<byte>, acc: LuaTable)
    requires number < 0x2000_0000 && number !in t.byNumber && G.WellFormed(v)
    ensures var wire := match v case VarintV(_) => 0 case Fixed64V(_) => 1 case BytesV(_) => 2 case GroupV(_) => 3
                        case Fixed32V(_) => 5;
            MessageAt(sch, t, Varint(number * 8 + wire) + (G.Payload(v, number) + more), acc) == MessageAt(sch, t, more, acc)
  {
    var tag, payload := number * 8 + G.WireType(v), G.Payload(v, number);
    G.TagParts(number, G.WireType(v));
    G.ReadTag(tag, payload + more);
    G.SkipExact(v, number, more);
    MessageSkip(sch, t, Varint(tag) + (payload + more), acc);
    Tail(Varint(tag), payload + more, |payload|);
    Cut(payload, more);
  }

  // ---------------------------------------------------------------------------------------------------------
  // Fields the type knows

  /** A field sent with another wire type is an error; only a repeated one may come as a run of bytes as well. */
  lemma OtherWireRefused(sch: Schema, t: TypeDef, f: FieldDef, wire: nat, s: seq<byte>, acc: LuaTable)
    requires IsField(sch, t, f) && wire < 8 && wire != SentAs(f.kind)
    requires f.shape.Single? || (f.shape.Repeated? && wire != 2)
    ensures MessageAt(sch, t, Varint(f.number * 8 + wire) + s, acc) == None
  {
    Arrives(sch, t, f, wire, s, acc);
  }

  lemma WireOfTag(number: nat, wire: nat)
    requires wire < 8
    ensures (number * 8 + wire) % 8 == wire && (number * 8 + wire) / 8 == number
  {
  }

  lemma ScalarAt(sch: Schema, k: Kind, v: Val, more: seq<byte>)
    requires k.ScalarK? && InRange(k.t, v)
    ensures ValueAt(sch, k, ScalarBytes(k.t, v) + more) == Ok(v, |ScalarBytes(k.t, v)|)
  {
    ScalarStep(sch, k, ScalarBytes(k.t, v) + more);
    ScalarRoundTrip(k.t, v, more);
  }

  /** A single field sets its name to the value: the last one sent wins. */
  lemma SingleSet(sch: Schema, t: TypeDef, f: FieldDef, v: Val, more: seq<byte>, acc: LuaTable)
    requires IsField(sch, t, f) && f.shape.Single? && f.kind.ScalarK? && InRange(f.kind.t, v)
    ensures MessageAt(sch, t, Varint(f.number * 8 + SentAs(f.kind)) + (ScalarBytes(f.kind.t, v) + more), acc)
            == MessageAt(sch, t, more, acc[f.name := v])
  {
    var raw, wire := ScalarBytes(f.kind.t, v), SentAs(f.kind);
    ScalarAt(sch, f.kind, v, more);
    WireOfTag(f.number, wire);
    SetsOne(sch, f, f.number * 8 + wire, raw + more, acc, v, |raw|);
    Arrives(sch, t, f, wire, raw + more, acc);
    Cut(raw, more);
  }

  lemma SetsOne(sch: Schema, f: FieldDef, tag: nat, s: seq<byte>, acc: LuaTable, v: Val, n: nat)
    requires f.shape.Single? && tag % 8 == WireOf(f.kind) && ValueAt(sch, f.kind, s) == Ok(v, n)
    ensures FieldAt(sch, f, tag, s, acc) == Some((acc[f.name := v], n))
  {
  }

  lemma LastWins(sch: Schema, t: TypeDef, f: FieldDef, v: Val, w: Val, more: seq<byte>, acc: LuaTable)
    requires IsField(sch, t, f) && f.shape.Single? && f.kind.ScalarK? && InRange(f.kind.t, v) && InRange(f.kind.t, w)
    ensures var tag := Varint(f.number * 8 + SentAs(f.kind));
            MessageAt(sch, t, tag + (ScalarBytes(f.kind.t, v) + (tag + (ScalarBytes(f.kind.t, w) + more))), acc)
            == MessageAt(sch, t, more, acc[f.name := w])
  {
    var tag := Varint(f.number * 8 + SentAs(f.kind));
    SingleSet(sch, t, f, v, tag + (ScalarBytes(f.kind.t, w) + more), acc);
    SingleSet(sch, t, f, w, more, acc[f.name := v]);
    assert acc[f.name := v][f.name := w] == acc[f.name := w];
  }

  /** What a repeated field holds so far. */
  ghost predicate Holds(acc: LuaTable, name: string, xs: seq<Val>) {
    if name in acc then acc[name] == VList(xs) else xs == []
  }

  /** One item of a repeated field is appended, whether or not the schema calls the field packed. */
  lemma ItemAppended(sch: Schema, t: TypeDef, f: FieldDef, xs: seq<Val>, v: Val, more: seq<byte>, acc: LuaTable)
    requires IsField(sch, t, f) && f.shape.Repeated? && f.kind.ScalarK? && InRange(f.kind.t, v) && Holds(acc, f.name, xs)
    ensures MessageAt(sch, t, Varint(f.number * 8 + SentAs(f.kind)) + (ScalarBytes(f.kind.t, v) + more), acc)
            == MessageAt(sch, t, more, acc[f.name := VList(xs + [v])])
  {
    var raw, wire := ScalarBytes(f.kind.t, v), SentAs(f.kind);
    ScalarAt(sch, f.kind, v, more);
    WireOfTag(f.number, wire);
    assert FieldOk(sch, t.byNumber[f.number]);
    AppendsOne(sch, f, f.number * 8 + wire, raw + more, acc, xs, v, |raw|);
    Arrives(sch, t, f, wire, raw + more, acc);
    Cut(raw, more);
  }

  lemma AppendsOne(sch: Schema, f: FieldDef, tag: nat, s: seq<byte>, acc: LuaTable, xs: seq<Val>, v: Val, n: nat)
    requires f.shape.Repeated? && tag % 8 == WireOf(f.kind) && (WireOf(f.kind) == 2 ==> !f.shape.packed)
    requires ValueAt(sch, f.kind, s) == Ok(v, n) && Holds(acc, f.name, xs)
    ensures FieldAt(sch, f, tag, s, acc) == Some((acc[f.name := VList(xs + [v])], n))
  {
  }

  lemma AppendsRun(sch: Schema, f: FieldDef, tag: nat, s: seq<byte>, acc: LuaTable, xs: seq<Val>, body: seq<byte>, vs: seq<Val>,
                   n: nat)
    requires f.shape.Repeated? && tag % 8 == 2 && WireOf(f.kind) != 2 && Holds(acc, f.name, xs)
    requires Chunk(s) == Some((body, n)) && PackedAt(sch, f.kind, body) == Some(vs)
    ensures FieldAt(sch, f, tag, s, acc) == Some((acc[f.name := VList(xs + vs)], n))
  {
  }

  /** The scalars one after the other. */
  function ScalarsBytes(t: Scalar, vs: seq<Val>): seq<byte>
    requires forall i :: 0 <= i < |vs| ==> InRange(t, vs[i])
  {
    if vs == [] then [] else ScalarBytes(t, vs[0]) + ScalarsBytes(t, vs[1..])
  }

  lemma {:induction false} ScalarsRead(sch: Schema, t: Scalar, vs: seq<Val>)
    requires forall i :: 0 <= i < |vs| ==> InRange(t, vs[i])
    ensures PackedAt(sch, ScalarK(t), ScalarsBytes(t, vs)) == Some(vs)
  {
    var s := ScalarsBytes(t, vs);
    PackedStep(sch, ScalarK(t), s);
    if vs != [] {
      var first, rest := ScalarBytes(t, vs[0]), ScalarsBytes(t, vs[1..]);
      ScalarRoundTrip(t, vs[0], rest);
      ScalarStep(sch, ScalarK(t), s);
      ScalarsRead(sch, t, vs[1..]);
      Cut(first, rest);
      assert [vs[0]] + vs[1..] == vs;
    }
  }

  /** A run of items is appended in order, whether or not the schema calls the field packed. */
  lemma RunAppended(sch: Schema, t: TypeDef, f: FieldDef, xs: seq<Val>, vs: seq<Val>, more: seq<byte>, acc: LuaTable)
    requires IsField(sch, t, f) && f.shape.Repeated? && f.kind.ScalarK? && f.kind.t != BytesT && Holds(acc, f.name, xs)
    requires forall i :: 0 <= i < |vs| ==> InRange(f.kind.t, vs[i])
    requires |ScalarsBytes(f.kind.t, vs)| <= MAX_SIZET
    ensures var body := ScalarsBytes(f.kind.t, vs);
            MessageAt(sch, t, Varint(f.number * 8 + 2) + (Varint(|body|) + body + more), acc)
            == MessageAt(sch, t, more, acc[f.name := VList(xs + vs)])
  {
    var body := ScalarsBytes(f.kind.t, vs);
    var chunk := Varint(|body|) + body;
    ScalarsRead(sch, f.kind.t, vs);
    ChunkOfWritten(body, more);
    WireOfTag(f.number, 2);
    AppendsRun(sch, f, f.number * 8 + 2, chunk + more, acc, xs, body, vs, |chunk|);
    Arrives(sch, t, f, 2, chunk + more, acc);
    Cut(chunk, more);
  }

  /** Fewer bytes than their length announces. */
  lemma ShortRefused(sch: Schema, t: TypeDef, f: FieldDef, n: nat, s: seq<byte>, acc: LuaTable)
    requires IsField(sch, t, f) && |s| < n < U64
    requires f.shape.MapOf? || SentAs(f.kind) == 2 || f.shape.Repeated?
    ensures MessageAt(sch, t, Varint(f.number * 8 + 2) + (Varint(n) + s), acc) == None
  {
    Arrives(sch, t, f, 2, Varint(n) + s, acc);
    ReadWritten(n, s);
    assert Chunk(Varint(n) + s) == None;
    ScalarStep(sch, f.kind, Varint(n) + s);
  }

  /** false, the empty string, or 0. */
  function Nought(t: Scalar): Val {
    if t.BoolT? then VBool(false) else if t.BytesT? then VBytes([]) else VInt(0)
  }

  /** An entry without key and value: the key is the nought of its type, and so is the value; a message has none. */
  lemma EmptyEntry(sch: Schema, t: TypeDef, f: FieldDef, d: map<Val, Val>, more: seq<byte>, acc: LuaTable)
    requires IsField(sch, t, f) && f.shape.MapOf? && f.name in acc && acc[f.name] == VDict(d)
    ensures var x := Nought(f.shape.key);
            var d' := match f.kind
                      case ScalarK(s) => d[x := Nought(s)]
                      case EnumK(e) => d[x := if 0 in e.byNumber then VName(e.byNumber[0]) else VInt(0)]
                      case MessageK(_) => d;
            MessageAt(sch, t, Varint(f.number * 8 + 2) + ([0] + more), acc) == MessageAt(sch, t, more, acc[f.name := VDict(d')])
  {
    Arrives(sch, t, f, 2, [0] + more, acc);
    ChunkOfWritten([], more);
    assert Varint(0) + [] + more == [0] + more;
    EntryNone(sch, f.shape.key, f.kind, Entry(None, None));
    Cut([0], more);
  }

  // ---------------------------------------------------------------------------------------------------------
  // Given fields after the round trip

  /** Scalar items as Lua gives them. */
  function Leaves(vs: seq<Val>): Items {
    if vs == [] then NoItems else Items(Leaf(vs[0]), Leaves(vs[1..]))
  }

  lemma {:induction false} LeavesVals(sch: Schema, t: Scalar, vs: seq<Val>)
    requires FitsItems(sch, ScalarK(t), Leaves(vs))
    ensures ItemVals(sch, ScalarK(t), Leaves(vs)) == vs
  {
    if vs != [] {
      LeavesVals(sch, t, vs[1..]);
    }
  }

  /** The entries hold the key with the value; Lua tables hold a key once. */
  predicate HasEntry(es: Entries, x: Val, v: Val) {
    match es
    case NoEntries => false
    case Entries(key, value, rest) => (key == x && value == Leaf(v)) || HasEntry(rest, x, v)
  }

  lemma {:induction false} EntriesVals(sch: Schema, key: Scalar, t: Scalar, es: Entries, x: Val, v: Val)
    requires FitsEntries(sch, key, ScalarK(t), es)
    ensures var m := EntryVals(sch, key, ScalarK(t), es); (x in m && m[x] == v) <==> HasEntry(es, x, v)
    ensures x in EntryVals(sch, key, ScalarK(t), es) ==> x in Keys(es)
    ensures HasEntry(es, x, v) ==> x in Keys(es)
    decreases es
  {
    match es
    case NoEntries =>
    case Entries(_, _, rest) => EntriesVals(sch, key, t, rest, x, v);
  }

  /** What a decoded message holds for a field that was given: the value, the items in order, the entries, the message. */
  lemma GivenField(sch: Schema, id: nat, fields: Fields, name: string)
    requires SchemaOk(sch) && id in sch && FitsMessage(sch, sch[id], fields)
    requires |MessageBytes(sch, sch[id], fields)| <= MAX_SIZET
    requires name in sch[id].byName && Lookup(fields, name).Some?
    ensures var f, v := sch[id].byName[name], Lookup(fields, name).value;
            var r := MessageAt(sch, sch[id], MessageBytes(sch, sch[id], fields), Defaults(sch[id]));
            && r.Some?
            && (f.shape.Single? && f.kind.ScalarK? ==> v.Leaf? && name in r.value && r.value[name] == v.v)
            && (f.shape.Single? && f.kind.MessageK? ==>
                  && v.Message? && f.kind.id in sch && FitsMessage(sch, sch[f.kind.id], v.fields) && name in r.value
                  && r.value[name] == VMsg(Complete(sch, sch[f.kind.id], v.fields)))
            && (f.shape.Repeated? && f.kind.ScalarK? ==>
                  v.List? && forall vs: seq<Val> :: v.items == Leaves(vs) && vs != [] ==> name in r.value && r.value[name] == VList(vs))
            && (f.shape.MapOf? && f.kind.ScalarK? && v.Dict? && v.entries.Entries? ==>
                  name in r.value && r.value[name].VDict?
                  && forall x, y :: (x in r.value[name].entries && r.value[name].entries[x] == y) <==> HasEntry(v.entries, x, y))
  {
    DecodeEncode(sch, id, fields);
    FilledAt(sch, sch[id], fields, Defaults(sch[id]), name);
    var f, v := sch[id].byName[name], Lookup(fields, name).value;
    assert FitsField(sch, f, v);
    if f.shape.Repeated? && f.kind.ScalarK? {
      forall vs: seq<Val> | v.items == Leaves(vs) && vs != []
        ensures ItemVals(sch, f.kind, v.items) == vs
      {
        LeavesVals(sch, f.kind.t, vs);
      }
    } else if f.shape.MapOf? && f.kind.ScalarK? && v.entries.Entries? {
      var m := EntryVals(sch, f.shape.key, f.kind, v.entries);
      forall x, y
        ensures (x in m && m[x] == y) <==> HasEntry(v.entries, x, y)
      {
        EntriesVals(sch, f.shape.key, f.kind.t, v.entries, x, y);
      }
    }
  }
}
