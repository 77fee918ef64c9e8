module PbMessage {
  // What encoding and decoding a message mean: trees of Lua values in iteration order, their bytes, and their tables.

  import opened Wrappers
  import opened Hiding
  import opened Bytes
  import opened PbVarint
  import opened PbNumbers
  import opened PbSkip
  import opened PbSlice
  import opened PbSchema

  /** A Lua value to encode; the fields of a message and the entries of a dictionary come in any order lua_next takes. */
  datatype Value = Leaf(v: Val) | Message(fields: Fields) | List(items: Items) | Dict(entries: Entries)
  datatype Fields = NoFields | Fields(name: string, value: Value, rest: Fields)
  datatype Items = NoItems | Items(head: Value, tail: Items)
  datatype Entries = NoEntries | Entries(key: Val, value: Value, rest: Entries)

  function Names(fs: Fields): set<string> {
    match fs
    case NoFields => {}
    case Fields(name, _, rest) => {name} + Names(rest)
  }

  function Keys(es: Entries): set<Val> {
    match es
    case NoEntries => {}
    case Entries(key, _, rest) => {key} + Keys(rest)
  }

  // ---------------------------------------------------------------------------------------------------------
  // Values a type allows

  predicate EnumFits(e: Enum, v: Val) {
    (v.VName? && v.name in e.byName) || (v.VInt? && 0 <= v.i < P31)
  }

  predicate FitsRaw(sch: Schema, k: Kind, v: Value)
    decreases v, 0
  {
    match k
    case ScalarK(t) => v.Leaf? && InRange(t, v.v)
    case EnumK(e) => v.Leaf? && EnumOk(e) && EnumFits(e, v.v)
    case MessageK(id) => v.Message? && id in sch && FitsMessage(sch, sch[id], v.fields)
  }

  predicate FitsItems(sch: Schema, k: Kind, items: Items)
    decreases items, 1
  {
    match items
    case NoItems => true
    case Items(head, tail) => FitsRaw(sch, k, head) && FitsItems(sch, k, tail)
  }

  predicate FitsEntries(sch: Schema, key: Scalar, k: Kind, entries: Entries)
    decreases entries, 1
  {
    match entries
    case NoEntries => true
    case Entries(x, value, rest) =>
      InRange(key, x) && x !in Keys(rest) && FitsRaw(sch, k, value) && FitsEntries(sch, key, k, rest)
  }

  /** The field's tag is a 32-bit number, and its value one the field allows. */
  predicate FitsField(sch: Schema, f: FieldDef, v: Value)
    decreases v, 1
  {
    f.number < FIELD_LIMIT &&
    match f.shape
    case Single(_) => FitsRaw(sch, f.kind, v)
    case Repeated(_) => v.List? && FitsItems(sch, f.kind, v.items)
    case MapOf(key) => v.Dict? && FitsEntries(sch, key, f.kind, v.entries)
  }

  /** Field names differ, and the fields the type knows hold values it allows; other fields are skipped. */
  predicate FitsMessage(sch: Schema, t: TypeDef, fields: Fields)
    decreases fields, 2
  {
    match fields
    case NoFields => true
    case Fields(name, value, rest) =>
      && name !in Names(rest) && FitsMessage(sch, t, rest)
      && (name in t.byName ==> FitsField(sch, t.byName[name], value))
  }

  // ---------------------------------------------------------------------------------------------------------
  // Bytes

  lemma TagFits(number: nat, wire: nat)
    requires wire < 8 && number < FIELD_LIMIT
    ensures Tag(number, wire) < U32
  {
  }

  function EnumNumber(e: Enum, v: Val): int
    requires EnumFits(e, v)
  {
    if v.VName? then e.byName[v.name] else v.i
  }

  function EnumBytes(e: Enum, v: Val): seq<byte>
    requires EnumFits(e, v)
  {
    Varint(EnumNumber(e, v) % P32)
  }

  /** lpbE_field: the value without its tag. */
  function RawBytes(sch: Schema, k: Kind, v: Value): seq<byte>
    requires FitsRaw(sch, k, v)
    decreases v, 0
  {
    match k
    case ScalarK(t) => ScalarBytes(t, v.v)
    case EnumK(e) => EnumBytes(e, v.v)
    case MessageK(id) => var body := MessageBytes(sch, sch[id], v.fields); Varint(|body|) + body
  }

  function Tag(number: nat, wire: nat): (tag: nat)
    requires wire < 8
    ensures tag % 8 == wire && tag / 8 == number
  {
    number * 8 + wire
  }

  /** A zero scalar, which lpbE_tagfield takes back when it ignores zeros. */
  predicate Ignorable(k: Kind, v: Value) {
    k.ScalarK? && v == Leaf(Zero(k.t))
  }

  function TaggedBytes(sch: Schema, number: nat, k: Kind, v: Value, ignoreZero: bool): seq<byte>
    requires FitsRaw(sch, k, v)
    decreases v, 1
  {
    if ignoreZero && Ignorable(k, v) then [] else Varint(Tag(number, WireOf(k))) + RawBytes(sch, k, v)
  }

  function PackedBytes(sch: Schema, k: Kind, items: Items): seq<byte>
    requires FitsItems(sch, k, items)
    decreases items, 2
  {
    match items
    case NoItems => []
    case Items(head, tail) => RawBytes(sch, k, head) + PackedBytes(sch, k, tail)
  }

  function ItemBytes(sch: Schema, f: FieldDef, items: Items): seq<byte>
    requires FitsItems(sch, f.kind, items)
    decreases items, 2
  {
    match items
    case NoItems => []
    case Items(head, tail) => TaggedBytes(sch, f.number, f.kind, head, false) + ItemBytes(sch, f, tail)
  }

  function KeyBytes(key: Scalar, x: Val): seq<byte>
    requires InRange(key, x)
  {
    if x == Zero(key) then [] else Varint(Tag(1, ScalarWire(key))) + ScalarBytes(key, x)
  }

  function EntryBytes(sch: Schema, key: Scalar, k: Kind, x: Val, v: Value): seq<byte>
    requires InRange(key, x) && FitsRaw(sch, k, v)
    decreases v, 2
  {
    KeyBytes(key, x) + TaggedBytes(sch, 2, k, v, true)
  }

  function OneEntry(sch: Schema, number: nat, key: Scalar, k: Kind, x: Val, v: Value): seq<byte>
    requires InRange(key, x) && FitsRaw(sch, k, v)
    decreases v, 3
  {
    var body := EntryBytes(sch, key, k, x, v);
    Varint(Tag(number, BYTES)) + (Varint(|body|) + body)
  }

  function EntriesBytes(sch: Schema, number: nat, key: Scalar, k: Kind, entries: Entries): seq<byte>
    requires FitsEntries(sch, key, k, entries)
    decreases entries, 2
  {
    match entries
    case NoEntries => []
    case Entries(x, value, rest) => OneEntry(sch, number, key, k, x, value) + EntriesBytes(sch, number, key, k, rest)
  }

  function FieldBytes(sch: Schema, proto3: bool, f: FieldDef, v: Value): seq<byte>
    requires FitsField(sch, f, v)
    decreases v, 3
  {
    match f.shape
    case Single(oneof) => TaggedBytes(sch, f.number, f.kind, v, proto3 && !oneof)
    case Repeated(packed) =>
      if packed then
        var body := PackedBytes(sch, f.kind, v.items);
        Varint(Tag(f.number, BYTES)) + (Varint(|body|) + body)
      else ItemBytes(sch, f, v.items)
    case MapOf(key) => EntriesBytes(sch, f.number, key, f.kind, v.entries)
  }

  /** lpb_encode */
  function MessageBytes(sch: Schema, t: TypeDef, fields: Fields): seq<byte>
    requires FitsMessage(sch, t, fields)
    decreases fields, 4
  {
    match fields
    case NoFields => []
    case Fields(name, value, rest) =>
      (if name in t.byName then FieldBytes(sch, t.proto3, t.byName[name], value) else []) + MessageBytes(sch, t, rest)
  }

  // ---------------------------------------------------------------------------------------------------------
  // Tables

  /** An enumerator is shown by the name of its number, if it has one. */
  function EnumVal(e: Enum, number: int): Val {
    if number in e.byNumber then VName(e.byNumber[number]) else VInt(number)
  }

  /** lpb_pushdefault of a field that is not repeated, for proto3. */
  function DefaultOf(k: Kind): Option<Val> {
    match k
    case ScalarK(t) => Some(Zero(t))
    case EnumK(e) => Some(EnumVal(e, 0))
    case MessageK(_) => None
  }

  function FieldDefault(f: FieldDef): Option<Val> {
    match f.shape
    case Single(oneof) => if oneof then None else DefaultOf(f.kind)
    case Repeated(_) => Some(VList([]))
    case MapOf(_) => Some(VDict(map[]))
  }

  /** lpb_pushtypetable: a proto3 message starts with the defaults of its fields, another one empty. */
  function Defaults(t: TypeDef): map<string, Val> {
    if !t.proto3 then map[]
    else map n | n in t.byName && FieldDefault(t.byName[n]).Some? :: FieldDefault(t.byName[n]).value
  }

  function RawVal(sch: Schema, k: Kind, v: Value): Val
    requires FitsRaw(sch, k, v)
    decreases v, 0
  {
    match k
    case ScalarK(_) => v.v
    case EnumK(e) => EnumVal(e, EnumNumber(e, v.v))
    case MessageK(id) => VMsg(Filled(sch, sch[id], v.fields, Defaults(sch[id])))
  }

  function ItemVals(sch: Schema, k: Kind, items: Items): seq<Val>
    requires FitsItems(sch, k, items)
    decreases items, 2
  {
    match items
    case NoItems => []
    case Items(head, tail) => [RawVal(sch, k, head)] + ItemVals(sch, k, tail)
  }

  function EntryVals(sch: Schema, key: Scalar, k: Kind, entries: Entries): map<Val, Val>
    requires FitsEntries(sch, key, k, entries)
    decreases entries, 2
  {
    match entries
    case NoEntries => map[]
    case Entries(x, value, rest) => EntryVals(sch, key, k, rest)[x := RawVal(sch, k, value)]
  }

  /** The value a field ends up with; None when nothing is written that would create it. */
  function FieldVal(sch: Schema, f: FieldDef, v: Value): Option<Val>
    requires FitsField(sch, f, v)
    decreases v, 3
  {
    match f.shape
    case Single(_) => Some(RawVal(sch, f.kind, v))
    case Repeated(packed) => if v.items.NoItems? && !packed then None else Some(VList(ItemVals(sch, f.kind, v.items)))
    case MapOf(key) => if v.entries.NoEntries? then None else Some(VDict(EntryVals(sch, key, f.kind, v.entries)))
  }

  function Assign(acc: map<string, Val>, name: string, v: Option<Val>): map<string, Val> {
    if v.Some? then acc[name := v.value] else acc
  }

  /** The given fields over what is there already. */
  function Filled(sch: Schema, t: TypeDef, fields: Fields, acc: map<string, Val>): map<string, Val>
    requires FitsMessage(sch, t, fields)
    decreases fields, 4
  {
    match fields
    case NoFields => acc
    case Fields(name, value, rest) =>
      Filled(sch, t, rest, if name in t.byName then Assign(acc, name, FieldVal(sch, t.byName[name], value)) else acc)
  }

  /** The message completed with its defaults. */
  function Complete(sch: Schema, t: TypeDef, fields: Fields): map<string, Val>
    requires FitsMessage(sch, t, fields)
  {
    Filled(sch, t, fields, Defaults(t))
  }

  function Lookup(fields: Fields, name: string): Option<Value> {
    match fields
    case NoFields => None
    case Fields(n, v, rest) => if n == name then Some(v) else Lookup(rest, name)
  }

  /** Field by field: the given value if the type has the field and the value creates it, else the default. */
  lemma {:induction false} FilledAt(sch: Schema, t: TypeDef, fields: Fields, acc: map<string, Val>, name: string)
    requires FitsMessage(sch, t, fields)
    ensures Lookup(fields, name).Some? && name in t.byName ==> FitsField(sch, t.byName[name], Lookup(fields, name).value)
    ensures var given := if name in t.byName && Lookup(fields, name).Some?
                         then FieldVal(sch, t.byName[name], Lookup(fields, name).value) else None;
            var r := Filled(sch, t, fields, acc);
            if given.Some? then name in r && r[name] == given.value
            else (name in r <==> name in acc) && (name in r ==> r[name] == acc[name])
  {
    match fields
    case NoFields =>
    case Fields(n, v, rest) =>
      var acc' := if n in t.byName then Assign(acc, n, FieldVal(sch, t.byName[n], v)) else acc;
      FilledAt(sch, t, rest, acc', name);
      LookupNamed(rest, n);
  }

  lemma {:induction false} LookupNamed(fields: Fields, name: string)
    ensures Lookup(fields, name).Some? <==> name in Names(fields)
  {
    match fields
    case NoFields =>
    case Fields(_, _, rest) => LookupNamed(rest, name);
  }

  /** The completed message does not depend on the order of the fields. */
  lemma OrderIrrelevant(sch: Schema, t: TypeDef, fields: Fields, others: Fields)
    requires FitsMessage(sch, t, fields) && FitsMessage(sch, t, others)
    requires forall n: string :: Lookup(fields, n) == Lookup(others, n)
    ensures Complete(sch, t, fields) == Complete(sch, t, others)
  {
    var a, b := Complete(sch, t, fields), Complete(sch, t, others);
    forall n: string
      ensures (n in a <==> n in b) && (n in a ==> a[n] == b[n])
    {
      FilledAt(sch, t, fields, Defaults(t), n);
      FilledAt(sch, t, others, Defaults(t), n);
    }
    assert a.Keys == b.Keys;
  }
}
