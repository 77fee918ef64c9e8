// The protobuf decoder: what a byte string means as a table of a message type.
module PbDecode {
  import opened Wrappers
  import opened Hiding
  import opened Bytes
  import opened PbVarint
  import opened PbNumbers
  import opened PbSkip
  import opened PbSlice
  import opened PbSchema
  import opened PbMessage

  type LuaTable = map<string, Val>

  /** Entry is the state of a map entry being read: its key and value, as far as they have been seen. */
  datatype Entry = Entry(key: Option<Val>, value: Option<Val>)

  ghost function ListOf(acc: LuaTable, name: string): seq<Val> {
    if name in acc && acc[name].VList? then acc[name].items else []
  }

  ghost function DictOf(acc: LuaTable, name: string): map<Val, Val> {
    if name in acc && acc[name].VDict? then acc[name].entries else map[]
  }

  // The recursive functions are Raw-; their closed names follow below.

  /** lpbD_rawfield */
  ghost function RawValue(sch: Schema, k: Kind, s: seq<byte>): (r: Decoded)
    ensures r.Ok? ==> 1 <= r.used <= |s|
    decreases |s|, 0
  {
    match k
    case ScalarK(t) => ReadScalar(t, s)
    case EnumK(e) =>
      (match VarintAt(s)
       case Fail => Err
       case Got(u, n) => Ok(EnumOf(e, u), n))
    case MessageK(id) =>
      match Chunk(s)
      case None => Err
      case Some(c) =>
        if id !in sch then Err
        else
          match RawMessage(sch, sch[id], c.0, Defaults(sch[id]))
          case None => Err
          case Some(m) => Ok(VMsg(m), c.1)
  }

  /** The enumerator named by the low 32 bits, else the number. */
  function EnumOf(e: Enum, u: nat): Val {
    if Signed32(u % P32) in e.byNumber then VName(e.byNumber[Signed32(u % P32)]) else VInt(Signed64(u % P64))
  }

  /** lpbD_field: the wire type must match. */
  ghost function RawTagged(sch: Schema, k: Kind, tag: nat, s: seq<byte>): (r: Decoded)
    ensures r.Ok? ==> 1 <= r.used <= |s|
    decreases |s|, 1
  {
    if WireOf(k) != tag % 8 then Err else RawValue(sch, k, s)
  }

  /** The loop over a packed run of values. */
  ghost function RawPacked(sch: Schema, k: Kind, s: seq<byte>): (r: Option<seq<Val>>)
    decreases |s|, 1
  {
    if s == [] then Some([])
    else
      match RawValue(sch, k, s)
      case Err => None
      case Ok(v, n) =>
        match RawPacked(sch, k, s[n..])
        case None => None
        case Some(vs) => Some([v] + vs)
  }

  /** The loop of lpbD_map over one entry; a field that is neither key nor value is not skipped over. */
  ghost function RawEntry(sch: Schema, key: Scalar, k: Kind, s: seq<byte>, e: Entry): (r: Option<Entry>)
    decreases |s|, 2
  {
    match Varint32At(s)
    case Fail => Some(e)
    case Got(tag, n) =>
      if tag / 8 == 1 then
        match RawTagged(sch, ScalarK(key), tag, s[n..])
        case Err => None
        case Ok(v, m) => RawEntry(sch, key, k, s[n + m..], Entry(Some(v), e.value))
      else if tag / 8 == 2 then
        match RawTagged(sch, k, tag, s[n..])
        case Err => None
        case Ok(v, m) => RawEntry(sch, key, k, s[n + m..], Entry(e.key, Some(v)))
      else RawEntry(sch, key, k, s[n..], e)
  }

  /** A missing key or value takes its default; without one the entry is dropped. */
  function Entered(d: map<Val, Val>, key: Scalar, k: Kind, e: Entry): map<Val, Val> {
    var x := if e.key.Some? then e.key.value else Zero(key);
    var v := if e.value.Some? then e.value else DefaultOf(k);
    if v.Some? then d[x := v.value] else d
  }

  /** One field behind its tag: the new table and the bytes taken. */
  ghost function RawField(sch: Schema, t: TypeDef, tag: nat, s: seq<byte>, acc: LuaTable): (r: Option<(LuaTable, nat)>)
    ensures r.Some? ==> r.value.1 <= |s|
    decreases |s|, 3
  {
    if tag / 8 !in t.byNumber then Some((acc, ValueSpan(s, tag)))
    else
      var f := t.byNumber[tag / 8];
      match f.shape
      case Single(_) =>
        (match RawTagged(sch, f.kind, tag, s)
         case Err => None
         case Ok(v, n) => Some((acc[f.name := v], n)))
      case Repeated(packed) =>
        if tag % 8 != BYTES || (!packed && WireOf(f.kind) == BYTES) then
          match RawTagged(sch, f.kind, tag, s)
          case Err => None
          case Ok(v, n) => Some((acc[f.name := VList(ListOf(acc, f.name) + [v])], n))
        else
          (match Chunk(s)
           case None => None
           case Some(c) =>
             match RawPacked(sch, f.kind, c.0)
             case None => None
             case Some(vs) => Some((acc[f.name := VList(ListOf(acc, f.name) + vs)], c.1)))
      case MapOf(key) =>
        match Chunk(s)
        case None => None
        case Some(c) =>
          match RawEntry(sch, key, f.kind, c.0, Entry(None, None))
          case None => None
          case Some(e) => Some((acc[f.name := VDict(Entered(DictOf(acc, f.name), key, f.kind, e))], c.1))
  }

  /** lpbD_message: fields until no tag can be read; None is a decoding error. */
  ghost function RawMessage(sch: Schema, t: TypeDef, s: seq<byte>, acc: LuaTable): (r: Option<LuaTable>)
    decreases |s|, 4
  {
    match Varint32At(s)
    case Fail => Some(acc)
    case Got(tag, n) =>
      match RawField(sch, t, tag, s[n..], acc)
      case None => None
      case Some(r) => RawMessage(sch, t, s[n + r.1..], r.0)
  }

  // ---------------------------------------------------------------------------------------------------------
  // The closed names

  ghost predicate IsValue(sch: Schema, k: Kind, s: seq<byte>, r: Decoded) {
    && (r.Ok? ==> 1 <= r.used <= |s|)
    && forall d {:trigger Opened(d)} :: Opened(d) ==> r == RawValue(sch, k, s)
  }

  ghost function ValueAt(sch: Schema, k: Kind, s: seq<byte>): (r: Decoded)
    ensures IsValue(sch, k, s, r)
  {
    assert IsValue(sch, k, s, RawValue(sch, k, s));
    var r :| IsValue(sch, k, s, r);
    r
  }

  ghost predicate IsPacked(sch: Schema, k: Kind, s: seq<byte>, r: Option<seq<Val>>) {
    forall d {:trigger Opened(d)} :: Opened(d) ==> r == RawPacked(sch, k, s)
  }

  ghost function PackedAt(sch: Schema, k: Kind, s: seq<byte>): (r: Option<seq<Val>>)
    ensures IsPacked(sch, k, s, r)
  {
    assert IsPacked(sch, k, s, RawPacked(sch, k, s));
    var r :| IsPacked(sch, k, s, r);
    r
  }

  ghost predicate IsEntry(sch: Schema, key: Scalar, k: Kind, s: seq<byte>, e: Entry, r: Option<Entry>) {
    forall d {:trigger Opened(d)} :: Opened(d) ==> r == RawEntry(sch, key, k, s, e)
  }

  ghost function EntryAt(sch: Schema, key: Scalar, k: Kind, s: seq<byte>, e: Entry): (r: Option<Entry>)
    ensures IsEntry(sch, key, k, s, e, r)
  {
    assert IsEntry(sch, key, k, s, e, RawEntry(sch, key, k, s, e));
    var r :| IsEntry(sch, key, k, s, e, r);
    r
  }

  ghost predicate IsMessage(sch: Schema, t: TypeDef, s: seq<byte>, acc: LuaTable, r: Option<LuaTable>) {
    forall d {:trigger Opened(d)} :: Opened(d) ==> r == RawMessage(sch, t, s, acc)
  }

  ghost function MessageAt(sch: Schema, t: TypeDef, s: seq<byte>, acc: LuaTable): (r: Option<LuaTable>)
    ensures IsMessage(sch, t, s, acc, r)
  {
    assert IsMessage(sch, t, s, acc, RawMessage(sch, t, s, acc));
    var r :| IsMessage(sch, t, s, acc, r);
    r
  }

  ghost function TaggedAt(sch: Schema, k: Kind, tag: nat, s: seq<byte>): (r: Decoded)
    ensures r.Ok? ==> 1 <= r.used <= |s|
  {
    if WireOf(k) != tag % 8 then Err else ValueAt(sch, k, s)
  }

  ghost function Within(d: Decoded, acc: LuaTable, name: string, before: seq<Val>): Option<(LuaTable, nat)> {
    match d
    case Err => None
    case Ok(v, n) => Some((acc[name := VList(before + [v])], n))
  }

  /** RawField by field shape, over the closed names. */
  ghost function FieldAt(sch: Schema, f: FieldDef, tag: nat, s: seq<byte>, acc: LuaTable): Option<(LuaTable, nat)> {
    match f.shape
    case Single(_) =>
      (match TaggedAt(sch, f.kind, tag, s)
       case Err => None
       case Ok(v, n) => Some((acc[f.name := v], n)))
    case Repeated(packed) =>
      if tag % 8 != BYTES || (!packed && WireOf(f.kind) == BYTES) then
        Within(TaggedAt(sch, f.kind, tag, s), acc, f.name, ListOf(acc, f.name))
      else
        (match Chunk(s)
         case None => None
         case Some(c) =>
           match PackedAt(sch, f.kind, c.0)
           case None => None
           case Some(vs) => Some((acc[f.name := VList(ListOf(acc, f.name) + vs)], c.1)))
    case MapOf(key) =>
      match Chunk(s)
      case None => None
      case Some(c) =>
        match EntryAt(sch, key, f.kind, c.0, Entry(None, None))
        case None => None
        case Some(e) => Some((acc[f.name := VDict(Entered(DictOf(acc, f.name), key, f.kind, e))], c.1))
  }

  lemma FieldIsRaw(sch: Schema, t: TypeDef, tag: nat, s: seq<byte>, acc: LuaTable)
    requires tag / 8 in t.byNumber
    ensures FieldAt(sch, t.byNumber[tag / 8], tag, s, acc) == RawField(sch, t, tag, s, acc)
  {
    assert Opened(true);
  }

  lemma MessageIsRaw(sch: Schema, t: TypeDef, s: seq<byte>, acc: LuaTable)
    ensures MessageAt(sch, t, s, acc) == RawMessage(sch, t, s, acc)
  {
    assert Opened(true);
  }

  lemma EntryIsRaw(sch: Schema, key: Scalar, k: Kind, s: seq<byte>, e: Entry)
    ensures EntryAt(sch, key, k, s, e) == RawEntry(sch, key, k, s, e)
  {
    assert Opened(true);
  }

  lemma TaggedIsRaw(sch: Schema, k: Kind, tag: nat, s: seq<byte>)
    ensures TaggedAt(sch, k, tag, s) == RawTagged(sch, k, tag, s)
  {
    assert Opened(true);
  }

  lemma MessageEnd(sch: Schema, t: TypeDef, s: seq<byte>, acc: LuaTable)
    requires Varint32At(s).Fail?
    ensures MessageAt(sch, t, s, acc) == Some(acc)
  {
    MessageIsRaw(sch, t, s, acc);
  }

  /** One round of the message loop: an unknown field is skipped. */
  lemma MessageSkip(sch: Schema, t: TypeDef, s: seq<byte>, acc: LuaTable)
    requires Varint32At(s).Got? && Varint32At(s).value / 8 !in t.byNumber
    ensures var n := Varint32At(s).used;
            var k := n + ValueSpan(s[n..], Varint32At(s).value);
            k <= |s| && MessageAt(sch, t, s, acc) == MessageAt(sch, t, s[k..], acc)
  {
    var n := Varint32At(s).used;
    MessageIsRaw(sch, t, s, acc);
    MessageIsRaw(sch, t, s[n + ValueSpan(s[n..], Varint32At(s).value)..], acc);
  }

  /** One round of the message loop: a known field. */
  lemma MessageStep(sch: Schema, t: TypeDef, s: seq<byte>, acc: LuaTable)
    requires Varint32At(s).Got? && Varint32At(s).value / 8 in t.byNumber
    ensures var tag, n := Varint32At(s).value, Varint32At(s).used;
            var r := FieldAt(sch, t.byNumber[tag / 8], tag, s[n..], acc);
            && (r.None? ==> MessageAt(sch, t, s, acc) == None)
            && (r.Some? ==> n + r.value.1 <= |s|
                            && MessageAt(sch, t, s, acc) == MessageAt(sch, t, s[n + r.value.1..], r.value.0))
  {
    var tag, n := Varint32At(s).value, Varint32At(s).used;
    FieldIsRaw(sch, t, tag, s[n..], acc);
    MessageIsRaw(sch, t, s, acc);
    var r := RawField(sch, t, tag, s[n..], acc);
    if r.Some? {
      MessageIsRaw(sch, t, s[n + r.value.1..], r.value.0);
    }
  }

  lemma ScalarStep(sch: Schema, k: Kind, s: seq<byte>)
    ensures k.ScalarK? ==> ValueAt(sch, k, s) == ReadScalar(k.t, s)
    ensures k.EnumK? && VarintAt(s).Fail? ==> ValueAt(sch, k, s) == Err
    ensures k.EnumK? && VarintAt(s).Got? ==> ValueAt(sch, k, s) == Ok(EnumOf(k.e, VarintAt(s).value), VarintAt(s).used)
    ensures k.MessageK? && (Chunk(s).None? || k.id !in sch) ==> ValueAt(sch, k, s) == Err
    ensures k.MessageK? && Chunk(s).Some? && k.id in sch ==>
              var c := Chunk(s).value;
              var m := MessageAt(sch, sch[k.id], c.0, Defaults(sch[k.id]));
              ValueAt(sch, k, s) == if m.None? then Err else Ok(VMsg(m.value), c.1)
  {
    assert Opened(true);
  }

  lemma PackedStep(sch: Schema, k: Kind, s: seq<byte>)
    ensures s == [] ==> PackedAt(sch, k, s) == Some([])
    ensures s != [] && ValueAt(sch, k, s).Err? ==> PackedAt(sch, k, s) == None
    ensures s != [] && ValueAt(sch, k, s).Ok? ==>
              var d := ValueAt(sch, k, s);
              var r := PackedAt(sch, k, s[d.used..]);
              PackedAt(sch, k, s) == if r.None? then None else Some([d.v] + r.value)
  {
    assert Opened(true);
  }

  lemma EntryEnd(sch: Schema, key: Scalar, k: Kind, s: seq<byte>, e: Entry)
    requires Varint32At(s).Fail?
    ensures EntryAt(sch, key, k, s, e) == Some(e)
  {
    EntryIsRaw(sch, key, k, s, e);
  }

  lemma EntryOther(sch: Schema, key: Scalar, k: Kind, s: seq<byte>, e: Entry)
    requires Varint32At(s).Got? && Varint32At(s).value / 8 != 1 && Varint32At(s).value / 8 != 2
    ensures EntryAt(sch, key, k, s, e) == EntryAt(sch, key, k, s[Varint32At(s).used..], e)
  {
    EntryIsRaw(sch, key, k, s, e);
    EntryIsRaw(sch, key, k, s[Varint32At(s).used..], e);
  }

  lemma EntryKey(sch: Schema, key: Scalar, k: Kind, s: seq<byte>, e: Entry)
    requires Varint32At(s).Got? && Varint32At(s).value / 8 == 1
    ensures var n := Varint32At(s).used;
            var d := TaggedAt(sch, ScalarK(key), Varint32At(s).value, s[n..]);
            && (d.Err? ==> EntryAt(sch, key, k, s, e) == None)
            && (d.Ok? ==> EntryAt(sch, key, k, s, e) == EntryAt(sch, key, k, s[n + d.used..], Entry(Some(d.v), e.value)))
  {
    var tag, n := Varint32At(s).value, Varint32At(s).used;
    EntryIsRaw(sch, key, k, s, e);
    TaggedIsRaw(sch, ScalarK(key), tag, s[n..]);
    var d := RawTagged(sch, ScalarK(key), tag, s[n..]);
    if d.Ok? {
      EntryIsRaw(sch, key, k, s[n + d.used..], Entry(Some(d.v), e.value));
    }
  }

  lemma EntryValue(sch: Schema, key: Scalar, k: Kind, s: seq<byte>, e: Entry)
    requires Varint32At(s).Got? && Varint32At(s).value / 8 == 2
    ensures var n := Varint32At(s).used;
            var d := TaggedAt(sch, k, Varint32At(s).value, s[n..]);
            && (d.Err? ==> EntryAt(sch, key, k, s, e) == None)
            && (d.Ok? ==> EntryAt(sch, key, k, s, e) == EntryAt(sch, key, k, s[n + d.used..], Entry(e.key, Some(d.v))))
  {
    var tag, n := Varint32At(s).value, Varint32At(s).used;
    EntryIsRaw(sch, key, k, s, e);
    TaggedIsRaw(sch, k, tag, s[n..]);
    var d := RawTagged(sch, k, tag, s[n..]);
    if d.Ok? {
      EntryIsRaw(sch, key, k, s[n + d.used..], Entry(e.key, Some(d.v)));
    }
  }
}
