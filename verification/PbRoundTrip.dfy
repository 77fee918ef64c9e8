module PbRoundTrip {
  // Decoding the encoding of a message gives the message completed with its defaults.

  import opened Wrappers
  import opened Bytes
  import opened PbVarint
  import opened PbNumbers
  import opened PbSkip
  import opened PbSlice
  import opened PbSchema
  import opened PbMessage
  import opened PbDecode

  lemma TagRead(number: nat, wire: nat, rest: seq<byte>)
    requires number < 0x2000_0000 && wire < 8
    ensures var tag := Tag(number, wire); var s := Varint(tag) + rest;
            && Varint32At(s) == Got(tag, |Varint(tag)|) && s[|Varint(tag)|..] == rest && s != []
  {
    ReadWritten(Tag(number, wire), rest);
  }

  lemma EnumRead(e: Enum, v: Val, rest: seq<byte>)
    requires EnumOk(e) && EnumFits(e, v)
    ensures var n := EnumNumber(e, v);
            && VarintAt(EnumBytes(e, v) + rest) == Got(n % P32, |EnumBytes(e, v)|)
            && EnumOf(e, n % P32) == EnumVal(e, n)
  {
    var n := EnumNumber(e, v);
    assert Int32(n);
    Back(n);
    ReadWritten(n % P32, rest);
  }

  /** A value reads back, whatever follows it. */
  lemma {:induction false} RawRoundTrip(sch: Schema, k: Kind, v: Value, rest: seq<byte>)
    requires SchemaOk(sch) && KindOk(sch, k) && FitsRaw(sch, k, v) && |RawBytes(sch, k, v)| <= MAX_SIZET
    ensures ValueAt(sch, k, RawBytes(sch, k, v) + rest) == Ok(RawVal(sch, k, v), |RawBytes(sch, k, v)|)
    ensures |RawBytes(sch, k, v)| > 0
    decreases v, 0
  {
    ScalarStep(sch, k, RawBytes(sch, k, v) + rest);
    match k
    case ScalarK(t) => ScalarRoundTrip(t, v.v, rest);
    case EnumK(e) => EnumRead(e, v.v, rest);
    case MessageK(id) =>
      var body := MessageBytes(sch, sch[id], v.fields);
      ChunkOfWritten(body, rest);
      CleanDefaults(sch, sch[id], v.fields);
      FieldsRoundTrip(sch, sch[id], v.fields, Defaults(sch[id]));
  }

  lemma TaggedRoundTrip(sch: Schema, number: nat, k: Kind, v: Value, rest: seq<byte>)
    requires FitsRaw(sch, k, v) && number < 0x2000_0000
    requires ValueAt(sch, k, RawBytes(sch, k, v) + rest) == Ok(RawVal(sch, k, v), |RawBytes(sch, k, v)|)
    ensures var tag := Tag(number, WireOf(k)); var bytes := TaggedBytes(sch, number, k, v, false);
            && Varint32At(bytes + rest) == Got(tag, |Varint(tag)|)
            && TaggedAt(sch, k, tag, (bytes + rest)[|Varint(tag)|..]) == Ok(RawVal(sch, k, v), |RawBytes(sch, k, v)|)
            && (bytes + rest)[|Varint(tag)| + |RawBytes(sch, k, v)|..] == rest
            && |bytes| == |Varint(tag)| + |RawBytes(sch, k, v)|
  {
    var tag, raw := Tag(number, WireOf(k)), RawBytes(sch, k, v);
    TagRead(number, WireOf(k), raw + rest);
    assert Varint(tag) + raw + rest == Varint(tag) + (raw + rest);
    assert (Varint(tag) + (raw + rest))[|Varint(tag)| + |raw|..] == rest;
  }

  /** Fields still to come find nothing of their own in the table but a default. */
  ghost predicate Clean(sch: Schema, t: TypeDef, fields: Fields, acc: LuaTable)
    requires FitsMessage(sch, t, fields)
    decreases fields
  {
    match fields
    case NoFields => true
    case Fields(name, value, rest) =>
      && Clean(sch, t, rest, acc)
      && (name in t.byName ==> CleanAt(t.proto3, t.byName[name], acc))
  }

  ghost predicate CleanAt(proto3: bool, f: FieldDef, acc: LuaTable) {
    match f.shape
    case Single(oneof) => proto3 && !oneof && f.kind.ScalarK? ==> f.name in acc && acc[f.name] == Zero(f.kind.t)
    case Repeated(_) => ListOf(acc, f.name) == [] && (f.name in acc ==> acc[f.name].VList?)
    case MapOf(_) => DictOf(acc, f.name) == map[] && (f.name in acc ==> acc[f.name].VDict?)
  }

  lemma {:induction false} CleanDefaults(sch: Schema, t: TypeDef, fields: Fields)
    requires TypeOk(sch, t) && FitsMessage(sch, t, fields)
    ensures Clean(sch, t, fields, Defaults(t))
  {
    match fields
    case NoFields =>
    case Fields(name, value, rest) => CleanDefaults(sch, t, rest);
  }

  /** Setting one field leaves the others clean. */
  lemma {:induction false} CleanOthers(sch: Schema, t: TypeDef, fields: Fields, acc: LuaTable, name: string, v: Val)
    requires TypeOk(sch, t) && FitsMessage(sch, t, fields) && Clean(sch, t, fields, acc) && name !in Names(fields)
    ensures Clean(sch, t, fields, acc[name := v])
  {
    match fields
    case NoFields =>
    case Fields(n, value, rest) => CleanOthers(sch, t, rest, acc, name, v);
  }

  lemma MessageNone(sch: Schema, t: TypeDef, acc: LuaTable)
    ensures MessageAt(sch, t, [], acc) == Some(acc)
  {
    SeenNothing([]);
    MessageEnd(sch, t, [], acc);
  }

  lemma EntryNone(sch: Schema, key: Scalar, k: Kind, e: Entry)
    ensures EntryAt(sch, key, k, [], e) == Some(e)
  {
    SeenNothing([]);
    EntryEnd(sch, key, k, [], e);
  }

  /** All fields of a message, over any table that is clean for them. */
  lemma {:induction false} FieldsRoundTrip(sch: Schema, t: TypeDef, fields: Fields, acc: LuaTable)
    requires SchemaOk(sch) && TypeOk(sch, t) && FitsMessage(sch, t, fields) && Clean(sch, t, fields, acc)
    requires |MessageBytes(sch, t, fields)| <= MAX_SIZET
    ensures MessageAt(sch, t, MessageBytes(sch, t, fields), acc) == Some(Filled(sch, t, fields, acc))
    decreases fields, 4
  {
    match fields
    case NoFields => MessageNone(sch, t, acc);
    case Fields(name, value, rest) =>
      var more := MessageBytes(sch, t, rest);
      if name in t.byName {
        var f := t.byName[name];
        FieldRoundTrip(sch, t, f, value, more, acc);
        var given := FieldVal(sch, f, value);
        if given.Some? {
          CleanOthers(sch, t, rest, acc, name, given.value);
        }
        FieldsRoundTrip(sch, t, rest, Assign(acc, name, given));
      } else {
        assert [] + more == more;
        FieldsRoundTrip(sch, t, rest, acc);
      }
  }

  /** One field: reading its bytes leaves the table with its value. */
  lemma {:induction false} FieldRoundTrip(sch: Schema, t: TypeDef, f: FieldDef, v: Value, more: seq<byte>, acc: LuaTable)
    requires SchemaOk(sch) && TypeOk(sch, t) && f.name in t.byName && t.byName[f.name] == f && FitsField(sch, f, v)
    requires CleanAt(t.proto3, f, acc) && |FieldBytes(sch, t.proto3, f, v)| <= MAX_SIZET
    ensures MessageAt(sch, t, FieldBytes(sch, t.proto3, f, v) + more, acc)
            == MessageAt(sch, t, more, Assign(acc, f.name, FieldVal(sch, f, v)))
    decreases v, 3
  {
    match f.shape
    case Single(oneof) =>
      if t.proto3 && !oneof && Ignorable(f.kind, v) {
        assert [] + more == more;
        assert acc[f.name := acc[f.name]] == acc;
      } else {
        RawRoundTrip(sch, f.kind, v, more);
        SingleStep(sch, t, f, v, more, acc);
      }
    case Repeated(packed) =>
      if packed {
        PackedField(sch, t, f, v.items, more, acc);
      } else {
        ItemsRoundTrip(sch, t, f, v.items, more, acc);
      }
      NothingBefore(ItemVals(sch, f.kind, v.items), map[]);
    case MapOf(key) =>
      EntriesRoundTrip(sch, t, f, key, v.entries, more, acc);
      NothingBefore([], EntryVals(sch, key, f.kind, v.entries));
  }

  lemma NothingBefore(vs: seq<Val>, d: map<Val, Val>)
    ensures [] + vs == vs && map[] + d == d
  {
  }

  lemma SingleStep(sch: Schema, t: TypeDef, f: FieldDef, v: Value, more: seq<byte>, acc: LuaTable)
    requires TypeOk(sch, t) && f.name in t.byName && t.byName[f.name] == f && f.shape.Single? && FitsRaw(sch, f.kind, v)
    requires ValueAt(sch, f.kind, RawBytes(sch, f.kind, v) + more) == Ok(RawVal(sch, f.kind, v), |RawBytes(sch, f.kind, v)|)
    ensures MessageAt(sch, t, TaggedBytes(sch, f.number, f.kind, v, false) + more, acc)
            == MessageAt(sch, t, more, acc[f.name := RawVal(sch, f.kind, v)])
  {
    TaggedRoundTrip(sch, f.number, f.kind, v, more);
    MessageStep(sch, t, TaggedBytes(sch, f.number, f.kind, v, false) + more, acc);
  }

  lemma ItemStep(sch: Schema, t: TypeDef, f: FieldDef, v: Value, more: seq<byte>, acc: LuaTable)
    requires TypeOk(sch, t) && f.name in t.byName && t.byName[f.name] == f && f.shape == Repeated(false)
    requires FitsRaw(sch, f.kind, v)
    requires ValueAt(sch, f.kind, RawBytes(sch, f.kind, v) + more) == Ok(RawVal(sch, f.kind, v), |RawBytes(sch, f.kind, v)|)
    ensures MessageAt(sch, t, TaggedBytes(sch, f.number, f.kind, v, false) + more, acc)
            == MessageAt(sch, t, more, acc[f.name := VList(ListOf(acc, f.name) + [RawVal(sch, f.kind, v)])])
  {
    TaggedRoundTrip(sch, f.number, f.kind, v, more);
    MessageStep(sch, t, TaggedBytes(sch, f.number, f.kind, v, false) + more, acc);
  }

  /** Unpacked items are appended one by one. */
  lemma {:induction false} ItemsRoundTrip(sch: Schema, t: TypeDef, f: FieldDef, items: Items, more: seq<byte>, acc: LuaTable)
    requires SchemaOk(sch) && TypeOk(sch, t) && f.name in t.byName && t.byName[f.name] == f && f.shape == Repeated(false)
    requires FitsItems(sch, f.kind, items) && |ItemBytes(sch, f, items)| <= MAX_SIZET
    ensures MessageAt(sch, t, ItemBytes(sch, f, items) + more, acc)
            == MessageAt(sch, t, more, if items.NoItems? then acc
                                       else acc[f.name := VList(ListOf(acc, f.name) + ItemVals(sch, f.kind, items))])
    decreases items, 2
  {
    match items
    case NoItems => assert [] + more == more;
    case Items(head, tail) =>
      var rest := ItemBytes(sch, f, tail) + more;
      var v := RawVal(sch, f.kind, head);
      RawRoundTrip(sch, f.kind, head, rest);
      ItemStep(sch, t, f, head, rest, acc);
      var acc' := acc[f.name := VList(ListOf(acc, f.name) + [v])];
      ItemsRoundTrip(sch, t, f, tail, more, acc');
      assert ItemBytes(sch, f, items) + more == TaggedBytes(sch, f.number, f.kind, head, false) + rest;
      Appended(acc, f.name, v, ItemVals(sch, f.kind, tail));
      if tail.NoItems? {
        assert [v] + [] == [v];
      }
  }

  lemma Appended(acc: LuaTable, name: string, v: Val, vs: seq<Val>)
    ensures var acc' := acc[name := VList(ListOf(acc, name) + [v])];
            acc'[name := VList(ListOf(acc', name) + vs)] == acc[name := VList(ListOf(acc, name) + ([v] + vs))]
  {
    assert ListOf(acc, name) + [v] + vs == ListOf(acc, name) + ([v] + vs);
  }

  lemma {:induction false} PackedRoundTrip(sch: Schema, k: Kind, items: Items)
    requires SchemaOk(sch) && KindOk(sch, k) && FitsItems(sch, k, items) && |PackedBytes(sch, k, items)| <= MAX_SIZET
    ensures PackedAt(sch, k, PackedBytes(sch, k, items)) == Some(ItemVals(sch, k, items))
    decreases items, 2
  {
    var s := PackedBytes(sch, k, items);
    PackedStep(sch, k, s);
    match items
    case NoItems =>
    case Items(head, tail) =>
      var rest := PackedBytes(sch, k, tail);
      RawRoundTrip(sch, k, head, rest);
      PackedRoundTrip(sch, k, tail);
      assert s[|RawBytes(sch, k, head)|..] == rest;
  }

  lemma {:induction false} PackedField(sch: Schema, t: TypeDef, f: FieldDef, items: Items, more: seq<byte>, acc: LuaTable)
    requires SchemaOk(sch) && TypeOk(sch, t) && f.name in t.byName && t.byName[f.name] == f && f.shape == Repeated(true)
    requires FitsItems(sch, f.kind, items) && |PackedBytes(sch, f.kind, items)| <= MAX_SIZET
    ensures var body := PackedBytes(sch, f.kind, items);
            MessageAt(sch, t, Varint(Tag(f.number, BYTES)) + (Varint(|body|) + body) + more, acc)
            == MessageAt(sch, t, more, acc[f.name := VList(ListOf(acc, f.name) + ItemVals(sch, f.kind, items))])
    decreases items, 3
  {
    var body := PackedBytes(sch, f.kind, items);
    PackedRoundTrip(sch, f.kind, items);
    ChunkField(f.number, body, more);
    MessageStep(sch, t, Varint(Tag(f.number, BYTES)) + (Varint(|body|) + body) + more, acc);
  }

  /** A tagged run of length-prefixed bytes. */
  lemma ChunkField(number: nat, body: seq<byte>, more: seq<byte>)
    requires number < 0x2000_0000 && |body| <= MAX_SIZET
    ensures var tag := Tag(number, BYTES); var s := Varint(tag) + (Varint(|body|) + body) + more;
            && Varint32At(s) == Got(tag, |Varint(tag)|)
            && Chunk(s[|Varint(tag)|..]) == Some((body, |Varint(|body|)| + |body|))
            && s[|Varint(tag)| + (|Varint(|body|)| + |body|)..] == more
  {
    var tag, chunk := Tag(number, BYTES), Varint(|body|) + body;
    TagRead(number, BYTES, chunk + more);
    ChunkOfWritten(body, more);
    assert Varint(tag) + chunk + more == Varint(tag) + (chunk + more);
    assert (Varint(tag) + (chunk + more))[|Varint(tag)| + |chunk|..] == more;
  }

  /** One map entry, read into key and value. */
  lemma {:induction false} EntryRead(sch: Schema, key: Scalar, k: Kind, x: Val, v: Value)
    requires SchemaOk(sch) && KindOk(sch, k) && InRange(key, x) && FitsRaw(sch, k, v)
    requires |EntryBytes(sch, key, k, x, v)| <= MAX_SIZET
    ensures EntryAt(sch, key, k, EntryBytes(sch, key, k, x, v), Entry(None, None))
            == Some(Entry(if x == Zero(key) then None else Some(x),
                          if Ignorable(k, v) then None else Some(RawVal(sch, k, v))))
    decreases v, 2
  {
    var value := TaggedBytes(sch, 2, k, v, true);
    var none: Entry := Entry(None, None);
    var seen := if x == Zero(key) then none else Entry(Some(x), None);
    KeyStep(sch, key, k, x, value);
    if Ignorable(k, v) {
      EntryNone(sch, key, k, seen);
    } else {
      RawRoundTrip(sch, k, v, []);
      ValueStep(sch, key, k, v, seen);
    }
  }

  /** A zero left out is its default again. */
  lemma EntryMeans(sch: Schema, key: Scalar, k: Kind, x: Val, v: Value, d: map<Val, Val>)
    requires InRange(key, x) && FitsRaw(sch, k, v)
    ensures Entered(d, key, k, Entry(if x == Zero(key) then None else Some(x),
                                     if Ignorable(k, v) then None else Some(RawVal(sch, k, v))))
            == d[x := RawVal(sch, k, v)]
  {
  }

  lemma KeyStep(sch: Schema, key: Scalar, k: Kind, x: Val, value: seq<byte>)
    requires InRange(key, x)
    ensures EntryAt(sch, key, k, KeyBytes(key, x) + value, Entry(None, None))
            == EntryAt(sch, key, k, value, if x == Zero(key) then Entry(None, None) else Entry(Some(x), None))
  {
    if x == Zero(key) {
      assert [] + value == value;
    } else {
      var tag, raw := Tag(1, ScalarWire(key)), ScalarBytes(key, x);
      TagRead(1, ScalarWire(key), raw + value);
      ScalarRoundTrip(key, x, value);
      var s := Varint(tag) + raw + value;
      assert s == Varint(tag) + (raw + value);
      assert s[|Varint(tag)| + |raw|..] == value;
      ScalarStep(sch, ScalarK(key), raw + value);
      EntryKey(sch, key, k, s, Entry(None, None));
    }
  }

  lemma ValueStep(sch: Schema, key: Scalar, k: Kind, v: Value, e: Entry)
    requires FitsRaw(sch, k, v)
    requires ValueAt(sch, k, RawBytes(sch, k, v) + []) == Ok(RawVal(sch, k, v), |RawBytes(sch, k, v)|)
    ensures EntryAt(sch, key, k, TaggedBytes(sch, 2, k, v, false), e) == Some(Entry(e.key, Some(RawVal(sch, k, v))))
  {
    var s := TaggedBytes(sch, 2, k, v, false);
    TaggedRoundTrip(sch, 2, k, v, []);
    assert s + [] == s;
    EntryValue(sch, key, k, s, e);
    EntryNone(sch, key, k, Entry(e.key, Some(RawVal(sch, k, v))));
  }

  /** All entries of a map field, in any order. */
  lemma {:induction false} EntriesRoundTrip(
      sch: Schema, t: TypeDef, f: FieldDef, key: Scalar, entries: Entries, more: seq<byte>, acc: LuaTable)
    requires SchemaOk(sch) && TypeOk(sch, t) && f.name in t.byName && t.byName[f.name] == f && f.shape == MapOf(key)
    requires FitsEntries(sch, key, f.kind, entries) && |EntriesBytes(sch, f.number, key, f.kind, entries)| <= MAX_SIZET
    ensures MessageAt(sch, t, EntriesBytes(sch, f.number, key, f.kind, entries) + more, acc)
            == MessageAt(sch, t, more, if entries.NoEntries? then acc
                         else acc[f.name := VDict(DictOf(acc, f.name) + EntryVals(sch, key, f.kind, entries))])
    decreases entries, 2
  {
    match entries
    case NoEntries => assert [] + more == more;
    case Entries(x, value, rest) =>
      var body := EntryBytes(sch, key, f.kind, x, value);
      var tail := EntriesBytes(sch, f.number, key, f.kind, rest) + more;
      var d, v := DictOf(acc, f.name), RawVal(sch, f.kind, value);
      var acc' := acc[f.name := VDict(d[x := v])];
      EntryRead(sch, key, f.kind, x, value);
      EntryStep(sch, t, f, key, x, value, tail, acc);
      EntriesRoundTrip(sch, t, f, key, rest, more, acc');
      assert Varint(Tag(f.number, BYTES)) + (Varint(|body|) + body) + EntriesBytes(sch, f.number, key, f.kind, rest) + more
             == Varint(Tag(f.number, BYTES)) + (Varint(|body|) + body) + tail;
      EntryValsKeys(sch, key, f.kind, rest);
      Merged(acc, f.name, d, x, v, EntryVals(sch, key, f.kind, rest));
  }

  lemma EntryStep(sch: Schema, t: TypeDef, f: FieldDef, key: Scalar, x: Val, v: Value, tail: seq<byte>, acc: LuaTable)
    requires TypeOk(sch, t) && f.name in t.byName && t.byName[f.name] == f && f.shape == MapOf(key)
    requires InRange(key, x) && FitsRaw(sch, f.kind, v) && |EntryBytes(sch, key, f.kind, x, v)| <= MAX_SIZET
    requires EntryAt(sch, key, f.kind, EntryBytes(sch, key, f.kind, x, v), Entry(None, None))
             == Some(Entry(if x == Zero(key) then None else Some(x),
                           if Ignorable(f.kind, v) then None else Some(RawVal(sch, f.kind, v))))
    ensures var body := EntryBytes(sch, key, f.kind, x, v);
            MessageAt(sch, t, Varint(Tag(f.number, BYTES)) + (Varint(|body|) + body) + tail, acc)
            == MessageAt(sch, t, tail, acc[f.name := VDict(DictOf(acc, f.name)[x := RawVal(sch, f.kind, v)])])
  {
    var body := EntryBytes(sch, key, f.kind, x, v);
    EntryMeans(sch, key, f.kind, x, v, DictOf(acc, f.name));
    ChunkField(f.number, body, tail);
    MessageStep(sch, t, Varint(Tag(f.number, BYTES)) + (Varint(|body|) + body) + tail, acc);
  }

  lemma {:induction false} EntryValsKeys(sch: Schema, key: Scalar, k: Kind, entries: Entries)
    requires FitsEntries(sch, key, k, entries)
    ensures EntryVals(sch, key, k, entries).Keys == Keys(entries)
  {
    match entries
    case NoEntries =>
    case Entries(_, _, rest) => EntryValsKeys(sch, key, k, rest);
  }

  lemma Merged(acc: LuaTable, name: string, d: map<Val, Val>, x: Val, v: Val, rest: map<Val, Val>)
    requires x !in rest
    ensures var acc' := acc[name := VDict(d[x := v])];
            && acc'[name := VDict(DictOf(acc', name) + rest)] == acc[name := VDict(d + rest[x := v])]
            && (rest == map[] ==> acc' == acc[name := VDict(d + rest[x := v])])
  {
    var w := VDict(d + rest[x := v]);
    assert d[x := v] + rest == d + rest[x := v];
    assert acc[name := VDict(d[x := v])][name := w] == acc[name := w];
    if rest == map[] {
      assert d[x := v] + rest == d[x := v];
    }
  }

  /**
   * For every schema, every value a message type allows and every iteration order of its fields and entries: decoding
   * the encoded bytes gives the message completed with its defaults. The encoding must fit the decoder's size limit.
   */
  lemma DecodeEncode(sch: Schema, id: nat, fields: Fields)
    requires SchemaOk(sch) && id in sch && FitsMessage(sch, sch[id], fields)
    requires |MessageBytes(sch, sch[id], fields)| <= MAX_SIZET
    ensures MessageAt(sch, sch[id], MessageBytes(sch, sch[id], fields), Defaults(sch[id]))
            == Some(Complete(sch, sch[id], fields))
  {
    CleanDefaults(sch, sch[id], fields);
    FieldsRoundTrip(sch, sch[id], fields, Defaults(sch[id]));
  }

  // ---------------------------------------------------------------------------------------------------------
  // What a default is

  /** The fields a new table begins with: those of a proto3 type that are repeated or maps, or scalars outside a oneof. */
  predicate BeginsSet(t: TypeDef, n: string) {
    t.proto3 && n in t.byName
    && (t.byName[n].shape.Repeated? || t.byName[n].shape.MapOf?
        || (t.byName[n].shape == Single(false) && !t.byName[n].kind.MessageK?))
  }

  /** An empty list, an empty dictionary, false, 0, the empty string, or the enumerator of 0 by its name if it has one. */
  predicate BeginsAs(f: FieldDef, v: Val) {
    if f.shape.Repeated? then v == VList([])
    else if f.shape.MapOf? then v == VDict(map[])
    else if f.kind.EnumK? then v == if 0 in f.kind.e.byNumber then VName(f.kind.e.byNumber[0]) else VInt(0)
    else if f.kind.MessageK? then false
    else if f.kind.t.BoolT? then v == VBool(false)
    else if f.kind.t.BytesT? then v == VBytes([])
    else v == VInt(0)
  }

  /** A table begins with exactly these fields, and decoding nothing leaves it so. */
  lemma DefaultsExactly(sch: Schema, t: TypeDef, n: string)
    ensures n in Defaults(t) <==> BeginsSet(t, n)
    ensures n in Defaults(t) ==> BeginsAs(t.byName[n], Defaults(t)[n])
    ensures MessageAt(sch, t, [], Defaults(t)) == Some(Defaults(t))
  {
    MessageNone(sch, t, Defaults(t));
  }

  /** Every field of a decoded message that was not given is there exactly if the type begins with it, and as it does. */
  lemma NotGiven(sch: Schema, id: nat, fields: Fields, n: string)
    requires SchemaOk(sch) && id in sch && FitsMessage(sch, sch[id], fields) && n !in Names(fields)
    requires |MessageBytes(sch, sch[id], fields)| <= MAX_SIZET
    ensures var r := MessageAt(sch, sch[id], MessageBytes(sch, sch[id], fields), Defaults(sch[id]));
            r.Some? && (n in r.value <==> BeginsSet(sch[id], n))
            && (n in r.value ==> BeginsAs(sch[id].byName[n], r.value[n]))
  {
    DecodeEncode(sch, id, fields);
    DefaultsExactly(sch, sch[id], n);
    LookupNamed(fields, n);
    FilledAt(sch, sch[id], fields, Defaults(sch[id]), n);
  }

  /** A given enum value is shown by the name of its number, if there is one. */
  lemma EnumShown(sch: Schema, e: Enum, v: Val, rest: seq<byte>)
    requires SchemaOk(sch) && FitsRaw(sch, EnumK(e), Leaf(v)) && |RawBytes(sch, EnumK(e), Leaf(v))| <= MAX_SIZET
    ensures var number := if v.VName? then e.byName[v.name] else v.i;
            var r := ValueAt(sch, EnumK(e), RawBytes(sch, EnumK(e), Leaf(v)) + rest);
            r.Ok? && r.v == if number in e.byNumber then VName(e.byNumber[number]) else VInt(number)
  {
    RawRoundTrip(sch, EnumK(e), Leaf(v), rest);
  }
}
