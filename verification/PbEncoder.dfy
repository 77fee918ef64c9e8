// The encoder as it runs: it appends to a buffer, inserts lengths behind what it wrote, and takes ignored zeros back.
module PbEncoder {
  import opened Sequences
  import opened Bytes
  import opened PbVarint
  import opened PbNumbers
  import opened PbBuffer
  import opened PbSkip
  import opened PbSchema
  import opened PbMessage

  class Encoder {
    const sch: Schema
    var b: seq<byte>

    constructor (sch: Schema)
      ensures this.sch == sch && b == []
    {
      this.sch, b := sch, [];
    }

    /** The tag of a field in front of its value. */
    method AddTag(number: nat, wire: nat) returns (len: nat)
      requires wire < 8 && number < FIELD_LIMIT
      modifies this
      ensures b == old(b) + Varint(Tag(number, wire)) && len == |Varint(Tag(number, wire))|
    {
      TagFits(number, wire);
      len := AddVarint32(Tag(number, wire));
    }

    /** lpbE_enum: a number as it is, a name by its number. */
    method EncodeEnum(e: Enum, v: Val)
      requires EnumOk(e) && EnumFits(e, v)
      modifies this
      ensures b == old(b) + EnumBytes(e, v)
    {
      if v.VInt? {
        var n := AddVarint64(v.i);
      } else {
        var n := AddVarint32(e.byName[v.name] % P32);
      }
    }

    /** pb_addlength: insert, in front of everything from offset len on, the length of that part. */
    method AddLength(len: nat)
      requires len <= |b|
      modifies this
      ensures b == old(b[..len] + Varint(|b| - len) + b[len..])
    {
      b := b[..len] + Varint(|b| - len) + b[len..];
    }

    /** pb_addvarint32 */
    method AddVarint32(n: nat) returns (len: nat)
      requires n < U32
      modifies this
      ensures b == old(b) + Varint(n) && len == |Varint(n)|
    {
      var buff := Write32(n);
      b := b + buff;
      return |buff|;
    }

    /** pb_addvarint64 */
    method AddVarint64(n: nat) returns (len: nat)
      requires n < U64
      modifies this
      ensures b == old(b) + Varint(n) && len == |Varint(n)|
    {
      var buff := Write64(n);
      b := b + buff;
      return |buff|;
    }

    /** pb_addfixed32 and pb_addfixed64 */
    method AddFixed(n: nat, k: nat) returns (len: nat)
      modifies this
      ensures b == old(b) + LittleEndian(n, k) && len == k
    {
      var ch := FixedBytes(n, k);
      b := b + ch;
      return k;
    }

    /** pb_addbytes */
    method AddBytes(s: seq<byte>) returns (len: nat)
      requires |s| < U32
      modifies this
      ensures b == old(b) + (Varint(|s|) + s) && len == |Varint(|s|)| + |s|
    {
      Associative(b, Varint(|s|), s);
      var hlen := AddVarint32(|s|);
      b := b + s;
      return hlen + |s|;
    }

    /** The integer types: the words of the Lua integer, through the writer of the type. */
    method AddInteger(t: Scalar, i: int) returns (len: nat)
      requires !t.BoolT? && !t.BytesT? && InRange(t, VInt(i))
      modifies this
      ensures b == old(b) + ScalarBytes(t, VInt(i)) && len == |ScalarBytes(t, VInt(i))|
    {
      var u64: nat := i % P64;
      var u32: nat := u64 % P32;
      match t
      case Fixed32T => len := AddFixed(u32, 4);
      case SFixed32T => len := AddFixed(u32, 4);
      case Int32T =>
        Extended(u32);
        len := AddVarint64(ExpandSig(u32));
      case UInt32T => len := AddVarint32(u32);
      case SInt32T =>
        Zigzag32(Signed32(u32));
        len := AddVarint32(EncodeSint32(Signed32(u32)));
      case Fixed64T => len := AddFixed(u64, 8);
      case SFixed64T => len := AddFixed(u64, 8);
      case Int64T => len := AddVarint64(u64);
      case UInt64T => len := AddVarint64(u64);
      case SInt64T =>
        Zigzag64(Signed64(u64));
        len := AddVarint64(EncodeSint64(Signed64(u64)));
    }

    static lemma Extended(u: int)
      requires 0 <= u < P32
      ensures 0 <= ExpandSig(u) < P64
    {
    }

    /** lpb_addtype: append the scalar; `ignored` is its length when it is zero, and 0 otherwise. */
    method AddType(t: Scalar, v: Val) returns (ignored: nat)
      requires InRange(t, v)
      modifies this
      ensures b == old(b) + ScalarBytes(t, v) && ignored == if v == Zero(t) then |ScalarBytes(t, v)| else 0
    {
      if t.BoolT? {
        ignored := AddVarint32(if v.b then 1 else 0);
        if v.b {
          ignored := 0;
        }
      } else if t.BytesT? {
        ignored := AddBytes(v.s);
        if |v.s| != 0 {
          ignored := 0;
        }
      } else {
        ignored := AddInteger(t, v.i);
        SmallWord(v.i);
        if v.i % P64 != 0 {
          ignored := 0;
        }
      }
    }

    static lemma SmallWord(i: int)
      requires -P63 <= i < P64
      ensures i % P64 == 0 <==> i == 0
    {
    }

    /** lpbE_field */
    method EncodeField(k: Kind, v: Value) returns (ignored: nat)
      requires FitsRaw(sch, k, v)
      modifies this
      ensures b == old(b) + RawBytes(sch, k, v)
      ensures ignored == if Ignorable(k, v) then |RawBytes(sch, k, v)| else 0
      decreases v, 0
    {
      ignored := 0;
      match k
      case EnumK(e) =>
        EncodeEnum(e, v.v);
      case MessageK(id) =>
        var len := |b|;
        EncodeMessage(sch[id], v.fields);
        AddLength(len);
      case ScalarK(t) =>
        ignored := AddType(t, v.v);
    }

    /** lpbE_tagfield */
    method EncodeTagged(number: nat, k: Kind, v: Value, ignoreZero: bool)
      requires FitsRaw(sch, k, v) && number < FIELD_LIMIT
      modifies this
      ensures b == old(b) + TaggedBytes(sch, number, k, v, ignoreZero)
      decreases v, 1
    {
      var hlen := AddTag(number, WireOf(k));
      var ignored := EncodeField(k, v);
      TakenBack(old(b), Varint(Tag(number, WireOf(k))), RawBytes(sch, k, v));
      if Ignorable(k, v) {
        ScalarBytesSome(k.t, v.v);
      }
      if ignored != 0 && ignoreZero {
        b := b[..|b| - (ignored + hlen)];
      }
    }

    static lemma ScalarBytesSome(t: Scalar, v: Val)
      requires InRange(t, v)
      ensures |ScalarBytes(t, v)| > 0
    {
      ScalarRoundTrip(t, v, []);
    }

    /** One entry of lpbE_map, behind its length; a zero key or value is left out. */
    method EncodeEntry(number: nat, key: Scalar, k: Kind, x: Val, v: Value)
      requires InRange(key, x) && FitsRaw(sch, k, v) && number < FIELD_LIMIT
      modifies this
      ensures b == old(b) + OneEntry(sch, number, key, k, x, v)
      decreases v, 3
    {
      ghost var before := b;
      var tagLen := AddTag(number, BYTES);
      var len := |b|;
      EncodeEntryBody(key, k, x, v);
      LengthInserted(before, Varint(Tag(number, BYTES)), EntryBytes(sch, key, k, x, v));
      AddLength(len);
    }

    method EncodeEntryBody(key: Scalar, k: Kind, x: Val, v: Value)
      requires InRange(key, x) && FitsRaw(sch, k, v)
      modifies this
      ensures b == old(b) + EntryBytes(sch, key, k, x, v)
      decreases v, 2
    {
      Associative(b, KeyBytes(key, x), TaggedBytes(sch, 2, k, v, true));
      EncodeKey(key, x);
      EncodeTagged(2, k, v, true);
    }

    /** lpbE_map */
    method EncodeMap(f: FieldDef, key: Scalar, entries: Entries)
      requires FitsEntries(sch, key, f.kind, entries) && f.number < FIELD_LIMIT
      modifies this
      ensures b == old(b) + EntriesBytes(sch, f.number, key, f.kind, entries)
      decreases entries, 4
    {
      var rest := entries;
      ghost var done: seq<byte> := [];
      while rest.Entries?
        invariant FitsEntries(sch, key, f.kind, rest) && (rest == entries || (entries decreases to rest))
        invariant b == old(b) + done
        invariant done + EntriesBytes(sch, f.number, key, f.kind, rest) == EntriesBytes(sch, f.number, key, f.kind, entries)
        decreases rest
      {
        ghost var piece := OneEntry(sch, f.number, key, f.kind, rest.key, rest.value);
        Associative(done, piece, EntriesBytes(sch, f.number, key, f.kind, rest.rest));
        Associative(old(b), done, piece);
        EncodeEntry(f.number, key, f.kind, rest.key, rest.value);
        done := done + piece;
        rest := rest.rest;
      }
      assert done + [] == done;
    }

    static lemma LengthInserted(before: seq<byte>, tag: seq<byte>, body: seq<byte>)
      ensures var b := before + tag + body; var len := |before + tag|;
              b[..len] + Varint(|b| - len) + b[len..] == before + (tag + (Varint(|body|) + body))
    {
    }

    method EncodeKey(key: Scalar, x: Val)
      requires InRange(key, x)
      modifies this
      ensures b == old(b) + KeyBytes(key, x)
    {
      ghost var head, raw := Varint(Tag(1, ScalarWire(key))), ScalarBytes(key, x);
      var hlen := AddTag(1, ScalarWire(key));
      var ignored := AddType(key, x);
      ScalarBytesSome(key, x);
      TakenBack(old(b), head, raw);
      if ignored != 0 {
        b := b[..|b| - (ignored + hlen)];
      }
    }

    /** Taking back what was appended; or keeping it. */
    static lemma TakenBack(before: seq<byte>, head: seq<byte>, raw: seq<byte>)
      ensures (before + head + raw)[..|before + head + raw| - (|raw| + |head|)] == before == before + []
      ensures before + head + raw == before + (head + raw)
    {
    }

    /** lpbE_repeated of a packed field: one length around all items. */
    method EncodePacked(f: FieldDef, items: Items)
      requires FitsItems(sch, f.kind, items) && f.number < FIELD_LIMIT
      modifies this
      ensures var body := PackedBytes(sch, f.kind, items);
              b == old(b) + (Varint(Tag(f.number, BYTES)) + (Varint(|body|) + body))
      decreases items, 3
    {
      ghost var before := b;
      var tagLen := AddTag(f.number, BYTES);
      var len := |b|;
      EncodePackedItems(f.kind, items);
      LengthInserted(before, Varint(Tag(f.number, BYTES)), PackedBytes(sch, f.kind, items));
      AddLength(len);
    }

    method EncodePackedItems(k: Kind, items: Items)
      requires FitsItems(sch, k, items)
      modifies this
      ensures b == old(b) + PackedBytes(sch, k, items)
      decreases items, 2
    {
      ghost var done: seq<byte> := [];
      var rest := items;
      while rest.Items?
        invariant FitsItems(sch, k, rest) && (rest == items || (items decreases to rest))
        invariant b == old(b) + done && done + PackedBytes(sch, k, rest) == PackedBytes(sch, k, items)
        decreases rest
      {
        ghost var piece := RawBytes(sch, k, rest.head);
        Associative(done, piece, PackedBytes(sch, k, rest.tail));
        Associative(old(b), done, piece);
        var ignored := EncodeField(k, rest.head);
        done := done + piece;
        rest := rest.tail;
      }
      assert done + [] == done;
    }

    /** lpbE_repeated of another field: every item behind the tag, zeros included. */
    method EncodeItems(f: FieldDef, items: Items)
      requires FitsItems(sch, f.kind, items) && f.number < FIELD_LIMIT
      modifies this
      ensures b == old(b) + ItemBytes(sch, f, items)
      decreases items, 2
    {
      var rest := items;
      ghost var done: seq<byte> := [];
      while rest.Items?
        invariant FitsItems(sch, f.kind, rest) && (rest == items || (items decreases to rest))
        invariant b == old(b) + done && done + ItemBytes(sch, f, rest) == ItemBytes(sch, f, items)
        decreases rest
      {
        ghost var piece := TaggedBytes(sch, f.number, f.kind, rest.head, false);
        Associative(done, piece, ItemBytes(sch, f, rest.tail));
        Associative(old(b), done, piece);
        EncodeTagged(f.number, f.kind, rest.head, false);
        done := done + piece;
        rest := rest.tail;
      }
      assert done + [] == done;
    }

    /** The branches of lpb_encode for a field the type knows. */
    method EncodeKnown(proto3: bool, f: FieldDef, v: Value)
      requires FitsField(sch, f, v)
      modifies this
      ensures b == old(b) + FieldBytes(sch, proto3, f, v)
      decreases v, 5
    {
      match f.shape
      case MapOf(key) => EncodeMap(f, key, v.entries);
      case Repeated(packed) =>
        if packed {
          EncodePacked(f, v.items);
        } else {
          EncodeItems(f, v.items);
        }
      case Single(oneof) => EncodeTagged(f.number, f.kind, v, proto3 && !oneof);
    }

    /** lpb_encode: the fields in the order they come; those the type does not know are skipped. */
    method EncodeMessage(t: TypeDef, fields: Fields)
      requires FitsMessage(sch, t, fields)
      modifies this
      ensures b == old(b) + MessageBytes(sch, t, fields)
      decreases fields, 6
    {
      var rest := fields;
      ghost var done: seq<byte> := [];
      while rest.Fields?
        invariant FitsMessage(sch, t, rest) && (rest == fields || (fields decreases to rest))
        invariant b == old(b) + done && done + MessageBytes(sch, t, rest) == MessageBytes(sch, t, fields)
        decreases rest
      {
        ghost var piece := if rest.name in t.byName then FieldBytes(sch, t.proto3, t.byName[rest.name], rest.value) else [];
        Associative(done, piece, MessageBytes(sch, t, rest.rest));
        Associative(old(b), done, piece);
        if rest.name in t.byName {
          EncodeKnown(t.proto3, t.byName[rest.name], rest.value);
        }
        done := done + piece;
        rest := rest.rest;
      }
      assert done + [] == done;
    }
  }
}
