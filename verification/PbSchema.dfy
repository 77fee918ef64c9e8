// Message types, Lua values, and the wire form of scalars.
module PbSchema {
  import opened Wrappers
  import opened Bytes
  import opened PbVarint
  import opened PbNumbers
  import opened PbSkip
  import opened PbSlice

  const MAX_SIZET := 0xFFFF_FFFF - 100

  /** Field numbers are below this. */
  const FIELD_LIMIT := 0x2000_0000

  datatype Scalar = BoolT | Int32T | UInt32T | SInt32T | Fixed32T | SFixed32T
                  | Int64T | UInt64T | SInt64T | Fixed64T | SFixed64T | BytesT

  /** An enum type: the two name tables of its pb_Type. */
  datatype Enum = Enum(byNumber: map<int, string>, byName: map<string, int>)

  datatype Kind = ScalarK(t: Scalar) | EnumK(e: Enum) | MessageK(id: nat)

  /** For a map field `kind` is the kind of its values. */
  datatype Shape = Single(oneof: bool) | Repeated(packed: bool) | MapOf(key: Scalar)

  datatype FieldDef = FieldDef(name: string, number: nat, kind: Kind, shape: Shape)

  datatype TypeDef = TypeDef(proto3: bool, byNumber: map<nat, FieldDef>, byName: map<string, FieldDef>)

  type Schema = map<nat, TypeDef>

  /** A Lua value: VName is the name of an enumerator, VMsg, VList and VDict are tables. */
  datatype Val = VInt(i: int) | VBool(b: bool) | VBytes(s: seq<byte>) | VName(name: string)
               | VList(items: seq<Val>) | VDict(entries: map<Val, Val>) | VMsg(fields: map<string, Val>)

  // ---------------------------------------------------------------------------------------------------------
  // Well-formed schemas

  predicate EnumOk(e: Enum) {
    && (forall n :: n in e.byName ==> Int32(e.byName[n]) && e.byName[n] in e.byNumber)
    && (forall k :: k in e.byNumber ==> Int32(k))
  }

  predicate KindOk(sch: Schema, k: Kind) {
    match k
    case ScalarK(_) => true
    case EnumK(e) => EnumOk(e)
    case MessageK(id) => id in sch
  }

  predicate FieldOk(sch: Schema, f: FieldDef) {
    && 0 < f.number < FIELD_LIMIT && KindOk(sch, f.kind)
    && (f.shape.Repeated? && f.shape.packed ==> WireOf(f.kind) != BYTES)
  }

  ghost predicate TypeOk(sch: Schema, t: TypeDef) {
    && (forall n :: n in t.byNumber ==>
          var f := t.byNumber[n]; f.number == n && FieldOk(sch, f) && f.name in t.byName && t.byName[f.name] == f)
    && (forall n :: n in t.byName ==>
          var f := t.byName[n]; f.name == n && f.number in t.byNumber && t.byNumber[f.number] == f)
  }

  ghost predicate SchemaOk(sch: Schema) {
    forall id :: id in sch ==> TypeOk(sch, sch[id])
  }

  // ---------------------------------------------------------------------------------------------------------
  // Scalars

  /** pb_wtypebytype */
  function ScalarWire(t: Scalar): (w: nat)
    ensures w < 8 && w != GROUP_END
  {
    match t
    case BytesT => BYTES
    case Fixed32T => FIXED32
    case SFixed32T => FIXED32
    case Fixed64T => FIXED64
    case SFixed64T => FIXED64
    case _ => VARINT
  }

  function WireOf(k: Kind): (w: nat)
    ensures w < 8 && w != GROUP_END
  {
    match k
    case ScalarK(t) => ScalarWire(t)
    case EnumK(_) => VARINT
    case MessageK(_) => BYTES
  }

  /** The Lua values of a scalar type; a 64-bit unsigned number is a Lua integer of the same bits. */
  predicate InRange(t: Scalar, v: Val) {
    match t
    case BoolT => v.VBool?
    case BytesT => v.VBytes? && |v.s| <= MAX_SIZET
    case Int32T => v.VInt? && Int32(v.i)
    case SInt32T => v.VInt? && Int32(v.i)
    case SFixed32T => v.VInt? && Int32(v.i)
    case UInt32T => v.VInt? && 0 <= v.i < P32
    case Fixed32T => v.VInt? && 0 <= v.i < P32
    case _ => v.VInt? && Int64(v.i)
  }

  /** lpb_addtype: the 64-bit word of the Lua integer, cut and encoded as the type says. */
  function ScalarBytes(t: Scalar, v: Val): (s: seq<byte>)
    requires InRange(t, v)
  {
    if t.BoolT? then Varint(if v.b then 1 else 0)
    else if t.BytesT? then Varint(|v.s|) + v.s
    else
      var u64: nat := v.i % P64;
      var u32: nat := u64 % P32;
      match t
      case Fixed32T => LittleEndian(u32, 4)
      case SFixed32T => LittleEndian(u32, 4)
      case Int32T => Varint(ExpandSig(u32))
      case UInt32T => Varint(u32)
      case SInt32T => Zigzag32(Signed32(u32)); Varint(EncodeSint32(Signed32(u32)))
      case Fixed64T => LittleEndian(u64, 8)
      case SFixed64T => LittleEndian(u64, 8)
      case SInt64T => Zigzag64(Signed64(u64)); Varint(EncodeSint64(Signed64(u64)))
      case _ => Varint(u64)
  }

  /** The default a proto3 field of the type leaves out. */
  function Zero(t: Scalar): (v: Val)
    ensures InRange(t, v)
  {
    match t
    case BoolT => VBool(false)
    case BytesT => VBytes([])
    case _ => VInt(0)
  }

  datatype Decoded = Err | Ok(v: Val, used: nat)

  /** The Lua integer or boolean of a varint or fixed-width word. */
  function Word(t: Scalar, u: nat): Val {
    match t
    case BoolT => VBool(u != 0)
    case Int32T => VInt(Signed32(u % P32))
    case UInt32T => VInt(u % P32)
    case SInt32T => VInt(DecodeSint32(u % P32))
    case SInt64T => VInt(DecodeSint64(u))
    case Fixed32T => VInt(u)
    case SFixed32T => VInt(Signed32(u))
    case _ => VInt(Signed64(u))
  }

  /** lpb_readbytes: lengths above the size limit are refused. */
  ghost function Chunk(s: seq<byte>): Option<(seq<byte>, nat)> {
    match VarintAt(s)
    case Fail => None
    case Got(len, k) => if len > MAX_SIZET || |s| - k < len then None else Some((s[k..k + len], k + len))
  }

  /** lpb_readtype */
  ghost function ReadScalar(t: Scalar, s: seq<byte>): (r: Decoded)
    ensures r.Ok? ==> 1 <= r.used <= |s|
  {
    if t.BytesT? then
      match Chunk(s)
      case None => Err
      case Some(c) => Ok(VBytes(c.0), c.1)
    else if ScalarWire(t) == FIXED32 then if |s| < 4 then Err else Ok(Word(t, FromLittle(s[..4])), 4)
    else if ScalarWire(t) == FIXED64 then if |s| < 8 then Err else Ok(Word(t, FromLittle(s[..8])), 8)
    else
      match VarintAt(s)
      case Fail => Err
      case Got(u, k) => Ok(Word(t, u), k)
  }

  lemma ChunkOfWritten(raw: seq<byte>, rest: seq<byte>)
    requires |raw| <= MAX_SIZET
    ensures Chunk(Varint(|raw|) + raw + rest) == Some((raw, |Varint(|raw|)| + |raw|))
  {
    ReadWritten(|raw|, raw + rest);
    assert Varint(|raw|) + raw + rest == Varint(|raw|) + (raw + rest);
  }

  lemma VarintScalar(t: Scalar, u: nat, rest: seq<byte>)
    requires u < U64 && ScalarWire(t) == VARINT
    ensures ReadScalar(t, Varint(u) + rest) == Ok(Word(t, u), |Varint(u)|)
  {
    ReadWritten(u, rest);
  }

  lemma FixedScalar(t: Scalar, u: nat, k: nat, rest: seq<byte>)
    requires u < Pow256(k) && (if k == 4 then ScalarWire(t) == FIXED32 else k == 8 && ScalarWire(t) == FIXED64)
    ensures ReadScalar(t, LittleEndian(u, k) + rest) == Ok(Word(t, u), k)
  {
    LittleRoundTrip(u, k);
    assert (LittleEndian(u, k) + rest)[..k] == LittleEndian(u, k);
  }

  lemma Words()
    ensures Pow256(4) == P32 && Pow256(8) == P64
  {
    assert Pow256(2) == 0x1_0000;
    assert Pow256(4) == P32;
    assert Pow256(6) == 0x1_0000_0000_0000;
  }

  lemma Cut(v: int)
    ensures v % P64 % P32 == v % P32
  {
  }

  lemma Back(v: int)
    ensures Int32(v) ==> Signed32(v % P32) == v
    ensures 0 <= v < P32 ==> v % P32 == v
    ensures Int64(v) ==> Signed64(v % P64) == v
  {
  }

  /** The word a 32-bit integer is written as. */
  lemma NarrowWord(t: Scalar, v: Val) returns (u: nat)
    requires InRange(t, v) && t in {Int32T, UInt32T, SInt32T, Fixed32T, SFixed32T}
    ensures u < U64 && Word(t, u) == v
    ensures if ScalarWire(t) == FIXED32 then u < P32 && ScalarBytes(t, v) == LittleEndian(u, 4)
            else ScalarBytes(t, v) == Varint(u)
  {
    Cut(v.i);
    Back(v.i);
    u := v.i % P32;
    if t == Int32T {
      ExpandSigExtends(v.i);
      u := ExpandSig(u);
    } else if t == SInt32T {
      Zigzag32(v.i);
      u := EncodeSint32(v.i);
    }
  }

  lemma WideWord(t: Scalar, v: Val) returns (u: nat)
    requires InRange(t, v) && t in {Int64T, UInt64T, SInt64T, Fixed64T, SFixed64T}
    ensures u < U64 && Word(t, u) == v
    ensures ScalarBytes(t, v) == if ScalarWire(t) == FIXED64 then LittleEndian(u, 8) else Varint(u)
  {
    Back(v.i);
    u := v.i % P64;
    if t == SInt64T {
      Zigzag64(v.i);
      u := EncodeSint64(v.i);
    }
  }

  /** Reading the bytes written for a value in range gives the value back, whatever follows them. */
  lemma ScalarRoundTrip(t: Scalar, v: Val, rest: seq<byte>)
    requires InRange(t, v)
    ensures ReadScalar(t, ScalarBytes(t, v) + rest) == Ok(v, |ScalarBytes(t, v)|)
  {
    Words();
    if t == BoolT {
      VarintScalar(t, if v.b then 1 else 0, rest);
    } else if t == BytesT {
      ChunkOfWritten(v.s, rest);
    } else {
      var narrow := t in {Int32T, UInt32T, SInt32T, Fixed32T, SFixed32T};
      var u: nat;
      if narrow {
        u := NarrowWord(t, v);
      } else {
        u := WideWord(t, v);
      }
      if ScalarWire(t) == VARINT {
        VarintScalar(t, u, rest);
      } else {
        FixedScalar(t, u, if narrow then 4 else 8, rest);
      }
    }
  }
}
