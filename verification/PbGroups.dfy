module PbGroups {
  // Well-formed wire values with nested groups, and the theorem that skipping takes exactly one of them.

  import opened Wrappers
  import opened Bytes
  import opened PbVarint
  import opened PbSlice
  import opened PbSkip

  /** A value on the wire; a varint may be longer than it needs to be, or than a reader accepts. */
  datatype Value = VarintV(raw: seq<byte>) | Fixed64V(raw: seq<byte>) | BytesV(raw: seq<byte>)
                 | GroupV(fields: Fields) | Fixed32V(raw: seq<byte>)

  datatype Fields = Nil | Cons(number: nat, value: Value, rest: Fields)

  function WireType(v: Value): (t: nat)
    ensures t < 8
  {
    match v
    case VarintV(_) => VARINT
    case Fixed64V(_) => FIXED64
    case BytesV(_) => BYTES
    case GroupV(_) => GROUP_START
    case Fixed32V(_) => FIXED32
  }

  predicate WellFormed(v: Value) {
    match v
    case VarintV(raw) => raw != [] && raw[|raw| - 1] < 0x80 && forall i :: 0 <= i < |raw| - 1 ==> raw[i] >= 0x80
    case Fixed64V(raw) => |raw| == 8
    case BytesV(raw) => |raw| < U64
    case GroupV(fields) => AllWellFormed(fields)
    case Fixed32V(raw) => |raw| == 4
  }

  predicate AllWellFormed(fields: Fields) {
    match fields
    case Nil => true
    case Cons(number, value, rest) => number * 8 + 7 < U32 && WellFormed(value) && AllWellFormed(rest)
  }

  /** The bytes of a value behind the tag of field `number`. */
  function Payload(v: Value, number: nat): seq<byte> {
    match v
    case VarintV(raw) => raw
    case Fixed64V(raw) => raw
    case BytesV(raw) => Varint(|raw|) + raw
    case GroupV(fields) => FieldBytes(fields) + Varint(number * 8 + GROUP_END)
    case Fixed32V(raw) => raw
  }

  function FieldBytes(fields: Fields): seq<byte> {
    match fields
    case Nil => []
    case Cons(number, value, rest) => Varint(number * 8 + WireType(value)) + Payload(value, number) + FieldBytes(rest)
  }

  lemma ReadTag(tag: nat, rest: seq<byte>)
    requires tag < U32
    ensures Varint32At(Varint(tag) + rest) == Got(tag, |Varint(tag)|)
    ensures (Varint(tag) + rest)[|Varint(tag)|..] == rest
  {
    ReadWritten(tag, rest);
  }

  /** Reading length-prefixed bytes undoes writing them. */
  lemma LengthPrefixed(raw: seq<byte>, rest: seq<byte>)
    requires |raw| < U64
    ensures BytesAt(Varint(|raw|) + raw + rest) == (Some(raw), |Varint(|raw|)| + |raw|)
  {
    ReadWritten(|raw|, raw + rest);
    assert Varint(|raw|) + raw + rest == Varint(|raw|) + (raw + rest);
  }

  lemma TagParts(number: nat, t: nat)
    requires t < 8
    ensures (number * 8 + t) % 8 == t && (number * 8 + t) / 8 == number
  {
  }

  lemma SkipFlat(v: Value, rest: seq<byte>, tag: nat)
    requires WellFormed(v) && !v.GroupV? && tag % 8 == WireType(v)
    ensures ValueSpan(Payload(v, 0) + rest, tag) == |Payload(v, 0)| > 0
  {
    ValueUnfold(Payload(v, 0) + rest, tag);
    match v
    case VarintV(raw) =>
      ExtentIs(raw + rest, |raw| - 1, |raw + rest|);
    case BytesV(raw) =>
      LengthPrefixed(raw, rest);
    case _ =>
  }

  lemma SkipGroup(body: seq<byte>, end: seq<byte>, rest: seq<byte>, tag: nat)
    requires tag % 8 == GROUP_START && GroupSpan(body + end + rest, tag) == (|body| + |end|, |body|)
    ensures ValueSpan(body + end + rest, tag) == |body + end|
  {
    ValueUnfold(body + end + rest, tag);
  }

  /** Skipping takes exactly one well-formed value, whatever follows it. */
  lemma {:induction false} SkipExact(v: Value, number: nat, rest: seq<byte>)
    requires WellFormed(v) && number * 8 + 7 < U32
    ensures ValueSpan(Payload(v, number) + rest, number * 8 + WireType(v)) == |Payload(v, number)| > 0
    decreases v, 0
  {
    TagParts(number, WireType(v));
    if v.GroupV? {
      GroupExact(v.fields, number, rest);
      SkipGroup(FieldBytes(v.fields), Varint(number * 8 + GROUP_END), rest, number * 8 + GROUP_START);
    } else {
      SkipFlat(v, rest, number * 8 + WireType(v));
      assert Payload(v, number) == Payload(v, 0);
    }
  }

  lemma Reassociate(a: seq<byte>, b: seq<byte>, c: seq<byte>, d: seq<byte>, e: seq<byte>)
    ensures a + b + c + d + e == a + (b + (c + d + e))
  {
  }

  /** A group ends at its own end tag, over any nesting of groups inside it. */
  lemma {:induction false} GroupExact(fields: Fields, number: nat, rest: seq<byte>)
    requires AllWellFormed(fields) && number * 8 + 7 < U32
    ensures var body, end := FieldBytes(fields), Varint(number * 8 + GROUP_END);
            GroupSpan(body + end + rest, number * 8 + GROUP_START) == (|body| + |end|, |body|)
    decreases fields, 1
  {
    var end := Varint(number * 8 + GROUP_END);
    match fields
    case Nil =>
      EndTag(number, rest);
      assert [] + end == end;
    case Cons(inner, value, others) =>
      var tag, payload := inner * 8 + WireType(value), Payload(value, inner);
      var more := FieldBytes(others) + end + rest;
      TagParts(inner, WireType(value));
      SkipExact(value, inner, more);
      GroupExact(others, number, rest);
      OneField(tag, payload, more, number * 8 + GROUP_START);
      GroupCons(Varint(tag), payload, FieldBytes(others), end, rest, number * 8 + GROUP_START);
      assert FieldBytes(fields) == Varint(tag) + payload + FieldBytes(others);
  }

  lemma GroupCons(t: seq<byte>, p: seq<byte>, others: seq<byte>, end: seq<byte>, rest: seq<byte>, group: nat)
    requires end != [] && GroupSpan(others + end + rest, group) == (|others| + |end|, |others|)
    requires GroupSpan(t + (p + (others + end + rest)), group) == After(|t| + |p|, GroupSpan(others + end + rest, group))
    ensures var body := t + p + others; GroupSpan(body + end + rest, group) == (|body| + |end|, |body|)
  {
    Reassociate(t, p, others, end, rest);
  }

  lemma EndTag(number: nat, rest: seq<byte>)
    requires number * 8 + 7 < U32
    ensures var end := Varint(number * 8 + GROUP_END);
            GroupSpan(end + rest, number * 8 + GROUP_START) == (|end|, 0)
  {
    ReadTag(number * 8 + GROUP_END, rest);
    EndUnfold(Varint(number * 8 + GROUP_END) + rest, number * 8 + GROUP_START);
  }

  lemma OneField(tag: nat, payload: seq<byte>, more: seq<byte>, group: nat)
    requires tag < U32 && tag % 8 != GROUP_END && ValueSpan(payload + more, tag) == |payload|
    ensures GroupSpan(Varint(tag) + (payload + more), group) == After(|Varint(tag)| + |payload|, GroupSpan(more, group))
  {
    var s := Varint(tag) + (payload + more);
    ReadTag(tag, payload + more);
    assert s[|Varint(tag)| + |payload|..] == more;
    GroupUnfold(s, group);
  }
}
