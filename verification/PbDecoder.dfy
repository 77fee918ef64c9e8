// The decoder as it runs: it advances a slice and fills tables, proved against PbDecode.
module PbDecoder {
  import opened Wrappers
  import opened Bytes
  import opened PbVarint
  import opened PbNumbers
  import opened PbSkip
  import opened PbSlice
  import opened PbSchema
  import opened PbMessage
  import opened PbDecode

  /** A reader that started with the bytes `rest` at offset p ended at p' with the value r; None is a decoding error. */
  ghost predicate Took(d: Decoded, r: Option<Val>, p: nat, p': nat) {
    if d.Err? then r == None else r == Some(d.v) && p' == p + d.used
  }

  class Decoder {
    const sch: Schema

    constructor (sch: Schema)
      ensures this.sch == sch
    {
      this.sch := sch;
    }

    /** lpb_readbytes */
    method TakeBytes(s: Slice) returns (r: Option<seq<byte>>)
      requires s.Valid()
      modifies s
      ensures s.Valid() && s.p >= old(s.p)
      ensures var c := Chunk(old(s.Rest()));
              if c.None? then r == None else r == Some(c.value.0) && s.p == old(s.p) + c.value.1
    {
      ghost var rest := s.Rest();
      var o: nat := s.p;
      var len := s.ReadVarint64();
      if len.Fail? || len.value > MAX_SIZET || |s.data| - s.p < len.value {
        return None;
      }
      SliceOfSlice(s.data, o, len.used, len.used + len.value);
      r := Some(s.data[s.p..s.p + len.value]);
      s.p := s.p + len.value;
    }

    static lemma SliceOfSlice(d: seq<byte>, o: nat, i: nat, j: nat)
      requires i <= j && o + j <= |d|
      ensures d[o..][i..j] == d[o + i..o + j]
    {
    }

    /** lpb_readtype */
    method TakeScalar(t: Scalar, s: Slice) returns (r: Option<Val>)
      requires s.Valid()
      modifies s
      ensures s.Valid() && s.p >= old(s.p) && Took(ReadScalar(t, old(s.Rest())), r, old(s.p), s.p)
    {
      if t == BytesT {
        var c := TakeBytes(s);
        return if c.None? then None else Some(VBytes(c.value));
      }
      var word: Read;
      if ScalarWire(t) == FIXED32 {
        word := s.ReadFixed(4);
      } else if ScalarWire(t) == FIXED64 {
        word := s.ReadFixed(8);
      } else {
        word := s.ReadVarint64();
      }
      return if word.Fail? then None else Some(Word(t, word.value));
    }

    /** lpbD_rawfield */
    method TakeValue(k: Kind, s: Slice) returns (r: Option<Val>)
      requires s.Valid()
      modifies s
      ensures s.Valid() && s.p >= old(s.p) && Took(ValueAt(sch, k, old(s.Rest())), r, old(s.p), s.p)
      decreases |s.data| - s.p, 0
    {
      ScalarStep(sch, k, s.Rest());
      match k
      case EnumK(e) =>
        var u := s.ReadVarint64();
        return if u.Fail? then None else Some(EnumOf(e, u.value));
      case MessageK(id) =>
        ghost var rest := s.Rest();
        var body := TakeBytes(s);
        if body.None? || id !in sch {
          return None;
        }
        ChunkSmaller(rest);
        var m := DecodeMessage(sch[id], body.value, Defaults(sch[id]));
        return if m.None? then None else Some(VMsg(m.value));
      case ScalarK(t) =>
        r := TakeScalar(t, s);
    }

    static lemma ChunkSmaller(s: seq<byte>)
      ensures Chunk(s).Some? ==> |Chunk(s).value.0| < Chunk(s).value.1 <= |s|
    {
    }

    /** lpbD_field */
    method TakeTagged(k: Kind, tag: nat, s: Slice) returns (r: Option<Val>)
      requires s.Valid()
      modifies s
      ensures s.Valid() && s.p >= old(s.p) && Took(TaggedAt(sch, k, tag, old(s.Rest())), r, old(s.p), s.p)
      decreases |s.data| - s.p, 1
    {
      if WireOf(k) == tag % 8 {
        r := TakeValue(k, s);
        return;
      }
      return None;
    }

    /** The first of a packed run's values. */
    method TakePackedItem(k: Kind, s: Slice) returns (r: Option<Val>)
      requires s.Valid() && s.Rest() != []
      modifies s
      ensures s.Valid() && s.p >= old(s.p) && (r.Some? ==> s.p > old(s.p))
      ensures r.None? ==> PackedAt(sch, k, old(s.Rest())) == None
      ensures r.Some? ==> PackedAt(sch, k, old(s.Rest())) == Consed(r.value, PackedAt(sch, k, s.Rest()))
      decreases |s.data| - s.p, 1
    {
      ghost var p, rest := s.p, s.Rest();
      PackedStep(sch, k, rest);
      r := TakeValue(k, s);
      if r.Some? {
        assert rest[s.p - p..] == s.Rest();
      }
    }

    ghost function Consed(v: Val, more: Option<seq<Val>>): Option<seq<Val>> {
      if more.None? then None else Some([v] + more.value)
    }

    /** The loop of lpbD_repeated over a packed run. */
    method TakePacked(k: Kind, bytes: seq<byte>) returns (r: Option<seq<Val>>)
      ensures r == PackedAt(sch, k, bytes)
      decreases |bytes|, 2
    {
      var s := new Slice(bytes);
      var vs: seq<Val> := [];
      ghost var all := PackedAt(sch, k, bytes);
      ExtendsStart(all);
      while s.p < |s.data|
        invariant s.Valid() && fresh(s) && s.data == bytes
        invariant Extends(all, vs, PackedAt(sch, k, s.Rest()))
        decreases |bytes| - s.p
      {
        var v := TakePackedItem(k, s);
        if v.None? {
          return None;
        }
        ExtendsNext(all, vs, v.value, PackedAt(sch, k, s.Rest()));
        vs := vs + [v.value];
      }
      PackedStep(sch, k, s.Rest());
      ExtendsEnd(all, vs);
      return Some(vs);
    }

    /** The values already read, in front of those still to come. */
    ghost predicate Extends(all: Option<seq<Val>>, vs: seq<Val>, more: Option<seq<Val>>) {
      all == if more.None? then None else Some(vs + more.value)
    }

    static lemma ExtendsStart(all: Option<seq<Val>>)
      ensures all == if all.None? then None else Some([] + all.value)
    {
      assert all.Some? ==> [] + all.value == all.value;
    }

    static lemma ExtendsNext(all: Option<seq<Val>>, vs: seq<Val>, v: Val, more: Option<seq<Val>>)
      requires all == if more.None? then None else Some(vs + ([v] + more.value))
      ensures all == if more.None? then None else Some(vs + [v] + more.value)
    {
      if more.Some? {
        assert vs + ([v] + more.value) == vs + [v] + more.value;
      }
    }

    static lemma ExtendsEnd(all: Option<seq<Val>>, vs: seq<Val>)
      requires all == Some(vs + [])
      ensures all == Some(vs)
    {
      assert vs + [] == vs;
    }

    /** One round of the loop of lpbD_map: the entry so far, whether it is finished, and None after an error. */
    method TakeEntryField(key: Scalar, k: Kind, s: Slice, e: Entry) returns (r: Option<Entry>, finished: bool)
      requires s.Valid()
      modifies s
      ensures s.Valid() && s.p >= old(s.p) && (r.Some? && !finished ==> s.p > old(s.p))
      ensures EntryAt(sch, key, k, old(s.Rest()), e)
              == if r.None? then None else if finished then r else EntryAt(sch, key, k, s.Rest(), r.value)
      decreases |s.data| - s.p, 2
    {
      ghost var p, rest := s.p, s.Rest();
      var tag := s.ReadVarint32();
      if tag.Fail? {
        EntryEnd(sch, key, k, rest, e);
        return Some(e), true;
      }
      assert rest[tag.used..] == s.Rest();
      var n := tag.value / 8;
      if n == 1 {
        EntryKey(sch, key, k, rest, e);
        var v := TakeTagged(ScalarK(key), tag.value, s);
        if v.None? {
          return None, true;
        }
        assert rest[s.p - p..] == s.Rest();
        return Some(Entry(v, e.value)), false;
      } else if n == 2 {
        EntryValue(sch, key, k, rest, e);
        var v := TakeTagged(k, tag.value, s);
        if v.None? {
          return None, true;
        }
        assert rest[s.p - p..] == s.Rest();
        return Some(Entry(e.key, v)), false;
      }
      EntryOther(sch, key, k, rest, e);
      return Some(e), false;
    }

    method TakeEntry(key: Scalar, k: Kind, bytes: seq<byte>) returns (r: Option<Entry>)
      ensures r == EntryAt(sch, key, k, bytes, Entry(None, None))
      decreases |bytes|, 3
    {
      var s := new Slice(bytes);
      var finished := false;
      r := Some(Entry(None, None));
      while r.Some? && !finished
        invariant s.Valid() && fresh(s) && s.data == bytes
        invariant EntryAt(sch, key, k, bytes, Entry(None, None))
                  == if r.None? then None else if finished then r else EntryAt(sch, key, k, s.Rest(), r.value)
        decreases |bytes| - s.p, !finished && r.Some?
      {
        r, finished := TakeEntryField(key, k, s, r.value);
      }
    }

    /** The branches of lpbD_message for a field the type knows. */
    method TakeField(f: FieldDef, tag: nat, s: Slice, acc: LuaTable) returns (r: Option<LuaTable>)
      requires s.Valid()
      modifies s
      ensures s.Valid() && s.p >= old(s.p)
      ensures var d := FieldAt(sch, f, tag, old(s.Rest()), acc);
              if d.None? then r == None else r == Some(d.value.0) && s.p == old(s.p) + d.value.1
      decreases |s.data| - s.p, 4
    {
      ghost var rest := s.Rest();
      match f.shape
      case MapOf(key) =>
        var have := if f.name in acc && acc[f.name].VDict? then acc[f.name].entries else map[];
        var body := TakeBytes(s);
        if body.None? {
          return None;
        }
        ChunkSmaller(rest);
        var e := TakeEntry(key, f.kind, body.value);
        if e.None? {
          return None;
        }
        return Some(acc[f.name := VDict(Entered(have, key, f.kind, e.value))]);
      case Repeated(packed) =>
        var have := if f.name in acc && acc[f.name].VList? then acc[f.name].items else [];
        if tag % 8 != BYTES || (!packed && WireOf(f.kind) == BYTES) {
          var v := TakeTagged(f.kind, tag, s);
          return if v.None? then None else Some(acc[f.name := VList(have + [v.value])]);
        }
        var body := TakeBytes(s);
        if body.None? {
          return None;
        }
        ChunkSmaller(rest);
        var vs := TakePacked(f.kind, body.value);
        return if vs.None? then None else Some(acc[f.name := VList(have + vs.value)]);
      case Single(_) =>
        var v := TakeTagged(f.kind, tag, s);
        return if v.None? then None else Some(acc[f.name := v.value]);
    }

    /** One round of lpbD_message: the table so far, whether it is finished, and None after an error. */
    method TakeMessageField(t: TypeDef, s: Slice, acc: LuaTable) returns (r: Option<LuaTable>, finished: bool)
      requires s.Valid()
      modifies s
      ensures s.Valid() && s.p >= old(s.p) && (r.Some? && !finished ==> s.p > old(s.p))
      ensures MessageAt(sch, t, old(s.Rest()), acc)
              == if r.None? then None else if finished then r else MessageAt(sch, t, s.Rest(), r.value)
      decreases |s.data| - s.p, 5
    {
      ghost var p, rest := s.p, s.Rest();
      var tag := s.ReadVarint32();
      if tag.Fail? {
        MessageEnd(sch, t, rest, acc);
        return Some(acc), true;
      }
      assert rest[tag.used..] == s.Rest();
      if tag.value / 8 !in t.byNumber {
        MessageSkip(sch, t, rest, acc);
        var skipped := SkipValue(s, tag.value);
        assert rest[s.p - p..] == s.Rest();
        return Some(acc), false;
      }
      MessageStep(sch, t, rest, acc);
      var next := TakeField(t.byNumber[tag.value / 8], tag.value, s, acc);
      if next.None? {
        return None, true;
      }
      assert rest[s.p - p..] == s.Rest();
      return next, false;
    }

    /** lpbD_message, on a slice of its own. */
    method DecodeMessage(t: TypeDef, bytes: seq<byte>, defaults: LuaTable) returns (r: Option<LuaTable>)
      ensures r == MessageAt(sch, t, bytes, defaults)
      decreases |bytes|, 6
    {
      var s := new Slice(bytes);
      var finished := false;
      r := Some(defaults);
      while r.Some? && !finished
        invariant s.Valid() && fresh(s) && s.data == bytes
        invariant MessageAt(sch, t, bytes, defaults)
                  == if r.None? then None else if finished then r else MessageAt(sch, t, s.Rest(), r.value)
        decreases |bytes| - s.p, !finished && r.Some?
      {
        r, finished := TakeMessageField(t, s, r.value);
      }
    }
  }
}
