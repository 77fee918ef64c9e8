// The JSON encoder as it runs, on one growing buffer.
module JsonEncoder {
  import opened Sequences
  import opened Hiding
  import opened Bytes
  import opened Powers
  import opened Decimal
  import opened JsonText
  import opened Json
  import opened StrBuf
  import opened JsonSpace

  lemma {:induction false} NoNulCString(s: seq<byte>)
    requires forall i :: 0 <= i < |s| ==> s[i] != 0
    ensures CString(s) == s
  {
    if s != [] {
      NoNulCString(s[1..]);
    }
  }

  lemma EscapeCString(b: byte)
    ensures CString(Escape(b)) == Escape(b)
  {
    var e := Escape(b);
    assert forall i :: 0 <= i < |e| ==> e[i] != 0;
    NoNulCString(e);
  }

  lemma EscapedStep(s: seq<byte>, str: seq<byte>, i: nat)
    requires i < |str|
    ensures s + Escaped(str[i..]) == s + Escape(str[i]) + Escaped(str[i + 1..])
  {
    assert str[i..][1..] == str[i + 1..];
  }

  lemma EscapedSpaceStep(sp: Space, str: seq<byte>, i: nat)
    requires i < |str| && Sound(sp)
    ensures var o := CharSpace(sp, str[i]);
            && (o.In? ==> EscapedSpace(sp, str[i..]) == EscapedSpace(o.sp, str[i + 1..]))
            && (!o.In? ==> EscapedSpace(sp, str[i..]) == o)
  {
    assert str[i..][1..] == str[i + 1..];
  }

  /** Done; an error is raised; or the program has left its buffer or an int, and nothing is known any more. */
  datatype Step = Done | Refused | Lost

  function Kept(ok: bool): Step {
    if ok then Done else Lost
  }

  // A method that answers a bool answers false where the program leaves its buffer or an int; the space functions say
  // exactly when.

  class Encoder {
    const json: Buffer

    ghost predicate Valid()
      reads this, json
    {
      json.Valid()
    }

    ghost function Output(): seq<byte>
      reads this, json
      requires Valid()
    {
      json.Contents()
    }

    ghost function Now(): Space
      reads this, json
    {
      json.Now()
    }

    constructor ()
      ensures Valid() && Output() == [] && Now() == Space(DEFAULT_SIZE, 0, DEFAULT_INCREMENT) && fresh(json)
    {
      json := new Buffer(0);
    }

    /** One character of a string: an escape with checks, any other character without. */
    method AppendEscaped(c: byte) returns (ok: bool)
      requires Valid()
      modifies json
      ensures var o := old(CharSpace(Now(), c));
              ok == o.In? && (ok ==> Valid() && Now() == o.sp && Output() == old(Output()) + Escape(c))
    {
      var escstr := Escape(c);
      if |escstr| > 1 {
        EscapeCString(c);
        ok := json.AppendString(escstr);
      } else {
        assert escstr == [c];
        ok := json.AppendCharUnsafe(c);
      }
    }

    /** The loop over the characters. */
    method AppendAllEscaped(str: seq<byte>) returns (ok: bool)
      requires Valid()
      modifies json
      ensures var o := old(EscapedSpace(Now(), str));
              ok == o.In? && (ok ==> Valid() && Now() == o.sp && Output() == old(Output()) + Escaped(str))
    {
      ghost var all, o := Output() + Escaped(str), EscapedSpace(Now(), str);
      assert str[0..] == str;
      for i := 0 to |str|
        invariant Valid() && Output() + Escaped(str[i..]) == all && EscapedSpace(Now(), str[i..]) == o
      {
        EscapedStep(Output(), str, i);
        EscapedSpaceStep(Now(), str, i);
        ok := AppendEscaped(str[i]);
        if !ok {
          return;
        }
      }
      assert Output() == all;
      return true;
    }

    /** Room for (int)(len * 6 + 2) is ensured once; the quotes and the plain characters behind it are not checked. */
    method AppendString(str: seq<byte>) returns (ok: bool)
      requires Valid()
      modifies json
      ensures var o := old(StrSpace(Now(), str));
              ok == o.In? && (ok ==> Valid() && Now() == o.sp && Output() == old(Output()) + StrText(str))
    {
      ok := json.EnsureEmptyLength(ToInt(|str| * 6 + 2));
      if ok {
        ok := AppendQuoted(str);
      }
    }

    method AppendQuoted(str: seq<byte>) returns (ok: bool)
      requires Valid()
      modifies json
      ensures var o := old(QuotedSpace(Now(), str));
              ok == o.In? && (ok ==> Valid() && Now() == o.sp && Output() == old(Output()) + StrText(str))
    {
      ok := json.AppendCharUnsafe(QUOTE);
      if !ok {
        return;
      }
      ok := AppendAllEscaped(str);
      if !ok {
        return;
      }
      ok := json.AppendCharUnsafe(QUOTE);
      Quoted(old(Output()), Escaped(str));
    }

    static lemma Quoted(out: seq<byte>, s: seq<byte>)
      ensures out + [QUOTE] + s + [QUOTE] == out + ([QUOTE] + s + [QUOTE])
    {
    }

    /** A number is written where room for 32 characters has been ensured. */
    method AppendNumber(i: int) returns (ok: bool)
      requires Valid() && Exact(i)
      modifies json
      ensures var o := old(NumSpace(Now(), i));
              ok == o.In? && (ok ==> Valid() && Now() == o.sp && Output() == old(Output()) + IntText(i))
    {
      ok := json.EnsureEmptyLength(G_FMT_BUFSIZE);
      if ok {
        ok := json.AppendMemUnsafe(IntText(i));
      }
    }

    /** The loop of lua_array_length over the keys. */
    static method ArrayLength(ms: Members) returns (shape: Shape)
      ensures shape == ShapeOf(ms)
    {
      var max, items, rest := 0, 0, ms;
      while rest.Member?
        invariant Scan(rest, max, items) == ShapeOf(ms)
        decreases rest
      {
        var k := rest.key;
        if !(k.Index? && k.i >= 1) {
          return Object;
        }
        if k.i > max {
          if k.i >= INT_LIMIT {
            return Uncounted;
          }
          max := k.i;
        }
        if items + 1 >= INT_LIMIT {
          return Uncounted;
        }
        items := items + 1;
        rest := rest.rest;
      }
      if items * SPARSE_RATIO >= INT_LIMIT {
        return Uncounted;
      }
      if max > items * SPARSE_RATIO && max > SPARSE_SAFE {
        return TooSparse;
      }
      return Length(max);
    }

    method AppendData(v: Json, depth: nat) returns (r: Step)
      requires Valid() && ExactNumbers(v)
      modifies json
      ensures var o := old(ValueSpace(Now(), v));
              && (r.Done? <==> Printable(v, depth) && o.In?)
              && (r.Done? ==> Valid() && Now() == o.sp && Output() == old(Output()) + Text(v))
              && (r.Refused? ==> Valid() && !Printable(v, depth)) && (r.Lost? ==> !o.In?)
      decreases Depth(v), 3, 0
    {
      if v.Table? {
        if depth + 1 > MAX_DEPTH {
          return Refused;
        }
        var shape := ArrayLength(v.members);
        if shape.Uncounted? {
          return Lost;
        }
        if shape.TooSparse? {
          return Refused;
        }
        if shape.Length? && shape.n > 0 {
          r := AppendArray(v.members, shape.n, depth + 1);
        } else {
          r := AppendObject(v.members, depth + 1);
        }
      } else {
        var ok;
        match v {
          case Null => ok := json.AppendMem(NULL);
          case Bool(b) => ok := json.AppendMem(if b then TRUE else FALSE);
          case Int(i) => ok := AppendNumber(i);
          case Str(s) => ok := AppendString(s);
        }
        r := Kept(ok);
      }
    }

    /** A bracket, what is between, and the other bracket. */
    static ghost function Between(open: Outcome, inner: Outcome): (o: Outcome)
      requires inner.In? ==> Sound(inner.sp)
    {
      if !open.In? then open else if inner.In? then MemSpace(inner.sp, 1) else inner
    }

    ghost function ArraySpace(ms: Members, n: int): Outcome
      reads this, json
      requires Valid() && n >= 1
    {
      var open := MemSpace(Now(), 1);
      Between(open, if open.In? then ItemsSpace(open.sp, ms, 1, n) else open)
    }

    ghost function ObjectSpace(ms: Members): Outcome
      reads this, json
      requires Valid()
    {
      var open := MemSpace(Now(), 1);
      Between(open, if open.In? then MembersSpace(open.sp, ms, false) else open)
    }

    method AppendArray(ms: Members, n: int, depth: nat) returns (r: Step)
      requires Valid() && MembersExact(ms) && n >= 1
      modifies json
      ensures var o := old(ArraySpace(ms, n));
              && (r.Done? <==> ItemsPrintable(ms, 1, n, depth) && o.In?)
              && (r.Done? ==>
                    Valid() && Now() == o.sp && Output() == old(Output()) + ([91] + (ItemsText(ms, 1, n) + [93])))
              && (r.Refused? ==> Valid() && !ItemsPrintable(ms, 1, n, depth)) && (r.Lost? ==> !o.In?)
      decreases 1 + MembersDepth(ms), 2, 0
    {
      var ok := json.AppendChar(91);
      if !ok {
        return Lost;
      }
      r := AppendItems(ms, n, depth);
      if r.Done? {
        Bracketed(old(Output()), 91, ItemsText(ms, 1, n), 93);
        ok := json.AppendChar(93);
        r := Kept(ok);
      }
    }

    /** The loop of json_append_array. */
    method AppendItems(ms: Members, n: int, depth: nat) returns (r: Step)
      requires Valid() && MembersExact(ms) && n >= 1
      modifies json
      ensures var o := old(ItemsSpace(Now(), ms, 1, n));
              && (r.Done? <==> ItemsPrintable(ms, 1, n, depth) && o.In?)
              && (r.Done? ==> Valid() && Now() == o.sp && Output() == old(Output()) + ItemsText(ms, 1, n))
              && (r.Refused? ==> Valid() && !ItemsPrintable(ms, 1, n, depth)) && (r.Lost? ==> !o.In?)
      decreases 1 + MembersDepth(ms), 1, 0
    {
      ghost var all, o := Output() + ItemsText(ms, 1, n), ItemsSpace(Now(), ms, 1, n);
      ItemsStart(ms, n, depth, Output(), all, Now(), o);
      var j := 1;
      while j <= n
        invariant 1 <= j <= n + 1 && Valid() && ItemsPending(ms, j, n, depth, Output(), all, Now(), o)
      {
        ghost var before, sp := Output(), Now();
        r := AppendItem(ms, j, n, depth);
        if !r.Done? {
          ItemsFail(ms, j, n, depth, before, all, sp, o);
          return;
        }
        ItemsNext(ms, j, n, depth, before, Output(), all, sp, o);
        j := j + 1;
      }
      ItemsEnd(ms, n, depth, Output(), all, Now(), o);
      return Done;
    }

    /** Items j to n are still to be printed behind out and from sp on; all and o are the text and the space at the end. */
    static ghost predicate ItemsPending(ms: Members, j: int, n: int, depth: nat, out: seq<byte>, all: seq<byte>,
                                        sp: Space, o: Outcome) {
      forall d {:trigger Opened(d)} :: Opened(d) ==>
        && 1 <= j <= n + 1 && n >= 1 && Sound(sp)
        && ItemsPrintable(ms, 1, n, depth) == (j <= n ==> ItemsPrintable(ms, j, n, depth))
        && out + ItemsLeft(ms, j, n) == all && ItemsSpace(sp, ms, j, n) == o
    }

    static lemma ItemsStart(ms: Members, n: int, depth: nat, out: seq<byte>, all: seq<byte>, sp: Space, o: Outcome)
      requires n >= 1 && all == out + ItemsText(ms, 1, n) && Sound(sp) && o == ItemsSpace(sp, ms, 1, n)
      ensures ItemsPending(ms, 1, n, depth, out, all, sp, o)
    {
    }

    static lemma ItemsFail(ms: Members, j: int, n: int, depth: nat, out: seq<byte>, all: seq<byte>, sp: Space, o: Outcome)
      requires 1 <= j <= n && Sound(sp) && ItemsPending(ms, j, n, depth, out, all, sp, o)
      ensures !Printable(Find(ms, Index(j)), depth) ==> !ItemsPrintable(ms, 1, n, depth)
      ensures !ItemSpace(sp, Find(ms, Index(j)), j > 1).In? ==> !o.In?
    {
      assert Opened(true);
    }

    static lemma ItemsNext(ms: Members, j: int, n: int, depth: nat, out: seq<byte>, out': seq<byte>, all: seq<byte>,
                           sp: Space, o: Outcome)
      requires 1 <= j <= n && Sound(sp) && ItemsPending(ms, j, n, depth, out, all, sp, o)
      requires Printable(Find(ms, Index(j)), depth) && out' + ItemsLeft(ms, j + 1, n) == out + ItemsLeft(ms, j, n)
      requires ItemSpace(sp, Find(ms, Index(j)), j > 1).In?
      ensures ItemsPending(ms, j + 1, n, depth, out', all, ItemSpace(sp, Find(ms, Index(j)), j > 1).sp, o)
    {
      assert Opened(true);
    }

    static lemma ItemsEnd(ms: Members, n: int, depth: nat, out: seq<byte>, all: seq<byte>, sp: Space, o: Outcome)
      requires n >= 1 && ItemsPending(ms, n + 1, n, depth, out, all, sp, o)
      ensures ItemsPrintable(ms, 1, n, depth) && out == all && o == In(sp)
    {
      assert Opened(true);
    }

    /** The comma, if there is one, and item j. */
    method AppendItem(ms: Members, j: int, n: int, depth: nat) returns (r: Step)
      requires Valid() && MembersExact(ms) && 1 <= j <= n
      modifies json
      ensures var v := Find(ms, Index(j)); var o := old(ItemSpace(Now(), v, j > 1));
              && (r.Done? <==> Printable(v, depth) && o.In?)
              && (r.Done? ==>
                    && Valid() && Now() == o.sp
                    && Output() + ItemsLeft(ms, j + 1, n) == old(Output()) + ItemsLeft(ms, j, n))
              && (r.Refused? ==> Valid() && !Printable(v, depth)) && (r.Lost? ==> !o.In?)
      decreases 1 + MembersDepth(ms), 0, 0
    {
      ghost var before := Output();
      if j > 1 {
        var ok := json.AppendChar(44);
        if !ok {
          return Lost;
        }
      }
      FindDepth(ms, Index(j));
      FindExact(ms, Index(j));
      r := AppendData(Find(ms, Index(j)), depth);
      Separated(before, j > 1, Text(Find(ms, Index(j))), ItemsLeft(ms, j + 1, n));
    }

    method AppendKey(k: Key) returns (ok: bool)
      requires Valid() && (k.Index? ==> Exact(k.i))
      modifies json
      ensures var o := old(KeySpace(Now(), k));
              ok == o.In? && (ok ==> Valid() && Now() == o.sp && Output() == old(Output()) + KeyText(k))
    {
      match k
      case Index(i) => ok := AppendNumberKey(i);
      case Name(s) =>
        ok := AppendString(s);
        if ok {
          Associative(old(Output()), StrText(s), [58]);
          ok := json.AppendChar(58);
        }
    }

    method AppendNumberKey(i: int) returns (ok: bool)
      requires Valid() && Exact(i)
      modifies json
      ensures var o := old(KeySpace(Now(), Index(i)));
              ok == o.In? && (ok ==> Valid() && Now() == o.sp && Output() == old(Output()) + KeyText(Index(i)))
    {
      ok := json.AppendChar(QUOTE);
      if !ok {
        return;
      }
      ok := AppendNumber(i);
      if !ok {
        return;
      }
      ok := json.AppendMem([QUOTE, 58]);
      NumberKey(old(Output()), IntText(i));
    }

    method AppendObject(ms: Members, depth: nat) returns (r: Step)
      requires Valid() && MembersExact(ms)
      modifies json
      ensures var o := old(ObjectSpace(ms));
              && (r.Done? <==> MembersPrintable(ms, depth) && o.In?)
              && (r.Done? ==>
                    Valid() && Now() == o.sp && Output() == old(Output()) + ([123] + (MembersText(ms) + [125])))
              && (r.Refused? ==> Valid() && !MembersPrintable(ms, depth)) && (r.Lost? ==> !o.In?)
      decreases 1 + MembersDepth(ms), 2, 0
    {
      var ok := json.AppendChar(123);
      if !ok {
        return Lost;
      }
      r := AppendPairs(ms, depth);
      if r.Done? {
        Bracketed(old(Output()), 123, MembersText(ms), 125);
        ok := json.AppendChar(125);
        r := Kept(ok);
      }
    }

    /** The loop of json_append_object. */
    method AppendPairs(ms: Members, depth: nat) returns (r: Step)
      requires Valid() && MembersExact(ms)
      modifies json
      ensures var o := old(MembersSpace(Now(), ms, false));
              && (r.Done? <==> MembersPrintable(ms, depth) && o.In?)
              && (r.Done? ==> Valid() && Now() == o.sp && Output() == old(Output()) + MembersText(ms))
              && (r.Refused? ==> Valid() && !MembersPrintable(ms, depth)) && (r.Lost? ==> !o.In?)
      decreases 1 + MembersDepth(ms), 1, 0
    {
      ghost var all, o := Output() + MembersText(ms), MembersSpace(Now(), ms, false);
      PairsStart(ms, depth, Output(), all, Now(), o);
      var comma, rest := false, ms;
      while rest.Member?
        invariant Valid() && PairsPending(ms, rest, comma, depth, Output(), all, Now(), o)
        decreases rest
      {
        PairsExact(ms, rest, comma, depth, Output(), all, Now(), o);
        ghost var before, sp := Output(), Now();
        r := AppendPair(rest, comma, depth);
        if !r.Done? {
          PairsFail(ms, rest, comma, depth, before, all, sp, o);
          return;
        }
        PairsNext(ms, rest, comma, depth, before, Output(), all, sp, o);
        comma, rest := true, rest.rest;
      }
      PairsEnd(ms, rest, comma, depth, Output(), all, Now(), o);
      return Done;
    }

    /** Of ms the members in rest are still to be printed behind out and from sp on; all and o are the end. */
    static ghost predicate PairsPending(ms: Members, rest: Members, comma: bool, depth: nat, out: seq<byte>,
                                        all: seq<byte>, sp: Space, o: Outcome) {
      forall d {:trigger Opened(d)} :: Opened(d) ==>
        && MembersExact(rest) && MembersDepth(rest) <= MembersDepth(ms) && Sound(sp)
        && MembersPrintable(ms, depth) == MembersPrintable(rest, depth)
        && out + MembersLeft(rest, comma) == all && MembersSpace(sp, rest, comma) == o
    }

    static lemma PairsStart(ms: Members, depth: nat, out: seq<byte>, all: seq<byte>, sp: Space, o: Outcome)
      requires MembersExact(ms) && all == out + MembersText(ms) && Sound(sp) && o == MembersSpace(sp, ms, false)
      ensures PairsPending(ms, ms, false, depth, out, all, sp, o)
    {
      AllLeft(ms);
    }

    static lemma AllLeft(ms: Members)
      ensures MembersLeft(ms, false) == MembersText(ms)
    {
    }

    static lemma PairsExact(ms: Members, rest: Members, comma: bool, depth: nat, out: seq<byte>, all: seq<byte>,
                            sp: Space, o: Outcome)
      requires PairsPending(ms, rest, comma, depth, out, all, sp, o)
      ensures MembersExact(rest) && MembersDepth(rest) <= MembersDepth(ms)
    {
      assert Opened(true);
    }

    static lemma PairsFail(ms: Members, rest: Members, comma: bool, depth: nat, out: seq<byte>, all: seq<byte>,
                           sp: Space, o: Outcome)
      requires rest.Member? && Sound(sp) && PairsPending(ms, rest, comma, depth, out, all, sp, o)
      ensures !Printable(rest.value, depth) ==> !MembersPrintable(ms, depth)
      ensures !PairSpace(sp, rest.key, rest.value, comma).In? ==> !o.In?
    {
      assert Opened(true);
    }

    static lemma PairsNext(ms: Members, rest: Members, comma: bool, depth: nat, out: seq<byte>, out': seq<byte>,
                           all: seq<byte>, sp: Space, o: Outcome)
      requires rest.Member? && Sound(sp) && PairsPending(ms, rest, comma, depth, out, all, sp, o)
      requires Printable(rest.value, depth) && out' + MembersLeft(rest.rest, true) == out + MembersLeft(rest, comma)
      requires PairSpace(sp, rest.key, rest.value, comma).In?
      ensures PairsPending(ms, rest.rest, true, depth, out', all, PairSpace(sp, rest.key, rest.value, comma).sp, o)
    {
      assert Opened(true);
    }

    static lemma PairsEnd(ms: Members, rest: Members, comma: bool, depth: nat, out: seq<byte>, all: seq<byte>, sp: Space,
                          o: Outcome)
      requires PairsPending(ms, rest, comma, depth, out, all, sp, o) && rest.NoMembers?
      ensures MembersPrintable(ms, depth) && out == all && o == In(sp)
    {
      assert Opened(true);
    }

    /** The comma, if there is one, and the first pair of ms. */
    method AppendPair(ms: Members, comma: bool, depth: nat) returns (r: Step)
      requires Valid() && MembersExact(ms) && ms.Member?
      modifies json
      ensures var o := old(PairSpace(Now(), ms.key, ms.value, comma));
              && (r.Done? <==> Printable(ms.value, depth) && o.In?)
              && (r.Done? ==>
                    && Valid() && Now() == o.sp
                    && Output() + MembersLeft(ms.rest, true) == old(Output()) + MembersLeft(ms, comma))
              && (r.Refused? ==> Valid() && !Printable(ms.value, depth)) && (r.Lost? ==> !o.In?)
      decreases 1 + MembersDepth(ms), 0, 0
    {
      ghost var before := Output();
      if comma {
        var ok := json.AppendChar(44);
        if !ok {
          return Lost;
        }
      }
      var ok := AppendKey(ms.key);
      if !ok {
        return Lost;
      }
      r := AppendData(ms.value, depth);
      SeparatedPair(before, comma, KeyText(ms.key), Text(ms.value), MembersLeft(ms.rest, true));
    }

    /** The text still to come from item j on, its comma included. */
    static ghost function ItemsLeft(ms: Members, j: int, n: int): seq<byte>
      requires 1 <= j <= n + 1
    {
      if j == n + 1 then [] else (if j > 1 then [44] else []) + ItemsText(ms, j, n)
    }

    static ghost function MembersLeft(ms: Members, comma: bool): seq<byte> {
      if ms.NoMembers? then [] else (if comma then [44] else []) + MembersText(ms)
    }

    static lemma Bracketed(out: seq<byte>, a: byte, s: seq<byte>, b: byte)
      ensures out + [a] + s + [b] == out + ([a] + (s + [b]))
    {
    }

    static lemma NumberKey(out: seq<byte>, s: seq<byte>)
      ensures out + [QUOTE] + s + [QUOTE, 58] == out + ([QUOTE] + s + [QUOTE, 58])
    {
    }

    static lemma Separated(out: seq<byte>, comma: bool, t: seq<byte>, more: seq<byte>)
      ensures out + (if comma then [44] else []) + t + more == out + ((if comma then [44] else []) + (t + more))
      ensures out + t + more == out + ([] + (t + more))
    {
    }

    static lemma SeparatedPair(out: seq<byte>, comma: bool, key: seq<byte>, t: seq<byte>, more: seq<byte>)
      ensures out + (if comma then [44] else []) + key + t + more
              == out + ((if comma then [44] else []) + (key + (t + more)))
      ensures out + key + t + more == out + ([] + (key + (t + more)))
    {
    }

    /**
     * json_encode on a buffer that is kept between calls: the text of a value that prints inside the buffer, and
     * otherwise an error, after which the buffer can be used again, or the program is lost.
     */
    method Encode(v: Json) returns (r: Step, text: seq<byte>)
      requires Valid() && ExactNumbers(v)
      modifies json
      ensures var o := old(ValueSpace(Now().(length := 0), v));
              && (r.Done? <==> Printable(v, 0) && o.In?) && (r.Done? ==> Valid() && text == Text(v))
              && (r.Refused? ==> Valid() && !Printable(v, 0)) && (r.Lost? ==> !o.In?)
    {
      json.Reset();
      r := AppendData(v, 0);
      text := [];
      if r.Done? {
        assert [] + Text(v) == Text(v);
        text := json.buf[..json.length];
      }
    }
  }

  /** A new encoder is never lost on a value whose greatest demand fits the largest size. */
  method EncodeFresh(v: Json) returns (r: Step, text: seq<byte>)
    requires ExactNumbers(v)
    ensures Demand(v) + 1 <= OWN_LIMIT ==> r == if Printable(v, 0) then Done else Refused
    ensures r.Done? ==> Printable(v, 0) && text == Text(v)
  {
    var encoder := new Encoder();
    NewIsOwn();
    if Demand(v) + 1 <= OWN_LIMIT {
      ValueInside(encoder.Now(), v);
    }
    r, text := encoder.Encode(v);
  }

  lemma NewIsOwn()
    ensures Own(Space(DEFAULT_SIZE, 0, DEFAULT_INCREMENT))
  {
    assert DEFAULT_SIZE == DEFAULT_SIZE * Pow2(0);
  }
}
