module JsonSpace {
  // The room the JSON encoder takes in its buffer: exactly when its unchecked appends stay inside.

  import opened Hiding
  import opened Bytes
  import opened Decimal
  import opened JsonText
  import opened Json
  import opened StrBuf

  const G_FMT_BUFSIZE := 32

  // ---------------------------------------------------------------------------------------------------------
  // Strings

  /** An escape goes through the checked strbuf_append_string, any other character is written without a check. */
  ghost function CharSpace(sp: Space, c: byte): (o: Outcome)
    requires Sound(sp)
    ensures o.In? ==> Sound(o.sp) && o.sp.length == sp.length + |Escape(c)| && o.sp.increment == sp.increment
  {
    if |Escape(c)| > 1 then Strung(sp, |Escape(c)|) else Put(sp, 1)
  }

  ghost function EscapedSpace(sp: Space, s: seq<byte>): (o: Outcome)
    requires Sound(sp)
    ensures o.In? ==> Sound(o.sp) && o.sp.length == sp.length + |Escaped(s)| && o.sp.increment == sp.increment
    decreases |s|
  {
    if s == [] then In(sp)
    else
      var o := CharSpace(sp, s[0]);
      if o.In? then EscapedSpace(o.sp, s[1..]) else o
  }

  /** Behind the reservation: a quote, the characters, a quote. */
  ghost function QuotedSpace(sp: Space, s: seq<byte>): (o: Outcome)
    requires Sound(sp)
    ensures o.In? ==> Sound(o.sp) && o.sp.length == sp.length + |StrText(s)| && o.sp.increment == sp.increment
  {
    var quote := Put(sp, 1);
    if !quote.In? then quote
    else
      var o := EscapedSpace(quote.sp, s);
      if o.In? then Put(o.sp, 1) else o
  }

  /** json_append_string, which reserves (int)(len * 6 + 2). */
  ghost function StrSpace(sp: Space, s: seq<byte>): (o: Outcome)
    requires Sound(sp)
    ensures o.In? ==> Sound(o.sp) && o.sp.length == sp.length + |StrText(s)| && o.sp.increment == sp.increment
  {
    var n := ToInt(|s| * 6 + 2);
    EnsuredSound(sp, n);
    EnsuredKeeps(sp, n);
    var o := Ensured(sp, n);
    if o.In? then QuotedSpace(o.sp, s) else o
  }

  lemma EnsuredKeeps(sp: Space, n: int)
    requires Sound(sp)
    ensures Ensured(sp, n).In? ==> Ensured(sp, n).sp.increment == sp.increment
  {
  }

  lemma CharInside(sp: Space, c: byte)
    requires Sound(sp) && sp.length + 6 < sp.size
    ensures CharSpace(sp, c) == In(sp.(length := sp.length + |Escape(c)|))
  {
    if |Escape(c)| > 1 {
      StrungInside(sp, |Escape(c)|);
    }
  }

  lemma EscapedLength(s: seq<byte>)
    requires s != []
    ensures |Escaped(s)| == |Escape(s[0])| + |Escaped(s[1..])|
  {
  }

  lemma StrTextLength(s: seq<byte>)
    ensures |StrText(s)| == |Escaped(s)| + 2 <= 6 * |s| + 2
  {
  }

  /** Where the room of the longest escapes is there, the loop neither grows the buffer nor leaves it. */
  lemma {:induction false} EscapedInside(sp: Space, s: seq<byte>)
    requires Sound(sp) && sp.length + 6 * |s| + 1 <= sp.size
    ensures EscapedSpace(sp, s) == In(sp.(length := sp.length + |Escaped(s)|))
    decreases |s|
  {
    if s != [] {
      CharInside(sp, s[0]);
      EscapedLength(s);
      var next := CharSpace(sp, s[0]).sp;
      EscapedInside(next, s[1..]);
      assert EscapedSpace(sp, s) == EscapedSpace(next, s[1..]);
    }
  }

  lemma {:induction false} StrungInside(sp: Space, n: nat)
    requires Sound(sp) && sp.length + n < sp.size
    ensures Strung(sp, n) == In(sp.(length := sp.length + n))
    decreases n
  {
    if n > 0 {
      StrungInside(sp.(length := sp.length + 1), n - 1);
    }
  }

  lemma QuotedInside(sp: Space, s: seq<byte>)
    requires Sound(sp) && sp.length + 6 * |s| + 3 <= sp.size
    ensures QuotedSpace(sp, s) == In(sp.(length := sp.length + |StrText(s)|))
  {
    var quote := sp.(length := sp.length + 1);
    assert Put(sp, 1) == In(quote);
    EscapedInside(quote, s);
    StrTextLength(s);
  }

  /** A string whose worst case fits the largest size is printed inside the buffer. */
  lemma StrInside(sp: Space, s: seq<byte>)
    requires Own(sp) && sp.length + 6 * |s| + 3 <= OWN_LIMIT
    ensures Sound(sp)
    ensures var o := StrSpace(sp, s); o.In? && Own(o.sp) && o.sp.length == sp.length + |StrText(s)|
  {
    OwnEnsured(sp, 6 * |s| + 2);
    OwnSound(Ensured(sp, 6 * |s| + 2).sp);
    QuotedInside(Ensured(sp, 6 * |s| + 2).sp, s);
  }

  lemma {:induction false} OwnEscaped(sp: Space, s: seq<byte>)
    requires Own(sp)
    ensures Sound(sp) && (EscapedSpace(sp, s).In? ==> Own(EscapedSpace(sp, s).sp))
    decreases |s|
  {
    OwnSound(sp);
    if s != [] {
      OwnStrung(sp, |Escape(s[0])|);
      if CharSpace(sp, s[0]).In? {
        OwnEscaped(CharSpace(sp, s[0]).sp, s[1..]);
      }
    }
  }

  /** Whatever has been printed fits the largest size. */
  lemma OwnStr(sp: Space, s: seq<byte>)
    requires Own(sp)
    ensures Sound(sp) && (StrSpace(sp, s).In? ==> sp.length + |StrText(s)| <= OWN_LIMIT)
  {
    OwnSound(sp);
    var n := ToInt(|s| * 6 + 2);
    if Ensured(sp, n).In? {
      if n > sp.size - sp.length - 1 {
        OwnEnsured(sp, n);
      }
      var e := Ensured(sp, n).sp;
      OwnSound(e);
      if e.length < e.size {
        var quote := Put(e, 1).sp;
        OwnEscaped(quote, s);
        if EscapedSpace(quote, s).In? {
          OwnSound(EscapedSpace(quote, s).sp);
        }
      }
    }
  }

  function Repeated(c: byte, n: nat): (s: seq<byte>)
    ensures |s| == n
  {
    if n == 0 then [] else [c] + Repeated(c, n - 1)
  }

  /** n control characters print as 6 * n characters. */
  lemma {:induction false} ControlText(n: nat)
    ensures |Escaped(Repeated(1, n))| == 6 * n
  {
    if n > 0 {
      ControlText(n - 1);
      assert Repeated(1, n)[1..] == Repeated(1, n - 1);
    }
  }

  /** And whose worst case does not has a string that is not: n control characters. */
  lemma ControlLeaves(sp: Space, n: nat)
    requires Own(sp) && sp.length + 6 * n + 3 > OWN_LIMIT
    ensures Sound(sp) && !StrSpace(sp, Repeated(1, n)).In?
  {
    OwnSound(sp);
    ControlText(n);
    StrTextLength(Repeated(1, n));
    OwnStr(sp, Repeated(1, n));
    if 6 * n + 2 < INT_LIMIT {
      OwnEnsured(sp, 6 * n + 2);
    }
  }

  /**
   * In a buffer of the encoder's own: every string of n bytes is printed without leaving the buffer or an int if and
   * only if its worst case, with the two quotes and a NUL, fits the largest size that doubling reaches.
   */
  lemma StringsInsideExactly(sp: Space, n: nat)
    requires Own(sp)
    ensures Sound(sp)
    ensures (forall s: seq<byte> :: |s| == n ==> StrSpace(sp, s).In?) <==> sp.length + 6 * n + 3 <= OWN_LIMIT
  {
    OwnSound(sp);
    if sp.length + 6 * n + 3 <= OWN_LIMIT {
      forall s: seq<byte> | |s| == n
        ensures StrSpace(sp, s).In?
      {
        StrInside(sp, s);
      }
    } else {
      ControlLeaves(sp, n);
    }
  }

  /** n plain characters are written without a check of the room. */
  lemma {:induction false} PlainSpace(sp: Space, n: nat)
    requires Sound(sp)
    ensures EscapedSpace(sp, Repeated(97, n)) == Put(sp, n)
    decreases n
  {
    if n > 0 {
      assert Repeated(97, n)[1..] == Repeated(97, n - 1) && |Escape(97)| == 1;
      if sp.length < sp.size {
        PlainSpace(sp.(length := sp.length + 1), n - 1);
      }
    }
  }

  /**
   * From 357913941 bytes on len * 6 + 2 is negative as an int (until it wraps to positive values again): nothing is
   * reserved, and plain characters are written outside the new buffer of 1023 bytes.
   */
  lemma PlainStringLeaves(n: nat)
    requires INT_LIMIT <= 6 * n + 2 < 2 * INT_LIMIT
    ensures ToInt(6 * n + 2) < 0
    ensures StrSpace(Space(DEFAULT_SIZE, 0, DEFAULT_INCREMENT), Repeated(97, n)) == Outside
  {
    PlainSpace(Space(DEFAULT_SIZE, 1, DEFAULT_INCREMENT), n);
  }

  lemma FirstLengthThatLeaves()
    ensures StrSpace(Space(DEFAULT_SIZE, 0, DEFAULT_INCREMENT), Repeated(97, 357_913_941)) == Outside
  {
    PlainStringLeaves(357_913_941);
  }

  // ---------------------------------------------------------------------------------------------------------
  // Values

  /** json_append_number: room for 32 characters is ensured. */
  ghost function NumSpace(sp: Space, i: int): (o: Outcome)
    requires Sound(sp)
    ensures o.In? ==> Sound(o.sp) && o.sp.increment == sp.increment
  {
    EnsuredSound(sp, G_FMT_BUFSIZE);
    EnsuredKeeps(sp, G_FMT_BUFSIZE);
    var o := Ensured(sp, G_FMT_BUFSIZE);
    if o.In? then Put(o.sp, |IntText(i)|) else o
  }

  ghost function MemSpace(sp: Space, n: nat): (o: Outcome)
    requires Sound(sp)
    ensures o.In? ==> Sound(o.sp) && o.sp.increment == sp.increment
  {
    AppendedSound(sp, n);
    Appended(sp, n)
  }

  ghost function KeySpace(sp: Space, k: Key): (o: Outcome)
    requires Sound(sp)
    ensures o.In? ==> Sound(o.sp) && o.sp.increment == sp.increment
  {
    match k
    case Name(s) =>
      var o := StrSpace(sp, s);
      if o.In? then MemSpace(o.sp, 1) else o
    case Index(i) =>
      var quote := MemSpace(sp, 1);
      if !quote.In? then quote
      else
        var o := NumSpace(quote.sp, i);
        if o.In? then MemSpace(o.sp, 2) else o
  }

  /** json_append_data */
  ghost function ValueSpace(sp: Space, v: Json): (o: Outcome)
    requires Sound(sp)
    ensures o.In? ==> Sound(o.sp) && o.sp.increment == sp.increment
    decreases Depth(v), 0, 0
  {
    match v
    case Null => MemSpace(sp, 4)
    case Bool(b) => MemSpace(sp, if b then 4 else 5)
    case Int(i) => NumSpace(sp, i)
    case Str(s) => StrSpace(sp, s)
    case Table(ms) =>
      var shape := ShapeOf(ms);
      var open := MemSpace(sp, 1);
      if shape.Uncounted? then Overflow
      else if !open.In? then open
      else
        var o := if shape.Length? && shape.n > 0 then ItemsSpace(open.sp, ms, 1, shape.n)
                 else MembersSpace(open.sp, ms, false);
        if o.In? then MemSpace(o.sp, 1) else o
  }

  ghost function CommaSpace(sp: Space, comma: bool): (o: Outcome)
    requires Sound(sp)
    ensures o.In? ==> Sound(o.sp) && o.sp.increment == sp.increment
  {
    if comma then MemSpace(sp, 1) else In(sp)
  }

  /** A value, behind a comma if there is one. */
  ghost function ItemSpace(sp: Space, v: Json, comma: bool): (o: Outcome)
    requires Sound(sp)
    ensures o.In? ==> Sound(o.sp) && o.sp.increment == sp.increment
    decreases Depth(v), 0, 1
  {
    var sep := CommaSpace(sp, comma);
    if sep.In? then ValueSpace(sep.sp, v) else sep
  }

  /** Items j to n, each but the first behind a comma. */
  ghost function ItemsSpace(sp: Space, ms: Members, j: int, n: int): (o: Outcome)
    requires Sound(sp) && 1 <= j <= n + 1
    ensures o.In? ==> Sound(o.sp) && o.sp.increment == sp.increment
    decreases MembersDepth(ms), 1, n + 1 - j
  {
    if j == n + 1 then In(sp)
    else
      FindDepth(ms, Index(j));
      var o := ItemSpace(sp, Find(ms, Index(j)), j > 1);
      if o.In? then ItemsSpace(o.sp, ms, j + 1, n) else o
  }

  ghost function PairSpace(sp: Space, k: Key, v: Json, comma: bool): (o: Outcome)
    requires Sound(sp)
    ensures o.In? ==> Sound(o.sp) && o.sp.increment == sp.increment
    decreases Depth(v), 0, 1
  {
    var sep := CommaSpace(sp, comma);
    if !sep.In? then sep
    else
      var key := KeySpace(sep.sp, k);
      if key.In? then ValueSpace(key.sp, v) else key
  }

  ghost function MembersSpace(sp: Space, ms: Members, comma: bool): (o: Outcome)
    requires Sound(sp)
    ensures o.In? ==> Sound(o.sp) && o.sp.increment == sp.increment
    decreases MembersDepth(ms), 1, Count(ms)
  {
    match ms
    case NoMembers => In(sp)
    case Member(k, v, rest) =>
      var o := PairSpace(sp, k, v, comma);
      if o.In? then MembersSpace(o.sp, rest, true) else o
  }

  /** The most room a value can take; a table that is not counted takes more than there is. */
  function Demand(v: Json): nat
    decreases Depth(v), 0, 0
  {
    match v
    case Null => 4
    case Bool(_) => 5
    case Int(_) => G_FMT_BUFSIZE
    case Str(s) => 6 * |s| + 2
    case Table(ms) =>
      var shape := ShapeOf(ms);
      if shape.Uncounted? then OWN_LIMIT
      else 2 + if shape.Length? && shape.n > 0 then ItemsDemand(ms, 1, shape.n) else MembersDemand(ms)
  }

  function ItemsDemand(ms: Members, j: int, n: int): nat
    requires 1 <= j <= n + 1
    decreases MembersDepth(ms), 1, n + 1 - j
  {
    if j == n + 1 then 0
    else
      FindDepth(ms, Index(j));
      1 + Demand(Find(ms, Index(j))) + ItemsDemand(ms, j + 1, n)
  }

  function MembersDemand(ms: Members): nat
    decreases MembersDepth(ms), 1, Count(ms)
  {
    match ms
    case NoMembers => 0
    case Member(k, v, rest) => 1 + KeyDemand(k) + Demand(v) + MembersDemand(rest)
  }

  function KeyDemand(k: Key): nat {
    if k.Name? then 6 * |k.s| + 3 else G_FMT_BUFSIZE + 3
  }

  /** The step from sp to o stays inside and takes at most n characters. */
  ghost predicate Takes(sp: Space, o: Outcome, n: nat) {
    o.In? && Own(o.sp) && o.sp.length <= sp.length + n
  }

  lemma MemInside(sp: Space, n: nat)
    requires Own(sp) && sp.length + n + 1 <= OWN_LIMIT
    ensures Sound(sp) && Takes(sp, MemSpace(sp, n), n)
  {
    OwnEnsured(sp, n);
  }

  lemma IntTextShort(i: int)
    requires Exact(i)
    ensures |IntText(i)| <= 15
  {
    Pow10Values();
    DecimalLength(if i < 0 then -i else i, 14);
  }

  lemma NumInside(sp: Space, i: int)
    requires Own(sp) && Exact(i) && sp.length + G_FMT_BUFSIZE + 1 <= OWN_LIMIT
    ensures Sound(sp) && Takes(sp, NumSpace(sp, i), G_FMT_BUFSIZE)
  {
    OwnEnsured(sp, G_FMT_BUFSIZE);
    IntTextShort(i);
  }

  lemma KeyInside(sp: Space, k: Key)
    requires Own(sp) && (k.Index? ==> Exact(k.i)) && sp.length + KeyDemand(k) + 1 <= OWN_LIMIT
    ensures Sound(sp) && Takes(sp, KeySpace(sp, k), KeyDemand(k))
  {
    OwnSound(sp);
    match k
    case Name(s) =>
      StrInside(sp, s);
      StrTextLength(s);
      MemInside(StrSpace(sp, s).sp, 1);
    case Index(i) =>
      MemInside(sp, 1);
      var quote := MemSpace(sp, 1).sp;
      NumInside(quote, i);
      MemInside(NumSpace(quote, i).sp, 2);
  }

  /** A value whose greatest demand fits the largest size is printed inside the buffer. */
  lemma {:induction false} ValueInside(sp: Space, v: Json)
    requires Own(sp) && ExactNumbers(v) && sp.length + Demand(v) + 1 <= OWN_LIMIT
    ensures Sound(sp) && Takes(sp, ValueSpace(sp, v), Demand(v))
    decreases Depth(v), 0, 1
  {
    OwnSound(sp);
    match v
    case Null => MemInside(sp, 4);
    case Bool(b) => MemInside(sp, if b then 4 else 5);
    case Int(i) => NumInside(sp, i);
    case Str(s) =>
      StrInside(sp, s);
      StrTextLength(s);
    case Table(ms) => TableInside(sp, ms);
  }

  lemma {:induction false} TableInside(sp: Space, ms: Members)
    requires Own(sp) && MembersExact(ms) && sp.length + Demand(Table(ms)) + 1 <= OWN_LIMIT
    ensures Sound(sp) && Takes(sp, ValueSpace(sp, Table(ms)), Demand(Table(ms)))
    decreases 1 + MembersDepth(ms), 0, 0
  {
    OwnSound(sp);
    MemInside(sp, 1);
    var open, shape := MemSpace(sp, 1).sp, ShapeOf(ms);
    OwnSound(open);
    if shape.Length? && shape.n > 0 {
      ItemsInside(open, ms, 1, shape.n);
      MemInside(ItemsSpace(open, ms, 1, shape.n).sp, 1);
    } else {
      MembersInside(open, ms, false);
      MemInside(MembersSpace(open, ms, false).sp, 1);
    }
  }

  lemma CommaInside(sp: Space, comma: bool)
    requires Own(sp) && sp.length + 2 <= OWN_LIMIT
    ensures Sound(sp) && Takes(sp, CommaSpace(sp, comma), 1)
  {
    MemInside(sp, 1);
  }

  lemma {:induction false} ItemInside(sp: Space, v: Json, comma: bool)
    requires Own(sp) && ExactNumbers(v) && sp.length + 1 + Demand(v) + 1 <= OWN_LIMIT
    ensures Sound(sp) && Takes(sp, ItemSpace(sp, v, comma), 1 + Demand(v))
    decreases Depth(v), 0, 2
  {
    CommaInside(sp, comma);
    ValueInside(CommaSpace(sp, comma).sp, v);
  }

  lemma {:induction false} ItemsInside(sp: Space, ms: Members, j: int, n: int)
    requires Own(sp) && MembersExact(ms) && 1 <= j <= n + 1 && sp.length + ItemsDemand(ms, j, n) + 1 <= OWN_LIMIT
    ensures Sound(sp) && Takes(sp, ItemsSpace(sp, ms, j, n), ItemsDemand(ms, j, n))
    decreases MembersDepth(ms), 1, n + 1 - j
  {
    OwnSound(sp);
    if j <= n {
      FindDepth(ms, Index(j));
      FindExact(ms, Index(j));
      ItemInside(sp, Find(ms, Index(j)), j > 1);
      ItemsInside(ItemSpace(sp, Find(ms, Index(j)), j > 1).sp, ms, j + 1, n);
    }
  }

  lemma {:induction false} PairInside(sp: Space, k: Key, v: Json, comma: bool)
    requires Own(sp) && ExactNumbers(v) && (k.Index? ==> Exact(k.i))
    requires sp.length + 1 + KeyDemand(k) + Demand(v) + 1 <= OWN_LIMIT
    ensures Sound(sp) && Takes(sp, PairSpace(sp, k, v, comma), 1 + KeyDemand(k) + Demand(v))
    decreases Depth(v), 0, 2
  {
    CommaInside(sp, comma);
    var sep := CommaSpace(sp, comma).sp;
    KeyInside(sep, k);
    ValueInside(KeySpace(sep, k).sp, v);
  }

  lemma {:induction false} MembersInside(sp: Space, ms: Members, comma: bool)
    requires Own(sp) && MembersExact(ms) && sp.length + MembersDemand(ms) + 1 <= OWN_LIMIT
    ensures Sound(sp) && Takes(sp, MembersSpace(sp, ms, comma), MembersDemand(ms))
    decreases MembersDepth(ms), 1, Count(ms)
  {
    OwnSound(sp);
    match ms
    case NoMembers =>
    case Member(k, v, rest) =>
      PairInside(sp, k, v, comma);
      MembersInside(PairSpace(sp, k, v, comma).sp, rest, true);
  }
}
