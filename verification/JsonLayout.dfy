module JsonLayout {
  // White space between the tokens of a JSON text: it never matters, and other control characters are refused.

  import opened Wrappers
  import opened Hiding
  import opened Sequences
  import opened Bytes
  import opened Decimal
  import opened JsonText
  import opened Json
  import opened JsonRoundTrip

  /** Blanks, tabs, line feeds and carriage returns. */
  ghost predicate White(w: seq<byte>) {
    forall i :: 0 <= i < |w| ==> w[i] == 32 || w[i] == 9 || w[i] == 10 || w[i] == 13
  }

  /** The white space at each place of a text; a place is the path to it. */
  type Gaps = seq<int> -> seq<byte>

  ghost predicate AllWhite(g: Gaps) {
    forall d {:trigger Opened(d)} :: Opened(d) ==> forall p :: White(g(p))
  }

  lemma WhiteAt(g: Gaps, p: seq<int>)
    requires AllWhite(g)
    ensures White(g(p))
  {
    assert Opened(true);
  }

  // ---------------------------------------------------------------------------------------------------------
  // Texts with white space

  function Laid(v: Json, p: seq<int>, g: Gaps): seq<byte>
    decreases Depth(v), 0, 0
  {
    if !v.Table? then g(p + [0]) + Text(v)
    else
      var ms, shape := v.members, ShapeOf(v.members);
      if shape.Length? && shape.n > 0 then
        g(p + [0]) + ([91] + (LaidItems(ms, 1, shape.n, p, g) + (g(p + [1]) + [93])))
      else
        g(p + [0]) + ([123] + (LaidMembers(ms, p, g) + (g(p + [1]) + [125])))
  }

  function LaidItems(ms: Members, j: int, n: int, p: seq<int>, g: Gaps): seq<byte>
    requires 1 <= j <= n
    decreases MembersDepth(ms), 1, n - j
  {
    FindDepth(ms, Index(j));
    Laid(Find(ms, Index(j)), p + [2, j], g)
    + if j == n then [] else g(p + [3, j]) + ([44] + LaidItems(ms, j + 1, n, p, g))
  }

  function LaidKey(k: Key, before: seq<byte>, behind: seq<byte>): seq<byte> {
    before + (StrText(NameOf(k)) + (behind + [58]))
  }

  function LaidMembers(ms: Members, p: seq<int>, g: Gaps): seq<byte>
    decreases MembersDepth(ms), 1, Count(ms)
  {
    match ms
    case NoMembers => []
    case Member(k, v, rest) =>
      LaidKey(k, g(p + [4, Count(ms)]), g(p + [5, Count(ms)]))
      + (Laid(v, p + [6, Count(ms)], g)
         + if rest.NoMembers? then [] else g(p + [7, Count(ms)]) + ([44] + LaidMembers(rest, p, g)))
  }

  // ---------------------------------------------------------------------------------------------------------
  // Tokens and values behind white space

  lemma {:induction false} SpacesRun(w: seq<byte>, s: seq<byte>)
    requires White(w)
    ensures Spaces(w + s) == |w| + Spaces(s)
  {
    if w == [] {
      assert w + s == s;
    } else {
      assert (w + s)[1..] == w[1..] + s;
      SpacesRun(w[1..], s);
    }
  }

  lemma TokenSpaced(w: seq<byte>, s: seq<byte>, strtod: seq<byte> -> nat)
    requires White(w)
    ensures TokenAt(w + s, strtod) == (TokenAt(s, strtod).0, |w| + TokenAt(s, strtod).1)
    ensures forall n :: 0 <= n <= |s| ==> (w + s)[|w| + n..] == s[n..]
  {
    SpacesRun(w, s);
    TokenBehind(s, Spaces(s), strtod);
    TokenBehind(w + s, |w| + Spaces(s), strtod);
    assert (w + s)[|w| + Spaces(s)..] == s[Spaces(s)..];
  }

  lemma ValueSpaced(w: seq<byte>, s: seq<byte>, depth: nat, strtod: seq<byte> -> nat)
    requires White(w)
    ensures ValueAt(w + s, depth, strtod) == Beyond(|w|, ValueAt(s, depth, strtod))
  {
    TokenSpaced(w, s, strtod);
    var (t, n) := TokenAt(s, strtod);
    if t.ObjBegin? {
      ValueObject(s, depth, strtod);
      ValueObject(w + s, depth, strtod);
    } else if t.ArrBegin? {
      ValueArray(s, depth, strtod);
      ValueArray(w + s, depth, strtod);
    } else {
      ValueScalar(s, depth, strtod);
      ValueScalar(w + s, depth, strtod);
    }
  }

  lemma SignSpaced(w: seq<byte>, c: byte, rest: seq<byte>, strtod: seq<byte> -> nat)
    requires White(w) && c in {123, 125, 91, 93, 44, 58}
    ensures TokenAt(w + ([c] + rest), strtod)
            == (if c == 123 then ObjBegin else if c == 125 then ObjEnd else if c == 91 then ArrBegin
                else if c == 93 then ArrEnd else if c == 44 then Comma else Colon, |w| + 1)
    ensures (w + ([c] + rest))[|w| + 1..] == rest
  {
    TokenSpaced(w, [c] + rest, strtod);
    SignToken(c, rest, strtod);
  }

  // ---------------------------------------------------------------------------------------------------------
  // Reading

  lemma FollowsWhite(w: seq<byte>, rest: seq<byte>)
    requires White(w) && Follows(rest)
    ensures Follows(w + rest)
  {
    if w != [] {
      assert (w + rest)[0] == w[0];
    } else {
      assert w + rest == rest;
    }
  }

  lemma ItemLastLaid(t: seq<byte>, w: seq<byte>, rest: seq<byte>, v: Val, i: nat, m: map<Key, Val>, depth: nat,
                     strtod: seq<byte> -> nat)
    requires White(w) && ValueAt(t + (w + ([93] + rest)), depth, strtod) == Got(v, |t|)
    ensures ItemsAt(t + (w + ([93] + rest)), i, m, depth, strtod) == Got(VTable(m[Index(i) := v]), |t| + |w| + 1)
  {
    ItemsStep(t + (w + ([93] + rest)), i, m, depth, strtod);
    assert (t + (w + ([93] + rest)))[|t|..] == w + ([93] + rest);
    SignSpaced(w, 93, rest, strtod);
  }

  lemma ItemMoreLaid(t: seq<byte>, w: seq<byte>, rest: seq<byte>, v: Val, i: nat, m: map<Key, Val>, depth: nat,
                     strtod: seq<byte> -> nat)
    requires White(w) && ValueAt(t + (w + ([44] + rest)), depth, strtod) == Got(v, |t|)
    ensures ItemsAt(t + (w + ([44] + rest)), i, m, depth, strtod)
            == Beyond(|t| + |w| + 1, ItemsAt(rest, i + 1, m[Index(i) := v], depth, strtod))
  {
    ItemsStep(t + (w + ([44] + rest)), i, m, depth, strtod);
    assert (t + (w + ([44] + rest)))[|t|..] == w + ([44] + rest);
    Past(t, w, 44, rest);
    SignSpaced(w, 44, rest, strtod);
  }

  lemma Past(t: seq<byte>, w: seq<byte>, c: byte, rest: seq<byte>)
    ensures (t + (w + ([c] + rest)))[|t| + (|w| + 1)..] == rest
  {
  }

  /** A string and a colon behind it. */
  lemma KeyFrom(s: seq<byte>, name: seq<byte>, n: nat, k: nat, strtod: seq<byte> -> nat)
    requires TokenAt(s, strtod) == (Scalar(VStr(name)), n) && TokenAt(s[n..], strtod) == (Colon, k)
    ensures KeyAt(s, strtod) == Some((name, n + k))
  {
  }

  lemma KeyLaid(k: Key, a: seq<byte>, b: seq<byte>, rest: seq<byte>, strtod: seq<byte> -> nat)
    requires White(a) && White(b)
    ensures KeyAt(LaidKey(k, a, b) + rest, strtod) == Some((NameOf(k), |LaidKey(k, a, b)|))
    ensures (LaidKey(k, a, b) + rest)[|LaidKey(k, a, b)|..] == rest
  {
    var name := StrText(NameOf(k));
    var tail := b + ([58] + rest);
    KeyPieces(a, name, b, rest);
    TokenSpaced(a, name + tail, strtod);
    StrToken(NameOf(k), tail, strtod);
    SignSpaced(b, 58, rest, strtod);
    assert (name + tail)[|name|..] == tail;
    KeyFrom(a + (name + tail), NameOf(k), |a| + |name|, |b| + 1, strtod);
  }

  lemma KeyPieces(a: seq<byte>, name: seq<byte>, b: seq<byte>, rest: seq<byte>)
    ensures a + (name + (b + [58])) + rest == a + (name + (b + ([58] + rest)))
  {
  }

  lemma PairFrom(s: seq<byte>, key: seq<byte>, n: nat, l: nat, k: nat, v: Val, m: map<Key, Val>, depth: nat,
                 strtod: seq<byte> -> nat)
    requires KeyAt(s, strtod) == Some((key, n)) && n + l + k <= |s| && ValueAt(s[n..], depth, strtod) == Got(v, l)
    ensures TokenAt(s[n + l..], strtod) == (ObjEnd, k) ==>
              PairsAt(s, m, depth, strtod) == Got(VTable(m[Name(key) := v]), n + l + k)
    ensures TokenAt(s[n + l..], strtod) == (Comma, k) ==>
              PairsAt(s, m, depth, strtod)
              == Beyond(n + l + k, PairsAt(s[n + l + k..], m[Name(key) := v], depth, strtod))
  {
    PairsStep(s, m, depth, strtod);
  }

  /** A key, a value, white space and what ends the pair. */
  lemma PairLaid(key: seq<byte>, name: seq<byte>, t: seq<byte>, w: seq<byte>, c: byte, rest: seq<byte>, v: Val,
                 m: map<Key, Val>, depth: nat, strtod: seq<byte> -> nat)
    requires White(w) && c in {44, 125} && ValueAt(t + (w + ([c] + rest)), depth, strtod) == Got(v, |t|)
    requires KeyAt(key + (t + (w + ([c] + rest))), strtod) == Some((name, |key|))
    ensures PairsAt(key + (t + (w + ([c] + rest))), m, depth, strtod)
            == if c == 125 then Got(VTable(m[Name(name) := v]), |key| + |t| + (|w| + 1))
               else Beyond(|key| + |t| + (|w| + 1), PairsAt(rest, m[Name(name) := v], depth, strtod))
  {
    var s := key + (t + (w + ([c] + rest)));
    SignSpaced(w, c, rest, strtod);
    Behind(key, t, w + ([c] + rest));
    assert s[|key|..] == t + (w + ([c] + rest));
    Past(key + t, w, c, rest);
    Associative(key, t, w + ([c] + rest));
    PairFrom(s, name, |key|, |t|, |w| + 1, v, m, depth, strtod);
  }

  lemma {:induction false} LaidRead(v: Json, p: seq<int>, g: Gaps, rest: seq<byte>, depth: nat, strtod: seq<byte> -> nat)
    requires Encodable(v) && AllWhite(g) && Follows(rest) && Depth(v) + depth <= MAX_DEPTH
    ensures ValueAt(Laid(v, p, g) + rest, depth, strtod) == Got(Reading(v), |Laid(v, p, g)|)
    decreases Depth(v), 0, 1
  {
    var w := g(p + [0]);
    WhiteAt(g, p + [0]);
    if v.Table? {
      LaidTableRead(v.members, p, g, rest, depth, strtod);
    } else {
      ScalarRead(v, rest, depth, strtod);
      ValueSpaced(w, Text(v) + rest, depth, strtod);
      Associative(w, Text(v), rest);
    }
  }

  lemma {:induction false} LaidTableRead(ms: Members, p: seq<int>, g: Gaps, rest: seq<byte>, depth: nat,
                                         strtod: seq<byte> -> nat)
    requires Encodable(Table(ms)) && AllWhite(g) && Depth(Table(ms)) + depth <= MAX_DEPTH
    ensures ValueAt(Laid(Table(ms), p, g) + rest, depth, strtod) == Got(Reading(Table(ms)), |Laid(Table(ms), p, g)|)
    decreases 1 + MembersDepth(ms), 0, 0
  {
    var w, end := g(p + [0]), g(p + [1]);
    WhiteAt(g, p + [0]);
    WhiteAt(g, p + [1]);
    TableText(ms);
    LaidTable(ms, p, g);
    if ShapeOf(ms).Length? && ShapeOf(ms).n > 0 {
      LaidArrayRead(ms, ShapeOf(ms).n, w, p, g, end, rest, depth, strtod);
    } else {
      LaidObjectRead(ms, w, p, g, end, rest, depth, strtod);
    }
  }

  lemma LaidTable(ms: Members, p: seq<int>, g: Gaps)
    ensures var w, end, shape := g(p + [0]), g(p + [1]), ShapeOf(ms);
            Laid(Table(ms), p, g)
            == if shape.Length? && shape.n > 0 then w + ([91] + (LaidItems(ms, 1, shape.n, p, g) + (end + [93])))
               else w + ([123] + (LaidMembers(ms, p, g) + (end + [125])))
  {
  }

  lemma {:induction false} LaidArrayRead(ms: Members, n: int, w: seq<byte>, p: seq<int>, g: Gaps, end: seq<byte>,
                                         rest: seq<byte>, depth: nat, strtod: seq<byte> -> nat)
    requires MembersEncodable(ms) && AllWhite(g) && White(w) && White(end) && n >= 1
    requires MembersDepth(ms) + depth + 1 <= MAX_DEPTH
    ensures var items := LaidItems(ms, 1, n, p, g);
            ValueAt(w + ([91] + (items + (end + [93]))) + rest, depth, strtod)
            == Got(VTable(FillItems(ms, 1, n, map[])), |w| + |items| + |end| + 2)
    decreases MembersDepth(ms), 2, 0
  {
    var items, r := LaidItems(ms, 1, n, p, g), VTable(FillItems(ms, 1, n, map[]));
    LaidItemsRead(ms, 1, n, map[], p, g, end, rest, depth + 1, strtod);
    Associative(items, end, [93] + rest);
    ArrayRead(items + end, rest, r, depth, strtod);
    Bracketed(w, 91, items, end, 93, rest);
    ValueSpaced(w, [91] + (items + end + [93]) + rest, depth, strtod);
  }

  lemma {:induction false} LaidObjectRead(ms: Members, w: seq<byte>, p: seq<int>, g: Gaps, end: seq<byte>,
                                          rest: seq<byte>, depth: nat, strtod: seq<byte> -> nat)
    requires MembersEncodable(ms) && AllWhite(g) && White(w) && White(end)
    requires MembersDepth(ms) + depth + 1 <= MAX_DEPTH
    ensures var pairs := LaidMembers(ms, p, g);
            ValueAt(w + ([123] + (pairs + (end + [125]))) + rest, depth, strtod)
            == Got(VTable(FillMembers(ms, map[])), |w| + |pairs| + |end| + 2)
    decreases MembersDepth(ms), 2, 0
  {
    var pairs, r := LaidMembers(ms, p, g), VTable(FillMembers(ms, map[]));
    if ms.NoMembers? {
      NothingRead(end, rest, depth, strtod);
    } else {
      LaidMembersRead(ms, map[], p, g, end, rest, depth + 1, strtod);
      Associative(pairs, end, [125] + rest);
      ObjectRead(pairs + end, rest, r, depth, strtod);
    }
    Bracketed(w, 123, pairs, end, 125, rest);
    ValueSpaced(w, [123] + (pairs + end + [125]) + rest, depth, strtod);
  }

  lemma Bracketed(w: seq<byte>, open: byte, inner: seq<byte>, end: seq<byte>, close: byte, rest: seq<byte>)
    ensures w + ([open] + (inner + (end + [close]))) + rest == w + ([open] + (inner + end + [close]) + rest)
  {
    Associative(inner, end, [close]);
    Associative(w, [open] + (inner + end + [close]), rest);
  }

  /** No items and no pairs: white space between the brackets. */
  lemma NothingRead(end: seq<byte>, rest: seq<byte>, depth: nat, strtod: seq<byte> -> nat)
    requires White(end) && depth < MAX_DEPTH
    ensures ValueAt([123] + ([] + end + [125]) + rest, depth, strtod) == Got(VTable(map[]), |end| + 2)
    ensures ValueAt([91] + ([] + end + [93]) + rest, depth, strtod) == Got(VTable(map[]), |end| + 2)
  {
    var s, t := end + ([125] + rest), end + ([93] + rest);
    assert [123] + ([] + end + [125]) + rest == [123] + s && [91] + ([] + end + [93]) + rest == [91] + t;
    SignToken(123, s, strtod);
    SignToken(91, t, strtod);
    ValueObject([123] + s, depth, strtod);
    ValueArray([91] + t, depth, strtod);
    SignSpaced(end, 125, rest, strtod);
    SignSpaced(end, 93, rest, strtod);
  }

  lemma {:induction false} LaidItemsRead(ms: Members, j: int, n: int, m: map<Key, Val>, p: seq<int>, g: Gaps,
                                         end: seq<byte>, rest: seq<byte>, depth: nat, strtod: seq<byte> -> nat)
    requires MembersEncodable(ms) && AllWhite(g) && White(end) && 1 <= j <= n && MembersDepth(ms) + depth <= MAX_DEPTH
    ensures ItemsAt(LaidItems(ms, j, n, p, g) + (end + ([93] + rest)), j, m, depth, strtod)
            == Got(VTable(FillItems(ms, j, n, m)), |LaidItems(ms, j, n, p, g)| + |end| + 1)
    decreases MembersDepth(ms), 1, n - j
  {
    var item, q := Find(ms, Index(j)), p + [2, j];
    FindDepth(ms, Index(j));
    FindEncodable(ms, Index(j));
    var t := Laid(item, q, g);
    if j == n {
      FollowsWhite(end, [93] + rest);
      LaidRead(item, q, g, end + ([93] + rest), depth, strtod);
      ItemLastLaid(t, end, rest, Reading(item), j, m, depth, strtod);
      assert LaidItems(ms, j, n, p, g) == t;
    } else {
      var w, more := g(p + [3, j]), LaidItems(ms, j + 1, n, p, g);
      WhiteAt(g, p + [3, j]);
      var tail := more + (end + ([93] + rest));
      FollowsWhite(w, [44] + tail);
      LaidRead(item, q, g, w + ([44] + tail), depth, strtod);
      ItemMoreLaid(t, w, tail, Reading(item), j, m, depth, strtod);
      LaidItemsRead(ms, j + 1, n, m[Index(j) := Reading(item)], p, g, end, rest, depth, strtod);
      Comma4(t, w, more, end + ([93] + rest));
    }
  }

  lemma Comma4(t: seq<byte>, w: seq<byte>, more: seq<byte>, rest: seq<byte>)
    ensures t + (w + ([44] + more)) + rest == t + (w + ([44] + (more + rest)))
  {
    Associative([44], more, rest);
    Associative(w, [44] + more, rest);
    Associative(t, w + ([44] + more), rest);
  }

  lemma {:induction false} LaidMembersRead(ms: Members, m: map<Key, Val>, p: seq<int>, g: Gaps, end: seq<byte>,
                                           rest: seq<byte>, depth: nat, strtod: seq<byte> -> nat)
    requires MembersEncodable(ms) && AllWhite(g) && White(end) && ms.Member? && MembersDepth(ms) + depth <= MAX_DEPTH
    ensures PairsAt(LaidMembers(ms, p, g) + (end + ([125] + rest)), m, depth, strtod)
            == Got(VTable(FillMembers(ms, m)), |LaidMembers(ms, p, g)| + |end| + 1)
    decreases MembersDepth(ms), 1, Count(ms)
  {
    var k, v, c := ms.key, ms.value, Count(ms);
    var a, b, w, q := g(p + [4, c]), g(p + [5, c]), g(p + [7, c]), p + [6, c];
    WhiteAt(g, p + [4, c]);
    WhiteAt(g, p + [5, c]);
    WhiteAt(g, p + [7, c]);
    var all, tail := LaidMembers(ms, p, g), end + ([125] + rest);
    MemberParts(ms, depth, m);
    LaidMember(ms, p, g);
    if ms.rest.NoMembers? {
      LaidLastRead(k, v, a, b, q, g, end, rest, m, depth, strtod);
      assert PairsAt(all + tail, m, depth, strtod) == Got(VTable(FillMembers(ms, m)), |all| + |end| + 1);
    } else {
      var more := LaidMembers(ms.rest, p, g);
      LaidMoreRead(k, v, a, b, q, g, w, more, tail, m, depth, strtod);
      assert PairsAt(all + tail, m, depth, strtod)
          == Beyond(|LaidKey(k, a, b)| + |Laid(v, q, g)| + |w| + 1,
                    PairsAt(more + tail, m[Name(NameOf(k)) := Reading(v)], depth, strtod));
      LaidMembersRead(ms.rest, m[Name(NameOf(k)) := Reading(v)], p, g, end, rest, depth, strtod);
    }
  }

  lemma MemberParts(ms: Members, depth: nat, m: map<Key, Val>)
    requires MembersEncodable(ms) && ms.Member? && MembersDepth(ms) + depth <= MAX_DEPTH
    ensures Encodable(ms.value) && MembersEncodable(ms.rest)
    ensures Depth(ms.value) <= MembersDepth(ms) && MembersDepth(ms.rest) <= MembersDepth(ms) && Count(ms.rest) < Count(ms)
    ensures var m' := m[Name(NameOf(ms.key)) := Reading(ms.value)];
            FillMembers(ms, m) == FillMembers(ms.rest, m') && (ms.rest.NoMembers? ==> FillMembers(ms, m) == m')
  {
  }

  lemma LaidMember(ms: Members, p: seq<int>, g: Gaps)
    requires ms.Member?
    ensures var key := LaidKey(ms.key, g(p + [4, Count(ms)]), g(p + [5, Count(ms)]));
            var t, w := Laid(ms.value, p + [6, Count(ms)], g), g(p + [7, Count(ms)]);
            && (ms.rest.NoMembers? ==> LaidMembers(ms, p, g) == key + (t + []))
            && (ms.rest.Member? ==> LaidMembers(ms, p, g) == key + (t + (w + ([44] + LaidMembers(ms.rest, p, g))))
                                    && |LaidMembers(ms, p, g)| == |key| + |t| + |w| + 1 + |LaidMembers(ms.rest, p, g)|)
  {
  }

  lemma {:induction false} LaidLastRead(k: Key, v: Json, a: seq<byte>, b: seq<byte>, q: seq<int>, g: Gaps, end: seq<byte>,
                                        rest: seq<byte>, m: map<Key, Val>, depth: nat, strtod: seq<byte> -> nat)
    requires Encodable(v) && AllWhite(g) && White(a) && White(b) && White(end) && Depth(v) + depth <= MAX_DEPTH
    ensures var pair := LaidKey(k, a, b) + (Laid(v, q, g) + []);
            PairsAt(pair + (end + ([125] + rest)), m, depth, strtod)
            == Got(VTable(m[Name(NameOf(k)) := Reading(v)]), |pair| + |end| + 1)
    decreases Depth(v), 0, 2
  {
    FollowsWhite(end, [125] + rest);
    LaidRead(v, q, g, end + ([125] + rest), depth, strtod);
    KeyedLast(k, a, b, Laid(v, q, g), end, rest, Reading(v), m, depth, strtod);
  }

  lemma {:induction false} LaidMoreRead(k: Key, v: Json, a: seq<byte>, b: seq<byte>, q: seq<int>, g: Gaps, w: seq<byte>,
                                        more: seq<byte>, rest: seq<byte>, m: map<Key, Val>, depth: nat,
                                        strtod: seq<byte> -> nat)
    requires Encodable(v) && AllWhite(g) && White(a) && White(b) && White(w) && Depth(v) + depth <= MAX_DEPTH
    ensures PairsAt(LaidKey(k, a, b) + (Laid(v, q, g) + (w + ([44] + more))) + rest, m, depth, strtod)
            == Beyond(|LaidKey(k, a, b)| + |Laid(v, q, g)| + |w| + 1,
                      PairsAt(more + rest, m[Name(NameOf(k)) := Reading(v)], depth, strtod))
    decreases Depth(v), 0, 2
  {
    FollowsWhite(w, [44] + (more + rest));
    LaidRead(v, q, g, w + ([44] + (more + rest)), depth, strtod);
    KeyedMore(k, a, b, Laid(v, q, g), w, more, rest, Reading(v), m, depth, strtod);
  }

  lemma KeyedLast(k: Key, a: seq<byte>, b: seq<byte>, t: seq<byte>, end: seq<byte>, rest: seq<byte>, v: Val,
                  m: map<Key, Val>, depth: nat, strtod: seq<byte> -> nat)
    requires White(a) && White(b) && White(end) && ValueAt(t + (end + ([125] + rest)), depth, strtod) == Got(v, |t|)
    ensures PairsAt(LaidKey(k, a, b) + (t + []) + (end + ([125] + rest)), m, depth, strtod)
            == Got(VTable(m[Name(NameOf(k)) := v]), |LaidKey(k, a, b) + (t + [])| + |end| + 1)
  {
    var key, tail := LaidKey(k, a, b), end + ([125] + rest);
    KeyLaid(k, a, b, t + tail, strtod);
    PairLaid(key, NameOf(k), t, end, 125, rest, v, m, depth, strtod);
    Joined(key, t, [], tail);
  }

  lemma KeyedMore(k: Key, a: seq<byte>, b: seq<byte>, t: seq<byte>, w: seq<byte>, more: seq<byte>, rest: seq<byte>,
                  v: Val, m: map<Key, Val>, depth: nat, strtod: seq<byte> -> nat)
    requires White(a) && White(b) && White(w)
    requires ValueAt(t + (w + ([44] + (more + rest))), depth, strtod) == Got(v, |t|)
    ensures PairsAt(LaidKey(k, a, b) + (t + (w + ([44] + more))) + rest, m, depth, strtod)
            == Beyond(|LaidKey(k, a, b)| + |t| + |w| + 1, PairsAt(more + rest, m[Name(NameOf(k)) := v], depth, strtod))
  {
    var key := LaidKey(k, a, b);
    KeyLaid(k, a, b, t + (w + ([44] + (more + rest))), strtod);
    PairLaid(key, NameOf(k), t, w, 44, more + rest, v, m, depth, strtod);
    Comma4(t, w, more, rest);
    Joined(key, t, w + ([44] + more), rest);
  }

  lemma WhiteNoNul(w: seq<byte>)
    requires White(w)
    ensures NoNul(w)
  {
  }

  lemma GapNoNul(g: Gaps, p: seq<int>)
    requires AllWhite(g)
    ensures NoNul(g(p))
  {
    WhiteAt(g, p);
    WhiteNoNul(g(p));
  }

  lemma {:induction false} LaidNoNul(v: Json, p: seq<int>, g: Gaps)
    requires AllWhite(g)
    ensures NoNul(Laid(v, p, g))
    decreases Depth(v), 0, 1
  {
    GapNoNul(g, p + [0]);
    GapNoNul(g, p + [1]);
    if v.Table? {
      var ms, shape := v.members, ShapeOf(v.members);
      LaidTable(ms, p, g);
      if shape.Length? && shape.n > 0 {
        LaidItemsNoNul(ms, 1, shape.n, p, g);
        WrappedNoNul(g(p + [0]), 91, LaidItems(ms, 1, shape.n, p, g), g(p + [1]), 93);
      } else {
        LaidMembersNoNul(ms, p, g);
        WrappedNoNul(g(p + [0]), 123, LaidMembers(ms, p, g), g(p + [1]), 125);
      }
    } else {
      TextNoNul(v);
      NoNulJoin(g(p + [0]), Text(v));
    }
  }

  lemma WrappedNoNul(w: seq<byte>, open: byte, inner: seq<byte>, end: seq<byte>, close: byte)
    requires NoNul(w) && NoNul(inner) && NoNul(end) && open != 0 && close != 0
    ensures NoNul(w + ([open] + (inner + (end + [close]))))
  {
    NoNulJoin(end, [close]);
    NoNulJoin(inner, end + [close]);
    NoNulJoin([open], inner + (end + [close]));
    NoNulJoin(w, [open] + (inner + (end + [close])));
  }

  lemma KeyNoNul(k: Key, a: seq<byte>, b: seq<byte>)
    requires NoNul(a) && NoNul(b)
    ensures NoNul(LaidKey(k, a, b))
  {
    StrNoNul(NameOf(k));
    NoNulJoin(b, [58]);
    NoNulJoin(StrText(NameOf(k)), b + [58]);
    NoNulJoin(a, StrText(NameOf(k)) + (b + [58]));
  }

  lemma {:induction false} LaidItemsNoNul(ms: Members, j: int, n: int, p: seq<int>, g: Gaps)
    requires AllWhite(g) && 1 <= j <= n
    ensures NoNul(LaidItems(ms, j, n, p, g))
    decreases MembersDepth(ms), 1, n - j
  {
    FindDepth(ms, Index(j));
    LaidNoNul(Find(ms, Index(j)), p + [2, j], g);
    if j < n {
      GapNoNul(g, p + [3, j]);
      LaidItemsNoNul(ms, j + 1, n, p, g);
    }
  }

  lemma {:induction false} LaidMembersNoNul(ms: Members, p: seq<int>, g: Gaps)
    requires AllWhite(g)
    ensures NoNul(LaidMembers(ms, p, g))
    decreases MembersDepth(ms), 1, Count(ms)
  {
    match ms
    case NoMembers =>
    case Member(k, v, rest) =>
      GapNoNul(g, p + [4, Count(ms)]);
      GapNoNul(g, p + [5, Count(ms)]);
      GapNoNul(g, p + [7, Count(ms)]);
      KeyNoNul(k, g(p + [4, Count(ms)]), g(p + [5, Count(ms)]));
      LaidNoNul(v, p + [6, Count(ms)], g);
      LaidMembersNoNul(rest, p, g);
  }

  /**
   * White space before, between and behind the tokens: decoding gives the same value as decoding the bare text, for
   * every value that prints and any white space at each place.
   */
  lemma LayoutIrrelevant(v: Json, g: Gaps, strtod: seq<byte> -> nat)
    requires Encodable(v) && Printable(v, 0) && AllWhite(g)
    ensures Decode(Laid(v, [], g) + g([8]), strtod) == Decode(Text(v), strtod) == Some(Reading(v))
  {
    var t, end := Laid(v, [], g), g([8]);
    WhiteAt(g, [8]);
    DecodeText(v, strtod);
    PrintsUnlessDeep(v, 0);
    assert end + [] == end;
    FollowsWhite(end, []);
    LaidRead(v, [], g, end, 0, strtod);
    LaidNoNul(v, [], g);
    WhiteNoNul(end);
    NoNulJoin(t, end);
    assert (t + end)[|t|..] == end;
    TokenSpaced(end, [], strtod);
    TokenIs([], strtod);
  }

  // ---------------------------------------------------------------------------------------------------------
  // Other control characters

  /** A control character that is neither white space nor the end of the text. */
  predicate IsControl(c: byte) {
    0 < c < 32 && c != 9 && c != 10 && c != 13
  }

  /** Wherever such a character comes where a token is expected, the parser fails. */
  lemma ControlStops(w: seq<byte>, c: byte, rest: seq<byte>, t: seq<byte>, i: nat, m: map<Key, Val>, depth: nat,
                     strtod: seq<byte> -> nat)
    requires White(w) && IsControl(c)
    ensures var s := w + ([c] + rest);
            && TokenAt(s, strtod).0 == Wrong && ValueAt(s, depth, strtod) == Error && KeyAt(s, strtod) == None
            && AfterItem(t + s, |t|, i, m, depth, strtod) == Error && AfterPair(t + s, |t|, m, depth, strtod) == Error
  {
    var s := w + ([c] + rest);
    TokenSpaced(w, [c] + rest, strtod);
    TokenIs([c] + rest, strtod);
    ValueScalar(s, depth, strtod);
    assert (t + s)[|t|..] == s;
  }

  /** Before a value and behind one it makes the text invalid. */
  lemma ControlRefused(v: Json, w: seq<byte>, c: byte, rest: seq<byte>, strtod: seq<byte> -> nat)
    requires Encodable(v) && Printable(v, 0) && White(w) && IsControl(c)
    ensures Decode(w + ([c] + rest), strtod) == None && Decode(Text(v) + (w + ([c] + rest)), strtod) == None
  {
    var s := w + ([c] + rest);
    ControlStops(w, c, rest, [], 0, map[], 0, strtod);
    FollowsWhite(w, [c] + rest);
    PrintsUnlessDeep(v, 0);
    ValueRead(v, s, 0, strtod);
    assert (Text(v) + s)[|Text(v)|..] == s;
  }
}
