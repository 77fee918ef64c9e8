// Skipping unknown fields: mutual recursion of pb_skipvalue and pb_readgroup over nested groups.
module PbSkip {
  import opened Hiding
  import opened Bytes
  import opened PbVarint
  import opened PbSlice

  const VARINT := 0
  const FIXED64 := 1
  const BYTES := 2
  const GROUP_START := 3
  const GROUP_END := 4
  const FIXED32 := 5

  // ---------------------------------------------------------------------------------------------------------
  // What is skipped

  /** Bytes taken by a varint of any length; 0 if it does not end. */
  ghost function VarintSpan(s: seq<byte>): (n: nat)
    ensures n <= |s|
  {
    Extent(s, |s|)
  }

  // RawValueSpan and RawGroupSpan are used under the closed names ValueSpan and GroupSpan below.

  /** Bytes taken by the value behind `tag`; 0 if there is none. */
  ghost function RawValueSpan(s: seq<byte>, tag: nat): (n: nat)
    ensures n <= |s|
    decreases |s|, 1
  {
    if tag % 8 == VARINT then VarintSpan(s)
    else if tag % 8 == FIXED64 then if |s| < 8 then 0 else 8
    else if tag % 8 == BYTES then BytesAt(s).1
    else if tag % 8 == FIXED32 then if |s| < 4 then 0 else 4
    else if tag % 8 == GROUP_START then RawGroupSpan(s, tag).0
    else 0
  }

  /** The spans of a group whose first `at` bytes are fields; no end is no end. */
  ghost function After(at: nat, r: (nat, nat)): (nat, nat) {
    if r.0 == 0 then (0, 0) else (at + r.0, at + r.1)
  }

  /**
   * Bytes taken by the rest of a group up to and including its end tag, and the length of its content; 0 if no
   * matching end tag comes first. A field whose value cannot be skipped takes no bytes and does not end the group.
   */
  ghost function RawGroupSpan(s: seq<byte>, tag: nat): (r: (nat, nat))
    ensures r.1 <= r.0 <= |s|
    decreases |s|, 0
  {
    match Varint32At(s)
    case Fail => (0, 0)
    case Got(newtag, count) =>
      if newtag % 8 == GROUP_END then
        if newtag / 8 != tag / 8 then (0, 0) else (count, 0)
      else
        var k := count + RawValueSpan(s[count..], newtag);
        After(k, RawGroupSpan(s[k..], tag))
  }

  ghost predicate ValueSpans(s: seq<byte>, tag: nat, n: nat) {
    n <= |s| && forall d {:trigger Opened(d)} :: Opened(d) ==> n == RawValueSpan(s, tag)
  }

  ghost function ValueSpan(s: seq<byte>, tag: nat): (n: nat)
    ensures ValueSpans(s, tag, n)
  {
    assert ValueSpans(s, tag, RawValueSpan(s, tag));
    var n :| ValueSpans(s, tag, n);
    n
  }

  ghost predicate GroupSpans(s: seq<byte>, tag: nat, r: (nat, nat)) {
    r.1 <= r.0 <= |s| && forall d {:trigger Opened(d)} :: Opened(d) ==> r == RawGroupSpan(s, tag)
  }

  ghost function GroupSpan(s: seq<byte>, tag: nat): (r: (nat, nat))
    ensures GroupSpans(s, tag, r)
  {
    assert GroupSpans(s, tag, RawGroupSpan(s, tag));
    var r :| GroupSpans(s, tag, r);
    r
  }

  /** ValueSpan by wire type. */
  lemma ValueUnfold(s: seq<byte>, tag: nat)
    ensures tag % 8 == VARINT ==> ValueSpan(s, tag) == VarintSpan(s)
    ensures tag % 8 == FIXED64 ==> ValueSpan(s, tag) == if |s| < 8 then 0 else 8
    ensures tag % 8 == BYTES ==> ValueSpan(s, tag) == BytesAt(s).1
    ensures tag % 8 == FIXED32 ==> ValueSpan(s, tag) == if |s| < 4 then 0 else 4
    ensures tag % 8 == GROUP_START ==> ValueSpan(s, tag) == GroupSpan(s, tag).0
    ensures tag % 8 == GROUP_END || tag % 8 > FIXED32 ==> ValueSpan(s, tag) == 0
  {
    assert Opened(true);
  }

  method SkipVarint(s: Slice) returns (ret: nat)
    requires s.Valid()
    modifies s
    ensures s.Valid() && ret == VarintSpan(old(s.Rest())) && s.p == old(s.p) + ret
  {
    var p: nat := s.p;
    ghost var rest := s.Rest();
    while p < |s.data| && s.data[p] >= 0x80
      invariant s.p == old(s.p) <= p <= |s.data|
      invariant forall i :: 0 <= i < p - s.p ==> rest[i] >= 0x80
    {
      p := p + 1;
    }
    ExtentIs(rest, p - s.p, |rest|);
    if p >= |s.data| {
      return 0;
    }
    p := p + 1;
    ret := p - s.p;
    s.p := p;
  }

  method SkipBytes(s: Slice) returns (ret: nat)
    requires s.Valid()
    modifies s
    ensures s.Valid() && ret == BytesAt(old(s.Rest())).1 && s.p == old(s.p) + ret
  {
    var p := s.p;
    var len := s.ReadVarint64();
    if len.Fail? {
      return 0;
    }
    if |s.data| - s.p < len.value {
      s.p := p;
      return 0;
    }
    s.p := s.p + len.value;
    return s.p - p;
  }

  method SkipSlice(s: Slice, len: nat) returns (ret: nat)
    requires s.Valid()
    modifies s
    ensures s.Valid() && ret == (if |old(s.Rest())| < len then 0 else len) && s.p == old(s.p) + ret
  {
    if s.p + len > |s.data| {
      return 0;
    }
    s.p := s.p + len;
    return len;
  }

  method SkipValue(s: Slice, tag: nat) returns (ret: nat)
    requires s.Valid()
    modifies s
    ensures s.Valid() && ret == ValueSpan(old(s.Rest()), tag) && s.p == old(s.p) + ret
    decreases |s.data| - s.p, 1
  {
    ret := 0;
    ValueUnfold(s.Rest(), tag);
    if tag % 8 == VARINT {
      ret := SkipVarint(s);
    } else if tag % 8 == FIXED64 {
      ret := SkipSlice(s, 8);
    } else if tag % 8 == BYTES {
      ret := SkipBytes(s);
    } else if tag % 8 == FIXED32 {
      ret := SkipSlice(s, 4);
    } else if tag % 8 == GROUP_START {
      var end: nat;
      ret, end := ReadGroup(s, tag);
    }
  }

  /** A group's scan has come to offset `at`. */
  ghost predicate Scanned(all: seq<byte>, at: nat, tag: nat) {
    && at <= |all|
    && forall d {:trigger Opened(d)} :: Opened(d) ==> GroupSpan(all, tag) == After(at, GroupSpan(all[at..], tag))
  }

  ghost function Plus(at: nat, k: nat): nat {
    at + k
  }

  lemma ScanStart(all: seq<byte>, tag: nat)
    ensures Scanned(all, 0, tag)
  {
    assert all[0..] == all;
    ContentBelow(all, tag);
  }

  lemma ContentBelow(all: seq<byte>, tag: nat)
    ensures GroupSpan(all, tag).0 == 0 ==> GroupSpan(all, tag).1 == 0
  {
    assert Opened(true);
  }

  lemma GroupUnfold(s: seq<byte>, tag: nat)
    requires Varint32At(s).Got? && Varint32At(s).value % 8 != GROUP_END
    ensures var t := Varint32At(s);
            var k := t.used + ValueSpan(s[t.used..], t.value);
            k <= |s| && GroupSpan(s, tag) == After(k, GroupSpan(s[k..], tag))
  {
    assert Opened(true);
  }

  lemma EndUnfold(s: seq<byte>, tag: nat)
    requires Varint32At(s).Got? && Varint32At(s).value % 8 == GROUP_END
    ensures GroupSpan(s, tag) == if Varint32At(s).value / 8 != tag / 8 then (0, 0) else (Varint32At(s).used, 0)
  {
    assert Opened(true);
  }

  lemma AfterAfter(at: nat, k: nat, r: (nat, nat))
    ensures After(at, After(k, r)) == After(at + k, r)
  {
  }

  /** Past one more field: its tag, and as much of its value as could be skipped. */
  lemma ScanField(all: seq<byte>, at: nat, tag: nat, t: Read, k: nat)
    requires Scanned(all, at, tag) && t == Varint32At(all[at..]) && t.Got? && t.value % 8 != GROUP_END
    requires k == t.used + ValueSpan(all[at..][t.used..], t.value)
    ensures Scanned(all, Plus(at, k), tag)
  {
    GroupUnfold(all[at..], tag);
    assert all[at..][k..] == all[at + k..];
    AfterAfter(at, k, GroupSpan(all[at + k..], tag));
    assert Opened(true);
  }

  lemma FailUnfold(s: seq<byte>, tag: nat)
    requires Varint32At(s) == Fail
    ensures GroupSpan(s, tag) == (0, 0)
  {
    assert Opened(true);
  }

  /** The scan ends at a tag that cannot be read, at a foreign end tag, or at the group's own. */
  lemma ScanEnd(all: seq<byte>, at: nat, tag: nat, t: Read)
    requires Scanned(all, at, tag) && t == Varint32At(all[at..]) && (t.Got? ==> t.value % 8 == GROUP_END)
    ensures t.Fail? || t.value / 8 != tag / 8 ==> GroupSpan(all, tag) == (0, 0)
    ensures t.Got? && t.value / 8 == tag / 8 ==> GroupSpan(all, tag) == (at + t.used, at)
  {
    if t.Fail? {
      FailUnfold(all[at..], tag);
    } else {
      EndUnfold(all[at..], tag);
    }
    assert Opened(true);
  }

  /** The content of the group is the first `content` bytes from where the cursor was. */
  method ReadGroup(s: Slice, tag: nat) returns (ret: nat, content: nat)
    requires s.Valid() && tag % 8 == GROUP_START
    modifies s
    ensures s.Valid() && (ret, content) == GroupSpan(old(s.Rest()), tag) && s.p == old(s.p) + ret
    decreases |s.data| - s.p, 0
  {
    var p: nat := s.p;
    ghost var all := s.Rest();
    ghost var at: nat := 0;
    ScanStart(all, tag);
    while true
      invariant s.Valid() && p == old(s.p) && s.p == p + at && all == s.data[p..] && Scanned(all, at, tag)
      decreases |s.data| - s.p
    {
      assert s.data[s.p..] == all[at..];
      var newtag := s.ReadVarint32();
      if newtag.Fail? || newtag.value % 8 == GROUP_END {
        ScanEnd(all, at, tag, newtag);
      }
      if newtag.Fail? {
        break;
      }
      if newtag.value % 8 == GROUP_END {
        if newtag.value / 8 != tag / 8 {
          break;
        }
        return s.p - p, s.p - newtag.used - p;
      }
      assert s.data[s.p..] == all[at..][newtag.used..];
      var skipped := SkipValue(s, newtag.value);
      ghost var k: nat := newtag.used + skipped;
      ScanField(all, at, tag, newtag, k);
      at := Plus(at, k);
    }
    s.p := p;
    return 0, 0;
  }
}
