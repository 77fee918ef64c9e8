module JsonScratch {
  // The room the JSON parser takes in its scratch buffer, which it never checks: exactly when it stays inside.

  import opened Wrappers
  import opened Hiding
  import opened Bytes
  import opened JsonText
  import opened StrBuf

  /** Decoding the string at s, behind the opening quote, writes no more than `room` bytes, its NUL included. */
  ghost predicate RawFits(s: seq<byte>, room: int)
    decreases |s|
  {
    var c := At(s, 0);
    if c == 0 then true
    else if c == QUOTE then room >= 1
    else if c == BACKSLASH then
      var e := Unescape(At(s, 1));
      if e == 0 then true
      else if e == LETTER_U then
        match UnicodeAt(s)
        case None => true
        case Some(u) => |u.0| <= room && RawFits(s[u.1..], room - |u.0|)
      else room >= 1 && RawFits(s[2..], room - 1)
    else room >= 1 && RawFits(s[1..], room - 1)
  }

  ghost predicate IsFit(s: seq<byte>, room: int, b: bool) {
    forall d {:trigger Opened(d)} :: Opened(d) ==> b == RawFits(s, room)
  }

  /** RawFits, kept closed. */
  ghost function Fits(s: seq<byte>, room: int): (b: bool)
    ensures IsFit(s, room, b)
  {
    assert IsFit(s, room, RawFits(s, room));
    var b :| IsFit(s, room, b);
    b
  }

  lemma FitsStep(s: seq<byte>, room: int)
    ensures At(s, 0) == 0 ==> Fits(s, room)
    ensures At(s, 0) == QUOTE ==> (Fits(s, room) <==> room >= 1)
    ensures At(s, 0) != 0 && At(s, 0) != QUOTE && At(s, 0) != BACKSLASH ==>
              |s| >= 1 && (Fits(s, room) <==> room >= 1 && Fits(s[1..], room - 1))
  {
    assert Opened(true);
  }

  lemma FitsEscape(s: seq<byte>, room: int)
    requires At(s, 0) == BACKSLASH
    ensures var e, u := Unescape(At(s, 1)), UnicodeAt(s);
            && (e == 0 || (e == LETTER_U && u.None?) ==> Fits(s, room))
            && (e == LETTER_U && u.Some? ==>
                  (Fits(s, room) <==> |u.value.0| <= room && Fits(s[u.value.1..], room - |u.value.0|)))
            && (e != 0 && e != LETTER_U ==>
                  |s| >= 2 && (Fits(s, room) <==> room >= 1 && Fits(s[2..], room - 1)))
  {
    assert Opened(true);
  }

  /** A decoded string and its NUL are no longer than the text behind the opening quote. */
  lemma {:induction false} FitsInText(s: seq<byte>, room: int)
    requires room >= |s|
    ensures Fits(s, room)
    decreases |s|
  {
    FitsStep(s, room);
    var c := At(s, 0);
    if c == BACKSLASH {
      FitsEscape(s, room);
      var e, u := Unescape(At(s, 1)), UnicodeAt(s);
      if e == LETTER_U && u.Some? {
        FitsInText(s[u.value.1..], room - |u.value.0|);
      } else if e != 0 && e != LETTER_U {
        FitsInText(s[2..], room - 1);
      }
    } else if c != 0 && c != QUOTE {
      FitsInText(s[1..], room - 1);
    }
  }

  function Letters(n: nat): (s: seq<byte>)
    ensures |s| == n
  {
    if n == 0 then [] else [97] + Letters(n - 1)
  }

  /** n plain characters need n bytes and a NUL. */
  lemma {:induction false} LettersFit(n: nat, room: int)
    ensures Fits(Letters(n) + [QUOTE], room) <==> room >= n + 1
    decreases n
  {
    var s := Letters(n) + [QUOTE];
    FitsStep(s, room);
    if n > 0 {
      assert s[1..] == Letters(n - 1) + [QUOTE];
      LettersFit(n - 1, room - 1);
    }
  }

  /** Every string of every text of n bytes is decoded inside the scratch buffer made for the text. */
  ghost predicate ScratchHolds(n: nat) {
    && InitSize(ToInt(n)) >= 0
    && forall data: seq<byte>, p: nat :: |data| == n && p < n && data[p] == QUOTE ==>
         Fits(data[p + 1..], InitSize(ToInt(n)))
  }

  /** It is exactly when the length of the text and its NUL are an int; the program makes it from (int)json_len. */
  lemma ScratchHoldsExactly(n: nat)
    ensures ScratchHolds(n) <==> n < INT_LIMIT - 1
  {
    if n < INT_LIMIT - 1 {
      forall data: seq<byte>, p: nat | |data| == n && p < n && data[p] == QUOTE
        ensures Fits(data[p + 1..], InitSize(ToInt(n)))
      {
        FitsInText(data[p + 1..], InitSize(ToInt(n)));
      }
    } else if InitSize(ToInt(n)) >= 0 {
      var size := InitSize(ToInt(n));
      LongTextLeaves(n);
      var data := LongText(n);
      assert |data| == n && data[0] == QUOTE && !Fits(data[0 + 1..], size);
    }
  }

  /** A text that is one string of n - 2 letters. */
  function LongText(n: nat): seq<byte>
    requires n >= 2
  {
    [QUOTE] + (Letters(n - 2) + [QUOTE])
  }

  /** From 2^31 bytes on a text that is one string is written outside. */
  lemma LongTextLeaves(n: nat)
    requires n >= INT_LIMIT - 1
    ensures InitSize(ToInt(n)) < n - 1 && !Fits(LongText(n)[1..], InitSize(ToInt(n)))
  {
    ScratchShort(n);
    assert LongText(n)[1..] == Letters(n - 2) + [QUOTE];
    LettersFit(n - 2, InitSize(ToInt(n)));
  }

  lemma ScratchShort(n: nat)
    requires n >= INT_LIMIT - 1
    ensures InitSize(ToInt(n)) < n - 1
  {
    assert (n + INT_LIMIT) % 0x1_0000_0000 <= n + INT_LIMIT;
    if n >= INT_LIMIT {
      assert (n + INT_LIMIT) % 0x1_0000_0000 == (n + INT_LIMIT - 0x1_0000_0000) % 0x1_0000_0000;
    }
  }
}
