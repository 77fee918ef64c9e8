// strbuf: the growing text buffer behind the JSON code, with its checked and unchecked appends and its int sizes.
module StrBuf {
  import opened Bytes
  import opened Powers

  /** An int holds values below this. */
  const INT_LIMIT := 0x8000_0000
  const DEFAULT_SIZE := 1023
  const DEFAULT_INCREMENT := -2
  /** The largest size that doubling from the default size reaches in an int. */
  const OWN_LIMIT := DEFAULT_SIZE * 0x20_0000

  /** The conversion of an integer to a 32-bit int. */
  function ToInt(n: int): (r: int)
    ensures -INT_LIMIT <= r < INT_LIMIT && (-INT_LIMIT <= n < INT_LIMIT ==> r == n)
  {
    (n + INT_LIMIT) % 0x1_0000_0000 - INT_LIMIT
  }

  /** The bytes of a C string: those in front of its NUL. */
  function CString(s: seq<byte>): (r: seq<byte>)
    ensures |r| <= |s|
  {
    if s == [] || s[0] == 0 then [] else [s[0]] + CString(s[1..])
  }

  // ---------------------------------------------------------------------------------------------------------
  // Sizes and lengths

  datatype Space = Space(size: nat, length: nat, increment: int)

  /**
   * What an operation does to the space, or how it fails: a write outside the buffer, an int that overflows (in the
   * doubling loop, which then never ends, or in a sum), or the program's own exit.
   */
  datatype Outcome = In(sp: Space) | Outside | Overflow | Dies

  ghost predicate Sound(sp: Space) {
    0 < sp.size < INT_LIMIT && sp.length <= sp.size && (sp.increment > 0 || sp.increment < -1)
  }

  function RoundUp(n: nat, k: nat): nat
    requires k > 0
  {
    (n + k - 1) / k * k
  }

  lemma RoundUpAbove(n: nat, k: nat)
    requires k > 0
    ensures n <= RoundUp(n, k) < n + k
  {
    assert (n + k - 1) / k * k + (n + k - 1) % k == n + k - 1;
  }

  /** Rounding up again changes nothing. */
  lemma RoundUpTwice(q: nat, k: nat)
    requires k > 0
    ensures RoundUp(q * k, k) == q * k
  {
    RoundUpAbove(q * k, k);
    var r := (q * k + k - 1) / k;
    if r > q {
      TimesLess(q + 1, r, k);
    } else if r < q {
      TimesLess(r + 1, q, k);
    }
  }

  lemma TimesLess(x: nat, y: nat, k: nat)
    requires x <= y
    ensures x * k <= y * k
  {
    assert y * k == x * k + (y - x) * k;
  }

  /** The loop that multiplies the size until it is large enough; -1 where it leaves the int. */
  function Grown(n: nat, factor: nat, reqsize: nat): (r: int)
    requires 0 < n < INT_LIMIT && factor > 1
    ensures r == -1 || (r >= n && reqsize <= r < INT_LIMIT)
    decreases reqsize - n
  {
    Grows(n, factor);
    if n >= reqsize then n else if n * factor >= INT_LIMIT then -1 else Grown(n * factor, factor, reqsize)
  }

  lemma Grows(n: nat, factor: nat)
    requires n > 0 && factor > 1
    ensures n * factor > n
  {
  }

  function SizeFor(sp: Space, size: int): Outcome {
    if size < 0 then Overflow else In(sp.(size := size))
  }

  /** strbuf_resize to hold len characters: smaller exactly, larger by multiplying or rounding up. */
  ghost function Resized(sp: Space, len: int): Outcome
    requires Sound(sp)
  {
    if len <= 0 then Dies
    else if len + 1 >= INT_LIMIT then Overflow
    else if sp.size > len + 1 then SizeFor(sp, len + 1)
    else if sp.increment < 0 then SizeFor(sp, Grown(sp.size, -sp.increment, len + 1))
    else if sp.size + sp.increment - 1 >= INT_LIMIT then Overflow
    else SizeFor(sp, RoundUp(sp.size, sp.increment))
  }

  /** strbuf_ensure_empty_length */
  ghost function Ensured(sp: Space, n: int): Outcome
    requires Sound(sp)
  {
    if n <= sp.size - sp.length - 1 then In(sp)
    else if sp.length + n >= INT_LIMIT then Overflow
    else Resized(sp, sp.length + n)
  }

  lemma ResizedSound(sp: Space, len: int)
    requires Sound(sp) && len >= sp.length
    ensures Resized(sp, len).In? ==> Sound(Resized(sp, len).sp) && Resized(sp, len).sp.length == sp.length
  {
    if sp.increment > 0 {
      RoundUpAbove(sp.size, sp.increment);
    }
  }

  lemma EnsuredSound(sp: Space, n: int)
    requires Sound(sp)
    ensures Ensured(sp, n).In? ==> Sound(Ensured(sp, n).sp) && Ensured(sp, n).sp.length == sp.length
  {
    if n > sp.size - sp.length - 1 {
      ResizedSound(sp, sp.length + n);
    }
  }

  /** n characters written without a check. */
  function Put(sp: Space, n: nat): Outcome {
    if sp.length + n <= sp.size then In(sp.(length := sp.length + n)) else Outside
  }

  /** n characters written behind a check. */
  ghost function Appended(sp: Space, n: nat): Outcome
    requires Sound(sp)
  {
    match Ensured(sp, n)
    case In(s) => Put(s, n)
    case o => o
  }

  lemma AppendedSound(sp: Space, n: nat)
    requires Sound(sp)
    ensures var o := Appended(sp, n);
            o.In? ==> Sound(o.sp) && o.sp.length == sp.length + n && o.sp.increment == sp.increment
  {
    EnsuredSound(sp, n);
  }

  /** strbuf_append_string: each character behind a check of its own. */
  ghost function Strung(sp: Space, n: nat): (o: Outcome)
    requires Sound(sp)
    ensures o.In? ==> Sound(o.sp) && o.sp.length == sp.length + n && o.sp.increment == sp.increment
    decreases n
  {
    if n == 0 then In(sp)
    else
      AppendedSound(sp, 1);
      var o := Appended(sp, 1);
      if o.In? then Strung(o.sp, n - 1) else o
  }

  // ---------------------------------------------------------------------------------------------------------
  // Growth by doubling

  /** The default size doubled a number of times. */
  ghost predicate OwnSize(n: nat) {
    exists j {:trigger Pow2(j)} :: j <= 21 && n == DEFAULT_SIZE * Pow2(j)
  }

  /** A buffer that began at the default size and has grown by doubling. */
  ghost predicate Own(sp: Space) {
    sp.length <= sp.size && sp.increment == DEFAULT_INCREMENT && OwnSize(sp.size)
  }

  lemma Pow2At21()
    ensures Pow2(21) == 0x20_0000
  {
    assert Pow2(7) == 128;
    Pow2Add(7, 7);
    Pow2Add(14, 7);
  }

  /** Doubling reaches a size within the int exactly up to the limit. */
  lemma {:induction false} GrownOwn(j: nat, reqsize: nat)
    requires j <= 21
    ensures 0 < DEFAULT_SIZE * Pow2(j) <= OWN_LIMIT
    ensures var r := Grown(DEFAULT_SIZE * Pow2(j), 2, reqsize);
            && (r >= 0 <==> reqsize <= OWN_LIMIT)
            && (r >= 0 ==> OwnSize(r))
    decreases 21 - j
  {
    Pow2At21();
    Pow2Monotone(j, 21);
    Pow2Monotone(0, j);
    if DEFAULT_SIZE * Pow2(j) < reqsize && j < 21 {
      GrownOwn(j + 1, reqsize);
      assert DEFAULT_SIZE * Pow2(j) * 2 == DEFAULT_SIZE * Pow2(j + 1);
    }
  }

  lemma OwnGrown(n: nat, reqsize: nat)
    requires OwnSize(n)
    ensures 0 < n <= OWN_LIMIT
    ensures Grown(n, 2, reqsize) >= 0 <==> reqsize <= OWN_LIMIT
    ensures Grown(n, 2, reqsize) >= 0 ==> OwnSize(Grown(n, 2, reqsize))
  {
    var j :| j <= 21 && n == DEFAULT_SIZE * Pow2(j);
    GrownOwn(j, reqsize);
  }

  lemma OwnSound(sp: Space)
    requires Own(sp)
    ensures Sound(sp) && sp.size <= OWN_LIMIT
  {
    OwnGrown(sp.size, 0);
  }

  /** Room for n characters can be had exactly when they and a NUL fit the largest size. */
  lemma OwnEnsured(sp: Space, n: nat)
    requires Own(sp)
    ensures Sound(sp)
    ensures Ensured(sp, n).In? <==> sp.length + n + 1 <= OWN_LIMIT
    ensures Ensured(sp, n).In? ==>
              var s := Ensured(sp, n).sp; Own(s) && s.length == sp.length && s.length + n + 1 <= s.size
  {
    OwnGrown(sp.size, sp.length + n + 1);
  }

  lemma {:induction false} OwnStrung(sp: Space, n: nat)
    requires Own(sp)
    ensures Sound(sp) && (Strung(sp, n).In? ==> Own(Strung(sp, n).sp))
    ensures sp.length + n + 1 <= OWN_LIMIT ==> Strung(sp, n).In?
    decreases n
  {
    OwnSound(sp);
    if n > 0 {
      OwnEnsured(sp, 1);
      AppendedSound(sp, 1);
      if Appended(sp, 1).In? {
        OwnStrung(Appended(sp, 1).sp, n - 1);
      }
    }
  }

  /** The size after k rounds of the doubling loop, in an int that wraps around. */
  function Doubled(k: nat): int {
    if k == 0 then DEFAULT_SIZE else ToInt(2 * Doubled(k - 1))
  }

  lemma {:induction false} DoubledIs(k: nat)
    ensures if k <= 21 then Doubled(k) == DEFAULT_SIZE * Pow2(k)
            else if k <= 31 then Doubled(k) + Pow2(k) == 0
            else Doubled(k) == 0
  {
    if k > 0 {
      DoubledIs(k - 1);
      Pow2At21();
      Pow2At31();
      assert Pow2(k) == 2 * Pow2(k - 1);
      if k <= 21 {
        Pow2Monotone(k, 21);
        assert 2 * Doubled(k - 1) == DEFAULT_SIZE * Pow2(k);
        Doubles(Doubled(k - 1));
      } else if 22 < k <= 31 {
        Pow2Monotone(k, 31);
        Doubles(Doubled(k - 1));
      } else {
        Wraps();
      }
    }
  }

  lemma Doubles(x: int)
    requires -INT_LIMIT <= 2 * x < INT_LIMIT
    ensures ToInt(2 * x) == 2 * x
  {
  }

  lemma Wraps()
    ensures ToInt(2 * OWN_LIMIT) == -0x40_0000 && ToInt(-2 * INT_LIMIT) == 0 && ToInt(2 * 0) == 0
  {
  }

  lemma Pow2At31()
    ensures Pow2(22) == 0x40_0000 && Pow2(31) == INT_LIMIT
  {
    Pow2At21();
    assert Pow2(22) == 2 * Pow2(21);
    assert Pow2(9) == 512;
    Pow2Add(22, 9);
  }

  /** Beyond the limit the loop never ends: the size wraps to negative values and then stays 0. */
  lemma DoublingNeverEnds(k: nat)
    ensures Doubled(k) <= OWN_LIMIT
  {
    DoubledIs(k);
    Pow2At21();
    if k <= 21 {
      Pow2Monotone(k, 21);
    }
  }

  // ---------------------------------------------------------------------------------------------------------
  // Growth by a linear increment

  /**
   * A positive increment rounds up the old size instead of the requested one: room for n more characters is there
   * afterwards exactly when the rounded old size happens to have it.
   */
  lemma LinearFallsShort(sp: Space, n: nat)
    requires Sound(sp) && sp.increment > 0 && n > sp.size - sp.length - 1
    requires sp.length + n < INT_LIMIT - 1 && sp.size + sp.increment <= INT_LIMIT
    ensures Ensured(sp, n) == In(sp.(size := RoundUp(sp.size, sp.increment)))
    ensures Appended(sp, n).In? <==> sp.length + n <= RoundUp(sp.size, sp.increment)
  {
    RoundUpAbove(sp.size, sp.increment);
  }

  /** Such a buffer grows once: from a multiple of the increment, which the new size is, it does not grow at all. */
  lemma LinearGrowsOnce(sp: Space, q: nat, n: nat)
    requires Sound(sp) && sp.increment > 0 && n > sp.size - sp.length - 1 && sp.size == q * sp.increment
    requires sp.length + n < INT_LIMIT - 1 && sp.size + sp.increment <= INT_LIMIT
    ensures Ensured(sp, n) == In(sp)
    ensures Appended(sp, n).In? <==> sp.length + n <= sp.size
  {
    LinearFallsShort(sp, n);
    RoundUpTwice(q, sp.increment);
  }

  /** strbuf_init's size for a length; -1 where len + 1 overflows. */
  function InitSize(len: int): int
    requires -INT_LIMIT <= len < INT_LIMIT
  {
    if len <= 0 then DEFAULT_SIZE else if len + 1 >= INT_LIMIT then -1 else len + 1
  }

  // Every method that may fail answers whether the program is still inside its buffer and its ints; what a failed call
  // leaves behind is not known.

  class Buffer {
    var buf: seq<byte>
    var size: nat
    var length: nat
    var increment: int

    ghost function Now(): Space
      reads this
    {
      Space(size, length, increment)
    }

    ghost predicate Valid()
      reads this
    {
      |buf| == size && Sound(Now())
    }

    ghost function Contents(): seq<byte>
      reads this
      requires Valid()
    {
      buf[..length]
    }

    /** strbuf_init */
    constructor (len: int)
      requires -INT_LIMIT <= len < INT_LIMIT && InitSize(len) >= 0
      ensures Valid() && Contents() == [] && Now() == Space(InitSize(len), 0, DEFAULT_INCREMENT) && fresh(this)
    {
      var n: nat := InitSize(len);
      buf, size, length, increment := seq(n, _ => 0), n, 0, DEFAULT_INCREMENT;
    }

    /** False where the program dies. */
    method SetIncrement(inc: int) returns (ok: bool)
      requires Valid()
      modifies `increment
      ensures Valid() && ok == (inc != 0 && inc != -1) && increment == (if ok then inc else old(increment))
    {
      if inc == 0 || inc == -1 {
        return false;
      }
      increment := inc;
      return true;
    }

    method Reset()
      requires Valid()
      modifies `length
      ensures Valid() && Contents() == [] && Now() == old(Now()).(length := 0)
    {
      length := 0;
    }

    /** calculate_new_size: -1 where it dies or overflows. */
    method CalculateNewSize(len: int) returns (newsize: int)
      requires Valid()
      ensures var o := Resized(Now(), len); if o.In? then newsize == o.sp.size else newsize == -1
    {
      if len <= 0 || len + 1 >= INT_LIMIT {
        return -1;
      }
      var reqsize := len + 1;
      if size > reqsize {
        return reqsize;
      }
      newsize := size;
      if increment < 0 {
        var factor: nat := -increment;
        while newsize < reqsize
          invariant 0 < newsize < INT_LIMIT && Grown(newsize, factor, reqsize) == Grown(size, factor, reqsize)
          decreases reqsize - newsize
        {
          Grows(newsize, factor);
          if newsize * factor >= INT_LIMIT {
            return -1;
          }
          newsize := newsize * factor;
        }
      } else {
        if newsize + increment - 1 >= INT_LIMIT {
          return -1;
        }
        newsize := (newsize + increment - 1) / increment * increment;
      }
    }

    /** strbuf_resize to hold len characters. */
    method Resize(len: int) returns (ok: bool)
      requires Valid() && length <= len
      modifies `buf, `size
      ensures var o := old(Resized(Now(), len));
              ok == o.In? && (ok ==> Valid() && Now() == o.sp && Contents() == old(Contents()))
    {
      ResizedSound(Now(), len);
      var newsize := CalculateNewSize(len);
      if newsize < 0 {
        return false;
      }
      var kept := if newsize < size then newsize else size;
      var unset: seq<byte> := seq(newsize - kept, _ => 0);
      buf, size := buf[..kept] + unset, newsize;
      return true;
    }

    method EnsureEmptyLength(len: int) returns (ok: bool)
      requires Valid()
      modifies `buf, `size
      ensures var o := old(Ensured(Now(), len));
              ok == o.In? && (ok ==> Valid() && Now() == o.sp && Contents() == old(Contents()))
    {
      if len > size - length - 1 {
        if length + len >= INT_LIMIT {
          return false;
        }
        ok := Resize(length + len);
      } else {
        ok := true;
      }
    }

    /** Writes without looking; false where that is outside the buffer. */
    method AppendMemUnsafe(c: seq<byte>) returns (ok: bool)
      requires Valid()
      modifies `buf, `length
      ensures var o := Put(old(Now()), |c|);
              ok == o.In? && (ok ==> Valid() && Now() == o.sp && Contents() == old(Contents()) + c)
    {
      if length + |c| > size {
        return false;
      }
      buf := Overwrite(buf, length, c);
      length := length + |c|;
      assert buf[..length] == buf[..old(length)] + c;
      return true;
    }

    method AppendCharUnsafe(c: byte) returns (ok: bool)
      requires Valid()
      modifies `buf, `length
      ensures var o := Put(old(Now()), 1);
              ok == o.In? && (ok ==> Valid() && Now() == o.sp && Contents() == old(Contents()) + [c])
    {
      if length >= size {
        return false;
      }
      buf := buf[length := c];
      length := length + 1;
      return true;
    }

    method AppendMem(c: seq<byte>) returns (ok: bool)
      requires Valid()
      modifies `buf, `size, `length
      ensures var o := old(Appended(Now(), |c|));
              ok == o.In? && (ok ==> Valid() && Now() == o.sp && Contents() == old(Contents()) + c)
    {
      ok := EnsureEmptyLength(|c|);
      if ok {
        ok := AppendMemUnsafe(c);
      }
    }

    method AppendChar(c: byte) returns (ok: bool)
      requires Valid()
      modifies `buf, `size, `length
      ensures var o := old(Appended(Now(), 1));
              ok == o.In? && (ok ==> Valid() && Now() == o.sp && Contents() == old(Contents()) + [c])
    {
      ok := EnsureEmptyLength(1);
      if ok {
        ok := AppendCharUnsafe(c);
      }
    }

    /** Byte by byte up to the NUL, each behind a check of the space that is left. */
    method AppendString(str: seq<byte>) returns (ok: bool)
      requires Valid()
      modifies `buf, `size, `length
      ensures var o := old(Strung(Now(), |CString(str)|));
              ok == o.In? && (ok ==> Valid() && Now() == o.sp && Contents() == old(Contents()) + CString(str))
    {
      var space := size - length - 1;
      var i := 0;
      ghost var all, o := Contents() + CString(str), Strung(Now(), |CString(str)|);
      assert str[0..] == str;
      while i < |str| && str[i] != 0
        invariant 0 <= i <= |str| && Valid() && space == size - length - 1
        invariant Contents() + CString(str[i..]) == all && Strung(Now(), |CString(str[i..])|) == o
      {
        CStringStep(Contents(), str, i);
        StrungStep(Now(), |CString(str[i + 1..])|);
        ok, space := AppendOne(str[i], space);
        if !ok {
          return;
        }
        i := i + 1;
      }
      return true;
    }

    /** One round: grow where there is no space left, write, and count the space down. */
    method AppendOne(c: byte, space: int) returns (ok: bool, left: int)
      requires Valid() && space == size - length - 1
      modifies `buf, `size, `length
      ensures var o := old(Appended(Now(), 1));
              ok == o.In?
              && (ok ==> Valid() && Now() == o.sp && Contents() == old(Contents()) + [c] && left == size - length - 1)
    {
      left := space;
      if left < 1 {
        ok := Resize(length + 1);
        if !ok {
          return;
        }
        left := size - length - 1;
      }
      ok := AppendCharUnsafe(c);
      left := left - 1;
    }

    static lemma StrungStep(sp: Space, n: nat)
      requires Sound(sp)
      ensures var o := Appended(sp, 1);
              && (o.In? ==> Sound(o.sp) && Strung(sp, n + 1) == Strung(o.sp, n))
              && (!o.In? ==> Strung(sp, n + 1) == o)
    {
      AppendedSound(sp, 1);
    }

    static lemma CStringStep(s: seq<byte>, str: seq<byte>, i: nat)
      requires i < |str| && str[i] != 0
      ensures s + CString(str[i..]) == s + [str[i]] + CString(str[i + 1..])
      ensures |CString(str[i..])| == 1 + |CString(str[i + 1..])|
    {
      assert str[i..][1..] == str[i + 1..];
    }

    /** The terminating NUL, written without a check. */
    method EnsureNull() returns (ok: bool)
      requires Valid()
      modifies `buf
      ensures ok == (length < size)
      ensures ok ==> Valid() && Contents() == old(Contents()) && buf[length] == 0
    {
      if length >= size {
        return false;
      }
      buf := buf[length := 0];
      return true;
    }
  }
}
