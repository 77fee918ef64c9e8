// Zigzag and sign-extension conversions between signed and unsigned words.
module PbNumbers {
  const P31 := 0x8000_0000
  const P32 := 0x1_0000_0000
  const P63 := 0x8000_0000_0000_0000
  const P64 := 0x1_0000_0000_0000_0000

  /** x ^ -b in 32 bits: flip every bit when b is set. */
  function Flip32(x: int, b: bool): int {
    if b then P32 - 1 - x else x
  }

  function Flip64(x: int, b: bool): int {
    if b then P64 - 1 - x else x
  }

  /** An unsigned word read as two's complement. */
  function Signed32(u: int): int {
    if u < P31 then u else u - P32
  }

  function Signed64(u: int): int {
    if u < P63 then u else u - P64
  }

  predicate Int32(v: int) {
    -P31 <= v < P31
  }

  predicate Int64(v: int) {
    -P63 <= v < P63
  }

  function EncodeSint32(v: int): int {
    Flip32(v % P32 * 2 % P32, v < 0)
  }

  function DecodeSint32(u: int): int {
    Signed32(Flip32(u / 2, u % 2 == 1))
  }

  function EncodeSint64(v: int): int {
    Flip64(v % P64 * 2 % P64, v < 0)
  }

  function DecodeSint64(u: int): int {
    Signed64(Flip64(u / 2, u % 2 == 1))
  }

  /** (value ^ m) - m in 64 bits, m being bit 31. */
  function ExpandSig(u: int): int {
    ((if u < P31 then u + P31 else u - P31) - P31) % P64
  }

  /** Small magnitudes get small codes; decoding undoes encoding. */
  lemma Zigzag32(v: int)
    requires Int32(v)
    ensures EncodeSint32(v) == (if v >= 0 then 2 * v else -2 * v - 1) && 0 <= EncodeSint32(v) < P32
    ensures DecodeSint32(EncodeSint32(v)) == v
  {
    assert v < 0 ==> v % P32 == v + P32;
  }

  lemma Zagzig32(u: int)
    requires 0 <= u < P32
    ensures Int32(DecodeSint32(u)) && EncodeSint32(DecodeSint32(u)) == u
  {
    Zigzag32(DecodeSint32(u));
  }

  lemma Zigzag64(v: int)
    requires Int64(v)
    ensures EncodeSint64(v) == (if v >= 0 then 2 * v else -2 * v - 1) && 0 <= EncodeSint64(v) < P64
    ensures DecodeSint64(EncodeSint64(v)) == v
  {
    assert v < 0 ==> v % P64 == v + P64;
  }

  lemma Zagzig64(u: int)
    requires 0 <= u < P64
    ensures Int64(DecodeSint64(u)) && EncodeSint64(DecodeSint64(u)) == u
  {
    Zigzag64(DecodeSint64(u));
  }

  /** Sign extension keeps the signed reading of the low 32 bits. */
  lemma ExpandSigExtends(v: int)
    requires Int32(v)
    ensures 0 <= ExpandSig(v % P32) < P64 && Signed64(ExpandSig(v % P32)) == v
    ensures ExpandSig(v % P32) % P32 == v % P32
  {
    assert v < 0 ==> v % P32 == v + P32;
  }
}
