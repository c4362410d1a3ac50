/**
 Numbers as they are written down: decimal numerals, words of four and eight bytes, the 64 bits of a
 double, and variable-length integers. Said byte by byte, without anything that encodes or decodes.
 */
module Notation {
  import opened Bytes
  import opened Documents

  /** A number in decimal digits, without leading zeros. */
  predicate IsNumeral(s: Str, n: nat) {
    && 0 < |s| && 0x30 <= s[|s| - 1] <= 0x39 && n % 10 == s[|s| - 1] - 0x30
    && if n < 10 then |s| == 1 else IsNumeral(s[..|s| - 1], n / 10)
  }

  /** Four bytes, the lowest first. */
  function Word32(bs: seq<byte>): nat
    requires |bs| == 4
  {
    bs[0] as int + 0x100 * (bs[1] as int) + 0x1_0000 * (bs[2] as int) + 0x100_0000 * (bs[3] as int)
  }

  /** Eight bytes, the lowest first. */
  function Word64(bs: seq<byte>): nat
    requires |bs| == 8
  {
    Word32(bs[..4]) + 0x1_0000_0000 * Word32(bs[4..])
  }

  predicate IsWord32(bs: seq<byte>, n: int) {
    |bs| == 4 && Word32(bs) == n
  }

  /** A signed integer in two's complement. */
  predicate IsInt32(bs: seq<byte>, i: int) {
    -0x8000_0000 <= i < 0x8000_0000 && |bs| == 4 && Word32(bs) == (if i < 0 then i + 0x1_0000_0000 else i)
  }

  predicate IsInt64(bs: seq<byte>, i: int) {
    && -0x8000_0000_0000_0000 <= i < 0x8000_0000_0000_0000
    && |bs| == 8 && Word64(bs) == if i < 0 then i + 0x1_0000_0000_0000_0000 else i
  }

  /** The 64 bits of a double; there is one for NaN that is written. */
  predicate IsDouble(word: nat, n: JsNumber) {
    match n
    case NaN => word == 0x7ff8_0000_0000_0000
    case Num(key) => word == if key < 0 then 0x8000_0000_0000_0000 - key else key
  }

  predicate IsDoubleLE(bs: seq<byte>, n: JsNumber) {
    |bs| == 8 && IsDouble(Word64(bs), n)
  }

  /** Eight bytes, the highest first. */
  predicate IsDoubleBE(bs: seq<byte>, n: JsNumber) {
    |bs| == 8 && IsDouble(Word64([bs[7], bs[6], bs[5], bs[4], bs[3], bs[2], bs[1], bs[0]]), n)
  }

  /** What 64 bits are read as: all that are beyond infinity are NaN, and minus zero is zero. */
  predicate DenotesDouble(word: nat, n: JsNumber) {
    || IsDouble(word, n)
    || (word == 0x8000_0000_0000_0000 && n == Num(0))
    || (word % 0x8000_0000_0000_0000 > 0x7ff0_0000_0000_0000 && n.NaN?)
  }

  function TwoTo(e: nat): nat {
    if e == 0 then 1 else 2 * TwoTo(e - 1)
  }

  function Size(i: int): nat {
    if i < 0 then -i else i
  }

  /**
   The number is this integer. Its bits are 1023 more than the exponent `e` and a fraction `f` of 52 bits;
   the value of these is one and `f` parts of two to the 52, times two to the `e`.
   */
  ghost predicate IsInteger(n: JsNumber, i: int) {
    && n.Num? && (n.key < 0 <==> i < 0) && (n.key == 0 <==> i == 0)
    && (i != 0 ==> exists e: nat, f: nat :: IsScaled(Size(n.key), Size(i), e, f))
  }

  predicate IsScaled(bits: nat, m: nat, e: nat, f: nat) {
    && f < 0x10_0000_0000_0000 && bits == (e + 1023) * 0x10_0000_0000_0000 + f
    && m * 0x10_0000_0000_0000 == (0x10_0000_0000_0000 + f) * TwoTo(e)
  }

  /** An integer whose neighbours are numbers too. */
  ghost predicate IsSafeInteger(n: JsNumber, i: int) {
    IsInteger(n, i) && -0x1f_ffff_ffff_ffff <= i <= 0x1f_ffff_ffff_ffff
  }

  /** Seven bits a byte and the high bit on all but the last, the highest first; a fourth byte holds eight bits. */
  predicate DenotesU29(bs: seq<byte>, n: nat) {
    || (|bs| == 1 && !Marked(bs[0]) && bs[0] == n)
    || (|bs| == 2 && Marked(bs[0]) && !Marked(bs[1]) && Sevens(bs[0]) * 0x80 + bs[1] == n)
    || (|bs| == 3 && Marked(bs[0]) && Marked(bs[1]) && !Marked(bs[2]) && Sevens(bs[0]) * 0x4000 + Sevens(bs[1]) * 0x80 + bs[2] == n)
    || (|bs| == 4 && Marked(bs[0]) && Marked(bs[1]) && Marked(bs[2])
        && Sevens(bs[0]) * 0x40_0000 + Sevens(bs[1]) * 0x8000 + Sevens(bs[2]) * 0x100 + bs[3] == n)
  }

  /** The same, as short as can be. */
  predicate IsU29(bs: seq<byte>, n: nat) {
    DenotesU29(bs, n) && |bs| == if n < 0x80 then 1 else if n < 0x4000 then 2 else if n < 0x20_0000 then 3 else 4
  }

  /** More bytes follow this one. */
  predicate Marked(b: byte) {
    b >= 0x80
  }

  function Sevens(b: byte): int {
    b as int - 0x80
  }
}
