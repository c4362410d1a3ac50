/** A byte as a number and as eight bits. */
module Octets {

  type byte = x: int | 0 <= x < 256

  function Push(w: bv8, bit: bool): bv8 {
    (w << 1) | (if bit then 1 else 0)
  }

  function Half(w: bv8): bv8 {
    w >> 1
  }

  predicate Low(w: bv8) {
    w & 1 == 1
  }

  function Bits(n: nat, count: nat): bv8 {
    if count == 0 then 0 else Push(Bits(n / 2, count - 1), n % 2 == 1)
  }

  function Number(w: bv8, count: nat): (n: nat)
    ensures n < Power2(count)
  {
    if count == 0 then 0 else 2 * Number(Half(w), count - 1) + (if Low(w) then 1 else 0)
  }

  function Power2(count: nat): nat {
    if count == 0 then 1 else 2 * Power2(count - 1)
  }

  /** The eight bits of a byte. */
  function Octet(b: byte): bv8 {
    Bits(b, 8)
  }

  /** The byte with the given eight bits. */
  function Value(w: bv8): byte {
    assert Power2(8) == 256;
    Number(w, 8)
  }

  /** No bit at or above `count` is set. */
  predicate Below(w: bv8, count: nat) {
    w >> (if count < 8 then count else 8) == 0
  }

  lemma PushThenHalf(w: bv8, bit: bool, count: nat)
    requires count < 8 && Below(w, count)
    ensures Half(Push(w, bit)) == w && Low(Push(w, bit)) == bit && Below(Push(w, bit), count + 1)
  {
  }

  lemma HalfThenPush(w: bv8, count: nat)
    requires 0 < count <= 8 && Below(w, count)
    ensures Push(Half(w), Low(w)) == w && Below(Half(w), count - 1)
  {
  }

  lemma {:induction false} NumberOfBits(n: nat, count: nat)
    requires count <= 8 && n < Power2(count)
    ensures Below(Bits(n, count), count) && Number(Bits(n, count), count) == n
  {
    hide Push, Half, Low;
    if count > 0 {
      hide Below;
      NumberOfBits(n / 2, count - 1);
      PushThenHalf(Bits(n / 2, count - 1), n % 2 == 1, count - 1);
    }
  }

  lemma {:induction false} BitsOfNumber(w: bv8, count: nat)
    requires count <= 8 && Below(w, count)
    ensures Bits(Number(w, count), count) == w
    decreases count
  {
    hide Push, Half, Low;
    if count > 0 {
      hide Below;
      HalfThenPush(w, count);
      BitsOfNumber(Half(w), count - 1);
      assert Number(w, count) / 2 == Number(Half(w), count - 1);
    }
  }

  lemma OctetRoundTrip(b: byte)
    ensures Value(Octet(b)) == b
  {
    assert Power2(4) == 16 && Power2(8) == 16 * Power2(4);
    NumberOfBits(b, 8);
  }

  lemma ValueRoundTrip(w: bv8)
    ensures Octet(Value(w)) == w
  {
    BitsOfNumber(w, 8);
  }
}
