/**
 Doubles as 64 bits, and the integers among them. The key of a number is its bits without the
 sign, negated when the sign is set, so an integer's key follows from its binary exponent.
 */
module Doubles {
  import opened Bytes
  import opened Documents

  const TWO_TO_52: int := 0x10_0000_0000_0000
  const TWO_TO_53: int := 0x20_0000_0000_0000
  const TWO_TO_63: int := 0x8000_0000_0000_0000
  const TWO_TO_64: int := 0x1_0000_0000_0000_0000
  const EXPONENT_BIAS: int := 1023
  const QUIET_NAN: int := 0x7ff8_0000_0000_0000

  // ---------------------------------------------------------------------------
  // Powers of two
  // ---------------------------------------------------------------------------

  function Pow2(e: nat): (p: nat)
    ensures p > 0
  {
    if e == 0 then 1 else 2 * Pow2(e - 1)
  }

  lemma {:induction false} Pow2Sum(a: nat, b: nat)
    ensures Pow2(a + b) == Pow2(a) * Pow2(b)
    decreases a
  {
    if a > 0 {
      Pow2Sum(a - 1, b);
      assert 2 * (Pow2(a - 1) * Pow2(b)) == (2 * Pow2(a - 1)) * Pow2(b);
    }
  }

  lemma Pow2Of4()
    ensures Pow2(4) == 16
  {
  }

  lemma Pow2Of52()
    ensures Pow2(52) == TWO_TO_52
  {
    hide Pow2;
    Pow2Of4();
    Pow2Sum(4, 4);
    Pow2Sum(8, 8);
    Pow2Sum(16, 16);
    Pow2Sum(32, 16);
    Pow2Sum(48, 4);
  }

  lemma {:induction false} Pow2Grows(a: nat, b: nat)
    requires a <= b
    ensures Pow2(a) <= Pow2(b)
    decreases b - a
  {
    if a < b {
      Pow2Grows(a, b - 1);
    }
  }

  /** The binary exponent of a positive integer. */
  function Exponent(m: nat): (e: nat)
    requires m > 0
    ensures Pow2(e) <= m < Pow2(e + 1)
  {
    if m == 1 then 0 else Exponent(m / 2) + 1
  }

  // ---------------------------------------------------------------------------
  // Integers
  // ---------------------------------------------------------------------------

  predicate IsSafe(i: int) {
    -TWO_TO_53 < i < TWO_TO_53
  }

  function Magnitude(n: int): nat {
    if n < 0 then -n else n
  }

  lemma ProductNatural(a: nat, b: nat)
    ensures a * b >= 0
  {
  }

  /** The bits of a positive safe integer: biased exponent, then the fraction. */
  function IntegerBits(m: nat): (bits: nat)
    requires 0 < m < TWO_TO_53
  {
    var e := Exponent(m);
    if e <= 52 then
      ProductNatural(m - Pow2(e), Pow2(52 - e)); (e + EXPONENT_BIAS) * TWO_TO_52 + (m - Pow2(e)) * Pow2(52 - e) else 0
  }

  lemma SafeExponent(m: nat)
    requires 0 < m < TWO_TO_53
    ensures Exponent(m) <= 52
  {
    if Exponent(m) >= 53 {
      Pow2Of52();
      Pow2Grows(53, Exponent(m));
    }
  }

  lemma IntegerBitsInRange(m: nat)
    requires 0 < m < TWO_TO_53
    ensures 0 < IntegerBits(m) < INFINITY
  {
    var e := Exponent(m);
    SafeExponent(m);
    Pow2Of52();
    Pow2Sum(e, 52 - e);
    var f := (m - Pow2(e)) * Pow2(52 - e);
    FractionBelow(m - Pow2(e), Pow2(e), Pow2(52 - e));
    assert 0 <= f < TWO_TO_52;
    assert (e + EXPONENT_BIAS) * TWO_TO_52 <= 1075 * TWO_TO_52;
  }

  lemma FractionBelow(a: nat, b: nat, c: nat)
    requires a < b && c > 0
    ensures 0 <= a * c < b * c
  {
  }

  /** The double of a safe integer. */
  function NumberOf(i: int): JsNumber
    requires IsSafe(i)
  {
    if i == 0 then Num(0)
    else
      IntegerBitsInRange(Magnitude(i));
      Num(if i < 0 then -(IntegerBits(-i) as int) else IntegerBits(i))
  }

  /** The positive integer whose bits these are. */
  function IntegerOfBits(bits: nat): (m: Option<nat>)
    ensures m.Some? ==> 0 < m.value < TWO_TO_53 && IntegerBits(m.value) == bits
  {
    var exponent := bits / TWO_TO_52 - EXPONENT_BIAS;
    if exponent < 0 || exponent > 52 then None
    else
      var m := (TWO_TO_52 + bits % TWO_TO_52) / Pow2(52 - exponent);
      if 0 < m < TWO_TO_53 && IntegerBits(m) == bits then Some(m) else None
  }

  /** `Number.isSafeInteger`, with the integer. */
  function SafeInteger(n: JsNumber): Option<int>
  {
    if n.NaN? then None
    else if n.key == 0 then Some(0)
    else
      var m := IntegerOfBits(Magnitude(n.key));
      if m.None? then None
      else
        var i: int := m.value;
        Some(if n.key < 0 then -i else i)
  }

  /** An integer double is the double of its integer. */
  lemma IntegerRoundTrip(n: JsNumber)
    requires SafeInteger(n).Some?
    ensures IsSafe(SafeInteger(n).value) && NumberOf(SafeInteger(n).value) == n
  {
    hide IntegerBits, IntegerOfBits;
  }

  lemma ProductBounds(d: int, s: int)
    requires s > 0
    ensures d >= 1 ==> d * s >= s
    ensures d <= -1 ==> d * s <= -s
  {
  }

  lemma QuotientOfMultiple(q: nat, scale: nat)
    requires scale > 0
    ensures (q * scale) / scale == q
  {
    var n := q * scale;
    var p, r := n / scale, n % scale;
    assert n == p * scale + r;
    Distribute(q, p, scale);
    ProductBounds(q - p, scale);
  }

  lemma SplitBits(biased: nat, fraction: nat)
    requires fraction < TWO_TO_52
    ensures (biased * TWO_TO_52 + fraction) / TWO_TO_52 == biased && (biased * TWO_TO_52 + fraction) % TWO_TO_52 == fraction
  {
  }

  /** Every safe integer is recognised. */
  lemma IntegerRecognised(i: int)
    requires IsSafe(i)
    ensures SafeInteger(NumberOf(i)) == Some(i)
  {
    hide IntegerBits, IntegerOfBits;
    if i != 0 {
      BitsRecognised(Magnitude(i));
      IntegerBitsInRange(Magnitude(i));
    }
  }

  /** The bits of an integer, taken apart. */
  lemma BitsOfInteger(m: nat)
    requires 0 < m < TWO_TO_53
    ensures Exponent(m) <= 52
    ensures var scale := Pow2(52 - Exponent(m));
            var fraction := m * scale - TWO_TO_52;
            0 <= fraction < TWO_TO_52 && IntegerBits(m) == (Exponent(m) + EXPONENT_BIAS) * TWO_TO_52 + fraction
  {
    hide Pow2, Exponent;
    var e := Exponent(m);
    SafeExponent(m);
    Pow2Of52();
    Pow2Sum(e, 52 - e);
    Pow2Next(e);
    Distribute(m, Pow2(e), Pow2(52 - e));
    FractionBelow(m - Pow2(e), Pow2(e), Pow2(52 - e));
  }

  lemma Pow2Next(e: nat)
    ensures Pow2(e + 1) == 2 * Pow2(e)
  {
  }

  lemma Distribute(a: int, b: int, c: int)
    ensures (a - b) * c == a * c - b * c
  {
  }

  lemma BitsRecognised(m: nat)
    requires 0 < m < TWO_TO_53
    ensures IntegerOfBits(IntegerBits(m)) == Some(m)
  {
    hide Pow2, Exponent, IntegerBits;
    BitsOfInteger(m);
    var scale := Pow2(52 - Exponent(m));
    SplitBits(Exponent(m) + EXPONENT_BIAS, m * scale - TWO_TO_52);
    QuotientOfMultiple(m, scale);
  }

  // ---------------------------------------------------------------------------
  // The 64 bits of a double
  // ---------------------------------------------------------------------------

  function BitsOf(n: JsNumber): (bits: nat)
    ensures bits < TWO_TO_64
  {
    if n.NaN? then QUIET_NAN else if n.key < 0 then TWO_TO_63 - n.key else n.key
  }

  function NumberOfBits(bits: nat): JsNumber
    requires bits < TWO_TO_64
  {
    var magnitude := bits % TWO_TO_63;
    if magnitude > INFINITY then NaN else Num(if bits >= TWO_TO_63 then -magnitude else magnitude)
  }

  lemma BitsNumber(n: JsNumber)
    ensures NumberOfBits(BitsOf(n)) == n
  {
    if n.Num? && n.key < 0 {
      assert BitsOf(n) == TWO_TO_63 + -n.key;
    }
  }

  // ---------------------------------------------------------------------------
  // Fixed-width integers as bytes
  // ---------------------------------------------------------------------------

  /** The lowest byte first. */
  function LittleEndian(n: nat, width: nat): (bs: seq<byte>)
    ensures |bs| == width
  {
    if width == 0 then [] else [n % 256] + LittleEndian(n / 256, width - 1)
  }

  function FromLittleEndian(bs: seq<byte>): nat {
    if |bs| == 0 then 0 else bs[0] as int + 256 * FromLittleEndian(bs[1..])
  }

  function Pow256(e: nat): (p: nat)
    ensures p > 0
  {
    if e == 0 then 1 else 256 * Pow256(e - 1)
  }

  lemma {:induction false} LittleEndianRoundTrip(n: nat, width: nat)
    requires n < Pow256(width)
    ensures FromLittleEndian(LittleEndian(n, width)) == n
    decreases width
  {
    if width > 0 {
      LittleEndianRoundTrip(n / 256, width - 1);
      assert LittleEndian(n, width)[1..] == LittleEndian(n / 256, width - 1);
    }
  }

  function Reversed(bs: seq<byte>): (r: seq<byte>)
    ensures |r| == |bs|
  {
    if |bs| == 0 then [] else Reversed(bs[1..]) + [bs[0]]
  }

  lemma {:induction false} ReversedTwice(bs: seq<byte>)
    ensures Reversed(Reversed(bs)) == bs
    decreases |bs|
  {
    if |bs| > 0 {
      ReversedTwice(bs[1..]);
      ReversedSnoc(Reversed(bs[1..]), bs[0]);
      assert bs == [bs[0]] + bs[1..];
    }
  }

  lemma {:induction false} ReversedSnoc(bs: seq<byte>, b: byte)
    ensures Reversed(bs + [b]) == [b] + Reversed(bs)
    decreases |bs|
  {
    if |bs| > 0 {
      ReversedSnoc(bs[1..], b);
      assert (bs + [b])[1..] == bs[1..] + [b];
    }
  }

  /** Two's complement of the given number of bytes. */
  function Unsigned(i: int, width: nat): int {
    if i < 0 then i + Pow256(width) else i
  }

  function Signed(n: nat, width: nat): int {
    if 2 * n >= Pow256(width) then n - Pow256(width) else n
  }

  predicate Fits(i: int, width: nat) {
    var range: int := Pow256(width);
    -range <= 2 * i < range
  }

  function IntegerLE(i: int, width: nat): (bs: seq<byte>)
    requires Fits(i, width)
    ensures |bs| == width
  {
    LittleEndian(Unsigned(i, width), width)
  }

  function FromIntegerLE(bs: seq<byte>): int {
    Signed(FromLittleEndian(bs), |bs|)
  }

  lemma IntegerLERoundTrip(i: int, width: nat)
    requires Fits(i, width)
    ensures FromIntegerLE(IntegerLE(i, width)) == i
  {
    LittleEndianRoundTrip(Unsigned(i, width), width);
  }

  lemma Widths()
    ensures Pow256(4) == TWO_TO_32 && Pow256(8) == TWO_TO_64
  {
    assert Pow256(2) == 0x1_0000;
    assert Pow256(4) == 256 * Pow256(3) && Pow256(3) == 256 * Pow256(2);
    assert Pow256(8) == 256 * Pow256(7) && Pow256(7) == 256 * Pow256(6) && Pow256(6) == 256 * Pow256(5) && Pow256(5) == 256 * Pow256(4);
  }

  function DoubleLE(n: JsNumber): (bs: seq<byte>)
    ensures |bs| == 8
  {
    LittleEndian(BitsOf(n), 8)
  }

  function FromDoubleLE(bs: seq<byte>): JsNumber
    requires |bs| == 8
  {
    var bits := FromLittleEndian(bs);
    if bits < TWO_TO_64 then NumberOfBits(bits) else NaN
  }

  lemma DoubleLERoundTrip(n: JsNumber)
    ensures FromDoubleLE(DoubleLE(n)) == n
  {
    hide BitsOf, NumberOfBits;
    Widths();
    LittleEndianRoundTrip(BitsOf(n), 8);
    BitsNumber(n);
  }
}
