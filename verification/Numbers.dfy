/** The bytes and bits of numbers are those of the notation: each exactly one way to write its number. */
module Numbers {
  import opened Bytes
  import opened Documents
  import opened Doubles
  import Notation

  // ---------------------------------------------------------------------------
  // Words
  // ---------------------------------------------------------------------------

  lemma {:induction false} BytesOfWord(bs: seq<byte>)
    ensures LittleEndian(FromLittleEndian(bs), |bs|) == bs
    decreases |bs|
  {
    if |bs| > 0 {
      BytesOfWord(bs[1..]);
      var n := FromLittleEndian(bs);
      assert n % 256 == bs[0] && n / 256 == FromLittleEndian(bs[1..]);
      assert bs == [bs[0]] + bs[1..];
    }
  }

  lemma Word32Is(bs: seq<byte>)
    requires |bs| >= 4
    ensures FromLittleEndian(bs) == Notation.Word32(bs[..4]) + 0x1_0000_0000 * FromLittleEndian(bs[4..])
  {
    assert bs[1..][1..] == bs[2..] && bs[2..][1..] == bs[3..] && bs[3..][1..] == bs[4..];
  }

  lemma Word32Exact(bs: seq<byte>, n: nat)
    requires n < TWO_TO_32
    ensures Notation.IsWord32(bs, n) <==> bs == LittleEndian(n, 4)
  {
    Widths();
    LittleEndianRoundTrip(n, 4);
    Whole32(LittleEndian(n, 4));
    if |bs| == 4 {
      Whole32(bs);
      BytesOfWord(bs);
    }
  }

  lemma Whole32(bs: seq<byte>)
    requires |bs| == 4
    ensures FromLittleEndian(bs) == Notation.Word32(bs)
  {
    Word32Is(bs);
    assert bs[..4] == bs;
  }

  lemma Whole64(bs: seq<byte>)
    requires |bs| == 8
    ensures FromLittleEndian(bs) == Notation.Word64(bs)
  {
    Word32Is(bs);
    Whole32(bs[4..]);
  }

  lemma Word64Exact(bs: seq<byte>, n: nat)
    requires n < TWO_TO_64 && |bs| == 8
    ensures Notation.Word64(bs) == n <==> bs == LittleEndian(n, 8)
  {
    Widths();
    LittleEndianRoundTrip(n, 8);
    Whole64(LittleEndian(n, 8));
    Whole64(bs);
    BytesOfWord(bs);
  }

  /** Two's complement of four and of eight bytes. */
  lemma IntegersExact(bs: seq<byte>, i: int)
    ensures Notation.IsInt32(bs, i) <==> Fits(i, 4) && bs == IntegerLE(i, 4)
    ensures Notation.IsInt64(bs, i) <==> Fits(i, 8) && bs == IntegerLE(i, 8)
  {
    Widths();
    if Fits(i, 4) {
      Word32Exact(bs, Unsigned(i, 4));
    }
    if Fits(i, 8) && |bs| == 8 {
      Word64Exact(bs, Unsigned(i, 8));
    }
  }

  lemma Int32Read(bs: seq<byte>)
    requires |bs| == 4
    ensures Notation.IsInt32(bs, FromIntegerLE(bs)) && IsSafe(FromIntegerLE(bs))
  {
    Widths();
    Whole32(bs);
  }

  // ---------------------------------------------------------------------------
  // Doubles
  // ---------------------------------------------------------------------------

  lemma BitsExact(word: nat, n: JsNumber)
    ensures Notation.IsDouble(word, n) <==> word == BitsOf(n)
  {
  }

  lemma DoubleExact(bs: seq<byte>, n: JsNumber)
    ensures Notation.IsDoubleLE(bs, n) <==> bs == DoubleLE(n)
    ensures Notation.IsDoubleBE(bs, n) <==> bs == Reversed(DoubleLE(n))
  {
    if |bs| == 8 {
      Word64Exact(bs, BitsOf(n));
      BitsExact(Notation.Word64(bs), n);
      var back := [bs[7], bs[6], bs[5], bs[4], bs[3], bs[2], bs[1], bs[0]];
      ReversedEight(bs);
      ReversedTwice(bs);
      ReversedTwice(DoubleLE(n));
      Word64Exact(back, BitsOf(n));
      BitsExact(Notation.Word64(back), n);
    }
  }

  lemma {:induction false} ReversedEight(bs: seq<byte>)
    requires |bs| == 8
    ensures Reversed(bs) == [bs[7], bs[6], bs[5], bs[4], bs[3], bs[2], bs[1], bs[0]]
  {
    forall k | 0 <= k < 8
      ensures Reversed(bs)[k] == bs[7 - k]
    {
      ReversedAt(bs, k);
    }
  }

  lemma {:induction false} ReversedAt(bs: seq<byte>, k: nat)
    requires k < |bs|
    ensures Reversed(bs)[k] == bs[|bs| - 1 - k]
    decreases |bs|
  {
    if k < |bs| - 1 {
      ReversedAt(bs[1..], k);
    }
  }

  /** Any eight bytes are read as the number that their bits denote. */
  lemma DoubleRead(bs: seq<byte>)
    requires |bs| == 8
    ensures Notation.DenotesDouble(Notation.Word64(bs), FromDoubleLE(bs))
  {
    Whole64(bs);
  }

  // ---------------------------------------------------------------------------
  // Integers among the doubles
  // ---------------------------------------------------------------------------

  lemma {:induction false} PowersAgree(e: nat)
    ensures Notation.TwoTo(e) == Pow2(e)
  {
    if e > 0 {
      PowersAgree(e - 1);
    }
  }

  lemma ScaledOf(m: nat)
    requires 0 < m < TWO_TO_53
    ensures exists e: nat, f: nat :: Notation.IsScaled(IntegerBits(m), m, e, f)
  {
    hide Pow2, Exponent, IntegerBits, Notation.TwoTo;
    BitsOfInteger(m);
    var e := Exponent(m);
    var f := m * Pow2(52 - e) - TWO_TO_52;
    Pow2Of52();
    Pow2Sum(52 - e, e);
    PowersAgree(e);
    Regroup(m, Pow2(52 - e), Pow2(e));
    assert Notation.IsScaled(IntegerBits(m), m, e, f);
  }

  lemma Regroup(a: int, b: int, c: int)
    ensures a * (b * c) == (a * b) * c
  {
  }

  lemma BetweenPowers(m: nat, e: nat)
    requires m > 0 && Pow2(e) <= m < Pow2(e + 1)
    ensures Exponent(m) == e
  {
    hide Pow2;
    var x := Exponent(m);
    if x < e {
      Pow2Grows(x + 1, e);
    } else if e < x {
      Pow2Grows(e + 1, x);
    }
  }

  lemma CancelFactor(a: int, b: int, c: int)
    requires c > 0
    ensures a * c == b * c <==> a == b
    ensures a * c <= b * c <==> a <= b
    ensures a * c < b * c <==> a < b
  {
    Distribute(a, b, c);
    ProductBounds(a - b, c);
  }

  lemma ScaledIs(bits: nat, m: nat, e: nat, f: nat)
    requires 0 < m < TWO_TO_53 && Notation.IsScaled(bits, m, e, f)
    ensures bits == IntegerBits(m)
  {
    hide Pow2, Exponent, IntegerBits, Notation.TwoTo;
    PowersAgree(e);
    Pow2Next(e);
    var p := Pow2(e);
    CancelFactor(p, m, TWO_TO_52);
    CancelFactor(m, 2 * p, TWO_TO_52);
    ScaledBetween(m, p, f);
    BetweenPowers(m, e);
    SafeExponent(m);
    BitsOfInteger(m);
    Pow2Of52();
    Pow2Sum(52 - e, e);
    Regroup(m, Pow2(52 - e), p);
    CancelFactor(m * Pow2(52 - e), TWO_TO_52 + f, p);
  }

  lemma ScaledBetween(m: nat, p: nat, f: nat)
    requires m * TWO_TO_52 == (TWO_TO_52 + f) * p && f < TWO_TO_52 && p > 0
    ensures p * TWO_TO_52 <= m * TWO_TO_52 < 2 * p * TWO_TO_52
  {
    var g: int := f;
    Distribute(TWO_TO_52, -g, p);
    CancelFactor(f, TWO_TO_52, p);
    ProductNatural(f, p);
  }

  /** A number is a safe integer when its bits say so, and it is that integer. */
  lemma SafeIntegerExact(n: JsNumber, i: int)
    ensures Notation.IsSafeInteger(n, i) <==> SafeInteger(n) == Some(i)
  {
    hide IntegerBits, IntegerOfBits, NumberOf, SafeInteger, Notation.IsInteger;
    if SafeInteger(n) == Some(i) {
      IntegerRoundTrip(n);
      NumberIs(i);
    }
    if Notation.IsSafeInteger(n, i) {
      IsNumber(n, i);
      IntegerRecognised(i);
    }
  }

  lemma NumberIs(i: int)
    requires IsSafe(i)
    ensures Notation.IsInteger(NumberOf(i), i)
  {
    hide IntegerBits, Notation.IsScaled;
    if i != 0 {
      var m := Magnitude(i);
      ScaledOf(m);
      IntegerBitsInRange(m);
      var e: nat, f: nat :| Notation.IsScaled(IntegerBits(m), m, e, f);
      assert Notation.IsScaled(Notation.Size(NumberOf(i).key), Notation.Size(i), e, f);
    }
  }

  lemma IsNumber(n: JsNumber, i: int)
    requires IsSafe(i) && Notation.IsInteger(n, i)
    ensures n == NumberOf(i)
  {
    hide IntegerBits, Notation.IsScaled;
    if i != 0 {
      var e: nat, f: nat :| Notation.IsScaled(Notation.Size(n.key), Notation.Size(i), e, f);
      ScaledIs(Notation.Size(n.key), Magnitude(i), e, f);
      IntegerBitsInRange(Magnitude(i));
    }
  }

  // ---------------------------------------------------------------------------
  // The order of keys is the order of numbers
  // ---------------------------------------------------------------------------

  lemma {:induction false} ExponentGrows(a: nat, b: nat)
    requires 0 < a <= b
    ensures Exponent(a) <= Exponent(b)
  {
    hide Pow2;
    if Exponent(a) > Exponent(b) {
      Pow2Grows(Exponent(b) + 1, Exponent(a));
    }
  }

  lemma BitsIncrease(a: nat, b: nat)
    requires 0 < a < b < TWO_TO_53
    ensures IntegerBits(a) < IntegerBits(b)
  {
    hide Pow2, Exponent, IntegerBits;
    BitsOfInteger(a);
    BitsOfInteger(b);
    ExponentGrows(a, b);
    if Exponent(a) == Exponent(b) {
      CancelFactor(a, b, Pow2(52 - Exponent(a)));
    }
  }

  /** Numbers that are safe integers are ordered as the integers are, by their keys. */
  lemma KeysOrdered(m: JsNumber, i: int, n: JsNumber, j: int)
    requires Notation.IsSafeInteger(m, i) && Notation.IsSafeInteger(n, j)
    ensures m.Num? && n.Num? && (m.key < n.key <==> i < j)
  {
    hide IntegerBits, Notation.IsInteger;
    IsNumber(m, i);
    IsNumber(n, j);
    forall a: nat, b: nat | 0 < a < b < TWO_TO_53
      ensures 0 < IntegerBits(a) < IntegerBits(b)
    {
      IntegerBitsInRange(a);
      BitsIncrease(a, b);
    }
    if i != 0 {
      IntegerBitsInRange(Magnitude(i));
    }
    if j != 0 {
      IntegerBitsInRange(Magnitude(j));
    }
  }
}
