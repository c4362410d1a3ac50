/**
 CRC-32 as the storage layer computes it (a table of 256 words, one lookup per byte),
 proved equal to the bit-serial CRC of RFC 1952, section 8, and proved to
 notice every change that is confined to four consecutive bytes.
 */
module Crc32 {
  import opened Bytes
  import opened Octets

  const POLYNOMIAL: bv32 := 0xedb88320
  const INITIAL: bv32 := 0xffffffff

  function Xor(a: bv32, b: bv32): bv32 {
    a ^ b
  }

  function Word(b: byte): bv32 {
    Octet(b) as bv32
  }

  predicate LowBit(v: bv32) {
    v & 1 == 1
  }

  function Half(v: bv32): bv32 {
    v >> 1
  }

  // ---------------------------------------------------------------------------
  // Reference: a 32-bit register fed one message bit at a time
  // ---------------------------------------------------------------------------

  function FeedBit(register: bv32, bit: bool): bv32 {
    if LowBit(register) != bit then Xor(POLYNOMIAL, Half(register)) else Half(register)
  }

  /** Feeds the `n` lowest bits of `data`, lowest first. */
  function FeedBits(register: bv32, data: bv32, n: nat): bv32
    decreases n
  {
    if n == 0 then register else FeedBits(FeedBit(register, LowBit(data)), Half(data), n - 1)
  }

  function BitSerialRegister(bytes: seq<byte>): bv32 {
    if |bytes| == 0 then INITIAL
    else FeedBits(BitSerialRegister(bytes[..|bytes| - 1]), Word(bytes[|bytes| - 1]), 8)
  }

  function BitSerialCrc(bytes: seq<byte>): bv32 {
    Xor(BitSerialRegister(bytes), 0xffffffff)
  }

  // ---------------------------------------------------------------------------
  // The table and the table-driven loop
  // ---------------------------------------------------------------------------

  function ShiftOnce(value: bv32): bv32 {
    if LowBit(value) then Xor(POLYNOMIAL, Half(value)) else Half(value)
  }

  function Shift(value: bv32, n: nat): bv32 {
    if n == 0 then value else ShiftOnce(Shift(value, n - 1))
  }

  function High(v: bv32): bv32 {
    v >> 8
  }

  function LowByte(v: bv32): byte {
    Value((v & 0xff) as bv8)
  }

  function TableEntry(index: byte): bv32 {
    Shift(Word(index), 8)
  }

  function TableStep(register: bv32, b: byte): bv32 {
    Xor(High(register), TableEntry(LowByte(Xor(register, Word(b)))))
  }

  function Register(bytes: seq<byte>): bv32 {
    if |bytes| == 0 then INITIAL else TableStep(Register(bytes[..|bytes| - 1]), bytes[|bytes| - 1])
  }

  function Crc(bytes: seq<byte>): bv32 {
    Xor(Register(bytes), 0xffffffff)
  }

  const CRC32_TABLE: seq<bv32> := seq(256, i requires 0 <= i < 256 => TableEntry(i))

  /** Fills the table; `CRC32_TABLE` is what it returns. */
  method CreateCrc32Table() returns (filled: seq<bv32>)
    ensures filled == CRC32_TABLE
  {
    hide Xor, Half, LowBit, Word;
    var table := new bv32[256];
    for index := 0 to 256
      invariant forall i :: 0 <= i < index ==> table[i] == TableEntry(i)
    {
      var value := Word(index);
      for bit := 0 to 8
        invariant value == Shift(Word(index), bit)
      {
        value := if LowBit(value) then Xor(POLYNOMIAL, Half(value)) else Half(value);
      }
      table[index] := value;
    }
    filled := table[..];
  }

  /** The loop over the bytes computes the bit-serial CRC. */
  method ComputeCrc32(bytes: seq<byte>) returns (crc: bv32)
    ensures crc == BitSerialCrc(bytes)
  {
    hide Xor, Shift, Word;
    crc := INITIAL;
    for i := 0 to |bytes|
      invariant crc == Register(bytes[..i])
    {
      assert bytes[..i + 1][..i] == bytes[..i];
      crc := Xor(High(crc), CRC32_TABLE[LowByte(Xor(crc, Word(bytes[i])))]);
    }
    assert bytes[..|bytes|] == bytes;
    TableLoopIsBitSerial(bytes);
    crc := Xor(crc, 0xffffffff);
  }

  // ---------------------------------------------------------------------------
  // The check value of this CRC
  // ---------------------------------------------------------------------------

  lemma DigitWords()
    ensures Word(0x31) == 0x31 && Word(0x32) == 0x32 && Word(0x33) == 0x33 && Word(0x34) == 0x34 && Word(0x35) == 0x35
    ensures Word(0x36) == 0x36 && Word(0x37) == 0x37 && Word(0x38) == 0x38 && Word(0x39) == 0x39
  {
    assert Bits(3, 4) == 3;
    assert Bits(6, 5) == 6 && Bits(7, 5) == 7;
    assert Bits(12, 6) == 12 && Bits(13, 6) == 13 && Bits(14, 6) == 14;
    assert Bits(24, 7) == 24 && Bits(25, 7) == 25 && Bits(26, 7) == 26 && Bits(27, 7) == 27 && Bits(28, 7) == 28;
  }

  lemma DigitsFed()
    ensures FeedBits(0xffffffff, 0x31, 8) == 0x7c231048
    ensures FeedBits(0x7c231048, 0x32, 8) == 0xb0acbb32
    ensures FeedBits(0xb0acbb32, 0x33, 8) == 0x77b79c2d
    ensures FeedBits(0x77b79c2d, 0x34, 8) == 0x641c1f5c
    ensures FeedBits(0x641c1f5c, 0x35, 8) == 0x340ac5e3
    ensures FeedBits(0x340ac5e3, 0x36, 8) == 0xf68d2c9e
    ensures FeedBits(0xf68d2c9e, 0x37, 8) == 0xaffc9660
    ensures FeedBits(0xaffc9660, 0x38, 8) == 0x651f2550
    ensures FeedBits(0x651f2550, 0x39, 8) == 0x340bc6d9
  {
  }

  lemma NextRegister(bytes: seq<byte>, b: byte)
    ensures BitSerialRegister(bytes + [b]) == FeedBits(BitSerialRegister(bytes), Word(b), 8)
  {
    hide FeedBits, Word;
    assert (bytes + [b])[..|bytes|] == bytes;
  }

  /** The nine digits "123456789" have the checksum that identifies this CRC among all others. */
  lemma CheckValue()
    ensures BitSerialCrc([0x31, 0x32, 0x33, 0x34, 0x35, 0x36, 0x37, 0x38, 0x39]) == 0xcbf43926
  {
    hide FeedBits, Word, BitSerialRegister;
    DigitWords();
    DigitsFed();
    NoBytes();
    NextRegister([], 0x31);
    assert [] + [0x31] == [0x31];
    NextRegister([0x31], 0x32);
    assert [0x31] + [0x32] == [0x31, 0x32];
    NextRegister([0x31, 0x32], 0x33);
    assert [0x31, 0x32] + [0x33] == [0x31, 0x32, 0x33];
    NextRegister([0x31, 0x32, 0x33], 0x34);
    assert [0x31, 0x32, 0x33] + [0x34] == [0x31, 0x32, 0x33, 0x34];
    NextRegister([0x31, 0x32, 0x33, 0x34], 0x35);
    assert [0x31, 0x32, 0x33, 0x34] + [0x35] == [0x31, 0x32, 0x33, 0x34, 0x35];
    NextRegister([0x31, 0x32, 0x33, 0x34, 0x35], 0x36);
    assert [0x31, 0x32, 0x33, 0x34, 0x35] + [0x36] == [0x31, 0x32, 0x33, 0x34, 0x35, 0x36];
    NextRegister([0x31, 0x32, 0x33, 0x34, 0x35, 0x36], 0x37);
    assert [0x31, 0x32, 0x33, 0x34, 0x35, 0x36] + [0x37] == [0x31, 0x32, 0x33, 0x34, 0x35, 0x36, 0x37];
    NextRegister([0x31, 0x32, 0x33, 0x34, 0x35, 0x36, 0x37], 0x38);
    assert [0x31, 0x32, 0x33, 0x34, 0x35, 0x36, 0x37] + [0x38] == [0x31, 0x32, 0x33, 0x34, 0x35, 0x36, 0x37, 0x38];
    NextRegister([0x31, 0x32, 0x33, 0x34, 0x35, 0x36, 0x37, 0x38], 0x39);
    assert [0x31, 0x32, 0x33, 0x34, 0x35, 0x36, 0x37, 0x38] + [0x39] == [0x31, 0x32, 0x33, 0x34, 0x35, 0x36, 0x37, 0x38, 0x39];
  }

  lemma NoBytes()
    ensures BitSerialRegister([]) == 0xffffffff
  {
  }

  // ---------------------------------------------------------------------------
  // The table loop computes the bit-serial register
  // ---------------------------------------------------------------------------

  lemma RawXorSwap(a: bv32, b: bv32, c: bv32, d: bv32)
    ensures (a ^ b) ^ (c ^ d) == (a ^ c) ^ (b ^ d)
  {
  }

  lemma XorSwap(a: bv32, b: bv32, c: bv32, d: bv32)
    ensures Xor(Xor(a, b), Xor(c, d)) == Xor(Xor(a, c), Xor(b, d))
  {
    calc {
      Xor(Xor(a, b), Xor(c, d));
      (a ^ b) ^ (c ^ d);
      { RawXorSwap(a, b, c, d); }
      (a ^ c) ^ (b ^ d);
      Xor(Xor(a, c), Xor(b, d));
    }
  }

  lemma XorZero(a: bv32)
    ensures Xor(a, 0) == a && Xor(0, a) == a && Xor(a, a) == 0
  {
  }

  lemma XorCommutes(a: bv32, b: bv32)
    ensures Xor(a, b) == Xor(b, a)
  {
  }

  lemma RawXorAssociates(a: bv32, b: bv32, c: bv32)
    ensures (a ^ b) ^ c == a ^ (b ^ c)
  {
  }

  lemma XorAssociates(a: bv32, b: bv32, c: bv32)
    ensures Xor(Xor(a, b), c) == Xor(a, Xor(b, c))
  {
    calc {
      Xor(Xor(a, b), c);
      (a ^ b) ^ c;
      { RawXorAssociates(a, b, c); }
      a ^ (b ^ c);
      Xor(a, Xor(b, c));
    }
  }

  lemma XorCancels(a: bv32, b: bv32)
    ensures Xor(Xor(a, b), b) == a
  {
  }

  lemma HalfLinear(a: bv32, b: bv32)
    ensures Half(Xor(a, b)) == Xor(Half(a), Half(b))
  {
  }

  lemma LowBitLinear(a: bv32, b: bv32)
    ensures LowBit(Xor(a, b)) == (LowBit(a) != LowBit(b))
  {
  }

  lemma ShiftOnceLinear(a: bv32, b: bv32)
    ensures ShiftOnce(Xor(a, b)) == Xor(ShiftOnce(a), ShiftOnce(b))
  {
    hide Xor, Half, LowBit;
    var p, x, y := POLYNOMIAL, Half(a), Half(b);
    HalfLinear(a, b);
    LowBitLinear(a, b);
    XorSwap(p, x, p, y);
    XorZero(p);
    XorZero(Xor(x, y));
    XorAssociates(p, x, y);
    XorAssociates(x, p, y);
    XorAssociates(p, x, y);
    XorCommutes(x, p);
  }

  lemma {:induction false} ShiftLinear(a: bv32, b: bv32, n: nat)
    ensures Shift(Xor(a, b), n) == Xor(Shift(a, n), Shift(b, n))
  {
    hide Xor, ShiftOnce;
    if n > 0 {
      ShiftLinear(a, b, n - 1);
      ShiftOnceLinear(Shift(a, n - 1), Shift(b, n - 1));
    }
  }

  lemma {:induction false} ShiftFromInside(v: bv32, n: nat)
    requires n > 0
    ensures Shift(v, n) == Shift(ShiftOnce(v), n - 1)
  {
    hide ShiftOnce;
    if n > 1 {
      ShiftFromInside(v, n - 1);
    }
  }

  /** Feeding one bit is xor-ing it into the register and shifting. */
  lemma FeedBitIsShift(register: bv32, data: bv32)
    ensures Xor(FeedBit(register, LowBit(data)), Half(data)) == ShiftOnce(Xor(register, data))
  {
    hide Xor, Half, LowBit;
    HalfLinear(register, data);
    LowBitLinear(register, data);
    XorAssociates(POLYNOMIAL, Half(register), Half(data));
  }

  function DropBits(data: bv32, n: nat): bv32 {
    if n == 0 then data else DropBits(Half(data), n - 1)
  }

  lemma {:induction false} FeedBitsIsShift(register: bv32, data: bv32, n: nat)
    ensures Xor(FeedBits(register, data, n), DropBits(data, n)) == Shift(Xor(register, data), n)
    decreases n
  {
    hide Xor, Half, LowBit, ShiftOnce, FeedBit;
    if n > 0 {
      FeedBitIsShift(register, data);
      FeedBitsIsShift(FeedBit(register, LowBit(data)), Half(data), n - 1);
      ShiftFromInside(Xor(register, data), n);
    }
  }

  /** Without low bits, shifting out a byte is a plain shift. */
  lemma {:induction false} ShiftClear(v: bv32)
    requires v & 0xff == 0
    ensures Shift(v, 8) == High(v)
  {
    hide Xor;
    assert Shift(v, 1) == v >> 1;
    assert Shift(v, 2) == v >> 2;
    assert Shift(v, 3) == v >> 3;
    assert Shift(v, 4) == v >> 4;
    assert Shift(v, 5) == v >> 5;
    assert Shift(v, 6) == v >> 6;
    assert Shift(v, 7) == v >> 7;
  }

  lemma SplitByte(v: bv32)
    ensures v == Xor(v & 0xffffff00, v & 0xff)
    ensures (v & 0xffffff00) & 0xff == 0 && High(v & 0xffffff00) == High(v)
  {
  }

  lemma LowByteWord(v: bv32)
    ensures Word(LowByte(v)) == v & 0xff
  {
    ValueRoundTrip((v & 0xff) as bv8);
  }

  /** Shifting out a byte: beyond a plain shift, only the low eight bits matter. */
  lemma ShiftSplits(v: bv32)
    ensures Shift(v, 8) == Xor(High(v), TableEntry(LowByte(v)))
  {
    hide Xor, Shift, Word, LowByte;
    LowByteWord(v);
    SplitByte(v);
    ShiftClear(v & 0xffffff00);
    ShiftLinear(v & 0xffffff00, v & 0xff, 8);
  }

  lemma WordIsLow(register: bv32, b: byte)
    ensures High(Xor(register, Word(b))) == High(register)
  {
  }

  lemma TableStepIsShift(register: bv32, b: byte)
    ensures TableStep(register, b) == Shift(Xor(register, Word(b)), 8)
  {
    hide Xor, Shift, Word, LowByte, High;
    WordIsLow(register, b);
    ShiftSplits(Xor(register, Word(b)));
  }

  lemma DropByte(b: byte)
    ensures DropBits(Word(b), 8) == 0
  {
    var d := Word(b);
    assert d < 256;
    assert DropBits(0, 0) == 0;
    assert DropBits(d >> 7, 1) == 0;
    assert DropBits(d >> 6, 2) == 0;
    assert DropBits(d >> 5, 3) == 0;
    assert DropBits(d >> 4, 4) == 0;
    assert DropBits(d >> 3, 5) == 0;
    assert DropBits(d >> 2, 6) == 0;
    assert DropBits(d >> 1, 7) == 0;
  }

  lemma TableStepIsFeedByte(register: bv32, b: byte)
    ensures TableStep(register, b) == FeedBits(register, Word(b), 8)
  {
    hide Xor, Word, TableStep, FeedBits, Shift;
    TableStepIsShift(register, b);
    FeedBitsIsShift(register, Word(b), 8);
    DropByte(b);
    XorZero(FeedBits(register, Word(b), 8));
  }

  /** The table-driven loop is the bit-serial CRC, for every byte string. */
  lemma {:induction false} TableLoopIsBitSerial(bytes: seq<byte>)
    ensures Register(bytes) == BitSerialRegister(bytes)
    ensures Crc(bytes) == BitSerialCrc(bytes)
  {
    hide Xor, Word, TableStep, FeedBits;
    if |bytes| > 0 {
      var init := bytes[..|bytes| - 1];
      TableLoopIsBitSerial(init);
      TableStepIsFeedByte(Register(init), bytes[|bytes| - 1]);
    }
  }

  // ---------------------------------------------------------------------------
  // Error detection: the register never forgets a difference
  // ---------------------------------------------------------------------------

  lemma ShiftOnceInjective(a: bv32, b: bv32)
    requires ShiftOnce(a) == ShiftOnce(b)
    ensures a == b
  {
  }

  lemma {:induction false} ShiftInjective(a: bv32, b: bv32, n: nat)
    requires Shift(a, n) == Shift(b, n)
    ensures a == b
  {
    hide ShiftOnce;
    if n > 0 {
      ShiftOnceInjective(Shift(a, n - 1), Shift(b, n - 1));
      ShiftInjective(a, b, n - 1);
    }
  }

  lemma TableStepInjective(r: bv32, s: bv32, b: byte)
    requires TableStep(r, b) == TableStep(s, b)
    ensures r == s
  {
    hide Xor, Word, TableStep, Shift;
    TableStepIsShift(r, b);
    TableStepIsShift(s, b);
    ShiftInjective(Xor(r, Word(b)), Xor(s, Word(b)), 8);
    XorCancels(r, Word(b));
    XorCancels(s, Word(b));
  }

  /** The register after `bytes`, starting from `register`. */
  function Feed(register: bv32, bytes: seq<byte>): bv32
    decreases |bytes|
  {
    if |bytes| == 0 then register else Feed(TableStep(register, bytes[0]), bytes[1..])
  }

  lemma {:induction false} RegisterFeeds(before: seq<byte>, bytes: seq<byte>)
    ensures Register(before + bytes) == Feed(Register(before), bytes)
    decreases |bytes|
  {
    hide TableStep;
    if |bytes| == 0 {
      assert before + bytes == before;
    } else {
      var next := before + [bytes[0]];
      assert before + bytes == next + bytes[1..];
      assert next[..|next| - 1] == before;
      RegisterFeeds(next, bytes[1..]);
    }
  }

  lemma {:induction false} FeedInjective(r: bv32, s: bv32, bytes: seq<byte>)
    requires Feed(r, bytes) == Feed(s, bytes)
    ensures r == s
    decreases |bytes|
  {
    hide TableStep;
    if |bytes| > 0 {
      FeedInjective(TableStep(r, bytes[0]), TableStep(s, bytes[0]), bytes[1..]);
      TableStepInjective(r, s, bytes[0]);
    }
  }

  function Left(v: bv32): bv32 {
    v << 8
  }

  /** Up to four bytes as one word, first byte lowest. */
  function Pack(bytes: seq<byte>): bv32
    decreases |bytes|
  {
    if |bytes| == 0 then 0 else Xor(Word(bytes[0]), Left(Pack(bytes[1..])))
  }

  predicate Fits(v: bv32, n: nat) {
    n < 4 ==> v < (match n case 0 => 1 case 1 => 0x100 case 2 => 0x1_0000 case _ => 0x100_0000)
  }

  lemma PackGrows(b: byte, v: bv32, n: nat)
    requires Fits(v, n)
    ensures Fits(Xor(Word(b), Left(v)), n + 1)
  {
    if n == 0 {
      assert Left(v) == 0;
    }
  }

  lemma {:induction false} PackFits(bytes: seq<byte>)
    ensures Fits(Pack(bytes), |bytes|)
    decreases |bytes|
  {
    hide Xor, Word, Left;
    if |bytes| > 0 {
      PackFits(bytes[1..]);
      PackGrows(bytes[0], Pack(bytes[1..]), |bytes| - 1);
    }
  }

  lemma LeftIsClear(v: bv32)
    requires Fits(v, 3)
    ensures Left(v) & 0xff == 0 && High(Left(v)) == v
  {
  }

  lemma {:induction false} ShiftAdds(v: bv32, m: nat, n: nat)
    ensures Shift(Shift(v, m), n) == Shift(v, m + n)
  {
    hide ShiftOnce;
    if n > 0 {
      ShiftAdds(v, m, n - 1);
    }
  }

  /** A word xor-ed in after a byte was shifted out could have been xor-ed in before, one byte higher. */
  lemma XorAfterShift(v: bv32, w: bv32)
    requires Fits(w, 3)
    ensures Xor(Shift(v, 8), w) == Shift(Xor(v, Left(w)), 8)
  {
    hide Xor, Shift, Left, High;
    LeftIsClear(w);
    ShiftClear(Left(w));
    ShiftLinear(v, Left(w), 8);
  }

  /** Feeding up to four bytes is xor-ing them in at once and shifting them out. */
  lemma {:induction false} FeedIsShift(register: bv32, bytes: seq<byte>)
    requires |bytes| <= 4
    ensures Feed(register, bytes) == Shift(Xor(register, Pack(bytes)), 8 * |bytes|)
    decreases |bytes|
  {
    hide Xor, Shift, Left, Word, TableStep, Fits;
    if |bytes| == 0 {
      XorZero(register);
      assert Shift(register, 0) == register by { ShiftZero(register); }
    } else {
      var b, rest := bytes[0], bytes[1..];
      var p := Pack(rest);
      FeedIsShift(TableStep(register, b), rest);
      TableStepIsShift(register, b);
      PackFits(rest);
      FitsMore(p, |rest|);
      XorAfterShift(Xor(register, Word(b)), p);
      XorAssociates(register, Word(b), Left(p));
      ShiftAdds(Xor(register, Pack(bytes)), 8, 8 * |rest|);
    }
  }

  lemma ShiftZero(v: bv32)
    ensures Shift(v, 0) == v
  {
  }

  lemma FitsMore(v: bv32, n: nat)
    requires Fits(v, n) && n <= 3
    ensures Fits(v, 3)
  {
  }

  lemma PackHeadInjective(a: byte, p: bv32, b: byte, q: bv32)
    requires Fits(p, 3) && Fits(q, 3)
    requires Xor(Word(a), Left(p)) == Xor(Word(b), Left(q))
    ensures Word(a) == Word(b) && p == q
  {
  }

  lemma WordInjective(a: byte, b: byte)
    requires Word(a) == Word(b)
    ensures a == b
  {
    assert Octet(a) == Octet(b);
    OctetRoundTrip(a);
    OctetRoundTrip(b);
    hide Octet, Word;
  }

  lemma {:induction false} PackInjective(a: seq<byte>, b: seq<byte>)
    requires |a| == |b| <= 4 && Pack(a) == Pack(b)
    ensures a == b
    decreases |a|
  {
    hide Xor, Left, Word, Fits;
    if |a| > 0 {
      PackFits(a[1..]);
      PackFits(b[1..]);
      FitsMore(Pack(a[1..]), |a| - 1);
      FitsMore(Pack(b[1..]), |a| - 1);
      PackHeadInjective(a[0], Pack(a[1..]), b[0], Pack(b[1..]));
      WordInjective(a[0], b[0]);
      PackInjective(a[1..], b[1..]);
      assert a == [a[0]] + a[1..] && b == [b[0]] + b[1..];
    }
  }

  lemma FeedDistinguishes(register: bv32, a: seq<byte>, b: seq<byte>)
    requires |a| == |b| <= 4 && Feed(register, a) == Feed(register, b)
    ensures a == b
  {
    hide Xor, Shift, Pack, Feed;
    FeedIsShift(register, a);
    FeedIsShift(register, b);
    ShiftInjective(Xor(register, Pack(a)), Xor(register, Pack(b)), 8 * |a|);
    XorCommutes(register, Pack(a));
    XorCommutes(register, Pack(b));
    XorCancels(Pack(a), register);
    XorCancels(Pack(b), register);
    PackInjective(a, b);
  }

  /** Replacing at most four consecutive bytes by different ones changes the CRC. */
  lemma BurstChangesCrc(before: seq<byte>, a: seq<byte>, b: seq<byte>, after: seq<byte>)
    requires |a| == |b| <= 4 && a != b
    ensures Crc(before + a + after) != Crc(before + b + after)
  {
    hide Xor, Feed, Register;
    RegisterFeeds(before, a);
    RegisterFeeds(before, b);
    RegisterFeeds(before + a, after);
    RegisterFeeds(before + b, after);
    if Crc(before + a + after) == Crc(before + b + after) {
      XorCancels(Register(before + a + after), 0xffffffff);
      XorCancels(Register(before + b + after), 0xffffffff);
      FeedInjective(Register(before + a), Register(before + b), after);
      FeedDistinguishes(Register(before), a, b);
    }
  }

  // ---------------------------------------------------------------------------
  // The checksum as four big-endian bytes
  // ---------------------------------------------------------------------------

  function WordBytes(w: bv32): (bs: seq<byte>)
    ensures |bs| == 4
  {
    [Value((w >> 24) as bv8), Value(((w >> 16) & 0xff) as bv8), Value(((w >> 8) & 0xff) as bv8), Value((w & 0xff) as bv8)]
  }

  function Checksum(bytes: seq<byte>): (bs: seq<byte>)
    ensures |bs| == 4
  {
    WordBytes(Crc(bytes))
  }

  lemma WordFromParts(v: bv32, w: bv32)
    requires (v >> 24) as bv8 == (w >> 24) as bv8
    requires ((v >> 16) & 0xff) as bv8 == ((w >> 16) & 0xff) as bv8
    requires ((v >> 8) & 0xff) as bv8 == ((w >> 8) & 0xff) as bv8
    requires (v & 0xff) as bv8 == (w & 0xff) as bv8
    ensures v == w
  {
  }

  lemma ValueInjective(v: bv8, w: bv8)
    requires Value(v) == Value(w)
    ensures v == w
  {
    hide Octet, Value;
    ValueRoundTrip(v);
    ValueRoundTrip(w);
  }

  lemma WordBytesInjective(v: bv32, w: bv32)
    requires WordBytes(v) == WordBytes(w)
    ensures v == w
  {
    hide Value;
    assert WordBytes(v)[0] == WordBytes(w)[0] && WordBytes(v)[1] == WordBytes(w)[1];
    assert WordBytes(v)[2] == WordBytes(w)[2] && WordBytes(v)[3] == WordBytes(w)[3];
    ValueInjective((v >> 24) as bv8, (w >> 24) as bv8);
    ValueInjective(((v >> 16) & 0xff) as bv8, ((w >> 16) & 0xff) as bv8);
    ValueInjective(((v >> 8) & 0xff) as bv8, ((w >> 8) & 0xff) as bv8);
    ValueInjective((v & 0xff) as bv8, (w & 0xff) as bv8);
    WordFromParts(v, w);
  }

  /** Replacing at most four consecutive bytes by different ones changes the stored checksum. */
  lemma BurstChangesChecksum(before: seq<byte>, a: seq<byte>, b: seq<byte>, after: seq<byte>)
    requires |a| == |b| <= 4 && a != b
    ensures Checksum(before + a + after) != Checksum(before + b + after)
  {
    hide WordBytes, Crc;
    BurstChangesCrc(before, a, b, after);
    if Checksum(before + a + after) == Checksum(before + b + after) {
      WordBytesInjective(Crc(before + a + after), Crc(before + b + after));
    }
  }
}
