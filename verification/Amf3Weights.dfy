/**
 An AMF3 document with an empty key does not come back, however deep the key is. Behind such a key bytes are
 read out of step, and what is read might put a lost member right again. It never does: with the
 bytes 0x00, 0x01 and 0x0b counted once and all others twice, nothing that reads as a value weighs less
 than what the encoder writes for it, and a member that is read twice weighs more.
 */
module Amf3Weights {
  import opened Bytes
  import opened Documents
  import opened U29
  import opened Doubles
  import opened Buffers
  import opened Amf3

  // ---------------------------------------------------------------------------
  // Weights
  // ---------------------------------------------------------------------------

  function Weight(b: byte): nat {
    if b == 0 || b == EMPTY_STRING || b == DYNAMIC_OBJECT_TRAIT then 1 else 2
  }

  function Weigh(bs: seq<byte>): nat {
    if |bs| == 0 then 0 else Weight(bs[0]) + Weigh(bs[1..])
  }

  lemma {:induction false} WeighBoth(a: seq<byte>, b: seq<byte>)
    ensures Weigh(a + b) == Weigh(a) + Weigh(b)
    decreases |a|
  {
    if |a| == 0 {
      assert a + b == b;
    } else {
      assert (a + b)[1..] == a[1..] + b;
      WeighBoth(a[1..], b);
    }
  }

  lemma {:induction false} WeighBounds(bs: seq<byte>)
    ensures |bs| <= Weigh(bs) <= 2 * |bs|
    decreases |bs|
  {
    if |bs| > 0 {
      WeighBounds(bs[1..]);
    }
  }

  lemma {:induction false} WeighReversed(bs: seq<byte>)
    ensures Weigh(Reversed(bs)) == Weigh(bs)
    decreases |bs|
  {
    if |bs| > 0 {
      WeighReversed(bs[1..]);
      WeighBoth(Reversed(bs[1..]), [bs[0]]);
    }
  }

  /** The weight of what stands before a position. */
  function Upto(buf: seq<byte>, pos: nat): nat {
    Weigh(if pos <= |buf| then buf[..pos] else buf)
  }

  lemma UptoNext(buf: seq<byte>, pos: nat, end: nat)
    requires pos <= end <= |buf|
    ensures Upto(buf, end) == Upto(buf, pos) + Weigh(buf[pos..end])
  {
    assert buf[..end] == buf[..pos] + buf[pos..end];
    WeighBoth(buf[..pos], buf[pos..end]);
  }

  lemma UptoByte(buf: seq<byte>, pos: nat)
    requires pos < |buf|
    ensures Upto(buf, pos + 1) == Upto(buf, pos) + Weight(buf[pos])
  {
    UptoNext(buf, pos, pos + 1);
    assert buf[pos..pos + 1] == [buf[pos]];
    assert [buf[pos]][1..] == [];
  }

  lemma UptoGrows(buf: seq<byte>, pos: nat, end: nat)
    requires pos <= end
    ensures Upto(buf, pos) <= Upto(buf, end)
    ensures pos < end && pos < |buf| ==> Upto(buf, pos) < Upto(buf, end)
  {
    assert buf[..|buf|] == buf;
    if pos <= |buf| {
      var stop := if end <= |buf| then end else |buf|;
      UptoNext(buf, pos, stop);
      WeighBounds(buf[pos..stop]);
    }
  }

  lemma UptoPart(buf: seq<byte>, pos: nat, part: seq<byte>)
    requires StandsAt(buf, pos, part)
    ensures Upto(buf, pos + |part|) == Upto(buf, pos) + Weigh(part)
  {
    hide Upto, Weigh;
    UptoNext(buf, pos, pos + |part|);
  }

  // ---------------------------------------------------------------------------
  // Integers and strings
  // ---------------------------------------------------------------------------

  /** These bytes have their highest bit set. */
  predicate High(buf: seq<byte>, pos: nat, end: nat) {
    pos <= end <= |buf| && forall i :: pos <= i < end ==> buf[i] >= 0x80
  }

  /** What fits `n` groups of seven bits. */
  function Groups(n: nat): nat {
    if n == 0 then 1 else if n == 1 then 0x80 else if n == 2 then 0x4000 else 0x20_0000
  }

  /** The last byte of an integer in `n` bytes holds its lowest bits. */
  predicate EndsIn(value: nat, n: nat, last: byte) {
    value % (if n == 4 then 0x100 else 0x80) == last as int && value <= U29_MAX_VALUE && (n < 4 ==> value < Groups(n))
  }

  lemma LastByte(value: nat, index: nat, b: byte)
    requires index <= 3 && value < Groups(index) && (index < 3 ==> b < 0x80)
    ensures EndsIn(if index == 3 then value * 0x100 + b as int else value * 0x80 + b as int, index + 1, b)
  {
  }

  lemma NextByte(value: nat, index: nat, b: byte)
    requires index < 3 && value < Groups(index) && b >= 0x80
    ensures value * 0x80 + (b - 0x80) < Groups(index + 1)
  {
  }

  /** An integer in four bytes or less: all but the last have their highest bit set. */
  lemma {:induction false} DecodedFrom(buf: seq<byte>, pos: nat, index: nat, value: nat)
    requires index <= 3 && value < Groups(index) && DecodeFrom(buf, pos, index, value).Ok?
    ensures var d := DecodeFrom(buf, pos, index, value).value;
            && index < d.bytesRead <= 4 && pos + d.bytesRead <= |buf|
            && High(buf, pos + index, pos + d.bytesRead - 1) && EndsIn(d.value, d.bytesRead, buf[pos + d.bytesRead - 1])
    decreases 3 - index
  {
    hide Groups, EndsIn;
    var b := buf[pos + index];
    if index < 3 && b >= 0x80 {
      NextByte(value, index, b);
      DecodedFrom(buf, pos, index + 1, value * 0x80 + (b - 0x80));
    } else {
      LastByte(value, index, b);
    }
  }

  lemma {:induction false} HighBytes(buf: seq<byte>, pos: nat, n: nat)
    requires High(buf, pos, pos + n)
    ensures Upto(buf, pos + n) == Upto(buf, pos) + 2 * n
    decreases n
  {
    if n > 0 {
      HighBytes(buf, pos, n - 1);
      UptoByte(buf, pos + n - 1);
    }
  }

  function Width(value: nat): nat {
    if value < 0x80 then 1 else if value < 0x4000 then 2 else if value < 0x20_0000 then 3 else 4
  }

  lemma WeighU29(value: nat)
    requires value <= U29_MAX_VALUE
    ensures |U29.U29(value)| == Width(value)
    ensures Weigh(U29.U29(value)) == 2 * (Width(value) - 1) + Weight(value % (if Width(value) == 4 then 0x100 else 0x80))
  {
    var u := U29.U29(value);
    var n := Width(value) - 1;
    assert u[0..] == u;
    HighBytes(u, 0, n);
    UptoByte(u, n);
    assert u[..n + 1] == u && u[..0] == [];
  }

  /** Whatever bytes an integer is read from, they weigh no less than the shortest ones. */
  lemma IntegerHeavier(buf: seq<byte>, pos: nat)
    requires DecodeU29(buf, pos).Ok?
    ensures var d := DecodeU29(buf, pos).value;
            && d.value <= U29_MAX_VALUE && pos + d.bytesRead <= |buf|
            && Upto(buf, pos + d.bytesRead) >= Upto(buf, pos) + Weigh(U29.U29(d.value))
            && (d.bytesRead > 1 ==> Upto(buf, pos + d.bytesRead) >= Upto(buf, pos) + 2)
            && (d.bytesRead == 1 ==> buf[pos] as int == d.value && Upto(buf, pos + 1) == Upto(buf, pos) + Weight(buf[pos]))
  {
    DecodedFrom(buf, pos, 0, 0);
    var d := DecodeU29(buf, pos).value;
    WeighU29(d.value);
    HighBytes(buf, pos, d.bytesRead - 1);
    UptoByte(buf, pos + d.bytesRead - 1);
  }

  lemma StringHeavier(buf: seq<byte>, pos: nat)
    requires DecodeRawString(buf, pos).Ok? && DecodeRawString(buf, pos).value.1 <= |buf|
    ensures var s := DecodeRawString(buf, pos).value; Upto(buf, s.1) >= Upto(buf, pos) + Weigh(RawString(s.0))
  {
    hide DecodeU29, U29.U29, Upto, Weigh, InlineU29;
    var u := DecodeU29(buf, pos).value;
    var s := DecodeRawString(buf, pos).value;
    IntegerHeavier(buf, pos);
    assert 2 * |s.0| + 1 == u.value;
    UptoNext(buf, pos + u.bytesRead, s.1);
    WeighBoth(InlineU29(2 * |s.0| + 1), s.0);
  }

  // ---------------------------------------------------------------------------
  // Numbers
  // ---------------------------------------------------------------------------

  lemma IntegerValue(u: nat)
    requires u <= U29_MAX_VALUE
    ensures NumberBytes(Integer29(u)) == [INTEGER_MARKER] + U29.U29(u)
  {
    hide SafeInteger, NumberOf, U29.U29;
    var i := if u >= TWO_TO_28 then u - TWO_TO_29 else u;
    IntegerRecognised(i);
  }

  lemma {:induction false} LittleEndianOf(bs: seq<byte>)
    ensures FromLittleEndian(bs) < Pow256(|bs|) && LittleEndian(FromLittleEndian(bs), |bs|) == bs
    decreases |bs|
  {
    if |bs| > 0 {
      hide LittleEndian, FromLittleEndian, Pow256;
      var rest := FromLittleEndian(bs[1..]);
      LittleEndianOf(bs[1..]);
      LittleStep(bs[0], rest, |bs|);
      FromStep(bs);
      assert bs == [bs[0]] + bs[1..];
    }
  }

  lemma LittleStep(b: byte, rest: nat, width: nat)
    requires width > 0 && rest < Pow256(width - 1)
    ensures b as int + 256 * rest < Pow256(width) && LittleEndian(b as int + 256 * rest, width) == [b] + LittleEndian(rest, width - 1)
  {
    var n := b as int + 256 * rest;
    assert n % 256 == b as int && n / 256 == rest;
  }

  lemma FromStep(bs: seq<byte>)
    requires |bs| > 0
    ensures FromLittleEndian(bs) == bs[0] as int + 256 * FromLittleEndian(bs[1..])
  {
  }

  lemma TopBytes(bs: seq<byte>)
    requires |bs| == 8 && FromLittleEndian(bs) % TWO_TO_63 > INFINITY
    ensures Weight(bs[6]) == 2 && Weight(bs[7]) == 2
  {
    hide FromLittleEndian, LittleEndian, Pow256;
    LittleEndianOf(bs[..6]);
    Powers();
    LowAndTop(bs);
    NotANumber(FromLittleEndian(bs[..6]), bs[6], bs[7]);
  }

  lemma NotANumber(low: nat, b: byte, top: byte)
    requires low < 0x1_0000_0000_0000 && (low + 0x1_0000_0000_0000 * b as int + 0x100_0000_0000_0000 * top as int) % TWO_TO_63 > INFINITY
    ensures b >= 0xf0 && (top == 0x7f || top == 0xff)
  {
    var rest := low + 0x1_0000_0000_0000 * b as int;
    var t: int := if top >= 0x80 then top - 0x80 else top;
    assert rest + 0x100_0000_0000_0000 * t < TWO_TO_63;
    assert (rest + 0x100_0000_0000_0000 * top as int) % TWO_TO_63 == rest + 0x100_0000_0000_0000 * t;
  }

  lemma Powers()
    ensures Pow256(6) == 0x1_0000_0000_0000
  {
    assert Pow256(2) == 0x1_0000 && Pow256(3) == 0x100_0000;
    assert Pow256(4) == 256 * Pow256(3) && Pow256(5) == 256 * Pow256(4) && Pow256(6) == 256 * Pow256(5);
  }

  lemma LowAndTop(bs: seq<byte>)
    requires |bs| == 8
    ensures FromLittleEndian(bs) == FromLittleEndian(bs[..6]) + 0x1_0000_0000_0000 * bs[6] as int + 0x100_0000_0000_0000 * bs[7] as int
  {
    SplitLittleEndian(bs, 6);
    Powers();
    var t := bs[6..];
    assert t[1..] == [bs[7]] && t[1..][1..] == [];
    FromStep(t);
    FromStep(t[1..]);
    assert FromLittleEndian([]) == 0;
  }

  lemma PowerStep(n: nat, m: nat)
    requires n > 0
    ensures Pow256(n) * m == 256 * (Pow256(n - 1) * m)
  {
    assert Pow256(n) == 256 * Pow256(n - 1);
  }

  lemma {:induction false} SplitLittleEndian(bs: seq<byte>, n: nat)
    requires n <= |bs|
    ensures FromLittleEndian(bs) == FromLittleEndian(bs[..n]) + Pow256(n) * FromLittleEndian(bs[n..])
    decreases n
  {
    if n == 0 {
      assert bs[..0] == [] && bs[0..] == bs;
    } else {
      hide FromLittleEndian, Pow256;
      SplitLittleEndian(bs[1..], n - 1);
      assert bs[1..][..n - 1] == bs[..n][1..] && bs[1..][n - 1..] == bs[n..];
      FromStep(bs);
      FromStep(bs[..n]);
      PowerStep(n, FromLittleEndian(bs[n..]));
    }
  }

  /** Eight bytes weigh no less than the encoding of the number they stand for, which may be that of an integer. */
  lemma DoubleHeavier(bs: seq<byte>)
    requires |bs| == 8
    ensures 2 + Weigh(bs) >= Weigh(NumberBytes(FromDoubleLE(bs)))
  {
    hide IsInt29, FromDoubleLE, DoubleLE, Weigh, NumberBytes;
    var n := FromDoubleLE(bs);
    if IsInt29(n) {
      WeighBounds(bs);
      IntegerLight(n);
    } else {
      WeighDouble(n);
      if n.NaN? {
        NaNHeavier(bs);
      } else {
        NotZero(n);
        SameDouble(bs);
      }
    }
  }

  lemma IntegerLight(n: JsNumber)
    requires IsInt29(n)
    ensures Weigh(NumberBytes(n)) <= 10
  {
    hide SafeInteger, Weigh;
    var u := Unsigned29(SafeInteger(n).value);
    WeighBounds(InlineU29(u));
    WeighBoth([INTEGER_MARKER], InlineU29(u));
    OneByte(INTEGER_MARKER);
  }

  lemma WeighDouble(n: JsNumber)
    requires !IsInt29(n)
    ensures Weigh(NumberBytes(n)) == 2 + Weigh(DoubleLE(n))
  {
    hide IsInt29, DoubleLE, Weigh;
    WeighBoth([DOUBLE_MARKER], Reversed(DoubleLE(n)));
    OneByte(DOUBLE_MARKER);
    WeighReversed(DoubleLE(n));
  }

  lemma SameDouble(bs: seq<byte>)
    requires |bs| == 8 && FromDoubleLE(bs).Num? && FromDoubleLE(bs).key != 0
    ensures DoubleLE(FromDoubleLE(bs)) == bs
  {
    hide FromLittleEndian, LittleEndian, Pow256, BitsOf, NumberOfBits;
    LittleEndianOf(bs);
    Widths();
    SameBits(FromLittleEndian(bs));
  }

  lemma SameBits(bits: nat)
    requires bits < TWO_TO_64 && NumberOfBits(bits).Num? && NumberOfBits(bits).key != 0
    ensures BitsOf(NumberOfBits(bits)) == bits
  {
  }

  lemma NotZero(n: JsNumber)
    requires n.Num? && !IsInt29(n)
    ensures n.key != 0
  {
  }

  lemma OneByte(b: byte)
    ensures Weigh([b]) == Weight(b)
  {
    assert [b][1..] == [];
  }

  lemma NaNHeavier(bs: seq<byte>)
    requires |bs| == 8 && FromDoubleLE(bs).NaN?
    ensures Weigh(bs) >= Weigh(DoubleLE(NaN))
  {
    hide FromLittleEndian, Weigh, Pow256;
    LittleEndianOf(bs);
    Widths();
    TopBytes(bs);
    WeighBounds(bs[..6]);
    assert bs == bs[..6] + ([bs[6]] + [bs[7]]);
    WeighBoth(bs[..6], [bs[6]] + [bs[7]]);
    WeighBoth([bs[6]], [bs[7]]);
    OneByte(bs[6]);
    OneByte(bs[7]);
    WeighNaN();
  }

  lemma WeighNaN()
    ensures Weigh(DoubleLE(NaN)) == 10
  {
    assert DoubleLE(NaN) == [0, 0, 0, 0, 0, 0, 0xf8, 0x7f] by {
      LittleEndianOf([0, 0, 0, 0, 0, 0, 0xf8, 0x7f]);
      LowAndTop([0, 0, 0, 0, 0, 0, 0xf8, 0x7f]);
      assert [0, 0, 0, 0, 0, 0, 0xf8, 0x7f][..6] == [0, 0, 0, 0, 0, 0];
      assert FromLittleEndian([0, 0, 0, 0, 0, 0]) == 0;
    }
    assert Weigh([0, 0, 0, 0, 0, 0, 0xf8, 0x7f]) == 10;
  }

  // ---------------------------------------------------------------------------
  // What is still owed of an object
  // ---------------------------------------------------------------------------

  function PairWeight(f: Field): nat {
    Weigh(RawString(f.key)) + Weigh(ValueBytes(f.value))
  }

  /** The members of `target` that `fields` does not hold. */
  function Owed(fields: seq<Field>, target: seq<Field>): nat {
    if |target| == 0 then 0 else (if target[0] in fields then 0 else PairWeight(target[0])) + Owed(fields, target[1..])
  }

  predicate Distinct(fields: seq<Field>) {
    forall i, j :: 0 <= i < j < |fields| ==> fields[i].key != fields[j].key
  }

  lemma {:induction false} OwedNothing(fields: seq<Field>, target: seq<Field>)
    requires forall f :: f in target ==> f in fields
    ensures Owed(fields, target) == 0
    decreases |target|
  {
    hide PairWeight;
    if |target| > 0 {
      assert target[0] in target;
      OwedNothing(fields, target[1..]);
    }
  }

  lemma {:induction false} OwedAll(target: seq<Field>)
    ensures Owed([], target) == Weigh(Members(target))
    decreases |target|
  {
    hide Weigh, RawString, ValueBytes;
    if |target| == 0 {
      assert Members(target) == [] && Weigh([]) == 0 by { NoWeight(); }
    } else {
      OwedAll(target[1..]);
      WeighMember(target);
    }
  }

  lemma NoWeight()
    ensures Weigh([]) == 0
  {
  }

  lemma WeighMember(fields: seq<Field>)
    requires |fields| > 0
    ensures Weigh(Members(fields)) == PairWeight(fields[0]) + Weigh(Members(fields[1..]))
  {
    hide Weigh, RawString, ValueBytes;
    var f := fields[0];
    WeighBoth(RawString(f.key) + ValueBytes(f.value), Members(fields[1..]));
    WeighBoth(RawString(f.key), ValueBytes(f.value));
  }

  /** One more member pays for itself at most. */
  lemma {:induction false} OwedLess(fields: seq<Field>, more: seq<Field>, g: Field, target: seq<Field>)
    requires Distinct(target) && forall f :: f in more ==> f in fields || f == g
    ensures Owed(fields, target) <= Owed(more, target) + (if g in target then PairWeight(g) else 0)
    decreases |target|
  {
    hide PairWeight;
    if |target| > 0 {
      OwedLess(fields, more, g, target[1..]);
      assert g in target <==> g == target[0] || g in target[1..];
      assert g == target[0] ==> g !in target[1..];
    }
  }

  lemma {:induction false} PutAdds(fields: seq<Field>, key: Str, v: Value)
    ensures forall f :: f in Put(fields, key, v) ==> f in fields || f == Field(key, v)
    decreases |fields|
  {
    if |fields| > 0 && fields[0].key != key {
      PutAdds(fields[1..], key, v);
    }
  }

  lemma {:induction false} PutDistinct(fields: seq<Field>, key: Str, v: Value)
    requires Distinct(fields)
    ensures Distinct(Put(fields, key, v))
    decreases |fields|
  {
    if |fields| > 0 && fields[0].key != key {
      PutDistinct(fields[1..], key, v);
      PutAdds(fields[1..], key, v);
      var rest := Put(fields[1..], key, v);
      assert Put(fields, key, v) == [fields[0]] + rest;
      forall i | 0 <= i < |rest|
        ensures rest[i].key != fields[0].key
      {
        assert rest[i] in rest;
      }
    }
  }

  /** A member read pays for itself at least. */
  lemma OwedPut(fields: seq<Field>, key: Str, v: Value, target: seq<Field>)
    requires Distinct(target)
    ensures Owed(fields, target) <= Owed(Put(fields, key, v), target) + PairWeight(Field(key, v))
  {
    hide PairWeight;
    PutAdds(fields, key, v);
    OwedLess(fields, Put(fields, key, v), Field(key, v), target);
  }

  lemma {:induction false} SealedDistinct(buf: seq<byte>, pos: nat, names: seq<Str>, fields: seq<Field>)
    requires Distinct(fields)
    ensures DecodeSealed(buf, pos, names, fields).Ok? ==> Distinct(DecodeSealed(buf, pos, names, fields).value.0)
    decreases |names|
  {
    hide DecodeValue;
    if |names| > 0 && DecodeValue(buf, pos).Ok? {
      var v := DecodeValue(buf, pos).value;
      PutDistinct(fields, names[0], v.0);
      SealedDistinct(buf, v.1, names[1..], Put(fields, names[0], v.0));
    }
  }

  lemma {:induction false} MembersDistinct(buf: seq<byte>, pos: nat, fields: seq<Field>)
    requires Distinct(fields)
    ensures DecodeMembers(buf, pos, fields).Ok? ==> Distinct(DecodeMembers(buf, pos, fields).value.0)
    decreases Left(buf, pos)
  {
    hide DecodeValue, DecodeRawString;
    var key := DecodeRawString(buf, pos);
    if key.Ok? && |key.value.0| > 0 && DecodeValue(buf, key.value.1).Ok? {
      var v := DecodeValue(buf, key.value.1).value;
      PutDistinct(fields, key.value.0, v.0);
      MembersDistinct(buf, v.1, Put(fields, key.value.0, v.0));
    }
  }

  // ---------------------------------------------------------------------------
  // Nothing that reads as a value weighs less than its encoding
  // ---------------------------------------------------------------------------

  lemma {:induction false} ValueHeavier(buf: seq<byte>, pos: nat)
    requires DecodeValue(buf, pos).Ok? && DecodeValue(buf, pos).value.1 <= |buf|
    ensures var v := DecodeValue(buf, pos).value; Upto(buf, v.1) >= Upto(buf, pos) + Weigh(ValueBytes(v.0))
    decreases Left(buf, pos), 0
  {
    hide Upto, Weigh, DecodeU29, DecodeRawString, DecodeArray, DecodeObject, Integer29, FromDoubleLE, NumberBytes, RawString, InlineU29, Items, Members, U29.U29;
    var marker, v := buf[pos], DecodeValue(buf, pos).value;
    UptoByte(buf, pos);
    OneByte(marker);
    if marker <= TRUE_MARKER {
      OneByte(NULL_MARKER);
    } else if marker == INTEGER_MARKER {
      var u := DecodeU29(buf, pos + 1).value;
      IntegerHeavier(buf, pos + 1);
      IntegerValue(u.value);
      WeighBoth([INTEGER_MARKER], U29.U29(u.value));
    } else if marker == DOUBLE_MARKER {
      var bs := buf[pos + 1..pos + 9];
      UptoNext(buf, pos + 1, pos + 9);
      WeighReversed(bs);
      DoubleHeavier(Reversed(bs));
    } else if marker == STRING_MARKER {
      StringHeavier(buf, pos + 1);
      WeighBoth([STRING_MARKER], RawString(DecodeRawString(buf, pos + 1).value.0));
    } else if marker == ARRAY_MARKER {
      ArrayHeavier(buf, pos + 1);
    } else {
      ObjectHeavier(buf, pos + 1);
    }
  }

  lemma {:induction false} ArrayHeavier(buf: seq<byte>, pos: nat)
    requires DecodeArray(buf, pos).Ok? && DecodeArray(buf, pos).value.1 <= |buf|
    ensures var v := DecodeArray(buf, pos).value; Upto(buf, v.1) + 2 >= Upto(buf, pos) + Weigh(ValueBytes(v.0))
    decreases Left(buf, pos), 3
  {
    hide Upto, Weigh, DecodeU29, DecodeItems, SkipAssociative, InlineU29, Items, U29.U29;
    var u := DecodeU29(buf, pos).value;
    var dense := SkipAssociative(buf, pos + u.bytesRead).value;
    var r := DecodeItems(buf, dense, u.value / 2, []).value;
    IntegerHeavier(buf, pos);
    UptoGrows(buf, pos + u.bytesRead, dense);
    ItemsHeavier(buf, dense, u.value / 2, []);
    assert r.0[0..] == r.0 && 2 * |r.0| + 1 == u.value;
    WeighList(r.0);
    SkipReads(buf, pos + u.bytesRead);
  }

  lemma SkipReads(buf: seq<byte>, pos: nat)
    requires SkipAssociative(buf, pos).Ok?
    ensures pos < |buf|
  {
    hide DecodeValue, DecodeRawString;
    assert DecodeRawString(buf, pos).Ok?;
  }

  lemma WeighList(items: seq<Value>)
    ensures Weigh(ValueBytes(List(items))) == 2 + Weigh(InlineU29(2 * |items| + 1)) + 1 + Weigh(Items(items))
  {
    hide Weigh, InlineU29, Items;
    var header := InlineU29(2 * |items| + 1);
    WeighBoth([ARRAY_MARKER], header + ([EMPTY_STRING] + Items(items)));
    WeighBoth(header, [EMPTY_STRING] + Items(items));
    WeighBoth([EMPTY_STRING], Items(items));
    OneByte(ARRAY_MARKER);
    OneByte(EMPTY_STRING);
  }

  lemma WeighItem(items: seq<Value>)
    requires |items| > 0
    ensures Weigh(Items(items)) == Weigh(ValueBytes(items[0])) + Weigh(Items(items[1..]))
  {
    hide Weigh, ValueBytes;
    WeighBoth(ValueBytes(items[0]), Items(items[1..]));
  }

  lemma {:induction false} ItemsHeavier(buf: seq<byte>, pos: nat, count: nat, done: seq<Value>)
    requires DecodeItems(buf, pos, count, done).Ok? && DecodeItems(buf, pos, count, done).value.1 <= |buf|
    ensures var r := DecodeItems(buf, pos, count, done).value;
            && |r.0| == |done| + count && r.0[..|done|] == done
            && Upto(buf, r.1) >= Upto(buf, pos) + Weigh(Items(r.0[|done|..]))
    decreases Left(buf, pos), 2, count
  {
    hide Upto, Weigh, DecodeValue, ValueBytes;
    var r := DecodeItems(buf, pos, count, done).value;
    if count == 0 {
      NoWeight();
    } else {
      var v := DecodeValue(buf, pos).value;
      ItemsHeavier(buf, v.1, count - 1, done + [v.0]);
      ValueHeavier(buf, pos);
      assert r.0[..|done|] == (done + [v.0])[..|done|] == done;
      assert r.0[|done|] == (done + [v.0])[|done|] == v.0;
      WeighItem(r.0[|done|..]);
      assert r.0[|done|..][1..] == r.0[|done + [v.0]|..];
    }
  }

  function NamesWeight(names: seq<Str>): nat {
    if |names| == 0 then 0 else Weigh(RawString(names[0])) + NamesWeight(names[1..])
  }

  lemma {:induction false} NamesMore(names: seq<Str>, name: Str)
    ensures NamesWeight(names + [name]) == NamesWeight(names) + Weigh(RawString(name))
    decreases |names|
  {
    hide Weigh, RawString;
    if |names| == 0 {
      assert ([name])[1..] == [] && names + [name] == [name];
    } else {
      assert (names + [name])[1..] == names[1..] + [name];
      NamesMore(names[1..], name);
    }
  }

  lemma {:induction false} NamesHeavier(buf: seq<byte>, pos: nat, count: nat, names: seq<Str>)
    requires DecodeNames(buf, pos, count, names).Ok? && DecodeNames(buf, pos, count, names).value.1 <= |buf|
    ensures var r := DecodeNames(buf, pos, count, names).value;
            Upto(buf, r.1) + NamesWeight(names) >= Upto(buf, pos) + NamesWeight(r.0)
    decreases count
  {
    hide Upto, Weigh, DecodeRawString, RawString, NamesWeight;
    if count > 0 {
      var name := DecodeRawString(buf, pos).value;
      NamesHeavier(buf, name.1, count - 1, names + [name.0]);
      StringHeavier(buf, pos);
      NamesMore(names, name.0);
    }
  }

  lemma {:induction false} SealedHeavier(buf: seq<byte>, pos: nat, names: seq<Str>, fields: seq<Field>, target: seq<Field>)
    requires Distinct(target) && DecodeSealed(buf, pos, names, fields).Ok? && DecodeSealed(buf, pos, names, fields).value.1 <= |buf|
    ensures var r := DecodeSealed(buf, pos, names, fields).value;
            Upto(buf, r.1) + NamesWeight(names) + Owed(r.0, target) >= Upto(buf, pos) + Owed(fields, target)
    decreases Left(buf, pos), 2, |names|
  {
    hide Upto, Weigh, DecodeValue, RawString, Owed, Put;
    if |names| > 0 {
      var v := DecodeValue(buf, pos).value;
      SealedHeavier(buf, v.1, names[1..], Put(fields, names[0], v.0), target);
      ValueHeavier(buf, pos);
      OwedPut(fields, names[0], v.0, target);
    }
  }

  lemma {:induction false} MembersHeavier(buf: seq<byte>, pos: nat, fields: seq<Field>, target: seq<Field>)
    requires Distinct(target) && DecodeMembers(buf, pos, fields).Ok?
    ensures var r := DecodeMembers(buf, pos, fields).value;
            Upto(buf, r.1) + Owed(r.0, target) >= Upto(buf, pos) + Owed(fields, target) + 1
    decreases Left(buf, pos), 2
  {
    hide Upto, Weigh, DecodeValue, DecodeRawString, RawString, Owed, Put;
    var key := DecodeRawString(buf, pos).value;
    if |key.0| == 0 {
      UptoGrows(buf, pos, key.1);
    } else {
      var v := DecodeValue(buf, key.1).value;
      MembersHeavier(buf, v.1, Put(fields, key.0, v.0), target);
      MembersRead(buf, v.1, Put(fields, key.0, v.0));
      StringHeavier(buf, pos);
      ValueHeavier(buf, key.1);
      OwedPut(fields, key.0, v.0, target);
    }
  }

  lemma MembersRead(buf: seq<byte>, pos: nat, fields: seq<Field>)
    requires DecodeMembers(buf, pos, fields).Ok?
    ensures pos < |buf|
  {
    hide DecodeValue, DecodeRawString;
    assert DecodeRawString(buf, pos).Ok?;
  }

  /** Trait and class name, and the end of a dynamic object, weigh at least as much as those of an anonymous dynamic one. */
  lemma {:induction false} ObjectHeavier(buf: seq<byte>, pos: nat)
    requires DecodeObject(buf, pos).Ok? && DecodeObject(buf, pos).value.1 <= |buf|
    ensures var v := DecodeObject(buf, pos).value; Upto(buf, v.1) + 2 >= Upto(buf, pos) + Weigh(ValueBytes(v.0))
    decreases Left(buf, pos), 3
  {
    hide Upto, Weigh, DecodeU29, DecodeRawString, DecodeNames, DecodeSealed, DecodeMembers, Owed, NamesWeight, Members, U29.U29;
    var flags := DecodeU29(buf, pos).value;
    var className := DecodeRawString(buf, pos + flags.bytesRead).value;
    var names := DecodeNames(buf, className.1, flags.value / 16, []).value;
    var sealedMembers := DecodeSealed(buf, names.1, names.0, []).value;
    var target := DecodeObject(buf, pos).value.0.fields;
    IntegerHeavier(buf, pos);
    UptoGrows(buf, pos + flags.bytesRead, className.1);
    SealedDistinct(buf, names.1, names.0, []);
    if flags.value / 8 % 2 == 0 {
      TraitWeighs(buf, pos);
    } else {
      UptoGrows(buf, pos, pos + flags.bytesRead);
      MembersDistinct(buf, sealedMembers.1, sealedMembers.0);
      MembersHeavier(buf, sealedMembers.1, sealedMembers.0, target);
      MembersRead(buf, sealedMembers.1, sealedMembers.0);
    }
    NamesHeavier(buf, className.1, flags.value / 16, []);
    SealedHeavier(buf, names.1, names.0, [], target);
    OwedNothing(target, target);
    OwedAll(target);
    WeighObject(target);
    NoNames();
  }

  lemma NoNames()
    ensures NamesWeight([]) == 0
  {
  }

  /** The trait of an object that is not dynamic is not the byte of an anonymous dynamic one. */
  lemma TraitWeighs(buf: seq<byte>, pos: nat)
    requires DecodeU29(buf, pos).Ok?
    requires var u := DecodeU29(buf, pos).value.value; u % 2 == 1 && u % 4 != 1 && u / 4 % 2 == 0 && u / 8 % 2 == 0
    ensures Upto(buf, pos + DecodeU29(buf, pos).value.bytesRead) >= Upto(buf, pos) + 2
  {
    hide Upto, Weigh, DecodeU29, U29.U29;
    IntegerHeavier(buf, pos);
  }

  lemma WeighObject(fields: seq<Field>)
    ensures Weigh(ValueBytes(Object(fields))) == 5 + Weigh(Members(fields))
  {
    hide Weigh, Members;
    WeighBoth([OBJECT_MARKER, DYNAMIC_OBJECT_TRAIT, EMPTY_STRING], Members(fields) + [EMPTY_STRING]);
    WeighBoth(Members(fields), [EMPTY_STRING]);
    WeighBoth([OBJECT_MARKER], [DYNAMIC_OBJECT_TRAIT] + [EMPTY_STRING]);
    WeighBoth([DYNAMIC_OBJECT_TRAIT], [EMPTY_STRING]);
    OneByte(OBJECT_MARKER);
    OneByte(DYNAMIC_OBJECT_TRAIT);
    OneByte(EMPTY_STRING);
    assert [OBJECT_MARKER, DYNAMIC_OBJECT_TRAIT, EMPTY_STRING] == [OBJECT_MARKER] + ([DYNAMIC_OBJECT_TRAIT] + [EMPTY_STRING]);
  }

  // ---------------------------------------------------------------------------
  // What is read at an empty key is another value, or weighs more
  // ---------------------------------------------------------------------------

  /** The value read here is not `v`, or more was read for it than is written. */
  predicate Strays(buf: seq<byte>, pos: nat, v: Value) {
    DecodeValue(buf, pos).Ok? && DecodeValue(buf, pos).value.1 <= |buf| ==>
      DecodeValue(buf, pos).value.0 != v || Upto(buf, DecodeValue(buf, pos).value.1) > Upto(buf, pos) + Weigh(ValueBytes(v))
  }

  lemma {:induction false} UnnamedStrays(buf: seq<byte>, pos: nat, v: Value)
    requires StandsAt(buf, pos, ValueBytes(v)) && Sized(v) && !Named(v)
    ensures Strays(buf, pos, v)
    decreases v, 3
  {
    hide StandsAt, DecodeValue, ValueBytes, Upto, Weigh;
    match v
    case List(items) => ListStrays(buf, pos, items);
    case Object(fields) => ObjectStrays(buf, pos, fields);
    case _ =>
  }

  /** The head of a list is read, and its items follow. */
  lemma ItemsStand(buf: seq<byte>, pos: nat, items: seq<Value>) returns (first: nat)
    requires StandsAt(buf, pos, ValueBytes(List(items))) && |items| < TWO_TO_28
    ensures pos < first && StandsAt(buf, first, Items(items))
    ensures DecodeValue(buf, pos).Ok? <==> DecodeItems(buf, first, |items|, []).Ok?
    ensures DecodeValue(buf, pos).Ok? ==>
              var r := DecodeItems(buf, first, |items|, []).value; DecodeValue(buf, pos).value == (List(r.0), r.1)
    ensures Upto(buf, first) + Weigh(Items(items)) == Upto(buf, pos) + Weigh(ValueBytes(List(items)))
  {
    hide StandsAt, DecodeValue, InlineU29, DecodeU29, Items, DecodeRawString, DecodeItems, Upto, Weigh;
    var header := InlineU29(2 * |items| + 1);
    var rest := [EMPTY_STRING] + Items(items);
    UptoPart(buf, pos, ValueBytes(List(items)));
    MarkedDecodes(buf, pos, ARRAY_MARKER, header + rest);
    SliceStands(buf, pos + 1, header, rest);
    SliceStands(buf, pos + 1 + |header|, [EMPTY_STRING], Items(items));
    InlineDecodes(buf, pos + 1, 2 * |items| + 1);
    EmptyStringDecodes(buf, pos + 1 + |header|);
    first := pos + 2 + |header|;
    ArrayIsItems(buf, pos + 1, |items|, |header|);
    UptoPart(buf, first, Items(items));
    assert |ValueBytes(List(items))| == 2 + |header| + |Items(items)|;
  }

  lemma ArrayIsItems(buf: seq<byte>, pos: nat, n: nat, headerBytes: nat)
    requires DecodeU29(buf, pos) == Ok(Decoded(2 * n + 1, headerBytes)) && headerBytes > 0
    requires DecodeRawString(buf, pos + headerBytes) == Ok(([], pos + headerBytes + 1))
    ensures var r := DecodeItems(buf, pos + headerBytes + 1, n, []);
            DecodeArray(buf, pos).Ok? == r.Ok? && (r.Ok? ==> DecodeArray(buf, pos).value == (List(r.value.0), r.value.1))
  {
    hide DecodeU29, DecodeRawString, DecodeItems;
  }

  lemma {:induction false} ListStrays(buf: seq<byte>, pos: nat, items: seq<Value>)
    requires StandsAt(buf, pos, ValueBytes(List(items))) && Sized(List(items)) && !Named(List(items))
    ensures Strays(buf, pos, List(items))
    decreases items, 2
  {
    hide StandsAt, DecodeValue, ValueBytes, Upto, Weigh, Items, DecodeItems;
    var first := ItemsStand(buf, pos, items);
    if DecodeValue(buf, pos).Ok? && DecodeValue(buf, pos).value.1 <= |buf| && DecodeValue(buf, pos).value.0 == List(items) {
      ItemsStray(buf, first, items, []);
      assert [] + items == items;
    }
  }

  lemma {:induction false} ItemsStray(buf: seq<byte>, pos: nat, items: seq<Value>, done: seq<Value>)
    requires StandsAt(buf, pos, Items(items)) && (forall i :: 0 <= i < |items| ==> Sized(items[i])) && !forall i :: 0 <= i < |items| ==> Named(items[i])
    requires DecodeItems(buf, pos, |items|, done).Ok? && DecodeItems(buf, pos, |items|, done).value.1 <= |buf|
    requires DecodeItems(buf, pos, |items|, done).value.0 == done + items
    ensures Upto(buf, DecodeItems(buf, pos, |items|, done).value.1) > Upto(buf, pos) + Weigh(Items(items))
    decreases items, 0
  {
    hide StandsAt, DecodeValue, ValueBytes, Sized, Named, Upto, Weigh;
    var v := DecodeValue(buf, pos).value;
    SliceStands(buf, pos, ValueBytes(items[0]), Items(items[1..]));
    WeighItem(items);
    assert done + items == (done + [items[0]]) + items[1..];
    ItemsHeavier(buf, v.1, |items| - 1, done + [v.0]);
    assert (done + items)[..|done| + 1] == done + [v.0];
    assert (done + items)[|done|] == items[0];
    assert (done + items)[|done| + 1..] == items[1..];
    if Named(items[0]) {
      ValueDecodes(buf, pos, items[0]);
      UptoPart(buf, pos, ValueBytes(items[0]));
      ItemsStray(buf, v.1, items[1..], done + [v.0]);
    } else {
      UnnamedStrays(buf, pos, items[0]);
    }
  }

  lemma DynamicIsMembers(buf: seq<byte>, pos: nat)
    requires DecodeU29(buf, pos) == Ok(Decoded(0x0b, 1)) && DecodeRawString(buf, pos + 1) == Ok(([], pos + 2))
    ensures var r := DecodeMembers(buf, pos + 2, []);
            DecodeObject(buf, pos).Ok? == r.Ok? && (r.Ok? ==> DecodeObject(buf, pos).value == (Object(r.value.0), r.value.1))
  {
    hide DecodeU29, DecodeRawString, DecodeMembers;
    assert 0x0b / 16 == 0 && 0x0b / 8 % 2 == 1 && 0x0b / 4 % 2 == 0 && 0x0b % 4 == 3;
  }

  /** An object is its members, and they are not read as they are without reading more than is written. */
  lemma {:induction false} ObjectMembers(buf: seq<byte>, pos: nat, fields: seq<Field>)
    requires StandsAt(buf, pos, ObjectBytes(fields)) && SizedFields(fields) && !NamedFields(fields)
    requires DecodeValue(buf, pos).Ok? && DecodeValue(buf, pos).value.0 == Object(fields)
    ensures Upto(buf, DecodeValue(buf, pos).value.1) > Upto(buf, pos) + Weigh(ValueBytes(Object(fields)))
    decreases fields, 1
  {
    hide StandsAt, DecodeValue, DecodeObject, DecodeU29, DecodeRawString, DecodeMembers, Members, Upto, Weigh, SizedFields, NamedFields;
    MembersStand(buf, pos, fields);
    DynamicIsMembers(buf, pos + 1);
    assert [] + fields == fields;
    SizedDistinct(fields);
    MembersStray(buf, pos + 3, fields, []);
    WeighObject(fields);
    UptoPart(buf, pos, ObjectBytes(fields));
    UptoPart(buf, pos + 3, Members(fields) + [EMPTY_STRING]);
    WeighBoth(Members(fields), [EMPTY_STRING]);
    OneByte(EMPTY_STRING);
  }

  lemma {:induction false} ObjectStrays(buf: seq<byte>, pos: nat, fields: seq<Field>)
    requires StandsAt(buf, pos, ValueBytes(Object(fields))) && Sized(Object(fields)) && !Named(Object(fields))
    ensures Strays(buf, pos, Object(fields))
    decreases fields, 2
  {
    hide StandsAt, DecodeValue, ObjectBytes, Upto, Weigh, SizedFields, NamedFields;
    if DecodeValue(buf, pos).Ok? && DecodeValue(buf, pos).value.0 == Object(fields) {
      ObjectMembers(buf, pos, fields);
    }
  }

  /** The first key is read, and its value and the other members follow. */
  lemma MemberStands(buf: seq<byte>, pos: nat, fields: seq<Field>)
    requires |fields| > 0 && StandsAt(buf, pos, Members(fields) + [EMPTY_STRING]) && |fields[0].key| < TWO_TO_28
    ensures var value := pos + |RawString(fields[0].key)|;
            && DecodeRawString(buf, pos) == Ok((fields[0].key, value)) && Upto(buf, value) == Upto(buf, pos) + Weigh(RawString(fields[0].key))
            && StandsAt(buf, value, ValueBytes(fields[0].value))
            && StandsAt(buf, value + |ValueBytes(fields[0].value)|, Members(fields[1..]) + [EMPTY_STRING])
  {
    hide StandsAt, ValueBytes, DecodeRawString, RawString, Upto, Weigh;
    var key, v := fields[0].key, fields[0].value;
    var rest := Members(fields[1..]) + [EMPTY_STRING];
    assert Members(fields) + [EMPTY_STRING] == RawString(key) + (ValueBytes(v) + rest);
    SliceStands(buf, pos, RawString(key), ValueBytes(v) + rest);
    SliceStands(buf, pos + |RawString(key)|, ValueBytes(v), rest);
    RawStringDecodes(buf, pos, key);
    UptoPart(buf, pos, RawString(key));
  }

  lemma MemberRead(buf: seq<byte>, pos: nat, value: nat, fields: seq<Field>, done: seq<Field>)
    requires |fields| > 0 && Distinct(done + fields) && pos < value && DecodeRawString(buf, pos) == Ok((fields[0].key, value))
    requires DecodeMembers(buf, pos, done).Ok? && |DecodeMembers(buf, pos, done).value.0| > |done|
    ensures |fields[0].key| > 0 && DecodeValue(buf, value).Ok?
    ensures var u := DecodeValue(buf, value).value;
            u.1 < |buf| && DecodeMembers(buf, pos, done) == DecodeMembers(buf, u.1, done + [Field(fields[0].key, u.0)])
  {
    hide DecodeValue, DecodeRawString;
    if |fields[0].key| > 0 {
      var u := DecodeValue(buf, value).value;
      PutNewest(done, fields, u.0);
      MembersRead(buf, u.1, done + [Field(fields[0].key, u.0)]);
    }
  }

  lemma {:induction false} MembersStray(buf: seq<byte>, pos: nat, fields: seq<Field>, done: seq<Field>)
    requires StandsAt(buf, pos, Members(fields) + [EMPTY_STRING]) && SizedFields(fields) && !NamedFields(fields) && Distinct(done + fields)
    requires DecodeMembers(buf, pos, done).Ok? && DecodeMembers(buf, pos, done).value.0 == done + fields
    ensures Upto(buf, DecodeMembers(buf, pos, done).value.1) > Upto(buf, pos) + Weigh(Members(fields)) + 1
    decreases fields, 0
  {
    hide StandsAt, DecodeValue, ValueBytes, Sized, Named, DecodeRawString, RawString, Upto, Weigh, Members, DecodeMembers, Distinct;
    var key, v := fields[0].key, fields[0].value;
    var value := pos + |RawString(key)|;
    MemberStands(buf, pos, fields);
    MemberRead(buf, pos, value, fields, done);
    WeighMember(fields);
    var u := DecodeValue(buf, value).value;
    if Named(v) {
      ValueDecodes(buf, value, v);
      UptoPart(buf, value, ValueBytes(v));
      RestOf(fields);
      assert (done + [fields[0]]) + fields[1..] == done + fields;
      MembersStray(buf, u.1, fields[1..], done + [fields[0]]);
    } else {
      UnnamedStrays(buf, value, v);
      MembersBehind(buf, value, u.1, fields, done, u.0);
    }
  }

  /** A member read as another value is read again, or more was read for its value; then the other members are read. */
  lemma MembersBehind(buf: seq<byte>, value: nat, next: nat, fields: seq<Field>, done: seq<Field>, u: Value)
    requires |fields| > 0 && Distinct(done + fields) && DecodeValue(buf, value) == Ok((u, next)) && next <= |buf| && Strays(buf, value, fields[0].value)
    requires DecodeMembers(buf, next, done + [Field(fields[0].key, u)]).Ok?
    requires DecodeMembers(buf, next, done + [Field(fields[0].key, u)]).value.0 == done + fields
    ensures Upto(buf, DecodeMembers(buf, next, done + [Field(fields[0].key, u)]).value.1)
          > Upto(buf, value) + Weigh(ValueBytes(fields[0].value)) + Weigh(Members(fields[1..])) + 1
  {
    hide DecodeValue, DecodeMembers, ValueBytes, RawString, Upto, Weigh, Members, Owed;
    MembersHeavier(buf, next, done + [Field(fields[0].key, u)], done + fields);
    OwedNothing(done + fields, done + fields);
    OwedRest(done, fields, u);
    ValueHeavier(buf, value);
    StringWeighs(fields[0].key);
  }

  lemma StringWeighs(s: Str)
    ensures Weigh(RawString(s)) > 0
  {
    hide Weigh;
    WeighBounds(RawString(s));
  }

  lemma SizedDistinct(fields: seq<Field>)
    requires SizedFields(fields)
    ensures Distinct(fields)
  {
    hide Sized;
  }

  lemma RestOf(fields: seq<Field>)
    requires |fields| > 0 && SizedFields(fields) && !NamedFields(fields) && |fields[0].key| > 0 && Named(fields[0].value)
    ensures SizedFields(fields[1..]) && !NamedFields(fields[1..])
  {
    hide Sized, Named;
    assert forall i :: 1 <= i < |fields| ==> fields[i] == fields[1..][i - 1];
  }

  lemma KeysApart(done: seq<Field>, fields: seq<Field>)
    requires Distinct(done + fields)
    ensures forall i, j :: 0 <= i < |done| && 0 <= j < |fields| ==> done[i].key != fields[j].key
    ensures forall i :: 1 <= i < |fields| ==> fields[0].key != fields[i].key
  {
    var all := done + fields;
    assert forall i :: 0 <= i < |done| ==> all[i] == done[i];
    assert forall j :: 0 <= j < |fields| ==> all[|done| + j] == fields[j];
  }

  lemma PutNewest(done: seq<Field>, fields: seq<Field>, v: Value)
    requires |fields| > 0 && Distinct(done + fields)
    ensures Put(done, fields[0].key, v) == done + [Field(fields[0].key, v)]
  {
    KeysApart(done, fields);
    PutNew(done, fields[0].key, v);
  }

  /** After the first member has been read as `v`, the rest is owed, and the first unless it is right. */
  lemma OwedRest(done: seq<Field>, fields: seq<Field>, v: Value)
    requires |fields| > 0 && Distinct(done + fields)
    ensures Owed(done + [Field(fields[0].key, v)], done + fields)
         == (if fields[0].value == v then 0 else PairWeight(fields[0])) + Weigh(Members(fields[1..]))
  {
    hide Weigh, PairWeight, Members;
    var read := done + [Field(fields[0].key, v)];
    KeysApart(done, fields);
    OwedBoth(read, done, fields);
    OwedNothing(read, done);
    assert Field(fields[0].key, v) in read;
    assert forall f :: f in done ==> f.key != fields[0].key && f !in fields[1..];
    assert forall f :: f in fields[1..] ==> f.key != fields[0].key;
    OwedWhole(read, fields[1..]);
  }

  lemma {:induction false} OwedBoth(fields: seq<Field>, a: seq<Field>, b: seq<Field>)
    ensures Owed(fields, a + b) == Owed(fields, a) + Owed(fields, b)
    decreases |a|
  {
    hide PairWeight;
    if |a| == 0 {
      assert a + b == b;
    } else {
      assert (a + b)[1..] == a[1..] + b;
      OwedBoth(fields, a[1..], b);
    }
  }

  lemma {:induction false} OwedWhole(fields: seq<Field>, target: seq<Field>)
    requires forall f :: f in target ==> f !in fields
    ensures Owed(fields, target) == Weigh(Members(target))
    decreases |target|
  {
    hide PairWeight, Weigh;
    if |target| == 0 {
      NoWeight();
    } else {
      assert target[0] in target;
      OwedWhole(fields, target[1..]);
      WeighMember(target);
    }
  }

  /** A document comes back if and only if no key is empty, at any depth. */
  lemma Amf3Exact(document: Doc)
    requires SizedFields(document)
    ensures DecodeAmf3(EncodeAmf3(document).value) == Ok(document) <==> NamedFields(document)
  {
    hide DecodeValue, ObjectBytes, SizedFields, NamedFields, Upto, Weigh;
    var bytes := ObjectBytes(document);
    if NamedFields(document) {
      Amf3RoundTrip(document);
    } else if DecodeAmf3(bytes) == Ok(document) {
      assert bytes[0..0 + |bytes|] == bytes;
      ObjectMembers(bytes, 0, document);
      UptoAll(bytes, DecodeValue(bytes, 0).value.1);
      assert false;
    }
  }

  lemma UptoAll(buf: seq<byte>, end: nat)
    ensures Upto(buf, 0) == 0 && Upto(buf, end) <= Weigh(buf)
  {
    hide Weigh;
    NoWeight();
    assert buf[..0] == [] && buf[..|buf|] == buf;
    if end <= |buf| {
      WeighBoth(buf[..end], buf[end..]);
      assert buf == buf[..end] + buf[end..];
    }
  }
}
