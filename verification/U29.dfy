/** The variable-length 29-bit integer of section 1.3.1 of the AMF 3 specification. */
module U29 {
  import opened Bytes
  import Notation

  const U29_MAX_VALUE: nat := 0x1fff_ffff

  function U29(value: nat): (bs: seq<byte>)
    requires value <= U29_MAX_VALUE
    ensures 1 <= |bs| <= 4
  {
    if value < 0x80 then [value]
    else if value < 0x4000 then [value / 0x80 % 0x80 + 0x80, value % 0x80]
    else if value < 0x20_0000 then [value / 0x4000 % 0x80 + 0x80, value / 0x80 % 0x80 + 0x80, value % 0x80]
    else [value / 0x40_0000 % 0x80 + 0x80, value / 0x8000 % 0x80 + 0x80, value / 0x100 % 0x80 + 0x80, value % 0x100]
  }

  function EncodeU29(value: nat): Result<seq<byte>> {
    if value > U29_MAX_VALUE then Err("U29 value must be an unsigned 29-bit integer.") else Ok(U29(value))
  }

  datatype Decoded = Decoded(value: nat, bytesRead: nat)

  /** Decoding from byte `index` on, with `value` read so far. */
  function DecodeFrom(bytes: seq<byte>, offset: nat, index: nat, value: nat): (d: Result<Decoded>)
    requires index <= 3
    ensures d.Ok? ==> index < d.value.bytesRead <= 4 && offset + d.value.bytesRead <= |bytes|
    decreases 3 - index
  {
    if offset + index >= |bytes| then Err("Invalid U29 value: unexpected end of buffer.")
    else
      var b := bytes[offset + index];
      if index == 3 then Ok(Decoded(value * 0x100 + b, 4))
      else if b < 0x80 then Ok(Decoded(value * 0x80 + b, index + 1))
      else DecodeFrom(bytes, offset, index + 1, value * 0x80 + (b - 0x80))
  }

  function DecodeU29(bytes: seq<byte>, offset: nat): (d: Result<Decoded>)
    ensures d.Ok? ==> 0 < d.value.bytesRead <= 4 && offset + d.value.bytesRead <= |bytes|
  {
    DecodeFrom(bytes, offset, 0, 0)
  }

  method DecodeU29Loop(bytes: seq<byte>, offset: nat) returns (d: Result<Decoded>)
    ensures d == DecodeU29(bytes, offset)
  {
    var value: nat := 0;
    for index := 0 to 4
      invariant index < 4 && DecodeFrom(bytes, offset, index, value) == DecodeU29(bytes, offset)
    {
      if offset + index >= |bytes| {
        return Err("Invalid U29 value: unexpected end of buffer.");
      }
      var b: int := bytes[offset + index];
      if index == 3 {
        return Ok(Decoded(value * 0x100 + b, 4));
      }
      value := value * 0x80 + (if b < 0x80 then b else b - 0x80);
      if b < 0x80 {
        return Ok(Decoded(value, index + 1));
      }
    }
  }

  predicate StandsAt(bytes: seq<byte>, offset: nat, part: seq<byte>) {
    offset + |part| <= |bytes| && bytes[offset..offset + |part|] == part
  }

  lemma SliceStands(bytes: seq<byte>, offset: nat, a: seq<byte>, b: seq<byte>)
    requires StandsAt(bytes, offset, a + b)
    ensures StandsAt(bytes, offset, a) && StandsAt(bytes, offset + |a|, b)
  {
    var whole := bytes[offset..offset + |a + b|];
    assert bytes[offset..offset + |a|] == whole[..|a|] == a;
    assert bytes[offset + |a|..offset + |a| + |b|] == whole[|a|..] == b;
  }

  lemma ByteAt(bytes: seq<byte>, offset: nat, part: seq<byte>, i: nat)
    requires StandsAt(bytes, offset, part) && i < |part|
    ensures offset + i < |bytes| && bytes[offset + i] == part[i]
  {
    assert bytes[offset..offset + |part|][i] == bytes[offset + i];
  }

  /** Decoding inverts encoding, wherever the encoding stands, and consumes exactly its bytes. */
  lemma RoundTrip(value: nat, bytes: seq<byte>, offset: nat)
    requires value <= U29_MAX_VALUE && StandsAt(bytes, offset, U29(value))
    ensures DecodeU29(bytes, offset) == Ok(Decoded(value, |U29(value)|))
  {
    hide StandsAt;
    var u := U29(value);
    ByteAt(bytes, offset, u, 0);
    if |u| == 1 {
    } else if |u| == 2 {
      ByteAt(bytes, offset, u, 1);
      var a: int := u[0];
      assert DecodeU29(bytes, offset) == DecodeFrom(bytes, offset, 1, a - 0x80);
    } else if |u| == 3 {
      RoundTrip3(value, bytes, offset);
    } else {
      RoundTrip4(value, bytes, offset);
    }
  }

  lemma RoundTrip3(value: nat, bytes: seq<byte>, offset: nat)
    requires 0x4000 <= value < 0x20_0000 && StandsAt(bytes, offset, U29(value))
    ensures DecodeU29(bytes, offset) == Ok(Decoded(value, 3))
  {
    hide StandsAt;
    var u := U29(value);
    ByteAt(bytes, offset, u, 0);
    ByteAt(bytes, offset, u, 1);
    ByteAt(bytes, offset, u, 2);
    var a, b := value / 0x4000 % 0x80, value / 0x80 % 0x80;
    assert DecodeU29(bytes, offset) == DecodeFrom(bytes, offset, 1, a);
    assert DecodeU29(bytes, offset) == DecodeFrom(bytes, offset, 2, a * 0x80 + b);
    Digits3(value);
  }

  lemma RoundTrip4(value: nat, bytes: seq<byte>, offset: nat)
    requires 0x20_0000 <= value <= U29_MAX_VALUE && StandsAt(bytes, offset, U29(value))
    ensures DecodeU29(bytes, offset) == Ok(Decoded(value, 4))
  {
    hide StandsAt;
    var u := U29(value);
    ByteAt(bytes, offset, u, 0);
    ByteAt(bytes, offset, u, 1);
    ByteAt(bytes, offset, u, 2);
    ByteAt(bytes, offset, u, 3);
    var a, b, c := value / 0x40_0000 % 0x80, value / 0x8000 % 0x80, value / 0x100 % 0x80;
    assert DecodeU29(bytes, offset) == DecodeFrom(bytes, offset, 1, a);
    assert DecodeU29(bytes, offset) == DecodeFrom(bytes, offset, 2, a * 0x80 + b);
    assert DecodeU29(bytes, offset) == DecodeFrom(bytes, offset, 3, (a * 0x80 + b) * 0x80 + c);
    Digits4(value);
  }

  lemma Digits3(value: nat)
    requires value < 0x20_0000
    ensures (value / 0x4000 % 0x80 * 0x80 + value / 0x80 % 0x80) * 0x80 + value % 0x80 == value
  {
    var h := value / 0x80;
    assert value / 0x4000 == h / 0x80;
  }

  lemma Digits4(value: nat)
    requires value <= U29_MAX_VALUE
    ensures ((value / 0x40_0000 % 0x80 * 0x80 + value / 0x8000 % 0x80) * 0x80 + value / 0x100 % 0x80) * 0x100 + value % 0x100 == value
  {
    var h := value / 0x100;
    assert value / 0x8000 == h / 0x80 && value / 0x40_0000 == h / 0x4000;
    Digits3(h);
  }

  // ---------------------------------------------------------------------------
  // The layout
  // ---------------------------------------------------------------------------

  /** There is exactly one way to write a value of at most 29 bits, and none for a greater one. */
  lemma LayoutExact(bs: seq<byte>, value: nat)
    ensures Notation.IsU29(bs, value) <==> value <= U29_MAX_VALUE && bs == U29(value)
  {
    hide Notation.IsU29, U29;
    if value < 0x80 {
      OneByte(bs, value);
    } else if value < 0x4000 {
      TwoBytes(bs, value);
    } else if value < 0x20_0000 {
      ThreeBytes(bs, value);
    } else if value <= U29_MAX_VALUE {
      FourBytes(bs, value);
    } else {
      TooGreat(bs, value);
    }
  }

  lemma TooGreat(bs: seq<byte>, value: nat)
    requires value > U29_MAX_VALUE
    ensures !Notation.IsU29(bs, value)
  {
  }

  lemma OneByte(bs: seq<byte>, value: nat)
    requires value < 0x80
    ensures Notation.IsU29(bs, value) <==> bs == U29(value)
  {
  }

  lemma TwoBytes(bs: seq<byte>, value: nat)
    requires 0x80 <= value < 0x4000
    ensures Notation.IsU29(bs, value) <==> bs == U29(value)
  {
    if |bs| == 2 {
      assert bs == [bs[0], bs[1]];
    }
  }

  lemma ThreeBytes(bs: seq<byte>, value: nat)
    requires 0x4000 <= value < 0x20_0000
    ensures Notation.IsU29(bs, value) <==> bs == U29(value)
  {
    Digits3(value);
    if Notation.IsU29(bs, value) {
      Digits3Exact(Notation.Sevens(bs[0]), Notation.Sevens(bs[1]), bs[2]);
      assert bs == [bs[0], bs[1], bs[2]];
    }
  }

  lemma FourBytes(bs: seq<byte>, value: nat)
    requires 0x20_0000 <= value <= U29_MAX_VALUE
    ensures Notation.IsU29(bs, value) <==> bs == U29(value)
  {
    Digits4(value);
    if Notation.IsU29(bs, value) {
      Digits4Exact(Notation.Sevens(bs[0]), Notation.Sevens(bs[1]), Notation.Sevens(bs[2]), bs[3]);
      assert bs == [bs[0], bs[1], bs[2], bs[3]];
    }
  }

  lemma ReadsOne(bytes: seq<byte>, offset: nat)
    requires offset < |bytes|
    ensures !Notation.Marked(bytes[offset]) ==> DecodeU29(bytes, offset) == Ok(Decoded(bytes[offset], 1))
    ensures Notation.Marked(bytes[offset]) ==> DecodeU29(bytes, offset) == DecodeFrom(bytes, offset, 1, Notation.Sevens(bytes[offset]))
  {
  }

  lemma ReadsMore(bytes: seq<byte>, offset: nat, index: nat, value: nat)
    requires 1 <= index <= 3
    ensures offset + index >= |bytes| ==> DecodeFrom(bytes, offset, index, value).Err?
    ensures offset + index < |bytes| ==>
              var b := bytes[offset + index];
              && (index < 3 && !Notation.Marked(b) ==> DecodeFrom(bytes, offset, index, value) == Ok(Decoded(value * 0x80 + b, index + 1)))
              && (index < 3 && Notation.Marked(b) ==> DecodeFrom(bytes, offset, index, value) == DecodeFrom(bytes, offset, index + 1, value * 0x80 + Notation.Sevens(b)))
              && (index == 3 ==> DecodeFrom(bytes, offset, index, value) == Ok(Decoded(value * 0x100 + b, 4)))
  {
  }

  /** What is read of a value, and how far, are the bytes that denote it, as short as can be or not. */
  lemma ReadExactly(bytes: seq<byte>, offset: nat, value: nat, n: nat)
    ensures DecodeU29(bytes, offset) == Ok(Decoded(value, n)) <==> offset + n <= |bytes| && Notation.DenotesU29(bytes[offset..offset + n], value)
  {
    hide DecodeFrom, DecodeU29;
    if offset >= |bytes| {
      NothingRead(bytes, offset);
    } else {
      ReadsOne(bytes, offset);
      var a := Notation.Sevens(bytes[offset]);
      if Notation.Marked(bytes[offset]) {
        ReadsMore(bytes, offset, 1, a);
        if offset + 1 < |bytes| && Notation.Marked(bytes[offset + 1]) {
          var b := a * 0x80 + Notation.Sevens(bytes[offset + 1]);
          ReadsMore(bytes, offset, 2, b);
          if offset + 2 < |bytes| && Notation.Marked(bytes[offset + 2]) {
            ReadsMore(bytes, offset, 3, b * 0x80 + Notation.Sevens(bytes[offset + 2]));
          }
        }
      }
      if offset + n <= |bytes| {
        var bs := bytes[offset..offset + n];
        assert forall i :: 0 <= i < n ==> bs[i] == bytes[offset + i];
      }
    }
  }

  lemma NothingRead(bytes: seq<byte>, offset: nat)
    requires offset >= |bytes|
    ensures DecodeU29(bytes, offset).Err?
  {
  }

  lemma Digits3Exact(a: int, b: int, c: int)
    requires 0 <= a < 0x80 && 0 <= b < 0x80 && 0 <= c < 0x80
    ensures var n := a * 0x4000 + b * 0x80 + c; n / 0x4000 % 0x80 == a && n / 0x80 % 0x80 == b && n % 0x80 == c
  {
  }

  lemma Digits4Exact(a: int, b: int, c: int, d: int)
    requires 0 <= a < 0x80 && 0 <= b < 0x80 && 0 <= c < 0x80 && 0 <= d < 0x100
    ensures var n := a * 0x40_0000 + b * 0x8000 + c * 0x100 + d;
            n / 0x40_0000 % 0x80 == a && n / 0x8000 % 0x80 == b && n / 0x100 % 0x80 == c && n % 0x100 == d
  {
    var h := a * 0x4000 + b * 0x80 + c;
    var n := h * 0x100 + d;
    assert n / 0x100 == h && n / 0x8000 == h / 0x80 && n / 0x40_0000 == h / 0x4000;
    Digits3Exact(a, b, c);
  }
}
