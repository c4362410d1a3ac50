/** The growing write buffer of the binary encoders: doubling capacity, backpatched sizes, inline U29. */
module Buffers {
  import opened Bytes
  import opened Records
  import opened Documents
  import opened U29
  import Notation
  import opened Doubles

  /** What the inline writer writes: the encoding of a U29, or its low 29 bits in four bytes. */
  function InlineU29(n: nat): (bs: seq<byte>)
    ensures n <= U29_MAX_VALUE ==> bs == U29.U29(n)
  {
    if n < 0x80 then [n]
    else if n < 0x4000 then [n / 0x80 % 0x80 + 0x80, n % 0x80]
    else if n < 0x20_0000 then [n / 0x4000 % 0x80 + 0x80, n / 0x80 % 0x80 + 0x80, n % 0x80]
    else [n / 0x40_0000 % 0x80 + 0x80, n / 0x8000 % 0x80 + 0x80, n / 0x100 % 0x80 + 0x80, n % 0x100]
  }

  /** A number of more than 29 bits loses the higher ones, and takes four bytes. */
  lemma InlineLow(n: nat)
    requires n > U29_MAX_VALUE
    ensures var bs := InlineU29(n);
            && |bs| == 4 && Notation.Marked(bs[0]) && Notation.Marked(bs[1]) && Notation.Marked(bs[2])
            && Notation.Sevens(bs[0]) * 0x40_0000 + Notation.Sevens(bs[1]) * 0x8000 + Notation.Sevens(bs[2]) * 0x100 + bs[3] == n % 0x2000_0000
  {
    var h := n / 0x100;
    var g := h / 0x80;
    var f := g / 0x80;
    assert n / 0x8000 == g && n / 0x40_0000 == f;
    var low := 0x40_0000 * (f % 0x80) + 0x8000 * (g % 0x80) + 0x100 * (h % 0x80) + n % 0x100;
    assert n == 0x2000_0000 * (f / 0x80) + low;
    LowPart(f / 0x80, low);
  }

  lemma LowPart(high: int, low: int)
    requires 0 <= low < 0x2000_0000
    ensures (0x2000_0000 * high + low) % 0x2000_0000 == low
  {
  }

  class WriteBuffer {
    var data: array<byte>
    var pos: nat

    ghost predicate Valid()
      reads this
    {
      pos <= data.Length && data.Length > 0
    }

    ghost function Written(): seq<byte>
      requires Valid()
      reads this, data
    {
      data[..pos]
    }

    constructor (initialCapacity: nat)
      requires initialCapacity > 0
      ensures Valid() && Written() == [] && fresh(data)
    {
      data := new byte[initialCapacity](_ => 0);
      pos := 0;
    }

    /** Doubles the capacity until the bytes fit, and moves what was written. */
    method Grow(needed: nat)
      requires Valid()
      modifies this`data
      ensures Valid() && pos + needed <= data.Length && Written() == old(Written())
      ensures data == old(data) || fresh(data)
    {
      var required := pos + needed;
      if required <= data.Length {
        return;
      }
      var capacity := data.Length * 2;
      while capacity < required
        invariant capacity > data.Length
        decreases required - capacity
      {
        capacity := capacity * 2;
      }
      var next := new byte[capacity](_ => 0);
      Copy(next, data[..pos], 0);
      data := next;
    }

    method Write(bytes: seq<byte>)
      requires Valid()
      modifies this, data
      ensures Valid() && Written() == old(Written()) + bytes
      ensures data == old(data) || fresh(data)
    {
      Grow(|bytes|);
      Copy(data, bytes, pos);
      pos := pos + |bytes|;
    }

    method WriteByte(b: byte)
      requires Valid()
      modifies this, data
      ensures Valid() && Written() == old(Written()) + [b]
      ensures data == old(data) || fresh(data)
    {
      Grow(1);
      data[pos] := b;
      pos := pos + 1;
    }

    /** False when the value does not fit: the library call throws. */
    method WriteInt32LE(value: int) returns (ok: bool)
      requires Valid()
      modifies this, data
      ensures Valid() && (ok <==> Fits(value, 4))
      ensures Written() == if ok then old(Written()) + IntegerLE(value, 4) else old(Written())
      ensures data == old(data) || fresh(data)
    {
      hide Fits, IntegerLE;
      if !Fits(value, 4) {
        return false;
      }
      Write(IntegerLE(value, 4));
      return true;
    }

    /** Overwrites four bytes written earlier; the write position stays. */
    method PatchInt32LE(offset: nat, value: int) returns (ok: bool)
      requires Valid() && offset + 4 <= pos
      modifies data
      ensures Valid() && (ok <==> Fits(value, 4))
      ensures Written() == if ok then old(Written())[..offset] + IntegerLE(value, 4) + old(Written())[offset + 4..] else old(Written())
    {
      hide Fits, IntegerLE;
      if !Fits(value, 4) {
        return false;
      }
      Copy(data, IntegerLE(value, 4), offset);
      Patched(old(data[..]), data[..], pos, offset, IntegerLE(value, 4));
      return true;
    }

    method WriteBigInt64LE(value: int)
      requires Valid() && Fits(value, 8)
      modifies this, data
      ensures Valid() && Written() == old(Written()) + IntegerLE(value, 8)
      ensures data == old(data) || fresh(data)
    {
      hide Fits, IntegerLE;
      Write(IntegerLE(value, 8));
    }

    method WriteDoubleLE(value: JsNumber)
      requires Valid()
      modifies this, data
      ensures Valid() && Written() == old(Written()) + DoubleLE(value)
      ensures data == old(data) || fresh(data)
    {
      Write(DoubleLE(value));
    }

    method WriteDoubleBE(value: JsNumber)
      requires Valid()
      modifies this, data
      ensures Valid() && Written() == old(Written()) + Reversed(DoubleLE(value))
      ensures data == old(data) || fresh(data)
    {
      Write(Reversed(DoubleLE(value)));
    }

    method WriteUtf8(s: Str)
      requires Valid()
      modifies this, data
      ensures Valid() && Written() == old(Written()) + s
      ensures data == old(data) || fresh(data)
    {
      Write(s);
    }

    /** Branches on the size and writes byte by byte, without the range check of `encodeU29`. */
    method WriteU29(n: nat)
      requires Valid()
      modifies this, data
      ensures Valid() && Written() == old(Written()) + InlineU29(n)
      ensures data == old(data) || fresh(data)
    {
      if n < 0x80 {
        WriteByte(n);
      } else if n < 0x4000 {
        WriteByte(n / 0x80 % 0x80 + 0x80);
        WriteByte(n % 0x80);
      } else if n < 0x20_0000 {
        WriteByte(n / 0x4000 % 0x80 + 0x80);
        WriteByte(n / 0x80 % 0x80 + 0x80);
        WriteByte(n % 0x80);
      } else {
        WriteByte(n / 0x40_0000 % 0x80 + 0x80);
        WriteByte(n / 0x8000 % 0x80 + 0x80);
        WriteByte(n / 0x100 % 0x80 + 0x80);
        WriteByte(n % 0x100);
      }
    }

    method ToBuffer() returns (bytes: seq<byte>)
      requires Valid()
      ensures bytes == Written()
    {
      bytes := data[..pos];
    }
  }

  lemma Patched(before: seq<byte>, after: seq<byte>, pos: nat, offset: nat, part: seq<byte>)
    requires pos <= |before| && offset + |part| <= pos && after == before[..offset] + part + before[offset + |part|..]
    ensures after[..pos] == before[..pos][..offset] + part + before[..pos][offset + |part|..]
  {
  }
}
