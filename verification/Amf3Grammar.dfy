/**
 The bytes of a document in the grammar of sections 3.2 to 3.12 of the AMF 3 specification, for documents that
 are written in full: no references, every array dense, every object dynamic, anonymous and without sealed members.
 */
module Amf3Grammar {
  import opened Bytes
  import opened Documents
  import opened Notation

  ghost predicate IsValue(bs: seq<byte>, v: Value)
    decreases v, 2
  {
    |bs| > 0 && match v
    case Null => bs == [0x01]
    case Boolean(b) => bs == (if b then [0x03] else [0x02])
    case Numeric(n) => IsNumber(bs[0], bs[1..], n)
    case Text(s) => bs[0] == 0x06 && IsString(bs[1..], s)
    case List(items) => exists n :: 1 <= n < |bs| && IsArrayHead(bs, n, |items|) && AreItems(bs[n + 1..], items)
    case Object(fields) => IsObject(bs, fields)
  }

  /** Integers of 29 bits in two's complement; anything else as a double. */
  ghost predicate IsNumber(marker: byte, bs: seq<byte>, n: JsNumber) {
    if i :| IsInteger(n, i) && -0x1000_0000 <= i < 0x1000_0000 then marker == 0x04 && IsU29(bs, if i < 0 then i + 0x2000_0000 else i)
    else marker == 0x05 && IsDoubleBE(bs, n)
  }

  /** The length, doubled, and one, which says that the text follows; then the text. */
  ghost predicate IsString(bs: seq<byte>, s: Str) {
    exists n :: 0 <= n <= |bs| && IsU29(bs[..n], 2 * |s| + 1) && bs[n..] == s
  }

  /** The marker, the count, doubled, and one, and the empty name that ends the associative part. */
  predicate IsArrayHead(bs: seq<byte>, n: nat, count: nat)
    requires 1 <= n < |bs|
  {
    bs[0] == 0x09 && IsU29(bs[1..n], 2 * count + 1) && bs[n] == 0x01
  }

  /** A dynamic object without sealed members, an empty class name, the members, and an empty name. */
  ghost predicate IsObject(bs: seq<byte>, fields: seq<Field>)
    decreases fields, 1
  {
    |bs| >= 4 && bs[0] == 0x0a && bs[1] == 0x0b && bs[2] == 0x01 && bs[|bs| - 1] == 0x01 && AreMembers(bs[3..|bs| - 1], fields)
  }

  ghost predicate AreMembers(bs: seq<byte>, fields: seq<Field>)
    decreases fields, 0
  {
    if |fields| == 0 then bs == []
    else exists m, n ::
      && 0 <= m <= n <= |bs| && IsString(bs[..m], fields[0].key) && IsValue(bs[m..n], fields[0].value)
      && AreMembers(bs[n..], fields[1..])
  }

  ghost predicate AreItems(bs: seq<byte>, items: seq<Value>)
    decreases items, 0
  {
    if |items| == 0 then bs == []
    else exists n :: 0 <= n <= |bs| && IsValue(bs[..n], items[0]) && AreItems(bs[n..], items[1..])
  }
}
