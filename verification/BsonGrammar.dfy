/**
 The bytes of a document in the grammar of the BSON 1.1 specification: an element is a type byte, a key and
 its terminating zero, and a value in the layout of its type.
 */
module BsonGrammar {
  import opened Bytes
  import opened Documents
  import opened Notation

  /** The bytes of a value, and its type byte; a number is written as the smallest integer type that holds it, if there is one. */
  ghost predicate IsValue(kind: byte, bs: seq<byte>, v: Value)
    decreases v, 2
  {
    match v
    case Null => kind == 0x0a && bs == []
    case Boolean(b) => kind == 0x08 && bs == (if b then [0x01] else [0x00])
    case Numeric(n) => IsNumber(kind, bs, n)
    case Text(s) => kind == 0x02 && |bs| == 4 + |s| + 1 && IsWord32(bs[..4], |s| + 1) && bs[4..4 + |s|] == s && bs[4 + |s|] == 0x00
    case List(items) => kind == 0x04 && IsFrame(bs) && AreItems(bs[4..|bs| - 1], items, 0)
    case Object(fields) => kind == 0x03 && IsDocument(bs, fields)
  }

  ghost predicate IsNumber(kind: byte, bs: seq<byte>, n: JsNumber) {
    if i :| IsSafeInteger(n, i) then
      if -0x8000_0000 <= i <= 0x7fff_ffff then kind == 0x10 && IsInt32(bs, i) else kind == 0x12 && IsInt64(bs, i)
    else kind == 0x01 && IsDoubleLE(bs, n)
  }

  /** Four bytes with the size of the whole, and a zero at the end. */
  predicate IsFrame(bs: seq<byte>) {
    |bs| >= 5 && IsWord32(bs[..4], |bs|) && bs[|bs| - 1] == 0x00
  }

  ghost predicate IsDocument(bs: seq<byte>, fields: seq<Field>)
    decreases fields, 1
  {
    IsFrame(bs) && AreElements(bs[4..|bs| - 1], fields)
  }

  /** One element: its type byte, its key, a zero, its value. */
  ghost predicate IsElement(bs: seq<byte>, key: Str, v: Value)
    decreases v, 3
  {
    |bs| >= 1 + |key| + 1 && bs[1..1 + |key|] == key && bs[1 + |key|] == 0x00 && IsValue(bs[0], bs[1 + |key| + 1..], v)
  }

  ghost predicate AreElements(bs: seq<byte>, fields: seq<Field>)
    decreases fields, 0
  {
    if |fields| == 0 then bs == []
    else exists n :: 0 <= n <= |bs| && IsElement(bs[..n], fields[0].key, fields[0].value) && AreElements(bs[n..], fields[1..])
  }

  /** The items of an array are elements whose keys are their positions. */
  ghost predicate AreItems(bs: seq<byte>, items: seq<Value>, first: nat)
    decreases items, 0
  {
    if |items| == 0 then bs == []
    else exists n, key ::
      0 <= n <= |bs| && IsNumeral(key, first) && IsElement(bs[..n], key, items[0]) && AreItems(bs[n..], items[1..], first + 1)
  }
}
