/** Documents as the engine handles them: ordered fields over JSON-like values. */
module Documents {
  import opened Bytes

  /** A string, as the bytes of its UTF-8 form. */
  type Str = seq<byte>

  /** Key of positive infinity in the order below: its 64 bits read as an integer. */
  const INFINITY: int := 0x7ff0_0000_0000_0000

  /**
   A double. All doubles but NaN are ordered by `key`, which is the magnitude's 63 bits with the
   number's sign; the two zeros have the same key, as they are equal and the same map key.
   */
  datatype Number = NaN | Num(key: int) {
    predicate Valid() {
      NaN? || -INFINITY <= key <= INFINITY
    }

    predicate Finite() {
      Num? && -INFINITY < key < INFINITY
    }
  }

  type JsNumber = n: Number | n.Valid() witness Num(0)

  datatype Value =
    | Null
    | Boolean(b: bool)
    | Numeric(n: JsNumber)
    | Text(s: Str)
    | List(items: seq<Value>)
    | Object(fields: seq<Field>)

  datatype Field = Field(key: Str, value: Value)

  type Doc = seq<Field>

  function Get(doc: Doc, key: Str): (v: Option<Value>)
    decreases |doc|
  {
    if |doc| == 0 then None
    else if doc[0].key == key then Some(doc[0].value)
    else Get(doc[1..], key)
  }

  /** The value under a key is the first there, or none if there is no such key. */
  lemma {:induction false} GetMeans(doc: Doc, key: Str)
    ensures Get(doc, key).None? <==> forall i :: 0 <= i < |doc| ==> doc[i].key != key
    ensures Get(doc, key).Some? ==> exists i :: 0 <= i < |doc| && doc[i] == Field(key, Get(doc, key).value) && forall j :: 0 <= j < i ==> doc[j].key != key
    decreases |doc|
  {
    if |doc| > 0 {
      if doc[0].key == key {
        assert doc[0] == Field(key, doc[0].value);
      } else {
        var rest := doc[1..];
        GetMeans(rest, key);
        assert forall j :: 0 < j < |doc| ==> doc[j] == rest[j - 1];
        if Get(rest, key).Some? {
          var i :| 0 <= i < |rest| && rest[i] == Field(key, Get(rest, key).value) && forall j :: 0 <= j < i ==> rest[j].key != key;
          assert doc[i + 1] == Field(key, Get(doc, key).value);
        }
      }
    }
  }

  /** Assignment to a property: in place when it exists, at the end when it does not. */
  function Put(doc: Doc, key: Str, value: Value): (d: Doc)
    ensures Get(d, key) == Some(value)
    decreases |doc|
  {
    if |doc| == 0 then [Field(key, value)]
    else if doc[0].key == key then [Field(key, value)] + doc[1..]
    else
      var rest := Put(doc[1..], key, value);
      assert ([doc[0]] + rest)[1..] == rest;
      [doc[0]] + rest
  }

  lemma {:induction false} PutKeepsOthers(doc: Doc, key: Str, value: Value, other: Str)
    requires other != key
    ensures Get(Put(doc, key, value), other) == Get(doc, other)
    decreases |doc|
  {
    if |doc| == 0 {
    } else if doc[0].key == key {
      assert Put(doc, key, value)[1..] == doc[1..];
    } else {
      PutKeepsOthers(doc[1..], key, value, other);
      assert Put(doc, key, value)[1..] == Put(doc[1..], key, value);
    }
  }

  lemma {:induction false} PutNew(document: Doc, key: Str, v: Value)
    requires forall i :: 0 <= i < |document| ==> document[i].key != key
    ensures Put(document, key, v) == document + [Field(key, v)]
    decreases |document|
  {
    if |document| > 0 {
      PutNew(document[1..], key, v);
      assert document == [document[0]] + document[1..];
    }
  }

  const ID_FIELD: Str := [0x5f, 0x69, 0x64]  // "_id"

  // ---------------------------------------------------------------------------
  // Document identifiers: twelve bytes, written as lowercase hexadecimal
  // ---------------------------------------------------------------------------

  function HexDigit(n: nat): (d: byte)
    requires n < 16
  {
    if n < 10 then 0x30 + n else 0x61 + n - 10
  }

  predicate IsHexDigit(d: byte) {
    0x30 <= d <= 0x39 || 0x61 <= d <= 0x66
  }

  function DigitValue(d: byte): (n: nat)
    requires IsHexDigit(d)
    ensures n < 16 && HexDigit(n) == d
  {
    if d <= 0x39 then d - 0x30 else d - 0x61 + 10
  }

  function Hex(bytes: seq<byte>): (s: Str)
    ensures |s| == 2 * |bytes|
  {
    if |bytes| == 0 then [] else [HexDigit(bytes[0] / 16), HexDigit(bytes[0] % 16)] + Hex(bytes[1..])
  }

  function Unhex(s: Str): (bytes: seq<byte>)
    requires |s| % 2 == 0 && forall i :: 0 <= i < |s| ==> IsHexDigit(s[i])
    ensures 2 * |bytes| == |s| && Hex(bytes) == s
  {
    if |s| == 0 then []
    else
      var b: byte := DigitValue(s[0]) * 16 + DigitValue(s[1]);
      var rest := Unhex(s[2..]);
      assert s == [s[0], s[1]] + s[2..];
      assert ([b] + rest)[1..] == rest;
      [b] + rest
  }

  const DOCUMENT_IDENTIFIER_BYTES: nat := 12

  predicate IsObjectIdHex(id: Str) {
    |id| == 2 * DOCUMENT_IDENTIFIER_BYTES && forall i :: 0 <= i < |id| ==> IsHexDigit(id[i])
  }
}
