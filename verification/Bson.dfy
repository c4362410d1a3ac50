/**
 The BSON document encoder: elements of a type byte, a key ending in zero, and a value; nested
 documents in frames whose leading size is patched in afterwards. The element grammar is that of
 the BSON 1.1 specification.
 */
module Bson {
  import opened Bytes
  import opened Documents
  import opened U29
  import opened Doubles
  import opened Buffers
  import Notation
  import Numbers
  import Grammar = BsonGrammar

  const TYPE_DOUBLE: byte := 0x01
  const TYPE_STRING: byte := 0x02
  const TYPE_DOCUMENT: byte := 0x03
  const TYPE_ARRAY: byte := 0x04
  const TYPE_BOOLEAN: byte := 0x08
  const TYPE_NULL: byte := 0x0a
  const TYPE_INT32: byte := 0x10
  const TYPE_INT64: byte := 0x12

  const MAX_INT32: nat := 0x7fff_ffff

  // ---------------------------------------------------------------------------
  // Array keys
  // ---------------------------------------------------------------------------

  /** `String(i)`. */
  function Decimal(n: nat): (s: Str)
    ensures |s| > 0 && forall b :: b in s ==> 0x30 <= b <= 0x39
  {
    if n < 10 then [0x30 + n] else Decimal(n / 10) + [0x30 + n % 10]
  }

  /** `parseInt(k, 10)`, for strings of digits. */
  function ParseInt(s: Str): Option<nat> {
    if |s| == 0 || !(0x30 <= s[|s| - 1] <= 0x39) then None
    else
      var digit: int := s[|s| - 1] - 0x30;
      if |s| == 1 then Some(digit)
      else
        var high := ParseInt(s[..|s| - 1]);
        if high.None? then None else Some(high.value * 10 + digit)
  }

  lemma {:induction false} DecimalRoundTrip(n: nat)
    ensures ParseInt(Decimal(n)) == Some(n)
  {
    if n >= 10 {
      DecimalRoundTrip(n / 10);
      assert Decimal(n)[..|Decimal(n)| - 1] == Decimal(n / 10);
    }
  }

  // ---------------------------------------------------------------------------
  // The encoding
  // ---------------------------------------------------------------------------

  predicate IsInt32(n: JsNumber) {
    var i := SafeInteger(n);
    i.Some? && Fits(i.value, 4)
  }

  function TypeOf(v: Value): byte {
    match v
    case Null => TYPE_NULL
    case Boolean(_) => TYPE_BOOLEAN
    case Numeric(n) => if IsInt32(n) then TYPE_INT32 else if SafeInteger(n).Some? then TYPE_INT64 else TYPE_DOUBLE
    case Text(_) => TYPE_STRING
    case List(_) => TYPE_ARRAY
    case Object(_) => TYPE_DOCUMENT
  }

  lemma SafeFits(n: JsNumber)
    ensures SafeInteger(n).Some? ==> Fits(SafeInteger(n).value, 8)
  {
    if SafeInteger(n).Some? {
      IntegerRoundTrip(n);
      Widths();
    }
  }

  function NumberBytes(n: JsNumber): seq<byte> {
    SafeFits(n);
    if IsInt32(n) then IntegerLE(SafeInteger(n).value, 4)
    else if SafeInteger(n).Some? then IntegerLE(SafeInteger(n).value, 8)
    else DoubleLE(n)
  }

  /** Size, elements, terminator; the size counts all three. */
  function Frame(body: seq<byte>): (f: seq<byte>)
    ensures |f| == |body| + 5
  {
    LittleEndian(|body| + 5, 4) + body + [0]
  }

  function ValueBytes(v: Value): seq<byte>
    decreases v, 1
  {
    match v
    case Null => []
    case Boolean(b) => [if b then 1 else 0]
    case Numeric(n) => NumberBytes(n)
    case Text(s) => LittleEndian(|s| + 1, 4) + s + [0]
    case List(items) => Frame(Items(items, 0))
    case Object(fields) => Frame(Elements(fields))
  }

  function Element(key: Str, v: Value): seq<byte>
    decreases v, 2
  {
    [TypeOf(v)] + key + [0] + ValueBytes(v)
  }

  function Elements(fields: seq<Field>): seq<byte>
    decreases fields, 0
  {
    if |fields| == 0 then [] else Element(fields[0].key, fields[0].value) + Elements(fields[1..])
  }

  /** Arrays are documents with the keys "0", "1", and so on. */
  function Items(items: seq<Value>, first: nat): seq<byte>
    decreases items, 0
  {
    if |items| == 0 then [] else Element(Decimal(first), items[0]) + Items(items[1..], first + 1)
  }

  function EncodeBson(document: Doc): Result<seq<byte>> {
    var bytes := Frame(Elements(document));
    if |bytes| > MAX_INT32 then Err("The value of \"value\" is out of range.") else Ok(bytes)
  }

  // ---------------------------------------------------------------------------
  // The decoding
  // ---------------------------------------------------------------------------

  /** Where the key that starts at `pos` ends: at the next zero byte, or at the end of the buffer. */
  function CStringEnd(buf: seq<byte>, pos: nat): (end: nat)
    ensures pos <= end && (pos <= |buf| ==> end <= |buf|)
    decreases |buf| - pos
  {
    if pos < |buf| && buf[pos] != 0 then CStringEnd(buf, pos + 1) else pos
  }

  /** `arr[index] = value`; skipped places stay empty. */
  function PlaceAt(items: seq<Value>, index: nat, v: Value): (r: seq<Value>)
    decreases index - |items|
  {
    if index < |items| then items[index := v]
    else if index == |items| then items + [v]
    else PlaceAt(items + [Null], index, v)
  }

  function Reassemble(fields: seq<Field>, items: seq<Value>): seq<Value>
    decreases |fields|
  {
    if |fields| == 0 then items
    else
      var index := ParseInt(fields[0].key);
      Reassemble(fields[1..], if index.Some? then PlaceAt(items, index.value, fields[0].value) else items)
  }

  function Left(buf: seq<byte>, pos: nat): nat {
    if pos <= |buf| + 1 then |buf| + 2 - pos else 0
  }

  function DecodeDocument(buf: seq<byte>, start: nat): Result<(Doc, int)>
    decreases Left(buf, start), 1
  {
    if start + 4 > |buf| then Err("out of range")
    else
      var docEnd := start + FromIntegerLE(buf[start..start + 4]);
      var document :- DecodeElements(buf, start + 4, docEnd, []);
      Ok((document, docEnd))
  }

  function DecodeElements(buf: seq<byte>, pos: nat, docEnd: int, document: Doc): Result<Doc>
    decreases Left(buf, pos), 0
  {
    if pos >= docEnd - 1 then Ok(document)
    else if pos >= |buf| then Err("unsupported BSON type")
    else if buf[pos] == 0 then Ok(document)
    else
      var keyEnd := CStringEnd(buf, pos + 1);
      var value :- DecodeValue(buf, buf[pos], keyEnd + 1);
      if value.1 <= pos then Err("does not advance")
      else DecodeElements(buf, value.1, docEnd, Put(document, buf[pos + 1..keyEnd], value.0))
  }

  function DecodeValue(buf: seq<byte>, kind: byte, pos: nat): Result<(Value, int)>
    decreases Left(buf, pos), 2
  {
    if kind == TYPE_NULL then Ok((Null, pos))
    else if kind == TYPE_BOOLEAN then Ok((Boolean(pos >= |buf| || buf[pos] != 0), pos + 1))
    else if kind == TYPE_DOUBLE then if pos + 8 <= |buf| then Ok((Numeric(FromDoubleLE(buf[pos..pos + 8])), pos + 8)) else Err("out of range")
    else if kind == TYPE_INT32 then DecodeInteger(buf, pos, 4)
    else if kind == TYPE_INT64 then DecodeInteger(buf, pos, 8)
    else if kind == TYPE_STRING then
      if pos + 4 > |buf| then Err("out of range")
      else
        var byteLength := FromIntegerLE(buf[pos..pos + 4]);
        var end := pos + 4 + byteLength - 1;
        if pos + 4 <= end <= |buf| then Ok((Text(buf[pos + 4..end]), end + 1)) else Err("out of range")
    else if kind == TYPE_DOCUMENT then
      var nested :- DecodeDocument(buf, pos);
      Ok((Object(nested.0), nested.1))
    else if kind == TYPE_ARRAY then
      var nested :- DecodeDocument(buf, pos);
      Ok((List(Reassemble(nested.0, [])), nested.1))
    else Err("unsupported BSON type")
  }

  function DecodeInteger(buf: seq<byte>, pos: nat, width: nat): Result<(Value, int)> {
    if pos + width > |buf| then Err("out of range")
    else
      var i := FromIntegerLE(buf[pos..pos + width]);
      if IsSafe(i) then Ok((Numeric(NumberOf(i)), pos + width)) else Err("beyond the safe integers")
  }

  function DecodeBson(bytes: seq<byte>): Result<Doc> {
    var document :- DecodeDocument(bytes, 0);
    Ok(document.0)
  }

  // ---------------------------------------------------------------------------
  // Round trip
  // ---------------------------------------------------------------------------

  /** Keys hold no zero byte and do not repeat, at any depth. */
  predicate WellKeyed(fields: seq<Field>)
    decreases fields, 0
  {
    && (forall i, j :: 0 <= i < j < |fields| ==> fields[i].key != fields[j].key)
    && (forall i :: 0 <= i < |fields| ==> 0 !in fields[i].key && WellKeyedValue(fields[i].value))
  }

  predicate WellKeyedValue(v: Value)
    decreases v, 1
  {
    match v
    case List(items) => forall i :: 0 <= i < |items| ==> WellKeyedValue(items[i])
    case Object(fields) => WellKeyed(fields)
    case _ => true
  }

  lemma {:induction false} KeyStands(buf: seq<byte>, pos: nat, key: Str)
    requires StandsAt(buf, pos, key + [0]) && 0 !in key
    ensures CStringEnd(buf, pos) == pos + |key| && buf[pos..pos + |key|] == key
    decreases |key|
  {
    SliceStands(buf, pos, key, [0]);
    ByteAt(buf, pos + |key|, [0], 0);
    if |key| > 0 {
      ByteAt(buf, pos, key, 0);
      assert key + [0] == [key[0]] + (key[1..] + [0]);
      SliceStands(buf, pos, [key[0]], key[1..] + [0]);
      KeyStands(buf, pos + 1, key[1..]);
      assert key[0] in key;
    }
  }

  lemma SizeStands(buf: seq<byte>, pos: nat, n: nat)
    requires StandsAt(buf, pos, LittleEndian(n, 4)) && n <= MAX_INT32
    ensures pos + 4 <= |buf| && FromIntegerLE(buf[pos..pos + 4]) == n
  {
    Widths();
    LittleEndianRoundTrip(n, 4);
  }

  lemma NumberDecodes(buf: seq<byte>, pos: nat, n: JsNumber)
    requires StandsAt(buf, pos, NumberBytes(n))
    ensures DecodeValue(buf, TypeOf(Numeric(n)), pos) == Ok((Numeric(n), pos + |NumberBytes(n)|))
  {
    hide SafeInteger, NumberOf, IntegerLE, FromIntegerLE, DoubleLE, FromDoubleLE;
    SafeFits(n);
    if SafeInteger(n).Some? {
      IntegerRoundTrip(n);
      var i := SafeInteger(n).value;
      IntegerLERoundTrip(i, 8);
      if IsInt32(n) {
        IntegerLERoundTrip(i, 4);
      }
    } else {
      DoubleLERoundTrip(n);
    }
  }

  function ListFields(items: seq<Value>, first: nat): (fields: seq<Field>)
    ensures |fields| == |items|
    ensures forall i :: 0 <= i < |items| ==> fields[i] == Field(Decimal(first + i), items[i])
  {
    seq(|items|, i requires 0 <= i < |items| => Field(Decimal(first + i), items[i]))
  }

  /** Array keys in order rebuild the array. */
  lemma {:induction false} ReassembleList(items: seq<Value>, done: seq<Value>)
    ensures Reassemble(ListFields(items, |done|), done) == done + items
    decreases |items|
  {
    hide ParseInt, Decimal;
    if |items| > 0 {
      var fields := ListFields(items, |done|);
      DecimalRoundTrip(|done|);
      assert fields[1..] == ListFields(items[1..], |done| + 1);
      ReassembleList(items[1..], done + [items[0]]);
      assert done + [items[0]] + items[1..] == done + items;
    }
  }

  /** One turn of the decoding. */
  lemma ElementStep(buf: seq<byte>, pos: nat, keyEnd: nat, v: Value, end: int, docEnd: int, document: Doc)
    requires pos < docEnd - 1 && pos < |buf| && buf[pos] != 0 && keyEnd == CStringEnd(buf, pos + 1) && pos + 1 <= keyEnd <= |buf|
    requires DecodeValue(buf, buf[pos], keyEnd + 1) == Ok((v, end)) && end > pos
    ensures DecodeElements(buf, pos, docEnd, document) == DecodeElements(buf, end, docEnd, Put(document, buf[pos + 1..keyEnd], v))
  {
    hide DecodeValue, CStringEnd, Put;
  }

  /** One element in front of the rest of a document. */
  lemma ElementDecodes(buf: seq<byte>, pos: nat, key: Str, v: Value, docEnd: int, document: Doc)
    requires StandsAt(buf, pos, Element(key, v)) && 0 !in key && pos < docEnd - 1
    requires DecodeValue(buf, TypeOf(v), pos + |key| + 2) == Ok((v, pos + |Element(key, v)|))
    requires forall i :: 0 <= i < |document| ==> document[i].key != key
    ensures DecodeElements(buf, pos, docEnd, document) == DecodeElements(buf, pos + |Element(key, v)|, docEnd, document + [Field(key, v)])
  {
    hide DecodeValue, ValueBytes, StandsAt, DecodeElements, Put;
    assert Element(key, v) == [TypeOf(v)] + (key + [0] + ValueBytes(v));
    SliceStands(buf, pos, [TypeOf(v)], key + [0] + ValueBytes(v));
    ByteAt(buf, pos, [TypeOf(v)], 0);
    SliceStands(buf, pos + 1, key + [0], ValueBytes(v));
    KeyStands(buf, pos + 1, key);
    PutNew(document, key, v);
    ElementStep(buf, pos, pos + 1 + |key|, v, pos + |Element(key, v)|, docEnd, document);
  }

  lemma ValueStands(buf: seq<byte>, pos: nat, key: Str, v: Value)
    requires StandsAt(buf, pos, Element(key, v))
    ensures StandsAt(buf, pos + |key| + 2, ValueBytes(v)) && pos + |key| + 2 + |ValueBytes(v)| == pos + |Element(key, v)|
  {
    hide StandsAt, ValueBytes;
    SliceStands(buf, pos, [TypeOf(v)] + key + [0], ValueBytes(v));
  }

  lemma DocumentOfSize(buf: seq<byte>, start: nat, size: int, document: Doc)
    requires start + 4 <= |buf| && FromIntegerLE(buf[start..start + 4]) == size
    requires DecodeElements(buf, start + 4, start + size, []) == Ok(document)
    ensures DecodeDocument(buf, start) == Ok((document, start + size))
  {
    hide DecodeElements, FromIntegerLE;
  }

  /** A frame in the buffer decodes to the document its body decodes to. */
  lemma FrameDecodes(buf: seq<byte>, pos: nat, body: seq<byte>, document: Doc)
    requires StandsAt(buf, pos, Frame(body)) && |body| + 5 <= MAX_INT32
    requires DecodeElements(buf, pos + 4, pos + |body| + 5, []) == Ok(document)
    ensures DecodeDocument(buf, pos) == Ok((document, pos + |body| + 5))
  {
    hide DecodeElements, DecodeDocument, LittleEndian, FromIntegerLE, StandsAt;
    FrameSize(buf, pos, body);
    DocumentOfSize(buf, pos, |body| + 5, document);
  }

  lemma FrameSize(buf: seq<byte>, pos: nat, body: seq<byte>)
    requires StandsAt(buf, pos, Frame(body)) && |body| + 5 <= MAX_INT32
    ensures pos + 4 <= |buf| && FromIntegerLE(buf[pos..pos + 4]) == |body| + 5
  {
    hide LittleEndian, FromIntegerLE, StandsAt;
    assert Frame(body) == LittleEndian(|body| + 5, 4) + (body + [0]);
    SliceStands(buf, pos, LittleEndian(|body| + 5, 4), body + [0]);
    SizeStands(buf, pos, |body| + 5);
  }

  /** Every value is read back from its bytes, and reading stops where they end. */
  lemma {:induction false} ValueDecodes(buf: seq<byte>, pos: nat, v: Value)
    requires StandsAt(buf, pos, ValueBytes(v)) && WellKeyedValue(v) && |ValueBytes(v)| <= MAX_INT32
    ensures DecodeValue(buf, TypeOf(v), pos) == Ok((v, pos + |ValueBytes(v)|))
    decreases v, 3
  {
    hide StandsAt, LittleEndian, DecodeElements, FromIntegerLE, DecodeDocument, DecodeValue, Items, Elements, NumberBytes, Frame, Reassemble;
    match v
    case Null => PlainDecodes(buf, pos, v);
    case Boolean(_) => PlainDecodes(buf, pos, v);
    case Numeric(n) => NumberDecodes(buf, pos, n);
    case Text(s) => TextDecodes(buf, pos, s);
    case List(items) =>
      ListDecodes(buf, pos, items);
      NestedDecodes(buf, pos);
    case Object(fields) =>
      ObjectDecodes(buf, pos, fields);
      NestedDecodes(buf, pos);
  }

  lemma PlainDecodes(buf: seq<byte>, pos: nat, v: Value)
    requires StandsAt(buf, pos, ValueBytes(v)) && (v.Null? || v.Boolean?)
    ensures DecodeValue(buf, TypeOf(v), pos) == Ok((v, pos + |ValueBytes(v)|))
  {
    hide StandsAt;
    if v.Boolean? {
      ByteAt(buf, pos, [if v.b then 1 else 0], 0);
    }
  }

  lemma NestedDecodes(buf: seq<byte>, pos: nat)
    requires DecodeDocument(buf, pos).Ok?
    ensures var nested := DecodeDocument(buf, pos).value;
            && DecodeValue(buf, TYPE_DOCUMENT, pos) == Ok((Object(nested.0), nested.1))
            && DecodeValue(buf, TYPE_ARRAY, pos) == Ok((List(Reassemble(nested.0, [])), nested.1))
  {
    hide DecodeDocument, Reassemble;
  }

  lemma {:induction false} ListDecodes(buf: seq<byte>, pos: nat, items: seq<Value>)
    requires StandsAt(buf, pos, Frame(Items(items, 0))) && (forall i :: 0 <= i < |items| ==> WellKeyedValue(items[i])) && |Frame(Items(items, 0))| <= MAX_INT32
    ensures DecodeDocument(buf, pos) == Ok((ListFields(items, 0), pos + |Frame(Items(items, 0))|)) && Reassemble(ListFields(items, 0), []) == items
    decreases items, 1
  {
    hide StandsAt, DecodeElements, Items, DecodeDocument, WellKeyedValue, Frame, Reassemble;
    var body := Items(items, 0);
    FrameParts(buf, pos, body);
    ItemsDecode(buf, pos + 4, items, 0, [], pos + |body| + 5);
    assert [] + ListFields(items, 0) == ListFields(items, 0);
    FrameDecodes(buf, pos, body, ListFields(items, 0));
    ReassembleList(items, []);
    assert [] + items == items;
  }

  lemma {:induction false} ObjectDecodes(buf: seq<byte>, pos: nat, fields: seq<Field>)
    requires StandsAt(buf, pos, Frame(Elements(fields))) && WellKeyed(fields) && |Frame(Elements(fields))| <= MAX_INT32
    ensures DecodeDocument(buf, pos) == Ok((fields, pos + |Frame(Elements(fields))|))
    decreases fields, 1
  {
    hide StandsAt, DecodeElements, Elements, DecodeDocument, WellKeyed, Frame;
    var body := Elements(fields);
    FrameParts(buf, pos, body);
    ElementsDecode(buf, pos + 4, fields, [], pos + |body| + 5);
    assert [] + fields == fields;
    FrameDecodes(buf, pos, body, fields);
  }

  lemma FrameParts(buf: seq<byte>, pos: nat, body: seq<byte>)
    requires StandsAt(buf, pos, Frame(body))
    ensures StandsAt(buf, pos + 4, body) && StandsAt(buf, pos + 4 + |body|, [0])
  {
    hide StandsAt, LittleEndian;
    assert Frame(body) == LittleEndian(|body| + 5, 4) + (body + [0]);
    SliceStands(buf, pos, LittleEndian(|body| + 5, 4), body + [0]);
    SliceStands(buf, pos + 4, body, [0]);
  }

  lemma TextDecodes(buf: seq<byte>, pos: nat, s: Str)
    requires StandsAt(buf, pos, ValueBytes(Text(s))) && |s| + 5 <= MAX_INT32
    ensures DecodeValue(buf, TYPE_STRING, pos) == Ok((Text(s), pos + |ValueBytes(Text(s))|))
  {
    hide LittleEndian, FromIntegerLE;
    assert ValueBytes(Text(s)) == LittleEndian(|s| + 1, 4) + (s + [0]);
    SliceStands(buf, pos, LittleEndian(|s| + 1, 4), s + [0]);
    SliceStands(buf, pos + 4, s, [0]);
    SizeStands(buf, pos, |s| + 1);
  }

  lemma {:induction false} ElementsDecode(buf: seq<byte>, pos: nat, fields: seq<Field>, document: Doc, docEnd: int)
    requires StandsAt(buf, pos, Elements(fields)) && docEnd == pos + |Elements(fields)| + 1 && |Elements(fields)| <= MAX_INT32
    requires WellKeyed(fields)
    requires forall i, j :: 0 <= i < |document| && 0 <= j < |fields| ==> document[i].key != fields[j].key
    ensures DecodeElements(buf, pos, docEnd, document) == Ok(document + fields)
    decreases fields, 0
  {
    hide StandsAt, DecodeValue, DecodeElements, ValueBytes, WellKeyedValue, Element, TypeOf;
    if |fields| == 0 {
      NoElements(buf, pos, docEnd, document);
      assert document + fields == document;
    } else {
      var key, v := fields[0].key, fields[0].value;
      SliceStands(buf, pos, Element(key, v), Elements(fields[1..]));
      ValueStands(buf, pos, key, v);
      ValueDecodes(buf, pos + |key| + 2, v);
      ElementDecodes(buf, pos, key, v, docEnd, document);
      RestKeyed(fields);
      ElementsDecode(buf, pos + |Element(key, v)|, fields[1..], document + [Field(key, v)], docEnd);
      assert document + [Field(key, v)] + fields[1..] == document + fields;
    }
  }

  lemma NoElements(buf: seq<byte>, pos: nat, docEnd: int, document: Doc)
    requires pos >= docEnd - 1
    ensures DecodeElements(buf, pos, docEnd, document) == Ok(document)
  {
  }

  lemma RestKeyed(fields: seq<Field>)
    requires WellKeyed(fields) && |fields| > 0
    ensures WellKeyed(fields[1..]) && forall i :: 1 <= i < |fields| ==> fields[0].key != fields[i].key
  {
    hide WellKeyedValue;
    assert forall i :: 0 <= i < |fields| - 1 ==> fields[1..][i] == fields[i + 1];
  }

  lemma NoItems(first: nat)
    ensures Items([], first) == [] && ListFields([], first) == []
  {
  }

  lemma ItemsFirst(items: seq<Value>, first: nat)
    requires |items| > 0
    ensures Items(items, first) == Element(Decimal(first), items[0]) + Items(items[1..], first + 1)
  {
    hide Element, Decimal;
  }

  lemma ListFieldsFirst(items: seq<Value>, first: nat)
    requires |items| > 0
    ensures ListFields(items, first) == [Field(Decimal(first), items[0])] + ListFields(items[1..], first + 1)
  {
    hide Decimal;
  }

  /** A position is not the name of an earlier one. */
  lemma KeysNew(document: Doc)
    requires forall i :: 0 <= i < |document| ==> document[i].key == Decimal(i)
    ensures forall i :: 0 <= i < |document| ==> document[i].key != Decimal(|document|)
  {
    hide Decimal, ParseInt;
    DecimalRoundTrip(|document|);
    forall i | 0 <= i < |document|
      ensures document[i].key != Decimal(|document|)
    {
      DecimalRoundTrip(i);
    }
  }

  lemma {:induction false} ItemsDecode(buf: seq<byte>, pos: nat, items: seq<Value>, first: nat, document: Doc, docEnd: int)
    requires StandsAt(buf, pos, Items(items, first)) && docEnd == pos + |Items(items, first)| + 1 && |Items(items, first)| <= MAX_INT32
    requires forall i :: 0 <= i < |items| ==> WellKeyedValue(items[i])
    requires |document| == first && forall i :: 0 <= i < |document| ==> document[i].key == Decimal(i)
    ensures DecodeElements(buf, pos, docEnd, document) == Ok(document + ListFields(items, first))
    decreases items, 0
  {
    hide StandsAt, DecodeValue, DecodeElements, ValueBytes, WellKeyedValue, Element, TypeOf, Decimal, ListFields, Items;
    if |items| == 0 {
      NoItems(first);
      NoElements(buf, pos, docEnd, document);
      assert items == [] && document + [] == document;
    } else {
      var key, v := Decimal(first), items[0];
      ItemsFirst(items, first);
      SliceStands(buf, pos, Element(key, v), Items(items[1..], first + 1));
      ValueStands(buf, pos, key, v);
      ValueDecodes(buf, pos + |key| + 2, v);
      KeysNew(document);
      ElementDecodes(buf, pos, key, v, docEnd, document);
      ItemsDecode(buf, pos + |Element(key, v)|, items[1..], first + 1, document + [Field(key, v)], docEnd);
      ListFieldsFirst(items, first);
      assert document + [Field(key, v)] + ListFields(items[1..], first + 1) == document + ([Field(key, v)] + ListFields(items[1..], first + 1));
    }
  }

  // ---------------------------------------------------------------------------
  // Exactly which documents come back
  // ---------------------------------------------------------------------------

  /** No property name repeats, at any depth: true of every object of the source's language. */
  predicate DistinctKeys(fields: seq<Field>)
    decreases fields, 0
  {
    && (forall i, j :: 0 <= i < j < |fields| ==> fields[i].key != fields[j].key)
    && (forall i :: 0 <= i < |fields| ==> DistinctKeysValue(fields[i].value))
  }

  predicate DistinctKeysValue(v: Value)
    decreases v, 1
  {
    match v
    case List(items) => forall i :: 0 <= i < |items| ==> DistinctKeysValue(items[i])
    case Object(fields) => DistinctKeys(fields)
    case _ => true
  }

  /** No key holds a zero byte, at any depth. */
  predicate ZeroFree(fields: seq<Field>)
    decreases fields, 0
  {
    forall i :: 0 <= i < |fields| ==> 0 !in fields[i].key && ZeroFreeValue(fields[i].value)
  }

  predicate ZeroFreeValue(v: Value)
    decreases v, 1
  {
    match v
    case List(items) => forall i :: 0 <= i < |items| ==> ZeroFreeValue(items[i])
    case Object(fields) => ZeroFree(fields)
    case _ => true
  }

  lemma {:induction false} WellKeyedParts(fields: seq<Field>)
    requires DistinctKeys(fields) && ZeroFree(fields)
    ensures WellKeyed(fields)
    decreases fields, 0
  {
    forall i | 0 <= i < |fields|
      ensures WellKeyedValue(fields[i].value)
    {
      WellKeyedValueParts(fields[i].value);
    }
  }

  lemma {:induction false} WellKeyedValueParts(v: Value)
    requires DistinctKeysValue(v) && ZeroFreeValue(v)
    ensures WellKeyedValue(v)
    decreases v, 1
  {
    match v
    case List(items) =>
      forall i | 0 <= i < |items|
        ensures WellKeyedValue(items[i])
      {
        WellKeyedValueParts(items[i]);
      }
    case Object(fields) => WellKeyedParts(fields);
    case _ =>
  }

  lemma {:induction false} CStringHasNoZero(buf: seq<byte>, pos: nat)
    requires pos <= |buf|
    ensures 0 !in buf[pos..CStringEnd(buf, pos)]
    decreases |buf| - pos
  {
    if pos < |buf| && buf[pos] != 0 {
      CStringHasNoZero(buf, pos + 1);
      assert buf[pos..CStringEnd(buf, pos)] == [buf[pos]] + buf[pos + 1..CStringEnd(buf, pos + 1)];
    }
  }

  lemma {:induction false} PutZeroFree(document: Doc, key: Str, v: Value)
    requires ZeroFree(document) && 0 !in key && ZeroFreeValue(v)
    ensures ZeroFree(Put(document, key, v))
    decreases |document|
  {
    hide ZeroFreeValue;
    if |document| > 0 {
      if document[0].key != key {
        PutZeroFree(document[1..], key, v);
      }
    }
  }

  lemma {:induction false} PlaceZeroFree(items: seq<Value>, index: nat, v: Value)
    requires (forall i :: 0 <= i < |items| ==> ZeroFreeValue(items[i])) && ZeroFreeValue(v)
    ensures forall i :: 0 <= i < |PlaceAt(items, index, v)| ==> ZeroFreeValue(PlaceAt(items, index, v)[i])
    decreases index - |items|
  {
    assert ZeroFreeValue(Null);
    hide ZeroFreeValue;
    if index > |items| {
      PlaceZeroFree(items + [Null], index, v);
    }
  }

  lemma {:induction false} ReassembleZeroFree(fields: seq<Field>, items: seq<Value>)
    requires ZeroFree(fields) && forall i :: 0 <= i < |items| ==> ZeroFreeValue(items[i])
    ensures forall i :: 0 <= i < |Reassemble(fields, items)| ==> ZeroFreeValue(Reassemble(fields, items)[i])
    decreases |fields|
  {
    hide ZeroFreeValue, PlaceAt;
    if |fields| > 0 {
      var index := ParseInt(fields[0].key);
      if index.Some? {
        PlaceZeroFree(items, index.value, fields[0].value);
        ReassembleZeroFree(fields[1..], PlaceAt(items, index.value, fields[0].value));
      } else {
        ReassembleZeroFree(fields[1..], items);
      }
    }
  }

  /** Whatever the bytes, a decoded document has no zero byte in any key. */
  lemma {:induction false} DecodedZeroFree(buf: seq<byte>, start: nat)
    ensures DecodeDocument(buf, start).Ok? ==> ZeroFree(DecodeDocument(buf, start).value.0)
    decreases Left(buf, start), 1
  {
    hide DecodeElements, ZeroFree, FromIntegerLE;
    if start + 4 <= |buf| {
      NothingZeroFree();
      ElementsZeroFree(buf, start + 4, start + FromIntegerLE(buf[start..start + 4]), []);
    }
  }

  lemma NothingZeroFree()
    ensures ZeroFree([])
  {
  }

  lemma {:induction false} ElementsZeroFree(buf: seq<byte>, pos: nat, docEnd: int, document: Doc)
    requires ZeroFree(document)
    ensures DecodeElements(buf, pos, docEnd, document).Ok? ==> ZeroFree(DecodeElements(buf, pos, docEnd, document).value)
    decreases Left(buf, pos), 0
  {
    hide DecodeValue, ZeroFree, ZeroFreeValue;
    if pos < docEnd - 1 && pos < |buf| && buf[pos] != 0 {
      var keyEnd := CStringEnd(buf, pos + 1);
      var value := DecodeValue(buf, buf[pos], keyEnd + 1);
      if value.Ok? && value.value.1 > pos {
        CStringHasNoZero(buf, pos + 1);
        ValueZeroFree(buf, buf[pos], keyEnd + 1);
        PutZeroFree(document, buf[pos + 1..keyEnd], value.value.0);
        ElementsZeroFree(buf, value.value.1, docEnd, Put(document, buf[pos + 1..keyEnd], value.value.0));
      }
    }
  }

  lemma {:induction false} ValueZeroFree(buf: seq<byte>, kind: byte, pos: nat)
    ensures DecodeValue(buf, kind, pos).Ok? ==> ZeroFreeValue(DecodeValue(buf, kind, pos).value.0)
    decreases Left(buf, pos), 2
  {
    hide DecodeDocument, ZeroFree, Reassemble, FromIntegerLE, FromDoubleLE, NumberOf;
    DecodedZeroFree(buf, pos);
    var nested := DecodeDocument(buf, pos);
    if nested.Ok? {
      ReassembleZeroFree(nested.value.0, []);
    }
  }

  /** A document the encoder accepts comes back unchanged exactly when no key, at any depth, holds a zero byte. */
  lemma BsonRoundTrip(document: Doc)
    requires DistinctKeys(document) && EncodeBson(document).Ok?
    ensures DecodeBson(EncodeBson(document).value) == Ok(document) <==> ZeroFree(document)
  {
    hide DecodeElements, Elements, WellKeyed, DecodeDocument, Frame, DistinctKeys, ZeroFree;
    var bytes := Frame(Elements(document));
    DecodedZeroFree(bytes, 0);
    if ZeroFree(document) {
      WellKeyedParts(document);
      assert bytes[0..0 + |bytes|] == bytes;
      ObjectDecodes(bytes, 0, document);
    }
  }

  // ---------------------------------------------------------------------------
  // What is written is the grammar's, byte by byte
  // ---------------------------------------------------------------------------

  lemma {:induction false} DecimalExact(s: Str, n: nat)
    ensures Notation.IsNumeral(s, n) <==> s == Decimal(n)
  {
    if |s| > 0 {
      var k := |s| - 1;
      assert s == s[..k] + [s[k]];
      if n >= 10 {
        DecimalExact(s[..k], n / 10);
        assert s == Decimal(n) ==> s[..k] == Decimal(n / 10);
      }
    }
  }

  lemma NumberExact(kind: byte, bs: seq<byte>, n: JsNumber)
    ensures Grammar.IsNumber(kind, bs, n) <==> kind == TypeOf(Numeric(n)) && bs == NumberBytes(n)
  {
    hide SafeInteger, IntegerLE, DoubleLE, Notation.IsSafeInteger, Notation.IsInt32, Notation.IsInt64, Notation.IsDoubleLE;
    SafeFits(n);
    Widths();
    Numbers.DoubleExact(bs, n);
    forall i
      ensures Notation.IsSafeInteger(n, i) <==> SafeInteger(n) == Some(i)
    {
      Numbers.SafeIntegerExact(n, i);
    }
    if SafeInteger(n).Some? {
      Numbers.IntegersExact(bs, SafeInteger(n).value);
    }
  }

  lemma TextExact(bs: seq<byte>, s: Str)
    requires |bs| <= MAX_INT32
    ensures Grammar.IsValue(TYPE_STRING, bs, Text(s)) <==> bs == ValueBytes(Text(s))
  {
    hide Notation.IsWord32, LittleEndian;
    if |bs| == |s| + 5 {
      Numbers.Word32Exact(bs[..4], |s| + 1);
      assert bs == bs[..4] + bs[4..4 + |s|] + [bs[4 + |s|]];
    }
  }

  lemma FrameExact(bs: seq<byte>, body: seq<byte>)
    requires |bs| <= MAX_INT32
    ensures bs == Frame(body) <==> Grammar.IsFrame(bs) && bs[4..|bs| - 1] == body
  {
    hide Notation.IsWord32, LittleEndian;
    if |bs| == |body| + 5 {
      Numbers.Word32Exact(bs[..4], |bs|);
      assert bs == bs[..4] + bs[4..|bs| - 1] + [bs[|bs| - 1]];
    }
  }

  lemma {:induction false} ValueExact(kind: byte, bs: seq<byte>, v: Value)
    requires |bs| <= MAX_INT32
    ensures Grammar.IsValue(kind, bs, v) <==> kind == TypeOf(v) && bs == ValueBytes(v)
    decreases v, 1
  {
    hide Frame, Items, Elements, NumberBytes, Grammar.IsFrame, Grammar.AreElements, Grammar.AreItems, Grammar.IsNumber;
    match v
    case Null =>
    case Boolean(_) =>
    case Numeric(n) => NumberExact(kind, bs, n);
    case Text(s) => TextExact(bs, s);
    case List(items) =>
      FrameExact(bs, Items(items, 0));
      FrameInside(bs);
      if Grammar.IsFrame(bs) {
        ItemsExact(bs[4..|bs| - 1], items, 0);
      }
    case Object(fields) => DocumentExact(bs, fields);
  }

  lemma FrameInside(bs: seq<byte>)
    ensures Grammar.IsFrame(bs) ==> |bs| >= 5
  {
  }

  lemma {:induction false} DocumentExact(bs: seq<byte>, fields: seq<Field>)
    requires |bs| <= MAX_INT32
    ensures Grammar.IsDocument(bs, fields) <==> bs == Frame(Elements(fields))
    decreases fields, 1
  {
    hide Frame, Elements, Grammar.IsFrame, Grammar.AreElements;
    FrameExact(bs, Elements(fields));
    FrameInside(bs);
    if Grammar.IsFrame(bs) {
      ElementsExact(bs[4..|bs| - 1], fields);
    }
  }

  lemma {:induction false} ElementExact(bs: seq<byte>, key: Str, v: Value)
    requires |bs| <= MAX_INT32
    ensures Grammar.IsElement(bs, key, v) <==> bs == Element(key, v)
    decreases v, 2
  {
    hide ValueBytes, TypeOf, Grammar.IsValue;
    if |bs| >= |key| + 2 {
      ValueExact(bs[0], bs[1 + |key| + 1..], v);
      assert bs == [bs[0]] + bs[1..1 + |key|] + [bs[1 + |key|]] + bs[1 + |key| + 1..];
    }
  }

  lemma {:induction false} ElementsExact(bs: seq<byte>, fields: seq<Field>)
    requires |bs| <= MAX_INT32
    ensures Grammar.AreElements(bs, fields) <==> bs == Elements(fields)
    decreases fields, 0
  {
    hide Element, Grammar.IsElement;
    if |fields| > 0 {
      var f := fields[0];
      if Grammar.AreElements(bs, fields) {
        var n :| 0 <= n <= |bs| && Grammar.IsElement(bs[..n], f.key, f.value) && Grammar.AreElements(bs[n..], fields[1..]);
        ElementExact(bs[..n], f.key, f.value);
        ElementsExact(bs[n..], fields[1..]);
        assert bs == bs[..n] + bs[n..];
      }
      if bs == Elements(fields) {
        var n := |Element(f.key, f.value)|;
        assert bs[..n] == Element(f.key, f.value) && bs[n..] == Elements(fields[1..]);
        ElementExact(bs[..n], f.key, f.value);
        ElementsExact(bs[n..], fields[1..]);
      }
    }
  }

  lemma {:induction false} ItemsExact(bs: seq<byte>, items: seq<Value>, first: nat)
    requires |bs| <= MAX_INT32
    ensures Grammar.AreItems(bs, items, first) <==> bs == Items(items, first)
    decreases items, 0
  {
    hide Element, Grammar.IsElement, Decimal, Notation.IsNumeral;
    if |items| > 0 {
      DecimalExact(Decimal(first), first);
      if Grammar.AreItems(bs, items, first) {
        var n, key :| 0 <= n <= |bs| && Notation.IsNumeral(key, first) && Grammar.IsElement(bs[..n], key, items[0]) && Grammar.AreItems(bs[n..], items[1..], first + 1);
        DecimalExact(key, first);
        ElementExact(bs[..n], key, items[0]);
        ItemsExact(bs[n..], items[1..], first + 1);
        assert bs == bs[..n] + bs[n..];
      }
      if bs == Items(items, first) {
        var e := Element(Decimal(first), items[0]);
        assert bs[..|e|] == e && bs[|e|..] == Items(items[1..], first + 1);
        ElementExact(bs[..|e|], Decimal(first), items[0]);
        ItemsExact(bs[|e|..], items[1..], first + 1);
      }
    }
  }

  /** Assigning beyond the end leaves empty places between; assigning within replaces one. */
  lemma {:induction false} PlacedAt(items: seq<Value>, index: nat, v: Value)
    ensures var r := PlaceAt(items, index, v);
            && |r| == (if index < |items| then |items| else index + 1) && r[index] == v
            && forall i :: 0 <= i < |r| && i != index ==> r[i] == if i < |items| then items[i] else Null
    decreases index - |items|
  {
    if index > |items| {
      PlacedAt(items + [Null], index, v);
    }
  }

  /** Any byte but zero is read as true, and so is a missing one. */
  lemma BooleanRead(buf: seq<byte>, pos: nat)
    ensures DecodeValue(buf, 0x0a, pos) == Ok((Null, pos))
    ensures DecodeValue(buf, 0x08, pos) == Ok((Boolean(pos < |buf| ==> buf[pos] != 0x00), pos + 1))
  {
    hide FromIntegerLE, FromDoubleLE, DecodeDocument;
  }

  /** Whatever the bytes of a double, they are read as what they denote. */
  lemma DoubleBytesRead(buf: seq<byte>, pos: nat)
    requires pos + 8 <= |buf|
    ensures var n := FromDoubleLE(buf[pos..pos + 8]);
            DecodeValue(buf, 0x01, pos) == Ok((Numeric(n), pos + 8)) && Notation.DenotesDouble(Notation.Word64(buf[pos..pos + 8]), n)
  {
    hide FromIntegerLE, FromDoubleLE, DecodeDocument, Notation.DenotesDouble;
    Numbers.DoubleRead(buf[pos..pos + 8]);
  }

  /** And those of a 32-bit integer as that integer. */
  lemma Int32BytesRead(buf: seq<byte>, pos: nat) returns (i: int, n: JsNumber)
    requires pos + 4 <= |buf|
    ensures DecodeValue(buf, 0x10, pos) == Ok((Numeric(n), pos + 4)) && Notation.IsInt32(buf[pos..pos + 4], i) && Notation.IsSafeInteger(n, i)
  {
    hide FromIntegerLE, NumberOf, DecodeDocument, Notation.IsSafeInteger, Notation.IsInt32;
    i := FromIntegerLE(buf[pos..pos + 4]);
    Numbers.Int32Read(buf[pos..pos + 4]);
    n := NumberOf(i);
    IntegerRecognised(i);
    Numbers.SafeIntegerExact(n, i);
  }

  /** Every document in the grammar is read as the document it denotes, exactly when no key holds a zero byte. */
  lemma GrammarRead(bytes: seq<byte>, document: Doc)
    requires |bytes| <= MAX_INT32 && Grammar.IsDocument(bytes, document) && DistinctKeys(document)
    ensures DecodeBson(bytes) == Ok(document) <==> ZeroFree(document)
  {
    hide Grammar.IsDocument, DecodeBson, EncodeBson, DistinctKeys, ZeroFree;
    EncodedExactly(document, bytes);
    BsonRoundTrip(document);
  }

  /** What a document is written as: the bytes the grammar has for it, and no others; an error when their size does not fit. */
  lemma EncodedExactly(document: Doc, bytes: seq<byte>)
    ensures EncodeBson(document) == Ok(bytes) <==> |bytes| <= MAX_INT32 && Grammar.IsDocument(bytes, document)
  {
    hide Frame, Elements, Grammar.IsDocument;
    if |bytes| <= MAX_INT32 {
      DocumentExact(bytes, document);
    }
  }

  // ---------------------------------------------------------------------------
  // The encoder as it runs
  // ---------------------------------------------------------------------------

  /** Type byte, key, value; false when a size does not fit its four bytes. */
  method WriteElement(key: Str, v: Value, wb: WriteBuffer) returns (ok: bool)
    requires wb.Valid()
    modifies wb, wb.data
    ensures wb.Valid() && (wb.data == old(wb.data) || fresh(wb.data))
    ensures ok ==> wb.Written() == old(wb.Written()) + Element(key, v)
    ensures !ok ==> |Element(key, v)| > MAX_INT32
    decreases v, 2
  {
    hide Items, Elements, LittleEndian, DoubleLE, WriteBuffer.Written, Frame, NumberBytes, ValueBytes, WriteBuffer.Valid;
    wb.WriteByte(TypeOf(v));
    wb.WriteUtf8(key);
    wb.WriteByte(0);
    assert wb.Written() == old(wb.Written()) + ([TypeOf(v)] + key + [0]);
    label Header:
    ok := WriteValue(v, wb);
    if ok {
      assert wb.Written() == old@Header(wb.Written()) + ValueBytes(v);
    }
  }

  method WriteValue(v: Value, wb: WriteBuffer) returns (ok: bool)
    requires wb.Valid()
    modifies wb, wb.data
    ensures wb.Valid() && (wb.data == old(wb.data) || fresh(wb.data))
    ensures ok ==> wb.Written() == old(wb.Written()) + ValueBytes(v)
    ensures !ok ==> |ValueBytes(v)| > MAX_INT32
    decreases v, 1
  {
    hide Items, Elements, LittleEndian, DoubleLE, WriteBuffer.Written, Frame, IntegerLE, Fits;
    ok := true;
    match v
    case Null =>
    case Boolean(b) => wb.WriteByte(if b then 1 else 0);
    case Numeric(n) => WriteNumber(n, wb);
    case Text(s) => ok := WriteText(s, wb);
    case List(items) => ok := WriteArray(items, wb);
    case Object(fields) => ok := WriteObject(fields, wb);
  }

  method WriteNumber(n: JsNumber, wb: WriteBuffer)
    requires wb.Valid()
    modifies wb, wb.data
    ensures wb.Valid() && (wb.data == old(wb.data) || fresh(wb.data))
    ensures wb.Written() == old(wb.Written()) + NumberBytes(n)
  {
    hide IntegerLE, Fits, DoubleLE, SafeInteger, WriteBuffer.Written;
    SafeFits(n);
    if IsInt32(n) {
      var _ := wb.WriteInt32LE(SafeInteger(n).value);
    } else if SafeInteger(n).Some? {
      wb.WriteBigInt64LE(SafeInteger(n).value);
    } else {
      wb.WriteDoubleLE(n);
    }
  }

  lemma SizeFits(n: nat)
    ensures Fits(n, 4) <==> n <= MAX_INT32
    ensures n <= MAX_INT32 ==> IntegerLE(n, 4) == LittleEndian(n, 4)
  {
    Widths();
  }

  method WriteText(s: Str, wb: WriteBuffer) returns (ok: bool)
    requires wb.Valid()
    modifies wb, wb.data
    ensures wb.Valid() && (wb.data == old(wb.data) || fresh(wb.data))
    ensures ok ==> wb.Written() == old(wb.Written()) + ValueBytes(Text(s))
    ensures !ok ==> |ValueBytes(Text(s))| > MAX_INT32
  {
    hide IntegerLE, Fits, LittleEndian, WriteBuffer.Written;
    SizeFits(|s| + 1);
    ghost var before := wb.Written();
    ok := wb.WriteInt32LE(|s| + 1);
    if ok {
      wb.WriteUtf8(s);
      wb.WriteByte(0);
      assert wb.Written() == before + (LittleEndian(|s| + 1, 4) + s + [0]);
    }
  }

  /** `writeDocumentBody` around the elements: a placeholder, the body, a zero, and the size patched in. */
  method WriteObject(fields: seq<Field>, wb: WriteBuffer) returns (ok: bool)
    requires wb.Valid()
    modifies wb, wb.data
    ensures wb.Valid() && (wb.data == old(wb.data) || fresh(wb.data))
    ensures ok ==> wb.Written() == old(wb.Written()) + Frame(Elements(fields)) && |Frame(Elements(fields))| <= MAX_INT32
    ensures !ok ==> |Frame(Elements(fields))| > MAX_INT32
    decreases fields, 1
  {
    hide Elements, IntegerLE, Fits, LittleEndian, WriteBuffer.Written;
    ghost var before := wb.Written();
    var sizePos := wb.pos;
    WrittenLength(wb);
    Placeholder();
    var _ := wb.WriteInt32LE(0);
    assert fields[0..] == fields;
    assert wb.Written() == before + IntegerLE(0, 4) + [];
    NoFields();
    for i := 0 to |fields|
      invariant wb.Valid() && (wb.data == old(wb.data) || fresh(wb.data))
      invariant wb.Written() == before + IntegerLE(0, 4) + Elements(fields[..i])
    {
      ElementsMore(fields, i);
      ghost var soFar := wb.Written();
      ok := WriteElement(fields[i].key, fields[i].value, wb);
      if !ok {
        return;
      }
      assert soFar + Element(fields[i].key, fields[i].value) == before + IntegerLE(0, 4) + Elements(fields[..i + 1]);
    }
    assert fields[..|fields|] == fields;
    ok := CloseFrame(sizePos, before, Elements(fields), wb);
  }

  /** The terminator and the size; the bytes since the placeholder become a frame. */
  method CloseFrame(sizePos: nat, ghost before: seq<byte>, ghost body: seq<byte>, wb: WriteBuffer) returns (ok: bool)
    requires wb.Valid() && sizePos == |before| && wb.Written() == before + IntegerLE(0, 4) + body
    modifies wb, wb.data
    ensures wb.Valid() && (wb.data == old(wb.data) || fresh(wb.data))
    ensures ok <==> |Frame(body)| <= MAX_INT32
    ensures ok ==> wb.Written() == before + Frame(body)
  {
    hide IntegerLE, Fits, LittleEndian, WriteBuffer.Written;
    wb.WriteByte(0);
    WrittenLength(wb);
    SizeFits(|body| + 5);
    ghost var closed := wb.Written();
    ok := wb.PatchInt32LE(sizePos, wb.pos - sizePos);
    if ok {
      assert closed[..sizePos] == before && closed[sizePos + 4..] == body + [0];
      assert before + LittleEndian(|body| + 5, 4) + (body + [0]) == before + Frame(body);
    }
  }

  lemma WrittenLength(wb: WriteBuffer)
    requires wb.Valid()
    ensures |wb.Written()| == wb.pos
  {
  }

  lemma Placeholder()
    ensures Fits(0, 4)
  {
  }

  lemma NoFields()
    ensures Elements([]) == [] && Items([], 0) == []
  {
  }

  lemma {:induction false} ElementsAppend(fields: seq<Field>, f: Field)
    ensures Elements(fields + [f]) == Elements(fields) + Element(f.key, f.value)
    decreases |fields|
  {
    hide Element;
    if |fields| == 0 {
      assert fields + [f] == [f] && [f][1..] == [];
      assert Element(f.key, f.value) + [] == Element(f.key, f.value);
    } else {
      ElementsAppend(fields[1..], f);
      assert (fields + [f])[1..] == fields[1..] + [f];
    }
  }

  lemma {:induction false} ElementsFrom(fields: seq<Field>, i: nat)
    requires i <= |fields|
    ensures Elements(fields) == Elements(fields[..i]) + Elements(fields[i..])
    decreases i
  {
    hide Element;
    if i == 0 {
      assert fields[..0] == [] && fields[0..] == fields;
    } else {
      ElementsFrom(fields[1..], i - 1);
      assert fields[..i][1..] == fields[1..][..i - 1] && fields[i..] == fields[1..][i - 1..];
    }
  }

  lemma ElementsMore(fields: seq<Field>, i: nat)
    requires i < |fields|
    ensures Elements(fields[..i + 1]) == Elements(fields[..i]) + Element(fields[i].key, fields[i].value)
    ensures |Element(fields[i].key, fields[i].value)| <= |Elements(fields)|
  {
    hide Element, Elements;
    assert fields[..i + 1] == fields[..i] + [fields[i]];
    ElementsAppend(fields[..i], fields[i]);
    ElementsFrom(fields, i + 1);
  }

  /** The same for arrays, keyed by their decimal indexes. */
  method WriteArray(items: seq<Value>, wb: WriteBuffer) returns (ok: bool)
    requires wb.Valid()
    modifies wb, wb.data
    ensures wb.Valid() && (wb.data == old(wb.data) || fresh(wb.data))
    ensures ok ==> wb.Written() == old(wb.Written()) + Frame(Items(items, 0)) && |Frame(Items(items, 0))| <= MAX_INT32
    ensures !ok ==> |Frame(Items(items, 0))| > MAX_INT32
    decreases items, 1
  {
    hide Items, Elements, IntegerLE, Fits, LittleEndian, WriteBuffer.Written, Decimal;
    ghost var before := wb.Written();
    var sizePos := wb.pos;
    WrittenLength(wb);
    Placeholder();
    var _ := wb.WriteInt32LE(0);
    assert wb.Written() == before + IntegerLE(0, 4) + [];
    NoFields();
    for i := 0 to |items|
      invariant wb.Valid() && (wb.data == old(wb.data) || fresh(wb.data))
      invariant wb.Written() == before + IntegerLE(0, 4) + Items(items[..i], 0)
    {
      ItemsMore(items, i);
      ghost var soFar := wb.Written();
      ok := WriteElement(Decimal(i), items[i], wb);
      if !ok {
        return;
      }
      assert soFar + Element(Decimal(i), items[i]) == before + IntegerLE(0, 4) + Items(items[..i + 1], 0);
    }
    assert items[..|items|] == items;
    ok := CloseFrame(sizePos, before, Items(items, 0), wb);
  }

  lemma {:induction false} ItemsAppend(items: seq<Value>, first: nat, v: Value)
    ensures Items(items + [v], first) == Items(items, first) + Element(Decimal(first + |items|), v)
    decreases |items|
  {
    hide Element, Decimal;
    if |items| == 0 {
      assert items + [v] == [v] && [v][1..] == [];
      assert Element(Decimal(first), v) + [] == Element(Decimal(first), v);
    } else {
      ItemsAppend(items[1..], first + 1, v);
      assert (items + [v])[1..] == items[1..] + [v];
    }
  }

  lemma {:induction false} ItemsFrom(items: seq<Value>, first: nat, i: nat)
    requires i <= |items|
    ensures Items(items, first) == Items(items[..i], first) + Items(items[i..], first + i)
    decreases i
  {
    hide Element, Decimal;
    if i == 0 {
      assert items[..0] == [] && items[0..] == items;
    } else {
      ItemsFrom(items[1..], first + 1, i - 1);
      assert items[..i][1..] == items[1..][..i - 1] && items[i..] == items[1..][i - 1..];
    }
  }

  lemma ItemsMore(items: seq<Value>, i: nat)
    requires i < |items|
    ensures Items(items[..i + 1], 0) == Items(items[..i], 0) + Element(Decimal(i), items[i])
    ensures |Element(Decimal(i), items[i])| <= |Items(items, 0)|
  {
    hide Element, Items, Decimal;
    assert items[..i + 1] == items[..i] + [items[i]];
    ItemsAppend(items[..i], 0, items[i]);
    ItemsFrom(items, 0, i + 1);
  }

  /** `BsonDocumentEncoder.encode`. */
  method Encode(document: Doc) returns (bytes: Result<seq<byte>>)
    ensures bytes.Ok? == EncodeBson(document).Ok?
    ensures bytes.Ok? ==> bytes == EncodeBson(document) && |bytes.value| <= 0x7fff_ffff && Grammar.IsDocument(bytes.value, document)
    ensures bytes.Err? ==> forall bs :: Grammar.IsDocument(bs, document) ==> |bs| > 0x7fff_ffff
  {
    hide Elements, Frame, WriteBuffer.Written, Grammar.IsDocument;
    forall bs
      ensures EncodeBson(document) == Ok(bs) <==> |bs| <= MAX_INT32 && Grammar.IsDocument(bs, document)
    {
      EncodedExactly(document, bs);
    }
    var wb := new WriteBuffer(512);
    var ok := WriteObject(document, wb);
    if !ok {
      return Err("The value of \"value\" is out of range.");
    }
    assert [] + Frame(Elements(document)) == Frame(Elements(document));
    var buffer := wb.ToBuffer();
    return Ok(buffer);
  }

  // ---------------------------------------------------------------------------
  // The decoder as it runs
  // ---------------------------------------------------------------------------

  method ReadCString(buf: seq<byte>, start: nat) returns (value: Str, next: nat)
    requires start <= |buf|
    ensures value == buf[start..CStringEnd(buf, start)] && next == CStringEnd(buf, start) + 1
  {
    var pos := start;
    while pos < |buf| && buf[pos] != 0
      invariant start <= pos <= |buf| && CStringEnd(buf, start) == CStringEnd(buf, pos)
    {
      pos := pos + 1;
    }
    return buf[start..pos], pos + 1;
  }

  /** The decoding loop: position and document advance element by element. */
  method DecodeDocumentAt(buf: seq<byte>, start: nat) returns (r: Result<(Doc, int)>)
    ensures r == DecodeDocument(buf, start)
    decreases Left(buf, start), 1
  {
    hide FromIntegerLE, DecodeValue, CStringEnd, Put;
    if start + 4 > |buf| {
      return Err("out of range");
    }
    var docEnd := start + FromIntegerLE(buf[start..start + 4]);
    var document: Doc := [];
    var pos := start + 4;
    while pos < docEnd - 1
      invariant start + 4 <= pos && DecodeElements(buf, start + 4, docEnd, []) == DecodeElements(buf, pos, docEnd, document)
      decreases docEnd - pos
    {
      if pos >= |buf| {
        return Err("unsupported BSON type");
      }
      var kind := buf[pos];
      if kind == 0 {
        break;
      }
      var key, afterKey := ReadCString(buf, pos + 1);
      var value := DecodeValueAt(buf, kind, afterKey);
      if value.Err? {
        return Err(value.error);
      }
      if value.value.1 <= pos {
        return Err("does not advance");
      }
      document := Put(document, key, value.value.0);
      pos := value.value.1;
    }
    return Ok((document, docEnd));
  }

  method DecodeValueAt(buf: seq<byte>, kind: byte, pos: nat) returns (r: Result<(Value, int)>)
    ensures r == DecodeValue(buf, kind, pos)
    decreases Left(buf, pos), 2
  {
    hide DecodeDocument, FromIntegerLE, FromDoubleLE, NumberOf, Reassemble;
    if kind == TYPE_DOCUMENT || kind == TYPE_ARRAY {
      var nested := DecodeDocumentAt(buf, pos);
      if nested.Err? {
        return Err(nested.error);
      }
      var items := ReassembleLoop(nested.value.0);
      return Ok((if kind == TYPE_ARRAY then List(items) else Object(nested.value.0), nested.value.1));
    }
    r := DecodeValue(buf, kind, pos);
  }

  /** Array elements are assigned one by one at the index their key names. */
  method ReassembleLoop(fields: seq<Field>) returns (items: seq<Value>)
    ensures items == Reassemble(fields, [])
  {
    items := [];
    assert fields[0..] == fields;
    for i := 0 to |fields|
      invariant Reassemble(fields, []) == Reassemble(fields[i..], items)
    {
      assert fields[i..][0] == fields[i] && fields[i..][1..] == fields[i + 1..];
      var index := ParseInt(fields[i].key);
      if index.Some? {
        items := PlaceAt(items, index.value, fields[i].value);
      }
    }
  }
}
