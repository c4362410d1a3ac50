/**
 The AMF3 document encoder: markers, inline strings, dense arrays and anonymous dynamic objects, as
 in sections 3.6 to 3.12 of the AMF 3 specification, without any reference table.
 */
module Amf3 {
  import opened Bytes
  import opened Documents
  import opened U29
  import opened Doubles
  import opened Buffers
  import Notation
  import Numbers
  import Grammar = Amf3Grammar

  const NULL_MARKER: byte := 0x01
  const FALSE_MARKER: byte := 0x02
  const TRUE_MARKER: byte := 0x03
  const INTEGER_MARKER: byte := 0x04
  const DOUBLE_MARKER: byte := 0x05
  const STRING_MARKER: byte := 0x06
  const ARRAY_MARKER: byte := 0x09
  const OBJECT_MARKER: byte := 0x0a
  const DYNAMIC_OBJECT_TRAIT: byte := 0x0b
  const EMPTY_STRING: byte := 0x01

  const TWO_TO_28: int := 0x1000_0000
  const TWO_TO_29: int := 0x2000_0000

  // ---------------------------------------------------------------------------
  // The encoding
  // ---------------------------------------------------------------------------

  predicate IsInt29(n: JsNumber) {
    var i := SafeInteger(n);
    i.Some? && -TWO_TO_28 <= i.value < TWO_TO_28
  }

  /** 29-bit two's complement. */
  function Unsigned29(i: int): nat
    requires -TWO_TO_28 <= i < TWO_TO_28
  {
    if i < 0 then i + TWO_TO_29 else i
  }

  /** The header counts the bytes, shifted left by one, with the lowest bit set for "inline". */
  function RawString(s: Str): seq<byte> {
    InlineU29(2 * |s| + 1) + s
  }

  function NumberBytes(n: JsNumber): seq<byte> {
    if IsInt29(n) then [INTEGER_MARKER] + InlineU29(Unsigned29(SafeInteger(n).value)) else [DOUBLE_MARKER] + Reversed(DoubleLE(n))
  }

  function ValueBytes(v: Value): seq<byte>
    decreases v, 1
  {
    match v
    case Null => [NULL_MARKER]
    case Boolean(b) => [if b then TRUE_MARKER else FALSE_MARKER]
    case Numeric(n) => NumberBytes(n)
    case Text(s) => [STRING_MARKER] + RawString(s)
    case List(items) => [ARRAY_MARKER] + (InlineU29(2 * |items| + 1) + ([EMPTY_STRING] + Items(items)))
    case Object(fields) => ObjectBytes(fields)
  }

  function ObjectBytes(fields: seq<Field>): seq<byte>
    decreases fields, 1
  {
    [OBJECT_MARKER, DYNAMIC_OBJECT_TRAIT, EMPTY_STRING] + (Members(fields) + [EMPTY_STRING])
  }

  function Members(fields: seq<Field>): seq<byte>
    decreases fields, 0
  {
    if |fields| == 0 then [] else (RawString(fields[0].key) + ValueBytes(fields[0].value)) + Members(fields[1..])
  }

  function Items(items: seq<Value>): seq<byte>
    decreases items, 0
  {
    if |items| == 0 then [] else ValueBytes(items[0]) + Items(items[1..])
  }

  // ---------------------------------------------------------------------------
  // The decoding
  // ---------------------------------------------------------------------------

  function DecodeRawString(buf: seq<byte>, pos: nat): (r: Result<(Str, nat)>)
    ensures r.Ok? ==> pos < r.value.1 && pos < |buf|
  {
    var u :- DecodeU29(buf, pos);
    if u.value % 2 == 0 then Err("string references are not supported")
    else
      var start := pos + u.bytesRead;
      var end := start + u.value / 2;
      Ok((buf[start..if end <= |buf| then end else |buf|], end))
  }

  function DecodeValue(buf: seq<byte>, pos: nat): (r: Result<(Value, nat)>)
    ensures r.Ok? ==> pos < r.value.1
    decreases Left(buf, pos), 0
  {
    if pos >= |buf| then Err("unsupported AMF3 type")
    else
      var marker := buf[pos];
      if marker == 0 || marker == NULL_MARKER then Ok((Null, pos + 1))
      else if marker == FALSE_MARKER then Ok((Boolean(false), pos + 1))
      else if marker == TRUE_MARKER then Ok((Boolean(true), pos + 1))
      else if marker == INTEGER_MARKER then
        var u :- DecodeU29(buf, pos + 1);
        Ok((Numeric(Integer29(u.value)), pos + 1 + u.bytesRead))
      else if marker == DOUBLE_MARKER then
        if pos + 9 <= |buf| then Ok((Numeric(FromDoubleLE(Reversed(buf[pos + 1..pos + 9]))), pos + 9)) else Err("out of range")
      else if marker == STRING_MARKER then
        var s :- DecodeRawString(buf, pos + 1);
        Ok((Text(s.0), s.1))
      else if marker == ARRAY_MARKER then DecodeArray(buf, pos + 1)
      else if marker == OBJECT_MARKER then DecodeObject(buf, pos + 1)
      else Err("unsupported AMF3 type")
  }

  function Left(buf: seq<byte>, pos: nat): nat {
    if pos <= |buf| then |buf| + 1 - pos else 0
  }

  /** The sign is bit 28; numbers of more than 29 bits do not occur. */
  function Integer29(u: nat): JsNumber {
    var i := if u >= TWO_TO_28 then u - TWO_TO_29 else u;
    if IsSafe(i) then NumberOf(i) else NaN
  }

  function DecodeArray(buf: seq<byte>, pos: nat): (r: Result<(Value, nat)>)
    ensures r.Ok? ==> pos < r.value.1
    decreases Left(buf, pos), 3
  {
    var u :- DecodeU29(buf, pos);
    if u.value % 2 == 0 then Err("array references are not supported")
    else
      var dense :- SkipAssociative(buf, pos + u.bytesRead);
      var items :- DecodeItems(buf, dense, u.value / 2, []);
      Ok((List(items.0), items.1))
  }

  /** Pairs of a key and a value, thrown away, up to an empty key. */
  function SkipAssociative(buf: seq<byte>, pos: nat): (r: Result<nat>)
    ensures r.Ok? ==> pos < r.value
    decreases Left(buf, pos), 2
  {
    var key :- DecodeRawString(buf, pos);
    if |key.0| == 0 then Ok(key.1)
    else
      var v :- DecodeValue(buf, key.1);
      SkipAssociative(buf, v.1)
  }

  function DecodeItems(buf: seq<byte>, pos: nat, count: nat, items: seq<Value>): (r: Result<(seq<Value>, nat)>)
    ensures r.Ok? ==> pos <= r.value.1
    decreases Left(buf, pos), 2, count
  {
    if count == 0 then Ok((items, pos))
    else
      var v :- DecodeValue(buf, pos);
      DecodeItems(buf, v.1, count - 1, items + [v.0])
  }

  /** The names of the sealed members come first, then their values, then the dynamic members. */
  function DecodeObject(buf: seq<byte>, pos: nat): (r: Result<(Value, nat)>)
    ensures r.Ok? ==> pos < r.value.1
    decreases Left(buf, pos), 3
  {
    var flags :- DecodeU29(buf, pos);
    if flags.value % 2 == 0 then Err("object references are not supported")
    else if flags.value % 4 == 1 then Err("traits references are not supported")
    else if flags.value / 4 % 2 == 1 then Err("externalizable objects are not supported")
    else
      var className :- DecodeRawString(buf, pos + flags.bytesRead);
      var names :- DecodeNames(buf, className.1, flags.value / 16, []);
      var sealedMembers :- DecodeSealed(buf, names.1, names.0, []);
      if flags.value / 8 % 2 == 0 then Ok((Object(sealedMembers.0), sealedMembers.1))
      else
        var members :- DecodeMembers(buf, sealedMembers.1, sealedMembers.0);
        Ok((Object(members.0), members.1))
  }

  function DecodeNames(buf: seq<byte>, pos: nat, count: nat, names: seq<Str>): (r: Result<(seq<Str>, nat)>)
    ensures r.Ok? ==> pos <= r.value.1
    decreases count
  {
    if count == 0 then Ok((names, pos))
    else
      var name :- DecodeRawString(buf, pos);
      DecodeNames(buf, name.1, count - 1, names + [name.0])
  }

  function DecodeSealed(buf: seq<byte>, pos: nat, names: seq<Str>, fields: seq<Field>): (r: Result<(seq<Field>, nat)>)
    ensures r.Ok? ==> pos <= r.value.1
    decreases Left(buf, pos), 2, |names|
  {
    if |names| == 0 then Ok((fields, pos))
    else
      var v :- DecodeValue(buf, pos);
      DecodeSealed(buf, v.1, names[1..], Put(fields, names[0], v.0))
  }

  function DecodeMembers(buf: seq<byte>, pos: nat, fields: seq<Field>): (r: Result<(seq<Field>, nat)>)
    ensures r.Ok? ==> pos < r.value.1
    decreases Left(buf, pos), 2
  {
    var key :- DecodeRawString(buf, pos);
    if |key.0| == 0 then Ok((fields, key.1))
    else
      var v :- DecodeValue(buf, key.1);
      DecodeMembers(buf, v.1, Put(fields, key.0, v.0))
  }

  function EncodeAmf3(document: Doc): Result<seq<byte>> {
    Ok(ObjectBytes(document))
  }

  function DecodeAmf3(bytes: seq<byte>): Result<Doc> {
    var v :- DecodeValue(bytes, 0);
    if v.0.Object? then Ok(v.0.fields) else Err("top-level value must be an object")
  }

  // ---------------------------------------------------------------------------
  // Round trip
  // ---------------------------------------------------------------------------

  /** Lengths fit their 28 bits and no property name repeats, at any depth. */
  predicate Sized(v: Value)
    decreases v, 1
  {
    match v
    case Text(s) => |s| < TWO_TO_28
    case List(items) => |items| < TWO_TO_28 && forall i :: 0 <= i < |items| ==> Sized(items[i])
    case Object(fields) => SizedFields(fields)
    case _ => true
  }

  predicate SizedFields(fields: seq<Field>)
    decreases fields, 0
  {
    && (forall i, j :: 0 <= i < j < |fields| ==> fields[i].key != fields[j].key)
    && (forall i :: 0 <= i < |fields| ==> |fields[i].key| < TWO_TO_28 && Sized(fields[i].value))
  }

  /** No key is empty, at any depth. */
  predicate Named(v: Value)
    decreases v, 1
  {
    match v
    case List(items) => forall i :: 0 <= i < |items| ==> Named(items[i])
    case Object(fields) => NamedFields(fields)
    case _ => true
  }

  predicate NamedFields(fields: seq<Field>)
    decreases fields, 0
  {
    forall i :: 0 <= i < |fields| ==> |fields[i].key| > 0 && Named(fields[i].value)
  }

  lemma InlineDecodes(buf: seq<byte>, pos: nat, n: nat)
    requires StandsAt(buf, pos, InlineU29(n)) && n <= U29_MAX_VALUE
    ensures DecodeU29(buf, pos) == Ok(Decoded(n, |InlineU29(n)|))
  {
    hide StandsAt, DecodeU29, InlineU29, U29.U29;
    RoundTrip(n, buf, pos);
  }

  lemma RawStringDecodes(buf: seq<byte>, pos: nat, s: Str)
    requires StandsAt(buf, pos, RawString(s)) && |s| < TWO_TO_28
    ensures DecodeRawString(buf, pos) == Ok((s, pos + |RawString(s)|))
  {
    hide InlineU29, DecodeU29;
    SliceStands(buf, pos, InlineU29(2 * |s| + 1), s);
    InlineDecodes(buf, pos, 2 * |s| + 1);
  }

  /** The header of a long string loses its high bits: the length is read back only below 2^28. */
  lemma HeaderExact(buf: seq<byte>, pos: nat, length: nat)
    requires StandsAt(buf, pos, InlineU29(2 * length + 1)) && length < 4 * TWO_TO_28
    ensures DecodeU29(buf, pos).Ok?
    ensures DecodeU29(buf, pos).value.value / 2 == length <==> length < TWO_TO_28
  {
    hide StandsAt, DecodeU29, U29.U29;
    if length < TWO_TO_28 {
      InlineDecodes(buf, pos, 2 * length + 1);
    } else {
      LongHeader(buf, pos, 2 * length + 1);
    }
  }

  lemma LongHeader(buf: seq<byte>, pos: nat, n: nat)
    requires StandsAt(buf, pos, InlineU29(n)) && n > U29_MAX_VALUE
    ensures DecodeU29(buf, pos).Ok? && DecodeU29(buf, pos).value.value <= U29_MAX_VALUE
  {
    hide StandsAt;
    var u := InlineU29(n);
    ByteAt(buf, pos, u, 0);
    ByteAt(buf, pos, u, 1);
    ByteAt(buf, pos, u, 2);
    ByteAt(buf, pos, u, 3);
    var a, b, c := n / 0x40_0000 % 0x80, n / 0x8000 % 0x80, n / 0x100 % 0x80;
    assert DecodeU29(buf, pos) == DecodeFrom(buf, pos, 1, a);
    assert DecodeU29(buf, pos) == DecodeFrom(buf, pos, 2, a * 0x80 + b);
    assert DecodeU29(buf, pos) == DecodeFrom(buf, pos, 3, (a * 0x80 + b) * 0x80 + c);
  }

  lemma NumberDecodes(buf: seq<byte>, pos: nat, n: JsNumber)
    requires StandsAt(buf, pos, NumberBytes(n))
    ensures DecodeValue(buf, pos) == Ok((Numeric(n), pos + |NumberBytes(n)|))
  {
    hide SafeInteger, NumberOf, DoubleLE, FromDoubleLE, InlineU29, DecodeU29, Reversed;
    if IsInt29(n) {
      var u := Unsigned29(SafeInteger(n).value);
      IntegerRoundTrip(n);
      SliceStands(buf, pos, [INTEGER_MARKER], InlineU29(u));
      ByteAt(buf, pos, [INTEGER_MARKER], 0);
      InlineDecodes(buf, pos + 1, u);
    } else {
      DoubleLERoundTrip(n);
      ReversedTwice(DoubleLE(n));
      SliceStands(buf, pos, [DOUBLE_MARKER], Reversed(DoubleLE(n)));
      ByteAt(buf, pos, [DOUBLE_MARKER], 0);
    }
  }

  lemma TextDecodes(buf: seq<byte>, pos: nat, s: Str)
    requires StandsAt(buf, pos, ValueBytes(Text(s))) && |s| < TWO_TO_28
    ensures DecodeValue(buf, pos) == Ok((Text(s), pos + |ValueBytes(Text(s))|))
  {
    hide RawString, DecodeRawString, StandsAt;
    SliceStands(buf, pos, [STRING_MARKER], RawString(s));
    ByteAt(buf, pos, [STRING_MARKER], 0);
    RawStringDecodes(buf, pos + 1, s);
  }

  lemma MarkedDecodes(buf: seq<byte>, pos: nat, marker: byte, rest: seq<byte>)
    requires StandsAt(buf, pos, [marker] + rest)
    ensures StandsAt(buf, pos + 1, rest)
    ensures marker == ARRAY_MARKER ==> DecodeValue(buf, pos) == DecodeArray(buf, pos + 1)
    ensures marker == OBJECT_MARKER ==> DecodeValue(buf, pos) == DecodeObject(buf, pos + 1)
  {
    hide DecodeArray, DecodeObject, StandsAt;
    SliceStands(buf, pos, [marker], rest);
    ByteAt(buf, pos, [marker], 0);
  }

  /** Every value is read back from its bytes, and reading stops where they end. */
  lemma {:induction false} ValueDecodes(buf: seq<byte>, pos: nat, v: Value)
    requires StandsAt(buf, pos, ValueBytes(v)) && Sized(v) && Named(v)
    ensures DecodeValue(buf, pos) == Ok((v, pos + |ValueBytes(v)|))
    decreases v, 3
  {
    hide StandsAt, NumberBytes, RawString, DecodeArray, DecodeObject, ObjectBytes, Items, InlineU29;
    match v
    case Null => ByteAt(buf, pos, [NULL_MARKER], 0);
    case Boolean(b) => ByteAt(buf, pos, [if b then TRUE_MARKER else FALSE_MARKER], 0);
    case Numeric(n) => NumberDecodes(buf, pos, n);
    case Text(s) => TextDecodes(buf, pos, s);
    case List(items) => ListDecodes(buf, pos, items);
    case Object(fields) => ObjectDecodes(buf, pos, fields);
  }

  lemma EmptyStringDecodes(buf: seq<byte>, pos: nat)
    requires StandsAt(buf, pos, [EMPTY_STRING])
    ensures DecodeRawString(buf, pos) == Ok(([], pos + 1))
  {
    assert RawString([]) == [EMPTY_STRING];
    hide RawString, StandsAt, DecodeRawString;
    RawStringDecodes(buf, pos, []);
  }

  lemma ArrayDecodes(buf: seq<byte>, pos: nat, n: nat, headerBytes: nat, items: seq<Value>, end: nat)
    requires DecodeU29(buf, pos) == Ok(Decoded(2 * n + 1, headerBytes)) && headerBytes > 0
    requires DecodeRawString(buf, pos + headerBytes) == Ok(([], pos + headerBytes + 1))
    requires DecodeItems(buf, pos + headerBytes + 1, n, []) == Ok((items, end))
    ensures DecodeArray(buf, pos) == Ok((List(items), end))
  {
    hide DecodeU29, DecodeRawString, DecodeItems;
  }

  lemma {:induction false} ListDecodes(buf: seq<byte>, pos: nat, items: seq<Value>)
    requires StandsAt(buf, pos, ValueBytes(List(items))) && |items| < TWO_TO_28
    requires forall i :: 0 <= i < |items| ==> Sized(items[i]) && Named(items[i])
    ensures DecodeValue(buf, pos) == Ok((List(items), pos + |ValueBytes(List(items))|))
    decreases items, 2
  {
    hide StandsAt, DecodeArray, DecodeValue, InlineU29, DecodeU29, Items, Sized, Named, DecodeRawString, DecodeItems;
    var header := InlineU29(2 * |items| + 1);
    MarkedDecodes(buf, pos, ARRAY_MARKER, header + ([EMPTY_STRING] + Items(items)));
    SliceStands(buf, pos + 1, header, [EMPTY_STRING] + Items(items));
    SliceStands(buf, pos + 1 + |header|, [EMPTY_STRING], Items(items));
    InlineDecodes(buf, pos + 1, 2 * |items| + 1);
    EmptyStringDecodes(buf, pos + 1 + |header|);
    ItemsDecode(buf, pos + 2 + |header|, items, []);
    assert [] + items == items;
    ArrayDecodes(buf, pos + 1, |items|, |header|, items, pos + 2 + |header| + |Items(items)|);
  }

  lemma NextItem(buf: seq<byte>, pos: nat, count: nat, items: seq<Value>, v: Value, next: nat)
    requires count > 0 && pos < next && DecodeValue(buf, pos) == Ok((v, next))
    ensures DecodeItems(buf, pos, count, items) == DecodeItems(buf, next, count - 1, items + [v])
  {
    hide DecodeValue;
  }

  lemma NoItem(buf: seq<byte>, pos: nat, items: seq<Value>)
    ensures DecodeItems(buf, pos, 0, items) == Ok((items, pos))
  {
  }

  lemma {:induction false} ItemsDecode(buf: seq<byte>, pos: nat, items: seq<Value>, done: seq<Value>)
    requires StandsAt(buf, pos, Items(items)) && forall i :: 0 <= i < |items| ==> Sized(items[i]) && Named(items[i])
    ensures DecodeItems(buf, pos, |items|, done) == Ok((done + items, pos + |Items(items)|))
    decreases items, 0
  {
    hide StandsAt, DecodeValue, ValueBytes, Sized, Named, DecodeItems;
    if |items| == 0 {
      NoItem(buf, pos, done);
      assert done + items == done;
    } else {
      SliceStands(buf, pos, ValueBytes(items[0]), Items(items[1..]));
      ValueDecodes(buf, pos, items[0]);
      NextItem(buf, pos, |items|, done, items[0], pos + |ValueBytes(items[0])|);
      ItemsDecode(buf, pos + |ValueBytes(items[0])|, items[1..], done + [items[0]]);
      assert done + [items[0]] + items[1..] == done + items;
    }
  }

  lemma DynamicObject(buf: seq<byte>, pos: nat, fields: seq<Field>, end: nat)
    requires DecodeU29(buf, pos) == Ok(Decoded(0x0b, 1))
    requires DecodeRawString(buf, pos + 1) == Ok(([], pos + 2))
    requires DecodeMembers(buf, pos + 2, []) == Ok((fields, end)) && pos < end
    ensures DecodeObject(buf, pos) == Ok((Object(fields), end))
  {
    hide DecodeU29, DecodeRawString, DecodeMembers;
    assert 0x0b / 16 == 0 && 0x0b / 8 % 2 == 1 && 0x0b / 4 % 2 == 0 && 0x0b % 4 == 3;
  }

  lemma {:induction false} ObjectDecodes(buf: seq<byte>, pos: nat, fields: seq<Field>)
    requires StandsAt(buf, pos, ObjectBytes(fields)) && SizedFields(fields) && NamedFields(fields)
    ensures DecodeValue(buf, pos) == Ok((Object(fields), pos + |ObjectBytes(fields)|))
    decreases fields, 2
  {
    hide StandsAt, DecodeObject, DecodeValue, InlineU29, DecodeU29, Members, SizedFields, NamedFields, DecodeRawString, DecodeMembers;
    MembersStand(buf, pos, fields);
    MembersDecode(buf, pos + 3, fields, []);
    assert [] + fields == fields;
    DynamicObject(buf, pos + 1, fields, pos + 3 + |Members(fields)| + 1);
  }

  /** The head of an object is read, and its members follow. */
  lemma MembersStand(buf: seq<byte>, pos: nat, fields: seq<Field>)
    requires StandsAt(buf, pos, ObjectBytes(fields))
    ensures DecodeValue(buf, pos) == DecodeObject(buf, pos + 1)
    ensures DecodeU29(buf, pos + 1) == Ok(Decoded(0x0b, 1)) && DecodeRawString(buf, pos + 2) == Ok(([], pos + 3))
    ensures StandsAt(buf, pos + 3, Members(fields) + [EMPTY_STRING])
  {
    hide StandsAt, DecodeObject, DecodeValue, InlineU29, DecodeU29, Members, DecodeRawString, DecodeMembers;
    var rest := Members(fields) + [EMPTY_STRING];
    assert ObjectBytes(fields) == [OBJECT_MARKER] + ([DYNAMIC_OBJECT_TRAIT] + ([EMPTY_STRING] + rest));
    MarkedDecodes(buf, pos, OBJECT_MARKER, [DYNAMIC_OBJECT_TRAIT] + ([EMPTY_STRING] + rest));
    SliceStands(buf, pos + 1, [DYNAMIC_OBJECT_TRAIT], [EMPTY_STRING] + rest);
    SliceStands(buf, pos + 2, [EMPTY_STRING], rest);
    TraitDecodes(buf, pos + 1);
    EmptyStringDecodes(buf, pos + 2);
  }

  lemma TraitDecodes(buf: seq<byte>, pos: nat)
    requires StandsAt(buf, pos, [DYNAMIC_OBJECT_TRAIT])
    ensures DecodeU29(buf, pos) == Ok(Decoded(0x0b, 1))
  {
    assert InlineU29(0x0b) == [DYNAMIC_OBJECT_TRAIT];
    hide StandsAt, DecodeU29, InlineU29;
    InlineDecodes(buf, pos, 0x0b);
  }

  lemma NextMember(buf: seq<byte>, pos: nat, fields: seq<Field>, key: Str, v: Value, value: nat, next: nat)
    requires pos < value < next && DecodeRawString(buf, pos) == Ok((key, value)) && |key| > 0 && DecodeValue(buf, value) == Ok((v, next))
    requires forall i :: 0 <= i < |fields| ==> fields[i].key != key
    ensures DecodeMembers(buf, pos, fields) == DecodeMembers(buf, next, fields + [Field(key, v)])
  {
    hide DecodeValue, DecodeRawString;
    PutNew(fields, key, v);
  }

  lemma NoMember(buf: seq<byte>, pos: nat, fields: seq<Field>)
    requires DecodeRawString(buf, pos) == Ok(([], pos + 1))
    ensures DecodeMembers(buf, pos, fields) == Ok((fields, pos + 1))
  {
    hide DecodeValue, DecodeRawString;
  }

  lemma {:induction false} MembersDecode(buf: seq<byte>, pos: nat, fields: seq<Field>, done: seq<Field>)
    requires StandsAt(buf, pos, Members(fields) + [EMPTY_STRING]) && SizedFields(fields) && NamedFields(fields)
    requires forall i, j :: 0 <= i < |done| && 0 <= j < |fields| ==> done[i].key != fields[j].key
    ensures DecodeMembers(buf, pos, done) == Ok((done + fields, pos + |Members(fields)| + 1))
    decreases fields, 0
  {
    hide StandsAt, DecodeValue, ValueBytes, Sized, Named, DecodeMembers, DecodeRawString, RawString;
    if |fields| == 0 {
      assert Members(fields) + [EMPTY_STRING] == [EMPTY_STRING];
      EmptyStringDecodes(buf, pos);
      NoMember(buf, pos, done);
      assert done + fields == done;
    } else {
      var key, v := fields[0].key, fields[0].value;
      assert Members(fields) + [EMPTY_STRING] == RawString(key) + (ValueBytes(v) + (Members(fields[1..]) + [EMPTY_STRING]));
      SliceStands(buf, pos, RawString(key), ValueBytes(v) + (Members(fields[1..]) + [EMPTY_STRING]));
      SliceStands(buf, pos + |RawString(key)|, ValueBytes(v), Members(fields[1..]) + [EMPTY_STRING]);
      RawStringDecodes(buf, pos, key);
      ValueDecodes(buf, pos + |RawString(key)|, v);
      var next := pos + |RawString(key)| + |ValueBytes(v)|;
      NextMember(buf, pos, done, key, v, pos + |RawString(key)|, next);
      RestSized(fields);
      MembersDecode(buf, next, fields[1..], done + [Field(key, v)]);
      assert done + [Field(key, v)] + fields[1..] == done + fields;
    }
  }

  lemma RestSized(fields: seq<Field>)
    requires SizedFields(fields) && NamedFields(fields) && |fields| > 0
    ensures SizedFields(fields[1..]) && NamedFields(fields[1..]) && forall i :: 1 <= i < |fields| ==> fields[0].key != fields[i].key
  {
    hide Sized, Named;
    assert forall i :: 0 <= i < |fields| - 1 ==> fields[1..][i] == fields[i + 1];
  }

  // ---------------------------------------------------------------------------
  // What comes back at an empty key
  // ---------------------------------------------------------------------------

  /** The fields in front of the first empty key. */
  function BeforeEmptyKey(fields: seq<Field>): (r: seq<Field>)
    ensures |r| <= |fields| && r == fields[..|r|]
    ensures |r| < |fields| ==> |fields[|r|].key| == 0
    ensures forall i :: 0 <= i < |r| ==> |r[i].key| > 0
  {
    if |fields| == 0 || |fields[0].key| == 0 then [] else [fields[0]] + BeforeEmptyKey(fields[1..])
  }

  lemma {:induction false} MembersSplit(fields: seq<Field>, j: nat)
    requires j <= |fields|
    ensures Members(fields) == Members(fields[..j]) + Members(fields[j..])
    decreases j
  {
    hide ValueBytes, RawString;
    if j == 0 {
      assert fields[..0] == [] && fields[0..] == fields;
      assert [] + Members(fields) == Members(fields);
    } else {
      MembersSplit(fields[1..], j - 1);
      assert fields[..j][1..] == fields[1..][..j - 1] && fields[1..][j - 1..] == fields[j..];
    }
  }

  /** Members and what ends them: the terminator, or an empty key in its place. */
  lemma MembersEnd(buf: seq<byte>, pos: nat, fields: seq<Field>)
    requires StandsAt(buf, pos, Members(fields) + [EMPTY_STRING])
    ensures StandsAt(buf, pos, Members(BeforeEmptyKey(fields)) + [EMPTY_STRING])
  {
    hide StandsAt, ValueBytes, RawString;
    var j := |BeforeEmptyKey(fields)|;
    MembersSplit(fields, j);
    if j < |fields| {
      var rest := ValueBytes(fields[j].value) + Members(fields[j + 1..]);
      assert fields[j..][1..] == fields[j + 1..];
      EmptyRawString();
      assert Members(fields[j..]) == [EMPTY_STRING] + rest;
      assert Members(fields) + [EMPTY_STRING] == (Members(fields[..j]) + [EMPTY_STRING]) + (rest + [EMPTY_STRING]);
      SliceStands(buf, pos, Members(fields[..j]) + [EMPTY_STRING], rest + [EMPTY_STRING]);
    } else {
      assert fields[..j] == fields;
    }
  }

  lemma EmptyRawString()
    ensures RawString([]) == [EMPTY_STRING]
  {
  }

  /**
   Wherever an object stands, and however deep: it is read up to its first empty key, which is taken
   for its end, and reading goes on right behind that key.
   */
  lemma EmptyKeyStops(buf: seq<byte>, pos: nat, fields: seq<Field>)
    requires StandsAt(buf, pos, ObjectBytes(fields))
    requires SizedFields(BeforeEmptyKey(fields)) && NamedFields(BeforeEmptyKey(fields))
    ensures DecodeValue(buf, pos) == Ok((Object(BeforeEmptyKey(fields)), pos + 4 + |Members(BeforeEmptyKey(fields))|))
  {
    hide StandsAt, DecodeObject, DecodeValue, DecodeU29, Members, SizedFields, NamedFields, DecodeRawString, DecodeMembers, ObjectBytes;
    var before := BeforeEmptyKey(fields);
    MembersStand(buf, pos, fields);
    MembersEnd(buf, pos + 3, fields);
    MembersDecode(buf, pos + 3, before, []);
    assert [] + before == before;
    DynamicObject(buf, pos + 1, before, pos + 3 + |Members(before)| + 1);
  }

  /** A document whose lengths fit and whose keys are not empty comes back, and every byte is consumed. */
  lemma Amf3RoundTrip(document: Doc)
    requires SizedFields(document) && NamedFields(document)
    ensures DecodeAmf3(EncodeAmf3(document).value) == Ok(document)
    ensures DecodeValue(ObjectBytes(document), 0) == Ok((Object(document), |ObjectBytes(document)|))
  {
    hide DecodeValue, ObjectBytes, SizedFields, NamedFields;
    var bytes := ObjectBytes(document);
    assert bytes[0..0 + |bytes|] == bytes;
    ObjectDecodes(bytes, 0, document);
  }

  /** No key of a nested object is empty. */
  predicate NamedBelow(fields: seq<Field>) {
    forall i :: 0 <= i < |fields| ==> Named(fields[i].value)
  }

  /** With no empty key below the top, the fields in front of the first empty key come back. */
  lemma Amf3EmptyKey(document: Doc)
    requires SizedFields(document) && NamedBelow(document)
    ensures DecodeAmf3(EncodeAmf3(document).value) == Ok(BeforeEmptyKey(document))
  {
    hide DecodeValue, ObjectBytes, Sized, Named;
    var bytes, before := ObjectBytes(document), BeforeEmptyKey(document);
    assert bytes[0..0 + |bytes|] == bytes;
    assert forall i :: 0 <= i < |before| ==> before[i] == document[i];
    EmptyKeyStops(bytes, 0, document);
  }

  // ---------------------------------------------------------------------------
  // Empty keys the decoder does return
  // ---------------------------------------------------------------------------

  /** Only a sealed member can bring an empty key: a dynamic one would have ended the object. */
  lemma DynamicKeysNamed(buf: seq<byte>, pos: nat)
    requires DecodeU29(buf, pos).Ok? && DecodeU29(buf, pos).value.value / 16 == 0 && DecodeObject(buf, pos).Ok?
    ensures DecodeObject(buf, pos).value.0.Object?
    ensures forall f :: f in DecodeObject(buf, pos).value.0.fields ==> |f.key| > 0
  {
    hide DecodeU29, DecodeRawString, DecodeMembers;
    var className := DecodeRawString(buf, pos + DecodeU29(buf, pos).value.bytesRead);
    if className.Ok? {
      MembersNamed(buf, className.value.1, []);
    }
  }

  lemma {:induction false} MembersNamed(buf: seq<byte>, pos: nat, fields: seq<Field>)
    requires forall f :: f in fields ==> |f.key| > 0
    ensures DecodeMembers(buf, pos, fields).Ok? ==> forall f :: f in DecodeMembers(buf, pos, fields).value.0 ==> |f.key| > 0
    decreases Left(buf, pos), 2
  {
    hide DecodeValue, DecodeRawString;
    var key := DecodeRawString(buf, pos);
    if key.Ok? && |key.value.0| > 0 && DecodeValue(buf, key.value.1).Ok? {
      var v := DecodeValue(buf, key.value.1).value;
      PutKeys(fields, key.value.0, v.0);
      MembersNamed(buf, v.1, Put(fields, key.value.0, v.0));
    }
  }

  lemma {:induction false} PutKeys(document: Doc, key: Str, v: Value)
    requires |key| > 0 && forall f :: f in document ==> |f.key| > 0
    ensures forall f :: f in Put(document, key, v) ==> |f.key| > 0
    decreases |document|
  {
    if |document| > 0 && document[0].key != key {
      PutKeys(document[1..], key, v);
    }
  }

  /** One sealed member without a name: five bytes that decode to an object with an empty key. */
  lemma SealedEmptyKey()
    ensures DecodeAmf3([OBJECT_MARKER, 0x13, EMPTY_STRING, EMPTY_STRING, NULL_MARKER]) == Ok([Field([], Null)])
  {
    var buf: seq<byte> := [OBJECT_MARKER, 0x13, EMPTY_STRING, EMPTY_STRING, NULL_MARKER];
    assert DecodeU29(buf, 1) == Ok(Decoded(0x13, 1));
    EmptyAt(buf, 2);
    EmptyAt(buf, 3);
    assert DecodeValue(buf, 4) == Ok((Null, 5));
    OneSealed(buf);
  }

  lemma EmptyAt(buf: seq<byte>, pos: nat)
    requires pos < |buf| && buf[pos] == EMPTY_STRING
    ensures DecodeRawString(buf, pos) == Ok(([], pos + 1))
  {
    assert buf[pos..pos + 1] == [EMPTY_STRING];
    EmptyStringDecodes(buf, pos);
  }

  lemma OneName(buf: seq<byte>)
    requires DecodeRawString(buf, 3) == Ok(([], 4))
    ensures DecodeNames(buf, 3, 1, []) == Ok(([[]], 4))
  {
    hide DecodeRawString;
    var none: seq<Str> := [];
    assert none + [[]] == [[]];
    assert DecodeNames(buf, 4, 0, [[]]) == Ok(([[]], 4));
  }

  lemma OneValue(buf: seq<byte>)
    requires DecodeValue(buf, 4) == Ok((Null, 5))
    ensures DecodeSealed(buf, 4, [[]], []) == Ok(([Field([], Null)], 5))
  {
    hide DecodeValue;
    var none: seq<Str> := [];
    assert [[]][1..] == none;
    assert Put([], [], Null) == [Field([], Null)];
    assert DecodeSealed(buf, 5, none, [Field([], Null)]) == Ok(([Field([], Null)], 5));
  }

  lemma OneSealed(buf: seq<byte>)
    requires |buf| > 0 && buf[0] == OBJECT_MARKER && DecodeU29(buf, 1) == Ok(Decoded(0x13, 1))
    requires DecodeRawString(buf, 2) == Ok(([], 3)) && DecodeRawString(buf, 3) == Ok(([], 4)) && DecodeValue(buf, 4) == Ok((Null, 5))
    ensures DecodeAmf3(buf) == Ok([Field([], Null)])
  {
    hide DecodeU29, DecodeRawString, DecodeNames, DecodeSealed, DecodeMembers, DecodeArray;
    OneName(buf);
    OneValue(buf);
    assert DecodeObject(buf, 1) == Ok((Object([Field([], Null)]), 5));
  }

  // ---------------------------------------------------------------------------
  // What is written is the grammar's, byte by byte
  // ---------------------------------------------------------------------------

  lemma InlineExact(bs: seq<byte>, n: nat)
    requires n <= U29_MAX_VALUE
    ensures Notation.IsU29(bs, n) <==> bs == InlineU29(n)
  {
    hide U29.U29, InlineU29, Notation.IsU29;
    LayoutExact(bs, n);
  }

  lemma NumberExact(marker: byte, bs: seq<byte>, n: JsNumber)
    ensures Grammar.IsNumber(marker, bs, n) <==> [marker] + bs == NumberBytes(n)
  {
    hide SafeInteger, DoubleLE, InlineU29, Reversed, Notation.IsInteger, Notation.IsU29, Notation.IsDoubleBE;
    Numbers.DoubleExact(bs, n);
    assert ([marker] + bs)[1..] == bs;
    forall i | -TWO_TO_28 <= i < TWO_TO_28
      ensures Notation.IsInteger(n, i) <==> SafeInteger(n) == Some(i)
    {
      Numbers.SafeIntegerExact(n, i);
    }
    if IsInt29(n) {
      var u := Unsigned29(SafeInteger(n).value);
      InlineExact(bs, u);
      assert NumberBytes(n)[1..] == InlineU29(u);
    } else {
      assert NumberBytes(n)[1..] == Reversed(DoubleLE(n));
    }
  }

  lemma Joined(bs: seq<byte>, a: seq<byte>, b: seq<byte>)
    ensures bs == a + b <==> |bs| >= |a| && bs[..|a|] == a && bs[|a|..] == b
  {
    if |bs| >= |a| {
      assert bs == bs[..|a|] + bs[|a|..];
    }
  }

  lemma StringExact(bs: seq<byte>, s: Str)
    requires |s| < TWO_TO_28
    ensures Grammar.IsString(bs, s) <==> bs == RawString(s)
  {
    hide InlineU29, Notation.IsU29, RawString, Grammar.IsString;
    var header := InlineU29(2 * |s| + 1);
    StringJoined(s);
    Joined(bs, header, s);
    if Grammar.IsString(bs, s) {
      var n := StringSplit(bs, s);
      InlineExact(bs[..n], 2 * |s| + 1);
    }
    if bs == header + s {
      InlineExact(bs[..|header|], 2 * |s| + 1);
      StringFrom(bs, s, |header|);
    }
  }

  lemma StringJoined(s: Str)
    ensures RawString(s) == InlineU29(2 * |s| + 1) + s
  {
  }

  lemma StringSplit(bs: seq<byte>, s: Str) returns (n: nat)
    requires Grammar.IsString(bs, s)
    ensures n <= |bs| && Notation.IsU29(bs[..n], 2 * |s| + 1) && bs[n..] == s
  {
    hide Notation.IsU29;
    n :| 0 <= n <= |bs| && Notation.IsU29(bs[..n], 2 * |s| + 1) && bs[n..] == s;
  }

  lemma StringFrom(bs: seq<byte>, s: Str, n: nat)
    requires n <= |bs| && Notation.IsU29(bs[..n], 2 * |s| + 1) && bs[n..] == s
    ensures Grammar.IsString(bs, s)
  {
    hide Notation.IsU29;
  }

  lemma Marker(bs: seq<byte>, marker: byte, rest: seq<byte>)
    ensures bs == [marker] + rest <==> |bs| > 0 && bs[0] == marker && bs[1..] == rest
  {
  }

  lemma {:induction false} ValueExact(bs: seq<byte>, v: Value)
    requires Sized(v)
    ensures Grammar.IsValue(bs, v) <==> bs == ValueBytes(v)
    decreases v, 1
  {
    hide NumberBytes, RawString, ObjectBytes, InlineU29, Items, Grammar.IsNumber, Grammar.IsString, Grammar.IsObject, Grammar.AreItems, Grammar.IsArrayHead;
    match v
    case Null =>
    case Boolean(_) =>
    case Numeric(n) =>
      if |bs| > 0 {
        NumberExact(bs[0], bs[1..], n);
        assert bs == [bs[0]] + bs[1..];
      }
      NumberWritten(n);
    case Text(s) =>
      Marker(bs, STRING_MARKER, RawString(s));
      if |bs| > 0 {
        StringExact(bs[1..], s);
      }
    case List(items) => ListExact(bs, items);
    case Object(fields) =>
      ObjectExact(bs, fields);
      ObjectWritten(fields);
  }

  lemma ObjectWritten(fields: seq<Field>)
    ensures |ObjectBytes(fields)| > 0
  {
  }

  lemma NumberWritten(n: JsNumber)
    ensures |NumberBytes(n)| > 0
  {
  }

  lemma ArrayHeadExact(bs: seq<byte>, n: nat, count: nat)
    requires 1 <= n < |bs| && count < TWO_TO_28
    ensures Grammar.IsArrayHead(bs, n, count) <==> bs[..n + 1] == [ARRAY_MARKER] + (InlineU29(2 * count + 1) + [EMPTY_STRING])
  {
    hide InlineU29, Notation.IsU29;
    InlineExact(bs[1..n], 2 * count + 1);
    var head := bs[..n + 1];
    assert head == [head[0]] + (head[1..n] + [head[n]]) && head[1..n] == bs[1..n];
  }

  lemma {:induction false} ListExact(bs: seq<byte>, items: seq<Value>)
    requires Sized(List(items))
    ensures Grammar.IsValue(bs, List(items)) <==> bs == ValueBytes(List(items))
    decreases items, 1
  {
    hide InlineU29, Items, Grammar.AreItems, Grammar.IsArrayHead, Sized;
    SizedParts(items);
    var head, rest := [ARRAY_MARKER] + (InlineU29(2 * |items| + 1) + [EMPTY_STRING]), Items(items);
    assert ValueBytes(List(items)) == head + rest;
    Joined(bs, head, rest);
    if Grammar.IsValue(bs, List(items)) {
      var n :| 1 <= n < |bs| && Grammar.IsArrayHead(bs, n, |items|) && Grammar.AreItems(bs[n + 1..], items);
      ArrayHeadExact(bs, n, |items|);
      ItemsExact(bs[n + 1..], items);
    }
    if bs == head + rest {
      var n := |head| - 1;
      ArrayHeadExact(bs, n, |items|);
      ItemsExact(bs[n + 1..], items);
      assert Grammar.IsArrayHead(bs, n, |items|) && Grammar.AreItems(bs[n + 1..], items);
    }
  }

  lemma SizedParts(items: seq<Value>)
    ensures Sized(List(items)) ==> |items| < TWO_TO_28 && forall i :: 0 <= i < |items| ==> Sized(items[i])
  {
  }

  lemma {:induction false} ObjectExact(bs: seq<byte>, fields: seq<Field>)
    requires SizedFields(fields)
    ensures Grammar.IsObject(bs, fields) <==> bs == ObjectBytes(fields)
    decreases fields, 1
  {
    hide Members, Grammar.AreMembers, SizedFields;
    SizedMembers(fields);
    if |bs| >= 4 {
      var members := bs[3..|bs| - 1];
      MembersExact(members, fields);
      assert bs == [bs[0], bs[1], bs[2]] + (members + [bs[|bs| - 1]]);
    }
    if bs == ObjectBytes(fields) {
      assert bs[3..|bs| - 1] == Members(fields);
    }
  }

  lemma SizedMembers(fields: seq<Field>)
    ensures SizedFields(fields) ==> forall i :: 0 <= i < |fields| ==> |fields[i].key| < TWO_TO_28 && Sized(fields[i].value)
  {
  }

  lemma {:induction false} MembersExact(bs: seq<byte>, fields: seq<Field>)
    requires forall i :: 0 <= i < |fields| ==> |fields[i].key| < TWO_TO_28 && Sized(fields[i].value)
    ensures Grammar.AreMembers(bs, fields) <==> bs == Members(fields)
    decreases fields, 0
  {
    hide ValueBytes, RawString, Grammar.IsString, Grammar.IsValue, Sized;
    if |fields| > 0 {
      var f := fields[0];
      if Grammar.AreMembers(bs, fields) {
        var m, n :| 0 <= m <= n <= |bs| && Grammar.IsString(bs[..m], f.key) && Grammar.IsValue(bs[m..n], f.value) && Grammar.AreMembers(bs[n..], fields[1..]);
        StringExact(bs[..m], f.key);
        ValueExact(bs[m..n], f.value);
        MembersExact(bs[n..], fields[1..]);
        assert bs == (bs[..m] + bs[m..n]) + bs[n..];
      }
      if bs == Members(fields) {
        var m := |RawString(f.key)|;
        var n := m + |ValueBytes(f.value)|;
        assert bs[..m] == RawString(f.key) && bs[m..n] == ValueBytes(f.value) && bs[n..] == Members(fields[1..]);
        StringExact(bs[..m], f.key);
        ValueExact(bs[m..n], f.value);
        MembersExact(bs[n..], fields[1..]);
      }
    }
  }

  lemma {:induction false} ItemsExact(bs: seq<byte>, items: seq<Value>)
    requires forall i :: 0 <= i < |items| ==> Sized(items[i])
    ensures Grammar.AreItems(bs, items) <==> bs == Items(items)
    decreases items, 0
  {
    hide ValueBytes, Grammar.IsValue, Sized;
    if |items| > 0 {
      if Grammar.AreItems(bs, items) {
        var n :| 0 <= n <= |bs| && Grammar.IsValue(bs[..n], items[0]) && Grammar.AreItems(bs[n..], items[1..]);
        ValueExact(bs[..n], items[0]);
        ItemsExact(bs[n..], items[1..]);
        assert bs == bs[..n] + bs[n..];
      }
      if bs == Items(items) {
        var n := |ValueBytes(items[0])|;
        assert bs[..n] == ValueBytes(items[0]) && bs[n..] == Items(items[1..]);
        ValueExact(bs[..n], items[0]);
        ItemsExact(bs[n..], items[1..]);
      }
    }
  }

  /** Only objects with their traits written in full are read, and none that writes itself; only arrays and texts written in full. */
  lemma HeadersRead(buf: seq<byte>, pos: nat)
    ensures DecodeObject(buf, pos).Ok? ==> DecodeU29(buf, pos).Ok? && DecodeU29(buf, pos).value.value % 8 == 3
    ensures DecodeArray(buf, pos).Ok? ==> DecodeU29(buf, pos).Ok? && DecodeU29(buf, pos).value.value % 2 == 1
    ensures DecodeRawString(buf, pos).Ok? <==> DecodeU29(buf, pos).Ok? && DecodeU29(buf, pos).value.value % 2 == 1
  {
    hide DecodeU29, DecodeNames, DecodeSealed, DecodeMembers, DecodeItems, SkipAssociative;
    if DecodeU29(buf, pos).Ok? {
      FlagBits(DecodeU29(buf, pos).value.value);
    }
  }

  lemma FlagBits(flags: nat)
    ensures flags % 2 == 1 && flags % 4 != 1 && flags / 4 % 2 == 0 ==> flags % 8 == 3
  {
    if flags % 2 == 1 && flags % 4 != 1 && flags / 4 % 2 == 0 {
      var high, low := flags / 4 / 2, flags % 4;
      assert flags == 8 * high + low;
      OddPart(4 * high, low);
    }
  }

  lemma OddPart(n: nat, low: nat)
    requires low < 4 && (2 * n + low) % 2 == 1 && low != 1
    ensures low == 3
  {
    assert low == 0 ==> 2 * n + low == 2 * n;
    assert low == 2 ==> 2 * n + low == 2 * (n + 1);
  }

  /** A text is read as long as its header says, or as far as the buffer goes; reading goes on behind its announced end in both cases. */
  lemma StringRead(buf: seq<byte>, pos: nat, n: nat, length: nat)
    requires pos <= n <= |buf| && Notation.IsU29(buf[pos..n], 2 * length + 1)
    ensures DecodeRawString(buf, pos).Ok?
    ensures var (s, next) := DecodeRawString(buf, pos).value;
            && next == n + length && |s| <= length && n + |s| <= |buf| && s == buf[n..n + |s|]
            && (|s| < length ==> n + |s| == |buf|)
  {
    hide DecodeU29, U29.U29, Notation.IsU29;
    LayoutExact(buf[pos..n], 2 * length + 1);
    RoundTrip(2 * length + 1, buf, pos);
  }

  /** What a document is written as, if its lengths fit: the bytes the grammar has for it, and no others. */
  lemma EncodedExactly(document: Doc, bytes: seq<byte>)
    requires SizedFields(document)
    ensures EncodeAmf3(document) == Ok(bytes) <==> Grammar.IsObject(bytes, document)
  {
    hide ObjectBytes, Grammar.IsObject, SizedFields;
    ObjectExact(bytes, document);
  }

  // ---------------------------------------------------------------------------
  // The encoder as it runs
  // ---------------------------------------------------------------------------

  method WriteRawString(s: Str, wb: WriteBuffer)
    requires wb.Valid()
    modifies wb, wb.data
    ensures wb.Valid() && (wb.data == old(wb.data) || fresh(wb.data))
    ensures wb.Written() == old(wb.Written()) + RawString(s)
  {
    hide InlineU29, WriteBuffer.Written;
    ghost var before := wb.Written();
    wb.WriteU29(2 * |s| + 1);
    wb.WriteUtf8(s);
    assert before + InlineU29(2 * |s| + 1) + s == before + RawString(s);
  }

  method WriteNumber(n: JsNumber, wb: WriteBuffer)
    requires wb.Valid()
    modifies wb, wb.data
    ensures wb.Valid() && (wb.data == old(wb.data) || fresh(wb.data))
    ensures wb.Written() == old(wb.Written()) + NumberBytes(n)
  {
    hide InlineU29, SafeInteger, DoubleLE, Reversed, WriteBuffer.Written;
    ghost var before := wb.Written();
    if IsInt29(n) {
      wb.WriteByte(INTEGER_MARKER);
      wb.WriteU29(Unsigned29(SafeInteger(n).value));
    } else {
      wb.WriteByte(DOUBLE_MARKER);
      wb.WriteDoubleBE(n);
    }
    assert wb.Written() == before + NumberBytes(n);
  }

  method WriteValue(v: Value, wb: WriteBuffer)
    requires wb.Valid()
    modifies wb, wb.data
    ensures wb.Valid() && (wb.data == old(wb.data) || fresh(wb.data))
    ensures wb.Written() == old(wb.Written()) + ValueBytes(v)
    decreases v, 1
  {
    hide InlineU29, NumberBytes, RawString, WriteBuffer.Written, Items, ObjectBytes;
    ghost var before := wb.Written();
    match v
    case Null => wb.WriteByte(NULL_MARKER);
    case Boolean(b) => wb.WriteByte(if b then TRUE_MARKER else FALSE_MARKER);
    case Numeric(n) => WriteNumber(n, wb);
    case Text(s) =>
      wb.WriteByte(STRING_MARKER);
      WriteRawString(s, wb);
      assert before + [STRING_MARKER] + RawString(s) == before + ValueBytes(v);
    case List(items) =>
      wb.WriteByte(ARRAY_MARKER);
      wb.WriteU29(2 * |items| + 1);
      wb.WriteByte(EMPTY_STRING);
      WriteItems(items, wb);
      assert before + [ARRAY_MARKER] + InlineU29(2 * |items| + 1) + [EMPTY_STRING] + Items(items) == before + ValueBytes(v);
    case Object(fields) => WriteObject(fields, wb);
  }

  method WriteItems(items: seq<Value>, wb: WriteBuffer)
    requires wb.Valid()
    modifies wb, wb.data
    ensures wb.Valid() && (wb.data == old(wb.data) || fresh(wb.data))
    ensures wb.Written() == old(wb.Written()) + Items(items)
    decreases items, 0
  {
    hide ValueBytes, WriteBuffer.Written, Items;
    ghost var before := wb.Written();
    NothingWritten();
    assert before + [] == before;
    for i := 0 to |items|
      invariant wb.Valid() && (wb.data == old(wb.data) || fresh(wb.data))
      invariant wb.Written() == before + Items(items[..i])
    {
      ItemsAppend(items[..i], items[i]);
      assert items[..i + 1] == items[..i] + [items[i]];
      WriteValue(items[i], wb);
      assert before + Items(items[..i]) + ValueBytes(items[i]) == before + Items(items[..i + 1]);
    }
    assert items[..|items|] == items;
  }

  lemma NothingWritten()
    ensures Items([]) == [] && Members([]) == []
  {
  }

  lemma {:induction false} ItemsAppend(items: seq<Value>, v: Value)
    ensures Items(items + [v]) == Items(items) + ValueBytes(v)
    decreases |items|
  {
    hide ValueBytes;
    if |items| == 0 {
      assert items + [v] == [v] && [v][1..] == [];
      assert ValueBytes(v) + [] == ValueBytes(v);
    } else {
      ItemsAppend(items[1..], v);
      assert (items + [v])[1..] == items[1..] + [v];
    }
  }

  lemma {:induction false} MembersAppend(fields: seq<Field>, f: Field)
    ensures Members(fields + [f]) == Members(fields) + (RawString(f.key) + ValueBytes(f.value))
    decreases |fields|
  {
    hide ValueBytes, RawString;
    if |fields| == 0 {
      assert fields + [f] == [f] && [f][1..] == [];
      assert (RawString(f.key) + ValueBytes(f.value)) + [] == RawString(f.key) + ValueBytes(f.value);
    } else {
      MembersAppend(fields[1..], f);
      assert (fields + [f])[1..] == fields[1..] + [f];
    }
  }

  method WriteObject(fields: seq<Field>, wb: WriteBuffer)
    requires wb.Valid()
    modifies wb, wb.data
    ensures wb.Valid() && (wb.data == old(wb.data) || fresh(wb.data))
    ensures wb.Written() == old(wb.Written()) + ObjectBytes(fields)
    decreases fields, 1
  {
    hide ValueBytes, RawString, WriteBuffer.Written, Members;
    ghost var before, head := wb.Written(), [OBJECT_MARKER, DYNAMIC_OBJECT_TRAIT, EMPTY_STRING];
    wb.WriteByte(OBJECT_MARKER);
    wb.WriteU29(0x0b);
    wb.WriteByte(EMPTY_STRING);
    NothingWritten();
    assert wb.Written() == before + head + [];
    for i := 0 to |fields|
      invariant wb.Valid() && (wb.data == old(wb.data) || fresh(wb.data))
      invariant wb.Written() == before + head + Members(fields[..i])
    {
      MembersAppend(fields[..i], fields[i]);
      assert fields[..i + 1] == fields[..i] + [fields[i]];
      WriteRawString(fields[i].key, wb);
      WriteValue(fields[i].value, wb);
      assert before + head + Members(fields[..i]) + RawString(fields[i].key) + ValueBytes(fields[i].value) == before + head + Members(fields[..i + 1]);
    }
    assert fields[..|fields|] == fields;
    wb.WriteByte(EMPTY_STRING);
    assert before + head + Members(fields) + [EMPTY_STRING] == before + ObjectBytes(fields);
  }

  /** `Amf3DocumentEncoder.encode`. */
  method Encode(document: Doc) returns (bytes: seq<byte>)
    ensures bytes == ObjectBytes(document)
    ensures SizedFields(document) ==> Grammar.IsObject(bytes, document)
  {
    hide ObjectBytes, WriteBuffer.Written, Grammar.IsObject, SizedFields;
    if SizedFields(document) {
      EncodedExactly(document, ObjectBytes(document));
    }
    var wb := new WriteBuffer(512);
    WriteObject(document, wb);
    assert [] + ObjectBytes(document) == ObjectBytes(document);
    bytes := wb.ToBuffer();
  }

  // ---------------------------------------------------------------------------
  // The decoder as it runs
  // ---------------------------------------------------------------------------

  method DecodeValueAt(buf: seq<byte>, offset: nat) returns (r: Result<(Value, nat)>)
    ensures r == DecodeValue(buf, offset)
    decreases Left(buf, offset), 0
  {
    hide DecodeArray, DecodeObject, DecodeU29, DecodeRawString, NumberOf, FromDoubleLE;
    if offset < |buf| && buf[offset] == ARRAY_MARKER {
      r := DecodeArrayAt(buf, offset + 1);
    } else if offset < |buf| && buf[offset] == OBJECT_MARKER {
      r := DecodeObjectAt(buf, offset + 1);
    } else {
      r := DecodeValue(buf, offset);
    }
  }

  /** Skips the associative section, then reads the dense elements in a loop. */
  method DecodeArrayAt(buf: seq<byte>, offset: nat) returns (r: Result<(Value, nat)>)
    ensures r == DecodeArray(buf, offset)
    decreases Left(buf, offset), 3
  {
    hide DecodeValue, DecodeU29, DecodeRawString;
    var header := DecodeU29(buf, offset);
    if header.Err? {
      return Err(header.error);
    }
    if header.value.value % 2 == 0 {
      return Err("array references are not supported");
    }
    var pos := offset + header.value.bytesRead;
    ghost var start := pos;
    while true
      invariant offset < pos && SkipAssociative(buf, start) == SkipAssociative(buf, pos)
      decreases Left(buf, pos)
    {
      var key := DecodeRawString(buf, pos);
      if key.Err? {
        return Err(key.error);
      }
      pos := key.value.1;
      if |key.value.0| == 0 {
        break;
      }
      var skipped := DecodeValueAt(buf, pos);
      if skipped.Err? {
        return Err(skipped.error);
      }
      pos := skipped.value.1;
    }
    var items: seq<Value> := [];
    ghost var dense := pos;
    var denseCount := header.value.value / 2;
    for i := 0 to denseCount
      invariant offset < pos && DecodeItems(buf, dense, denseCount, []) == DecodeItems(buf, pos, denseCount - i, items)
    {
      var v := DecodeValueAt(buf, pos);
      if v.Err? {
        return Err(v.error);
      }
      items := items + [v.value.0];
      pos := v.value.1;
    }
    return Ok((List(items), pos));
  }

  /** Three loops: sealed names, sealed values, and key and value pairs up to the empty key. */
  method DecodeObjectAt(buf: seq<byte>, offset: nat) returns (r: Result<(Value, nat)>)
    ensures r == DecodeObject(buf, offset)
    decreases Left(buf, offset), 3
  {
    hide DecodeValue, DecodeU29, DecodeRawString;
    var flags := DecodeU29(buf, offset);
    if flags.Err? {
      return Err(flags.error);
    }
    var bits := flags.value.value;
    if bits % 2 == 0 {
      return Err("object references are not supported");
    }
    if bits % 4 == 1 {
      return Err("traits references are not supported");
    }
    if bits / 4 % 2 == 1 {
      return Err("externalizable objects are not supported");
    }
    var className := DecodeRawString(buf, offset + flags.value.bytesRead);
    if className.Err? {
      return Err(className.error);
    }
    var pos, names, fields: seq<Field> := className.value.1, [], [];
    ghost var start := pos;
    var sealedCount := bits / 16;
    for i := 0 to sealedCount
      invariant offset < pos && DecodeNames(buf, start, sealedCount, []) == DecodeNames(buf, pos, sealedCount - i, names)
    {
      var name := DecodeRawString(buf, pos);
      if name.Err? {
        return Err(name.error);
      }
      names := names + [name.value.0];
      pos := name.value.1;
    }
    ghost var values := pos;
    assert names[0..] == names;
    for i := 0 to |names|
      invariant offset < pos && DecodeSealed(buf, values, names, []) == DecodeSealed(buf, pos, names[i..], fields)
    {
      assert names[i..][0] == names[i] && names[i..][1..] == names[i + 1..];
      var v := DecodeValueAt(buf, pos);
      if v.Err? {
        return Err(v.error);
      }
      fields := Put(fields, names[i], v.value.0);
      pos := v.value.1;
    }
    if bits / 8 % 2 == 0 {
      return Ok((Object(fields), pos));
    }
    ghost var dynamic, own := pos, fields;
    while true
      invariant offset < pos && DecodeMembers(buf, dynamic, own) == DecodeMembers(buf, pos, fields)
      decreases Left(buf, pos)
    {
      var key := DecodeRawString(buf, pos);
      if key.Err? {
        return Err(key.error);
      }
      pos := key.value.1;
      if |key.value.0| == 0 {
        return Ok((Object(fields), pos));
      }
      var v := DecodeValueAt(buf, pos);
      if v.Err? {
        return Err(v.error);
      }
      fields := Put(fields, key.value.0, v.value.0);
      pos := v.value.1;
    }
  }
}
