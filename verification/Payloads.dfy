/**
 Payloads of the operations: fixed fields, a U29 length, that many bytes, and zeros up to
 a multiple of four. The index payload has a second, older layout without the unique byte.
 */
module Payloads {
  import opened Bytes
  import opened Records
  import opened Documents
  import opened U29

  /** Fixed bytes, then the length-prefixed body, then padding. */
  function Framed(fixed: seq<byte>, body: seq<byte>): (payload: seq<byte>)
    requires |body| <= U29_MAX_VALUE
    ensures |payload| <= |fixed| + |body| + 7
  {
    PadTo4(fixed + U29.U29(|body|) + body)
  }

  /** Fills a zeroed buffer of the aligned size piece by piece, as every payload encoder does. */
  method EncodeFramed(fixed: seq<byte>, body: seq<byte>) returns (payload: Result<seq<byte>>)
    ensures payload.Ok? <==> |body| <= U29_MAX_VALUE
    ensures payload.Ok? ==> payload.value == Framed(fixed, body)
  {
    hide U29.U29, AlignTo4Bytes;
    var length := EncodeU29(|body|);
    if length.Err? {
      return Err(length.error);
    }
    ghost var unaligned := fixed + length.value + body;
    var buffer := new byte[AlignTo4Bytes(|fixed| + |length.value| + |body|)](_ => 0);
    Copy(buffer, fixed, 0);
    assert buffer[..] == fixed + Zeros(buffer.Length - |fixed|);
    Copy(buffer, length.value, |fixed|);
    assert buffer[..] == fixed + length.value + Zeros(buffer.Length - |fixed + length.value|);
    Copy(buffer, body, |fixed| + |length.value|);
    assert buffer[..] == unaligned + Zeros(buffer.Length - |unaligned|);
    payload := Ok(buffer[..]);
  }

  function ReadFramed(payload: seq<byte>, offset: nat): (body: Result<seq<byte>>)
  {
    var length :- DecodeU29(payload, offset);
    var start := offset + length.bytesRead;
    var end := start + length.value;
    if end > |payload| then Err("body exceeds payload length")
    else if !AllZero(payload[end..]) then Err("non-zero padding")
    else Ok(payload[start..end])
  }

  lemma FramedRoundTrip(fixed: seq<byte>, body: seq<byte>)
    requires |body| <= U29_MAX_VALUE
    ensures Framed(fixed, body)[..|fixed|] == fixed
    ensures ReadFramed(Framed(fixed, body), |fixed|) == Ok(body)
  {
    hide U29.U29, DecodeU29;
    var u := U29.U29(|body|);
    var unaligned := fixed + u + body;
    var payload := PadTo4(unaligned);
    var start, end := |fixed| + |u|, |unaligned|;
    assert payload[..end] == unaligned;
    assert payload[|fixed|..start] == payload[..end][|fixed|..start] == u;
    RoundTrip(|body|, payload, |fixed|);
    assert payload[start..end] == payload[..end][start..end] == body;
  }

  // ---------------------------------------------------------------------------
  // put1 and del1
  // ---------------------------------------------------------------------------

  datatype PutPayload = PutPayload(collectionId: seq<byte>, documentId: seq<byte>, document: seq<byte>)

  function DecodePut(payload: seq<byte>): Result<PutPayload> {
    if |payload| < 16 then Err("Document identifier must be exactly 12 bytes.")
    else
      var document :- ReadFramed(payload, 16);
      Ok(PutPayload(payload[..4], payload[4..16], document))
  }

  lemma PutRoundTrip(collectionId: seq<byte>, documentId: seq<byte>, document: seq<byte>)
    requires |collectionId| == 4 && |documentId| == 12 && |document| <= U29_MAX_VALUE
    ensures DecodePut(Framed(collectionId + documentId, document)) == Ok(PutPayload(collectionId, documentId, document))
  {
    hide ReadFramed;
    var payload := Framed(collectionId + documentId, document);
    FramedRoundTrip(collectionId + documentId, document);
    assert payload[..4] == payload[..16][..4] && payload[4..16] == payload[..16][4..];
  }

  // ---------------------------------------------------------------------------
  // idx1, in both layouts
  // ---------------------------------------------------------------------------

  datatype IndexKind = Strings | Numbers

  function KindByte(kind: IndexKind): byte {
    match kind case Strings => 1 case Numbers => 2
  }

  datatype IndexPayload = IndexPayload(collectionId: seq<byte>, field: Str, kind: IndexKind, unique: bool)

  function CurrentIndexPayload(p: IndexPayload): seq<byte>
    requires |p.field| <= U29_MAX_VALUE
  {
    Framed(p.collectionId + [KindByte(p.kind), if p.unique then 1 else 0], p.field)
  }

  /** The layout before the unique byte existed. */
  function LegacyIndexPayload(collectionId: seq<byte>, field: Str, kind: IndexKind): seq<byte>
    requires |field| <= U29_MAX_VALUE
  {
    Framed(collectionId + [KindByte(kind)], field)
  }

  /** The body, nothing if this cannot be the layout, or the error of an unreadable length. */
  function TryFramed(payload: seq<byte>, offset: nat): Result<Option<seq<byte>>> {
    var length :- DecodeU29(payload, offset);
    var body := ReadFramed(payload, offset);
    Ok(if body.Ok? then Some(body.value) else None)
  }

  function DecodeCreateIndex(payload: seq<byte>): Result<IndexPayload> {
    if |payload| < 6 then Err("The value of \"offset\" is out of range.")
    else if payload[4] != 1 && payload[4] != 2 then Err("Invalid create index operation: unknown index type.")
    else
      var collectionId, kind := payload[..4], if payload[4] == 1 then Strings else Numbers;
      var current :- if payload[5] <= 1 then TryFramed(payload, 6) else Ok(None);
      if current.Some? then Ok(IndexPayload(collectionId, current.value, kind, payload[5] == 1))
      else
        var legacy :- TryFramed(payload, 5);
        if legacy.Some? then Ok(IndexPayload(collectionId, legacy.value, kind, false))
        else Err("Invalid create index operation: unrecognized payload layout.")
  }

  lemma CurrentIndexRoundTrip(p: IndexPayload)
    requires |p.collectionId| == 4 && |p.field| <= U29_MAX_VALUE
    ensures DecodeCreateIndex(CurrentIndexPayload(p)) == Ok(p)
  {
    hide ReadFramed, DecodeU29;
    var fixed := p.collectionId + [KindByte(p.kind), if p.unique then 1 else 0];
    var payload := Framed(fixed, p.field);
    FramedRoundTrip(fixed, p.field);
    assert payload[..6] == fixed;
    assert payload[4] == payload[..6][4] && payload[5] == payload[..6][5] && payload[..4] == payload[..6][..4];
    ReadFramedLength(payload, 6);
  }

  lemma ReadFramedLength(payload: seq<byte>, offset: nat)
    requires ReadFramed(payload, offset).Ok?
    ensures DecodeU29(payload, offset).Ok?
  {
  }

  /** The field names whose old layout reads as a current one: a single byte 0x00, 0x01 or 0x80. */
  predicate Collides(field: Str) {
    field == [0x00] || field == [0x01] || field == [0x80]
  }

  /**
   An old record is decoded as it was meant exactly when its field is none of three one-byte
   strings; of those, 0x80 is no UTF-8 text.
   */
  lemma LegacyIndexRoundTrip(collectionId: seq<byte>, field: Str, kind: IndexKind)
    requires |collectionId| == 4 && |field| <= U29_MAX_VALUE
    ensures DecodeCreateIndex(LegacyIndexPayload(collectionId, field, kind)) == Ok(IndexPayload(collectionId, field, kind, false))
       <==> !Collides(field)
  {
    var fixed := collectionId + [KindByte(kind)];
    var payload := Framed(fixed, field);
    LegacyLayout(collectionId, field, kind);
    if |field| == 0 {
      LegacyEmpty(payload);
    } else if |field| == 1 {
      LegacyOne(payload, field);
    } else {
      hide ReadFramed, DecodeU29, Framed;
      ReadFramedLength(payload, 5);
    }
  }

  lemma LegacyLayout(collectionId: seq<byte>, field: Str, kind: IndexKind)
    requires |collectionId| == 4 && |field| <= U29_MAX_VALUE
    ensures var payload := LegacyIndexPayload(collectionId, field, kind);
            && |payload| >= 8 && payload[..4] == collectionId && payload[4] == KindByte(kind)
            && ReadFramed(payload, 5) == Ok(field)
            && (|field| == 0 ==> payload[5..] == [0, 0, 0])
            && (|field| == 1 ==> payload[5..] == [1, field[0], 0])
            && (|field| >= 2 ==> payload[5] > 1)
  {
    hide ReadFramed;
    var fixed := collectionId + [KindByte(kind)];
    var payload := Framed(fixed, field);
    FramedRoundTrip(fixed, field);
    assert payload[..4] == payload[..5][..4] && payload[4] == payload[..5][4];
  }

  lemma LegacyEmpty(payload: seq<byte>)
    requires |payload| == 8 && payload[5..] == [0, 0, 0]
    ensures TryFramed(payload, 6) == Ok(Some([]))
  {
    assert payload[5] == payload[5..][0] && payload[6] == payload[5..][1] && payload[7] == payload[5..][2];
    assert DecodeU29(payload, 6) == Ok(Decoded(0, 1));
    assert payload[7..] == [0] && payload[7..7] == [];
  }

  lemma LegacyOne(payload: seq<byte>, field: Str)
    requires |field| == 1 && |payload| == 8 && payload[5..] == [1, field[0], 0]
    ensures var c := TryFramed(payload, 6);
            c.Ok? && (c.value.Some? <==> Collides(field))
  {
    assert payload[5] == payload[5..][0] && payload[6] == payload[5..][1] && payload[7] == payload[5..][2];
    var b: int := field[0];
    if b < 0x80 {
      assert DecodeU29(payload, 6) == Ok(Decoded(b, 1));
      if b == 0 {
        assert payload[7..] == [0];
      } else if b == 1 {
        assert payload[8..] == [];
      }
    } else {
      assert DecodeU29(payload, 6) == DecodeFrom(payload, 6, 1, b - 0x80) == Ok(Decoded((b - 0x80) * 0x80, 2));
      if b == 0x80 {
        assert payload[8..] == [];
      }
    }
  }
}
