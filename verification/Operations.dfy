/** The operations of the log and their records. The document encoder is a parameter. */
module Operations {
  import opened Bytes
  import opened Records
  import opened Documents
  import opened U29
  import opened Payloads

  /** A document encoder; a failed encoding or decoding is an exception of the source. */
  datatype Encoder = Encoder(encode: Doc -> Result<seq<byte>>, decode: seq<byte> -> Result<Doc>)

  /** The encoder can store this document and read it back. */
  predicate Stores(enc: Encoder, doc: Doc) {
    var e := enc.encode(doc);
    e.Ok? && |e.value| <= U29_MAX_VALUE && enc.decode(e.value) == Ok(doc)
  }

  type CollectionId = seq<byte>

  datatype Operation =
    | NewCollection(collectionId: CollectionId, name: Str)
    | DropCollection(collectionId: CollectionId)
    | CreateIndex(collectionId: CollectionId, field: Str, kind: IndexKind, unique: bool)
    | DropIndex(collectionId: CollectionId, field: Str)
    | PutDocument(collectionId: CollectionId, id: Str, document: Doc)
    | DeleteDocument(collectionId: CollectionId, id: Str)
    | TransactionBegin
    | TransactionCommit
    | Hole

  // "ncl1", "dco1", "idx1", "dix1", "put1", "del1", "txnb", "txnc", "hol0"
  const NEW_COLLECTION: seq<byte> := [0x6e, 0x63, 0x6c, 0x31]
  const DROP_COLLECTION: seq<byte> := [0x64, 0x63, 0x6f, 0x31]
  const CREATE_INDEX: seq<byte> := [0x69, 0x64, 0x78, 0x31]
  const DROP_INDEX: seq<byte> := [0x64, 0x69, 0x78, 0x31]
  const PUT_DOCUMENT: seq<byte> := [0x70, 0x75, 0x74, 0x31]
  const DELETE_DOCUMENT: seq<byte> := [0x64, 0x65, 0x6c, 0x31]
  const TRANSACTION_BEGIN: seq<byte> := [0x74, 0x78, 0x6e, 0x62]
  const TRANSACTION_COMMIT: seq<byte> := [0x74, 0x78, 0x6e, 0x63]
  const HOLE: seq<byte> := [0x68, 0x6f, 0x6c, 0x30]

  function Identifier(op: Operation): seq<byte> {
    match op
    case NewCollection(_, _) => NEW_COLLECTION
    case DropCollection(_) => DROP_COLLECTION
    case CreateIndex(_, _, _, _) => CREATE_INDEX
    case DropIndex(_, _) => DROP_INDEX
    case PutDocument(_, _, _) => PUT_DOCUMENT
    case DeleteDocument(_, _) => DELETE_DOCUMENT
    case TransactionBegin => TRANSACTION_BEGIN
    case TransactionCommit => TRANSACTION_COMMIT
    case Hole => HOLE
  }

  function EncodeBody(fixed: seq<byte>, body: seq<byte>): Result<seq<byte>> {
    if |body| > U29_MAX_VALUE then Err("U29 value must be an unsigned 29-bit integer.") else Ok(Framed(fixed, body))
  }

  function EncodePayload(enc: Encoder, op: Operation): Result<seq<byte>> {
    match op
    case NewCollection(collectionId, name) =>
      if |collectionId| != 4 then Err("Collection identifier must be exactly 4 bytes.") else EncodeBody(collectionId, name)
    case DropCollection(collectionId) =>
      if |collectionId| != 4 then Err("Collection identifier must be exactly 4 bytes.") else Ok(collectionId)
    case CreateIndex(collectionId, field, kind, unique) =>
      if |collectionId| != 4 then Err("Collection identifier must be exactly 4 bytes.")
      else EncodeBody(collectionId + [KindByte(kind), if unique then 1 else 0], field)
    case DropIndex(collectionId, field) =>
      if |collectionId| != 4 then Err("Collection identifier must be exactly 4 bytes.") else EncodeBody(collectionId, field)
    case PutDocument(collectionId, id, document) =>
      if |collectionId| != 4 || !IsObjectIdHex(id) then Err("invalid identifier")
      else
        var bytes :- enc.encode(document);
        EncodeBody(collectionId + Unhex(id), bytes)
    case DeleteDocument(collectionId, id) =>
      if |collectionId| != 4 || !IsObjectIdHex(id) then Err("invalid identifier") else Ok(collectionId + Unhex(id))
    case TransactionBegin => Ok([])
    case TransactionCommit => Ok([])
    case Hole => Ok([])
  }

  /** The record of an operation, or the error thrown before anything is appended. */
  function Encode(enc: Encoder, op: Operation): Result<Record> {
    var payload :- EncodePayload(enc, op);
    Ok(Record(Identifier(op), payload))
  }

  function DecodeNamed(payload: seq<byte>): Result<(CollectionId, Str)> {
    if |payload| < 4 then Err("Collection identifier must be exactly 4 bytes.")
    else
      var name :- ReadFramed(payload, 4);
      Ok((payload[..4], name))
  }

  function Decode(enc: Encoder, r: Record): Result<Operation> {
    var payload := r.payload;
    if r.identifier == NEW_COLLECTION then
      var p :- DecodeNamed(payload);
      Ok(NewCollection(p.0, p.1))
    else if r.identifier == PUT_DOCUMENT then
      var p :- DecodePut(payload);
      var document :- enc.decode(p.document);
      Ok(PutDocument(p.collectionId, Hex(p.documentId), document))
    else if r.identifier == CREATE_INDEX then
      var p :- DecodeCreateIndex(payload);
      Ok(CreateIndex(p.collectionId, p.field, p.kind, p.unique))
    else if r.identifier == DELETE_DOCUMENT then
      if |payload| != 16 then Err("Invalid delete document operation: payload must be 16 bytes.")
      else Ok(DeleteDocument(payload[..4], Hex(payload[4..])))
    else if r.identifier == DROP_COLLECTION then
      if |payload| != 4 then Err("Invalid drop collection operation: payload must be 4 bytes.")
      else Ok(DropCollection(payload))
    else if r.identifier == DROP_INDEX then
      var p :- DecodeNamed(payload);
      Ok(DropIndex(p.0, p.1))
    else if r.identifier == TRANSACTION_BEGIN then Ok(TransactionBegin)
    else if r.identifier == TRANSACTION_COMMIT then Ok(TransactionCommit)
    else if r.identifier == HOLE then Ok(Hole)
    else Err("Unsupported operation identifier.")
  }

  /** What the chain of comparisons in `Decode` relies on. */
  lemma IdentifiersDiffer(op: Operation)
    ensures Identifier(op) == NEW_COLLECTION <==> op.NewCollection?
    ensures Identifier(op) == PUT_DOCUMENT <==> op.PutDocument?
    ensures Identifier(op) == CREATE_INDEX <==> op.CreateIndex?
    ensures Identifier(op) == DELETE_DOCUMENT <==> op.DeleteDocument?
    ensures Identifier(op) == DROP_COLLECTION <==> op.DropCollection?
    ensures Identifier(op) == DROP_INDEX <==> op.DropIndex?
    ensures Identifier(op) == TRANSACTION_BEGIN <==> op.TransactionBegin?
    ensures Identifier(op) == TRANSACTION_COMMIT <==> op.TransactionCommit?
    ensures Identifier(op) == HOLE <==> op.Hole?
    ensures |Identifier(op)| == 4
  {
    var i := Identifier(op);
    assert (i[0] == NEW_COLLECTION[0] && i[1] == NEW_COLLECTION[1]) || i != NEW_COLLECTION;
    assert i[0] == PUT_DOCUMENT[0] || i != PUT_DOCUMENT;
    assert i[0] == CREATE_INDEX[0] || i != CREATE_INDEX;
    assert (i[0] == DELETE_DOCUMENT[0] && i[1] == DELETE_DOCUMENT[1]) || i != DELETE_DOCUMENT;
    assert (i[0] == DROP_COLLECTION[0] && i[1] == DROP_COLLECTION[1]) || i != DROP_COLLECTION;
    assert (i[0] == DROP_INDEX[0] && i[1] == DROP_INDEX[1]) || i != DROP_INDEX;
    assert (i[0] == TRANSACTION_BEGIN[0] && i[3] == TRANSACTION_BEGIN[3]) || i != TRANSACTION_BEGIN;
    assert (i[0] == TRANSACTION_COMMIT[0] && i[3] == TRANSACTION_COMMIT[3]) || i != TRANSACTION_COMMIT;
    assert i[0] == HOLE[0] || i != HOLE;
  }

  lemma NamedRoundTrip(collectionId: CollectionId, name: Str)
    requires |collectionId| == 4 && |name| <= U29_MAX_VALUE
    ensures DecodeNamed(Framed(collectionId, name)) == Ok((collectionId, name))
  {
    hide ReadFramed;
    FramedRoundTrip(collectionId, name);
  }

  /** Every operation that can be encoded is read back from its record. */
  lemma OperationRoundTrip(enc: Encoder, op: Operation)
    requires Encode(enc, op).Ok? && (op.PutDocument? ==> Stores(enc, op.document))
    ensures Encode(enc, op).value.Valid()
    ensures Decode(enc, Encode(enc, op).value) == Ok(op)
  {
    hide Framed, DecodeNamed, DecodeCreateIndex, DecodePut, IsObjectIdHex, Identifier;
    IdentifiersDiffer(op);
    match op
    case NewCollection(collectionId, name) => NamedRoundTrip(collectionId, name);
    case DropIndex(collectionId, field) => NamedRoundTrip(collectionId, field);
    case CreateIndex(collectionId, field, kind, unique) => CurrentIndexRoundTrip(IndexPayload(collectionId, field, kind, unique));
      assert CurrentIndexPayload(IndexPayload(collectionId, field, kind, unique)) == Framed(collectionId + [KindByte(kind), if unique then 1 else 0], field);
    case PutDocument(collectionId, id, document) => PutRoundTrip(collectionId, UnhexId(id), enc.encode(document).value);
    case DeleteDocument(collectionId, id) =>
      var payload := collectionId + UnhexId(id);
      assert payload[..4] == collectionId && payload[4..] == UnhexId(id);
    case _ =>
  }

  function UnhexId(id: Str): (bytes: seq<byte>)
    requires IsObjectIdHex(id)
    ensures |bytes| == 12 && Hex(bytes) == id && bytes == Unhex(id)
  {
    Unhex(id)
  }
}
