/**
 The write calls of the API as the live database performs them: check, append, then change
 the memory. Each yields the records it appends and the state it leaves.
 */
module Calls {
  import opened Bytes
  import opened Records
  import opened LogScan
  import opened Documents
  import opened U29
  import opened Payloads
  import opened Operations
  import opened DatabaseState

  /** A document to be written under an id. */
  datatype Write = Write(id: Str, document: Doc)

  datatype Effect = Effect(records: seq<ValidRecord>, next: State, thrown: bool)

  function Unchanged(st: State): Effect {
    Effect([], st, false)
  }

  function Refused(st: State): Effect {
    Effect([], st, true)
  }

  // ---------------------------------------------------------------------------
  // Unique constraints, checked before anything is appended
  // ---------------------------------------------------------------------------

  /** A document other than the excluded one holds the value. */
  predicate Owned(index: Index, key: Key, exclude: Option<Str>) {
    exists id :: id in index.postings && index.postings[id].key == key && exclude != Some(id)
  }

  /** `assertUnique` does not throw. */
  predicate Free(c: Collection, document: Doc, exclude: Option<Str>) {
    forall f :: f in c.indexes && c.indexes[f].unique ==>
      var key := KeyOf(c.indexes[f].kind, f, document);
      key.None? || !Owned(c.indexes[f], key.value, exclude)
  }

  predicate FieldFree(index: Index, field: Str, writes: seq<Write>) {
    && (forall i :: 0 <= i < |writes| ==>
          var key := KeyOf(index.kind, field, writes[i].document);
          key.None? || !Owned(index, key.value, Some(writes[i].id)))
    && (forall i, j :: 0 <= i < j < |writes| && writes[i].id != writes[j].id ==>
          var key := KeyOf(index.kind, field, writes[i].document);
          key.None? || key != KeyOf(index.kind, field, writes[j].document))
  }

  /** `assertUniqueBatch` does not throw. */
  predicate BatchFree(c: Collection, writes: seq<Write>) {
    forall f :: f in c.indexes && c.indexes[f].unique ==> FieldFree(c.indexes[f], f, writes)
  }

  // ---------------------------------------------------------------------------
  // Appending
  // ---------------------------------------------------------------------------

  lemma EncodeValid(enc: Encoder, op: Operation)
    requires Encode(enc, op).Ok?
    ensures Encode(enc, op).value.Valid() && Encode(enc, op).value.identifier == Identifier(op)
  {
    hide Framed, Identifier, Unhex;
    IdentifiersDiffer(op);
  }

  /** The records appended before an operation that cannot be encoded throws. */
  function RecordsOf(enc: Encoder, ops: seq<Operation>): (rs: seq<ValidRecord>)
    ensures |rs| <= |ops|
    ensures forall i :: 0 <= i < |rs| ==> Encode(enc, ops[i]) == Ok(rs[i])
  {
    if |ops| == 0 then []
    else
      var first := Encode(enc, ops[0]);
      if first.Err? then []
      else
        EncodeValid(enc, ops[0]);
        var rest := RecordsOf(enc, ops[1..]);
        assert forall i :: 1 <= i < 1 + |rest| ==> ops[i] == ops[1..][i - 1];
        [first.value] + rest
  }

  function Single(enc: Encoder, st: State, op: Operation, next: State): Effect {
    var records := RecordsOf(enc, [op]);
    if |records| == 0 then Refused(st) else Effect(records, next, false)
  }

  /** What the live collection does for one appended operation of a batch. */
  function LiveApply(c: Collection, op: Operation, offset: nat): Collection {
    match op
    case PutDocument(_, id, document) => PutInto(c, id, Entry(offset, document))
    case DeleteDocument(_, id) => RemoveFrom(c, id)
    case _ => c
  }

  function LiveBatch(c: Collection, ops: seq<Operation>, ls: seq<Located>): Collection
    requires |ls| == |ops|
  {
    if |ops| == 0 then c
    else LiveApply(LiveBatch(c, ops[..|ops| - 1], ls[..|ls| - 1]), ops[|ops| - 1], ls[|ls| - 1].offset)
  }

  function Envelope(ops: seq<Operation>): (all: seq<Operation>)
    ensures |all| == |ops| + 2
  {
    [TransactionBegin] + ops + [TransactionCommit]
  }

  /** Begin, the operations, commit; then, and only then, the memory changes. */
  function Batch(enc: Encoder, st: State, cid: CollectionId, ops: seq<Operation>, end: nat): Effect
    requires cid in st.collections
  {
    var records := RecordsOf(enc, Envelope(ops));
    if |records| < |ops| + 2 then Effect(records, st, true)
    else
      var ls := Locate(records, end)[1..|ops| + 1];
      Effect(records, WithCollection(st, cid, LiveBatch(st.collections[cid], ops, ls)), false)
  }

  // ---------------------------------------------------------------------------
  // The calls
  // ---------------------------------------------------------------------------

  /** A document to insert, and the id it gets if it brings none. */
  datatype Insert = Insert(document: Doc, freshId: Str)

  /**
   Random identifiers come with the call. An update is any function on documents, or throws;
   the ids of `UpdateMany` and `DeleteMany` are those of the documents a query found.
   */
  datatype Call =
    | OpenCollection(name: Str, newId: CollectionId)
    | InsertOne(cid: CollectionId, insert: Insert)
    | InsertMany(cid: CollectionId, inserts: seq<Insert>)
    | ReplaceOne(cid: CollectionId, id: Str, document: Doc)
    | UpdateOne(cid: CollectionId, id: Str, update: Doc -> Result<Doc>)
    | UpdateMany(cid: CollectionId, ids: seq<Str>, update: Doc -> Result<Doc>)
    | DeleteOne(cid: CollectionId, id: Str)
    | DeleteMany(cid: CollectionId, ids: seq<Str>)
    | MakeIndex(cid: CollectionId, field: Str, kind: IndexKind, unique: bool)
    | RemoveIndex(cid: CollectionId, field: Str)
    | Drop(cid: CollectionId)

  function DocumentId(c: Collection, insert: Insert): Result<Str> {
    match Get(insert.document, ID_FIELD)
    case None => Ok(insert.freshId)
    case Some(Text(id)) =>
      if !IsObjectIdHex(id) then Err("Document _id must be a 24-character lowercase hex string.")
      else if id in c.documents then Err("Cannot insert document: duplicate _id.")
      else Ok(id)
    case _ => Err("Document _id must be a string when provided.")
  }

  function Stored(document: Doc, id: Str): Write {
    Write(id, Put(document, ID_FIELD, Text(id)))
  }

  function PrepareInserts(c: Collection, inserts: seq<Insert>): Result<seq<Write>> {
    if |inserts| == 0 then Ok([])
    else
      var id :- DocumentId(c, inserts[0]);
      var rest :- PrepareInserts(c, inserts[1..]);
      Ok([Stored(inserts[0].document, id)] + rest)
  }

  function PrepareUpdates(c: Collection, ids: seq<Str>, update: Doc -> Result<Doc>): Result<seq<Write>> {
    if |ids| == 0 then Ok([])
    else if ids[0] !in c.documents then PrepareUpdates(c, ids[1..], update)
    else
      var document :- update(c.documents[ids[0]].document);
      var rest :- PrepareUpdates(c, ids[1..], update);
      Ok([Stored(document, ids[0])] + rest)
  }

  predicate DistinctIds(writes: seq<Write>) {
    forall i, j :: 0 <= i < j < |writes| ==> writes[i].id != writes[j].id
  }

  function Puts(cid: CollectionId, writes: seq<Write>): (ops: seq<Operation>)
    ensures |ops| == |writes|
    ensures forall i :: 0 <= i < |ops| ==> ops[i] == PutDocument(cid, writes[i].id, writes[i].document)
  {
    seq(|writes|, i requires 0 <= i < |writes| => PutDocument(cid, writes[i].id, writes[i].document))
  }

  function Deletes(cid: CollectionId, ids: seq<Str>): (ops: seq<Operation>)
    ensures |ops| == |ids|
    ensures forall i :: 0 <= i < |ops| ==> ops[i] == DeleteDocument(cid, ids[i])
  {
    seq(|ids|, i requires 0 <= i < |ids| => DeleteDocument(cid, ids[i]))
  }

  function Existing(c: Collection, ids: seq<Str>): (e: seq<Str>)
    ensures forall id :: id in e ==> id in c.documents
  {
    if |ids| == 0 then []
    else (if ids[0] in c.documents then [ids[0]] else []) + Existing(c, ids[1..])
  }

  function WriteOne(enc: Encoder, st: State, cid: CollectionId, w: Write, exclude: Option<Str>, end: nat): Effect
    requires cid in st.collections
  {
    var c := st.collections[cid];
    if !Free(c, w.document, exclude) then Refused(st)
    else Single(enc, st, PutDocument(cid, w.id, w.document), WithCollection(st, cid, PutInto(c, w.id, Entry(end, w.document))))
  }

  function WriteBatch(enc: Encoder, st: State, cid: CollectionId, writes: seq<Write>, end: nat): Effect
    requires cid in st.collections
  {
    if !BatchFree(st.collections[cid], writes) then Refused(st)
    else if |writes| == 0 then Unchanged(st)
    else Batch(enc, st, cid, Puts(cid, writes), end)
  }

  /** Creates in memory first; appends only if no index of this field and type existed. */
  function MakeIndexEffect(enc: Encoder, st: State, cid: CollectionId, field: Str, kind: IndexKind, unique: bool): Effect
    requires cid in st.collections
  {
    var c := st.collections[cid];
    var existed := field in c.indexes && c.indexes[field].kind == kind;
    match CreateIndexIn(c, field, kind, unique)
    case Err(_) => Refused(st)
    case Ok(d) =>
      var next := WithCollection(st, cid, d);
      if existed then Unchanged(next)
      else
        var records := RecordsOf(enc, [CreateIndex(cid, field, kind, unique)]);
        Effect(records, next, |records| == 0)
  }

  function CollectionOf(call: Call): Option<CollectionId> {
    if call.OpenCollection? then None else Some(call.cid)
  }

  function Perform(enc: Encoder, st: State, end: nat, call: Call): Effect
  {
    if CollectionOf(call).Some? && call.cid !in st.collections then Refused(st)
    else match call
      case OpenCollection(name, newId) =>
        if name in st.names then Unchanged(st)
        else Single(enc, st, NewCollection(newId, name),
                    State(st.collections[newId := Collection(name, map[], map[])], st.names[name := newId]))
      case InsertOne(cid, insert) =>
        var id := DocumentId(st.collections[cid], insert);
        if id.Err? then Refused(st) else WriteOne(enc, st, cid, Stored(insert.document, id.value), None, end)
      case InsertMany(cid, inserts) =>
        var writes := PrepareInserts(st.collections[cid], inserts);
        if writes.Err? || !DistinctIds(writes.value) then Refused(st) else WriteBatch(enc, st, cid, writes.value, end)
      case ReplaceOne(cid, id, document) =>
        if id !in st.collections[cid].documents then Refused(st)
        else WriteOne(enc, st, cid, Stored(document, id), Some(id), end)
      case UpdateOne(cid, id, update) =>
        if id !in st.collections[cid].documents then Unchanged(st)
        else
          var document := update(st.collections[cid].documents[id].document);
          if document.Err? then Refused(st) else WriteOne(enc, st, cid, Stored(document.value, id), Some(id), end)
      case UpdateMany(cid, ids, update) =>
        var writes := PrepareUpdates(st.collections[cid], ids, update);
        if writes.Err? then Refused(st)
        else if |writes.value| == 0 then Unchanged(st)
        else WriteBatch(enc, st, cid, writes.value, end)
      case DeleteOne(cid, id) =>
        if id !in st.collections[cid].documents then Unchanged(st)
        else Single(enc, st, DeleteDocument(cid, id), WithCollection(st, cid, RemoveFrom(st.collections[cid], id)))
      case DeleteMany(cid, ids) =>
        var existing := Existing(st.collections[cid], ids);
        if |existing| == 0 then Unchanged(st) else Batch(enc, st, cid, Deletes(cid, existing), end)
      case MakeIndex(cid, field, kind, unique) => MakeIndexEffect(enc, st, cid, field, kind, unique)
      case RemoveIndex(cid, field) =>
        var c := DropIndexIn(st.collections[cid], field);
        if c.Err? then Refused(st) else Single(enc, st, DropIndex(cid, field), WithCollection(st, cid, c.value))
      case Drop(cid) =>
        Single(enc, st, DropCollection(cid), State(st.collections - {cid}, st.names - {st.collections[cid].name}))
  }
}
