/** A call on one collection neither reads nor changes any other. */
module LocalCalls {
  import opened Bytes
  import opened Records
  import opened LogScan
  import opened Documents
  import opened Payloads
  import opened Operations
  import opened DatabaseState
  import opened Calls
  import opened Collections

  lemma AloneHas(st: State, cid: CollectionId)
    requires cid in st.collections
    ensures Alone(cid, st.collections[cid]).collections == map[cid := st.collections[cid]]
  {
  }

  /** What the call does is what it does to the collection alone, put back in its place. */
  predicate Local(st: State, cid: CollectionId, e: Effect, a: Effect)
    requires cid in st.collections
  {
    && e.records == a.records && e.thrown == a.thrown
    && (cid in a.next.collections ==> e.next == WithCollection(st, cid, a.next.collections[cid]))
    && (cid !in a.next.collections ==> e.next == State(st.collections - {cid}, st.names - {st.collections[cid].name}))
  }

  lemma UnchangedLocal(st: State, cid: CollectionId, thrown: bool)
    requires cid in st.collections
    ensures Local(st, cid, Effect([], st, thrown), Effect([], Alone(cid, st.collections[cid]), thrown))
  {
    assert st.collections == st.collections[cid := st.collections[cid]];
  }

  lemma SingleLocal(enc: Encoder, st: State, cid: CollectionId, op: Operation, c: Collection)
    requires cid in st.collections
    ensures var a := Alone(cid, st.collections[cid]);
            Local(st, cid, Single(enc, st, op, WithCollection(st, cid, c)), Single(enc, a, op, WithCollection(a, cid, c)))
  {
    hide RecordsOf, Local;
    UnchangedLocal(st, cid, true);
    ChangedLocal(st, cid, RecordsOf(enc, [op]), c, false);
  }

  lemma ChangedLocal(st: State, cid: CollectionId, records: seq<ValidRecord>, c: Collection, thrown: bool)
    requires cid in st.collections
    ensures var a := Alone(cid, st.collections[cid]);
            Local(st, cid, Effect(records, WithCollection(st, cid, c), thrown), Effect(records, WithCollection(a, cid, c), thrown))
  {
  }

  lemma WriteOneLocal(enc: Encoder, st: State, cid: CollectionId, w: Write, exclude: Option<Str>, end: nat)
    requires cid in st.collections
    ensures Local(st, cid, WriteOne(enc, st, cid, w, exclude, end), WriteOne(enc, Alone(cid, st.collections[cid]), cid, w, exclude, end))
  {
    hide Single, Free, PutInto, Local;
    AloneHas(st, cid);
    UnchangedLocal(st, cid, true);
    SingleLocal(enc, st, cid, PutDocument(cid, w.id, w.document), PutInto(st.collections[cid], w.id, Entry(end, w.document)));
  }

  lemma BatchLocal(enc: Encoder, st: State, cid: CollectionId, ops: seq<Operation>, end: nat)
    requires cid in st.collections
    ensures Local(st, cid, Batch(enc, st, cid, ops, end), Batch(enc, Alone(cid, st.collections[cid]), cid, ops, end))
  {
    hide RecordsOf, Locate, LiveBatch, Local;
    AloneHas(st, cid);
    var records := RecordsOf(enc, Envelope(ops));
    if |records| < |ops| + 2 {
      SameLocal(st, cid, records, true);
    } else {
      ChangedLocal(st, cid, records, LiveBatch(st.collections[cid], ops, Locate(records, end)[1..|ops| + 1]), false);
    }
  }

  lemma SameLocal(st: State, cid: CollectionId, records: seq<ValidRecord>, thrown: bool)
    requires cid in st.collections
    ensures Local(st, cid, Effect(records, st, thrown), Effect(records, Alone(cid, st.collections[cid]), thrown))
  {
    assert st.collections == st.collections[cid := st.collections[cid]];
  }

  lemma WriteBatchLocal(enc: Encoder, st: State, cid: CollectionId, writes: seq<Write>, end: nat)
    requires cid in st.collections
    ensures Local(st, cid, WriteBatch(enc, st, cid, writes, end), WriteBatch(enc, Alone(cid, st.collections[cid]), cid, writes, end))
  {
    hide Batch, BatchFree, Local;
    AloneHas(st, cid);
    UnchangedLocal(st, cid, true);
    UnchangedLocal(st, cid, false);
    BatchLocal(enc, st, cid, Puts(cid, writes), end);
  }

  lemma MakeIndexLocal(enc: Encoder, st: State, cid: CollectionId, field: Str, kind: IndexKind, unique: bool)
    requires cid in st.collections
    ensures Local(st, cid, MakeIndexEffect(enc, st, cid, field, kind, unique), MakeIndexEffect(enc, Alone(cid, st.collections[cid]), cid, field, kind, unique))
  {
    hide RecordsOf, CreateIndexIn, Local;
    AloneHas(st, cid);
    UnchangedLocal(st, cid, true);
    var d := CreateIndexIn(st.collections[cid], field, kind, unique);
    if d.Ok? {
      var records := RecordsOf(enc, [CreateIndex(cid, field, kind, unique)]);
      ChangedLocal(st, cid, [], d.value, false);
      ChangedLocal(st, cid, records, d.value, |records| == 0);
    }
  }

  /** Every call on a collection is local to it. */
  lemma CallsAreLocal(enc: Encoder, st: State, end: nat, call: Call)
    requires !call.OpenCollection? && call.cid in st.collections
    ensures Local(st, call.cid, Perform(enc, st, end, call), Perform(enc, Alone(call.cid, st.collections[call.cid]), end, call))
  {
    hide Single, Batch, WriteOne, WriteBatch, MakeIndexEffect, Local, RecordsOf;
    hide CreateIndexIn, PutInto, RemoveFrom, PrepareInserts, PrepareUpdates, DocumentId, Stored, Existing, DropIndexIn, DistinctIds;
    var cid, c := call.cid, st.collections[call.cid];
    AloneHas(st, cid);
    UnchangedLocal(st, cid, true);
    UnchangedLocal(st, cid, false);
    match call
    case InsertOne(_, insert) =>
      if DocumentId(c, insert).Ok? {
        WriteOneLocal(enc, st, cid, Stored(insert.document, DocumentId(c, insert).value), None, end);
      }
    case InsertMany(_, inserts) =>
      if PrepareInserts(c, inserts).Ok? {
        WriteBatchLocal(enc, st, cid, PrepareInserts(c, inserts).value, end);
      }
    case ReplaceOne(_, id, document) => WriteOneLocal(enc, st, cid, Stored(document, id), Some(id), end);
    case UpdateOne(_, id, update) =>
      if id in c.documents && update(c.documents[id].document).Ok? {
        WriteOneLocal(enc, st, cid, Stored(update(c.documents[id].document).value, id), Some(id), end);
      }
    case UpdateMany(_, ids, update) =>
      if PrepareUpdates(c, ids, update).Ok? {
        WriteBatchLocal(enc, st, cid, PrepareUpdates(c, ids, update).value, end);
      }
    case DeleteOne(_, id) => SingleLocal(enc, st, cid, DeleteDocument(cid, id), RemoveFrom(c, id));
    case DeleteMany(_, ids) => BatchLocal(enc, st, cid, Deletes(cid, Existing(c, ids)), end);
    case MakeIndex(_, field, kind, unique) => MakeIndexLocal(enc, st, cid, field, kind, unique);
    case RemoveIndex(_, field) =>
      if DropIndexIn(c, field).Ok? {
        SingleLocal(enc, st, cid, DropIndex(cid, field), DropIndexIn(c, field).value);
      }
    case Drop(_) => DropLocal(enc, st, cid);
  }

  lemma DropLocal(enc: Encoder, st: State, cid: CollectionId)
    requires cid in st.collections
    ensures var c := st.collections[cid];
            var a := Alone(cid, c);
            Local(st, cid, Single(enc, st, DropCollection(cid), State(st.collections - {cid}, st.names - {c.name})),
                           Single(enc, a, DropCollection(cid), State(a.collections - {cid}, a.names - {c.name})))
  {
    hide RecordsOf;
    UnchangedLocal(st, cid, true);
  }
}
