/**
 The state a call leaves in memory is the state replay rebuilds from the log, and a call cut
 short at any record is, on replay, either not there at all or wholly there.
 */
module LiveReplay {
  import opened Bytes
  import opened Records
  import opened LogScan
  import opened Documents
  import opened U29
  import opened Payloads
  import opened Operations
  import opened DatabaseState
  import opened Replay
  import opened Calls

  /** What the encoder accepts it can also read back. */
  predicate Faithful(enc: Encoder, document: Doc) {
    var e := enc.encode(document);
    e.Ok? && |e.value| <= U29_MAX_VALUE ==> Stores(enc, document)
  }

  predicate FaithfulOp(enc: Encoder, op: Operation) {
    op.PutDocument? ==> Faithful(enc, op.document)
  }

  /** Ids are as the source makes them: four bytes for collections, 24 hex digits for documents. */
  predicate Identified(st: State) {
    forall cid :: cid in st.collections ==> |cid| == 4 && HexIds(st.collections[cid])
  }

  predicate HexIds(c: Collection) {
    forall id :: id in c.documents ==> IsObjectIdHex(id)
  }

  /** Random ids are new. */
  predicate Admissible(st: State, call: Call) {
    match call
    case OpenCollection(_, newId) => |newId| == 4 && newId !in st.collections
    case InsertOne(cid, insert) => NewId(st, cid, insert.freshId)
    case InsertMany(cid, inserts) => forall i :: i in inserts ==> NewId(st, cid, i.freshId)
    case _ => true
  }

  /** An index that memory creates, and whose record cannot be written because the field name is too long for its length prefix. */
  predicate Overlong(st: State, call: Call) {
    && call.MakeIndex? && call.cid in st.collections && |call.field| > U29_MAX_VALUE
    && call.field !in st.collections[call.cid].indexes
    && CreateIndexIn(st.collections[call.cid], call.field, call.kind, call.unique).Ok?
  }

  predicate NewId(st: State, cid: CollectionId, id: Str) {
    IsObjectIdHex(id) && (cid in st.collections ==> id !in st.collections[cid].documents)
  }

  /** The documents a call sets out to write. */
  function WritesOf(st: State, call: Call): seq<Write>
  {
    if call.OpenCollection? || call.cid !in st.collections then []
    else
      var c := st.collections[call.cid];
      match call
      case InsertOne(_, insert) =>
        var id := DocumentId(c, insert);
        if id.Ok? then [Stored(insert.document, id.value)] else []
      case InsertMany(_, inserts) =>
        var writes := PrepareInserts(c, inserts);
        if writes.Ok? then writes.value else []
      case ReplaceOne(_, id, document) => [Stored(document, id)]
      case UpdateOne(_, id, update) =>
        if id !in c.documents then []
        else
          var document := update(c.documents[id].document);
          if document.Ok? then [Stored(document.value, id)] else []
      case UpdateMany(_, ids, update) =>
        var writes := PrepareUpdates(c, ids, update);
        if writes.Ok? then writes.value else []
      case _ => []
  }

  predicate FaithfulCall(enc: Encoder, st: State, call: Call)
  {
    forall w :: w in WritesOf(st, call) ==> Faithful(enc, w.document)
  }

  // ---------------------------------------------------------------------------
  // What replay makes of the first k records of an effect
  // ---------------------------------------------------------------------------

  /** All of them: the next state. Some of a batch: the old state, with a transaction open. None: the old state. */
  function AfterPrefix(st: State, end: nat, e: Effect, k: nat): Replayed
    requires k <= |e.records|
  {
    if k == |e.records| && !e.thrown then Replayed(e.next, None)
    else if k == 0 then Replayed(st, None)
    else Replayed(st, Some(Locate(e.records, end)[1..k]))
  }

  predicate EffectReplays(enc: Encoder, st: State, end: nat, e: Effect) {
    && (e.thrown ==> e.next == st)
    && forall k :: 0 <= k <= |e.records| ==>
         ReplayFrom(enc, Replayed(st, None), Locate(e.records, end)[..k]) == Ok(AfterPrefix(st, end, e, k))
  }

  lemma NothingReplays(enc: Encoder, st: State, end: nat, thrown: bool)
    ensures EffectReplays(enc, st, end, Effect([], st, thrown))
  {
  }

  /** A record of a faithful operation is applied as that operation. */
  lemma RecordApplies(enc: Encoder, st: State, op: Operation, l: Located)
    requires Encode(enc, op) == Ok(l.record) && FaithfulOp(enc, op)
    ensures ApplyRecord(enc, st, l) == Apply(st, op, l.offset)
    ensures l.record.identifier == Identifier(op)
  {
    hide EncodePayload, Decode, Apply, Identifier;
    if op.PutDocument? {
      EncodedFits(enc, op);
    }
    OperationRoundTrip(enc, op);
  }

  lemma EncodedFits(enc: Encoder, op: Operation)
    requires op.PutDocument? && Encode(enc, op).Ok?
    ensures enc.encode(op.document).Ok? && |enc.encode(op.document).value| <= U29_MAX_VALUE
  {
    hide Framed;
  }

  lemma SingleReplays(enc: Encoder, st: State, end: nat, op: Operation, next: State)
    requires Apply(st, op, end) == Ok(next) && FaithfulOp(enc, op)
    requires !op.TransactionBegin? && !op.TransactionCommit?
    ensures EffectReplays(enc, st, end, Single(enc, st, op, next))
  {
    hide Apply, FaithfulOp, ApplyRecord, Encode, Identifier;
    var e := Single(enc, st, op, next);
    if |e.records| > 0 {
      var ls := Locate(e.records, end);
      assert ls == [Located(end, e.records[0])];
      RecordApplies(enc, st, op, ls[0]);
      IdentifiersDiffer(op);
      var start := Replayed(st, None);
      assert ls[..0] == [] && ls[..1] == ls && ls[..|ls| - 1] == [];
      assert ReplayFrom(enc, start, []) == Ok(start);
      assert ReplayFrom(enc, start, ls) == Consume(enc, start, ls[0]);
    }
  }

  predicate BatchOp(enc: Encoder, cid: CollectionId, op: Operation) {
    (op.PutDocument? || op.DeleteDocument?) && op.collectionId == cid && FaithfulOp(enc, op)
  }

  /** Applying the staged records is what the live collection did. */
  lemma {:induction false} BatchApplies(enc: Encoder, st: State, cid: CollectionId, ops: seq<Operation>, ls: seq<Located>)
    requires cid in st.collections && |ls| == |ops|
    requires forall i :: 0 <= i < |ops| ==> BatchOp(enc, cid, ops[i]) && Encode(enc, ops[i]) == Ok(ls[i].record)
    ensures ApplyAll(enc, st, ls) == Ok(WithCollection(st, cid, LiveBatch(st.collections[cid], ops, ls)))
    decreases |ops|
  {
    hide ApplyRecord, FaithfulOp, Encode, PutInto, RemoveFrom;
    if |ops| == 0 {
      assert st.collections == st.collections[cid := st.collections[cid]];
    } else {
      var n := |ops| - 1;
      BatchApplies(enc, st, cid, ops[..n], ls[..n]);
      var before := WithCollection(st, cid, LiveBatch(st.collections[cid], ops[..n], ls[..n]));
      assert BatchOp(enc, cid, ops[n]);
      RecordApplies(enc, before, ops[n], ls[n]);
      var d := LiveApply(before.collections[cid], ops[n], ls[n].offset);
      assert before.collections[cid := d] == st.collections[cid := d];
      assert Apply(before, ops[n], ls[n].offset) == Ok(WithCollection(before, cid, d));
    }
  }

  lemma BatchReplays(enc: Encoder, st: State, end: nat, cid: CollectionId, ops: seq<Operation>)
    requires cid in st.collections
    requires forall op :: op in ops ==> BatchOp(enc, cid, op)
    ensures EffectReplays(enc, st, end, Batch(enc, st, cid, ops, end))
  {
    hide LiveBatch, Encode, ReplayFrom, BatchOp, RecordsOf;
    var e := Batch(enc, st, cid, ops, end);
    var start := Replayed(st, None);
    forall k | 0 <= k <= |e.records|
      ensures ReplayFrom(enc, start, Locate(e.records, end)[..k]) == Ok(AfterPrefix(st, end, e, k))
    {
      if k < |ops| + 2 {
        OpenBatchReplays(enc, st, end, cid, ops, k);
      } else {
        WholeBatchReplays(enc, st, end, cid, ops);
        assert Locate(e.records, end)[..k] == Locate(e.records, end);
      }
    }
  }

  lemma EnvelopeRecords(enc: Encoder, end: nat, cid: CollectionId, ops: seq<Operation>)
    requires forall op :: op in ops ==> BatchOp(enc, cid, op)
    ensures var ls := Locate(RecordsOf(enc, Envelope(ops)), end);
            && (|ls| > 0 ==> ls[0].record.identifier == TRANSACTION_BEGIN)
            && (forall i :: 1 <= i < |ls| && i <= |ops| ==> !IsMarker(ls[i]) && Encode(enc, ops[i - 1]) == Ok(ls[i].record))
            && (|ls| == |ops| + 2 ==> ls[|ops| + 1].record.identifier == TRANSACTION_COMMIT)
  {
    hide Encode, FaithfulOp, Identifier, RecordsOf, Locate;
    var rs := RecordsOf(enc, Envelope(ops));
    var ls := Locate(rs, end);
    forall i | 0 <= i < |ls|
      ensures ls[i].record.identifier == Identifier(Envelope(ops)[i])
    {
      EncodeValid(enc, Envelope(ops)[i]);
    }
    IdentifiersDiffer(TransactionBegin);
    IdentifiersDiffer(TransactionCommit);
    forall i | 1 <= i < |ls| && i <= |ops|
      ensures !IsMarker(ls[i]) && Encode(enc, ops[i - 1]) == Ok(ls[i].record)
    {
      assert Envelope(ops)[i] == ops[i - 1] && ops[i - 1] in ops;
      IdentifiersDiffer(ops[i - 1]);
    }
  }

  /** Until the commit stands in the log, replay sees the old state. */
  lemma OpenBatchReplays(enc: Encoder, st: State, end: nat, cid: CollectionId, ops: seq<Operation>, k: nat)
    requires cid in st.collections
    requires forall op :: op in ops ==> BatchOp(enc, cid, op)
    requires k < |ops| + 2 && k <= |RecordsOf(enc, Envelope(ops))|
    ensures var ls := Locate(RecordsOf(enc, Envelope(ops)), end);
            ReplayFrom(enc, Replayed(st, None), ls[..k]) == Ok(Replayed(st, if k == 0 then None else Some(ls[1..k])))
  {
    hide Encode, BatchOp, ApplyAll, ApplyRecord, IsMarker, RecordsOf, Locate;
    var ls := Locate(RecordsOf(enc, Envelope(ops)), end);
    var start := Replayed(st, None);
    if k > 0 {
      EnvelopeRecords(enc, end, cid, ops);
      assert ls[..k] == [ls[0]] + ls[1..k];
      ReplaySplits(enc, start, [ls[0]], ls[1..k]);
      assert ReplayFrom(enc, start, [ls[0]]) == Consume(enc, start, ls[0]) by {
        assert [ls[0]][..0] == [];
      }
      ReplayStages(enc, st, [], ls[1..k]);
      assert [] + ls[1..k] == ls[1..k];
    }
  }

  lemma WholeBatchReplays(enc: Encoder, st: State, end: nat, cid: CollectionId, ops: seq<Operation>)
    requires cid in st.collections
    requires forall op :: op in ops ==> BatchOp(enc, cid, op)
    requires |RecordsOf(enc, Envelope(ops))| == |ops| + 2
    ensures ReplayFrom(enc, Replayed(st, None), Locate(RecordsOf(enc, Envelope(ops)), end))
         == Ok(Replayed(Batch(enc, st, cid, ops, end).next, None))
  {
    hide Encode, BatchOp, ApplyAll, ApplyRecord, LiveBatch, RecordsOf, Locate;
    var ls := Locate(RecordsOf(enc, Envelope(ops)), end);
    var n := |ops| + 1;
    EnvelopeRecords(enc, end, cid, ops);
    OpenBatchReplays(enc, st, end, cid, ops, n);
    assert ls[..|ls| - 1] == ls[..n] && ls[|ls| - 1] == ls[n];
    var staged := ls[1..n];
    assert forall i :: 0 <= i < |ops| ==> ops[i] in ops && staged[i] == ls[i + 1];
    BatchApplies(enc, st, cid, ops, staged);
    MarkersDiffer();
    assert ReplayFrom(enc, Replayed(st, None), ls) == Consume(enc, Replayed(st, Some(staged)), ls[n]);
  }

  lemma MarkersDiffer()
    ensures TRANSACTION_BEGIN != TRANSACTION_COMMIT
  {
    assert TRANSACTION_BEGIN[3] != TRANSACTION_COMMIT[3];
  }

  // ---------------------------------------------------------------------------
  // Every call
  // ---------------------------------------------------------------------------

  lemma WriteOneReplays(enc: Encoder, st: State, end: nat, cid: CollectionId, w: Write, exclude: Option<Str>)
    requires cid in st.collections && Faithful(enc, w.document)
    ensures EffectReplays(enc, st, end, WriteOne(enc, st, cid, w, exclude, end))
  {
    hide Faithful, EffectReplays, Single, Free, PutInto;
    if Free(st.collections[cid], w.document, exclude) {
      var op := PutDocument(cid, w.id, w.document);
      SingleReplays(enc, st, end, op, WithCollection(st, cid, PutInto(st.collections[cid], w.id, Entry(end, w.document))));
    } else {
      NothingReplays(enc, st, end, true);
    }
  }

  lemma WriteBatchReplays(enc: Encoder, st: State, end: nat, cid: CollectionId, writes: seq<Write>)
    requires cid in st.collections && forall w :: w in writes ==> Faithful(enc, w.document)
    ensures EffectReplays(enc, st, end, WriteBatch(enc, st, cid, writes, end))
  {
    hide Faithful, EffectReplays, Batch, BatchFree;
    if !BatchFree(st.collections[cid], writes) {
      NothingReplays(enc, st, end, true);
    } else if |writes| == 0 {
      NothingReplays(enc, st, end, false);
    } else {
      forall op | op in Puts(cid, writes)
        ensures BatchOp(enc, cid, op)
      {
        var i :| 0 <= i < |writes| && op == Puts(cid, writes)[i];
        assert writes[i] in writes;
      }
      BatchReplays(enc, st, end, cid, Puts(cid, writes));
    }
  }

  lemma MakeIndexReplays(enc: Encoder, st: State, end: nat, cid: CollectionId, field: Str, kind: IndexKind, unique: bool)
    requires cid in st.collections && |cid| == 4 && AllMirror(st) && !Overlong(st, MakeIndex(cid, field, kind, unique))
    ensures EffectReplays(enc, st, end, MakeIndexEffect(enc, st, cid, field, kind, unique))
  {
    hide EffectReplays, Mirrors, Encode, RefileAll;
    var c := st.collections[cid];
    var r := CreateIndexIn(c, field, kind, unique);
    if r.Err? {
      NothingReplays(enc, st, end, true);
    } else if field in c.indexes {
      RefileKeeps(c);
      assert st.collections == st.collections[cid := c];
      NothingReplays(enc, st, end, false);
    } else {
      var op := CreateIndex(cid, field, kind, unique);
      IndexEncodes(enc, cid, field, kind, unique);
      SingleReplays(enc, st, end, op, WithCollection(st, cid, r.value));
    }
  }

  lemma IndexEncodes(enc: Encoder, cid: CollectionId, field: Str, kind: IndexKind, unique: bool)
    requires |cid| == 4
    ensures Encode(enc, CreateIndex(cid, field, kind, unique)).Ok? <==> |field| <= U29_MAX_VALUE
  {
    hide Framed;
  }

  /** Such a call throws and appends nothing, but the index is in memory. */
  lemma OverlongEffect(enc: Encoder, st: State, end: nat, call: Call)
    requires Identified(st) && AllMirror(st) && Overlong(st, call)
    ensures var e := Perform(enc, st, end, call);
            && e.thrown && e.records == [] && e.next != st && !EffectReplays(enc, st, end, e)
            && call.cid in e.next.collections
            && var c, d := st.collections[call.cid], e.next.collections[call.cid];
               Mirrors(d) && d == c.(indexes := c.indexes[call.field := Index(call.kind, call.unique, Postings(call.kind, call.field, c.documents))])
  {
    hide Encode, CreateIndexIn, Mirrors, Postings;
    assert |call.cid| == 4 && Mirrors(st.collections[call.cid]);
    IndexEncodes(enc, call.cid, call.field, call.kind, call.unique);
    CreateIndexMirrors(st.collections[call.cid], call.field, call.kind, call.unique);
  }

  lemma DeletesReplay(enc: Encoder, st: State, end: nat, cid: CollectionId, ids: seq<Str>)
    requires cid in st.collections
    ensures EffectReplays(enc, st, end, Batch(enc, st, cid, Deletes(cid, ids), end))
  {
    hide EffectReplays, Batch;
    BatchReplays(enc, st, end, cid, Deletes(cid, ids));
  }

  /**
   Replaying any prefix of what a call appends gives the state before it or the one it leaves. The one
   exception is a created index whose record cannot be written.
   */
  lemma CallReplays(enc: Encoder, st: State, end: nat, call: Call)
    requires Identified(st) && AllMirror(st) && Admissible(st, call) && FaithfulCall(enc, st, call)
    ensures EffectReplays(enc, st, end, Perform(enc, st, end, call)) <==> !Overlong(st, call)
  {
    if Overlong(st, call) {
      OverlongEffect(enc, st, end, call);
    } else {
      OtherCallReplays(enc, st, end, call);
    }
  }

  lemma OtherCallReplays(enc: Encoder, st: State, end: nat, call: Call)
    requires Identified(st) && AllMirror(st) && Admissible(st, call) && FaithfulCall(enc, st, call) && !Overlong(st, call)
    ensures EffectReplays(enc, st, end, Perform(enc, st, end, call))
  {
    hide Overlong;
    hide EffectReplays, Single, Batch, WriteOne, WriteBatch, MakeIndexEffect, AllMirror, Faithful, NewId;
    hide CreateIndexIn, PutInto, RemoveFrom, PrepareInserts, PrepareUpdates, DocumentId, Stored, Existing, DropIndexIn, DistinctIds;
    NothingReplays(enc, st, end, true);
    NothingReplays(enc, st, end, false);
    var writes := WritesOf(st, call);
    if call.OpenCollection? || call.cid in st.collections {
      match call
      case OpenCollection(name, newId) =>
        SingleReplays(enc, st, end, NewCollection(newId, name),
                      State(st.collections[newId := Collection(name, map[], map[])], st.names[name := newId]));
      case InsertOne(cid, _) =>
        if |writes| > 0 {
          assert writes[0] in writes;
          WriteOneReplays(enc, st, end, cid, writes[0], None);
        }
      case InsertMany(cid, _) => WriteBatchReplays(enc, st, end, cid, writes);
      case ReplaceOne(cid, id, _) =>
        assert writes[0] in writes;
        WriteOneReplays(enc, st, end, cid, writes[0], Some(id));
      case UpdateOne(cid, id, _) =>
        if |writes| > 0 {
          assert writes[0] in writes;
          WriteOneReplays(enc, st, end, cid, writes[0], Some(id));
        }
      case UpdateMany(cid, _, _) => WriteBatchReplays(enc, st, end, cid, writes);
      case DeleteOne(cid, id) =>
        SingleReplays(enc, st, end, DeleteDocument(cid, id), WithCollection(st, cid, RemoveFrom(st.collections[cid], id)));
      case DeleteMany(cid, ids) => DeletesReplay(enc, st, end, cid, Existing(st.collections[cid], ids));
      case MakeIndex(cid, field, kind, unique) => MakeIndexReplays(enc, st, end, cid, field, kind, unique);
      case RemoveIndex(cid, field) =>
        var c := DropIndexIn(st.collections[cid], field);
        if c.Ok? {
          SingleReplays(enc, st, end, DropIndex(cid, field), WithCollection(st, cid, c.value));
        }
      case Drop(cid) =>
        SingleReplays(enc, st, end, DropCollection(cid), State(st.collections - {cid}, st.names - {st.collections[cid].name}));
    }
  }
}
