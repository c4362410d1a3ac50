/**
 A log that ends inside a transaction. Opening it drops the unfinished transaction from memory
 but leaves it in the file, and whatever is appended behind it is not what the next opening finds.
 */
module OpenTail {
  import opened Bytes
  import opened Records
  import opened LogScan
  import opened Documents
  import opened U29
  import opened Payloads
  import opened Operations
  import opened DatabaseState
  import opened Replay
  import opened Calls
  import opened LiveReplay
  import opened UniqueConstraint
  import opened Compaction
  import opened Runs
  import opened LogCompaction
  import opened Scenarios

  predicate OffsetsBelow(st: State, end: nat) {
    forall cid, id :: cid in st.collections && id in st.collections[cid].documents ==>
      st.collections[cid].documents[id].offset < end
  }

  // ---------------------------------------------------------------------------
  // What a call appends, and that it changes the memory when it does
  // ---------------------------------------------------------------------------

  /** Nothing, one record of an operation, or a transaction, which may have stopped halfway. */
  predicate Shaped(rs: seq<ValidRecord>) {
    || |rs| == 0
    || (|rs| == 1 && rs[0].identifier != TRANSACTION_BEGIN && rs[0].identifier != TRANSACTION_COMMIT)
    || (|rs| > 0 && rs[0].identifier == TRANSACTION_BEGIN)
  }

  lemma SingleShaped(enc: Encoder, st: State, op: Operation, next: State)
    requires !op.TransactionBegin? && !op.TransactionCommit?
    ensures Shaped(Single(enc, st, op, next).records) && |Single(enc, st, op, next).records| <= 1
  {
    hide EncodePayload, Identifier;
    if |RecordsOf(enc, [op])| > 0 {
      EncodeValid(enc, op);
      IdentifiersDiffer(op);
    }
  }

  lemma BatchShaped(enc: Encoder, st: State, cid: CollectionId, ops: seq<Operation>, end: nat)
    requires cid in st.collections && !Batch(enc, st, cid, ops, end).thrown && |ops| > 0
    ensures Shaped(Batch(enc, st, cid, ops, end).records) && |Batch(enc, st, cid, ops, end).records| > 1
  {
    hide EncodePayload, LiveBatch, Identifier;
    var rs := RecordsOf(enc, Envelope(ops));
    EncodeValid(enc, TransactionBegin);
    IdentifiersDiffer(TransactionBegin);
    assert Encode(enc, Envelope(ops)[0]) == Ok(rs[0]);
  }

  lemma WriteOneShaped(enc: Encoder, st: State, cid: CollectionId, w: Write, exclude: Option<Str>, end: nat)
    requires cid in st.collections && OffsetsBelow(st, end)
    ensures var e := WriteOne(enc, st, cid, w, exclude, end);
            Shaped(e.records) && |e.records| <= 1 && (|e.records| > 0 ==> e.next != st)
  {
    hide Free, Single;
    var c := st.collections[cid];
    var next := WithCollection(st, cid, PutInto(c, w.id, Entry(end, w.document)));
    SingleShaped(enc, st, PutDocument(cid, w.id, w.document), next);
    assert next.collections[cid].documents[w.id].offset == end;
    SingleNext(enc, st, PutDocument(cid, w.id, w.document), next);
  }

  lemma SingleNext(enc: Encoder, st: State, op: Operation, next: State)
    ensures var e := Single(enc, st, op, next); |e.records| > 0 ==> e.next == next
  {
  }

  lemma WriteBatchShaped(enc: Encoder, st: State, cid: CollectionId, writes: seq<Write>, end: nat)
    requires cid in st.collections && !WriteBatch(enc, st, cid, writes, end).thrown
    ensures var e := WriteBatch(enc, st, cid, writes, end); Shaped(e.records) && |e.records| != 1
  {
    hide BatchFree, Batch;
    if BatchFree(st.collections[cid], writes) && |writes| > 0 {
      BatchShaped(enc, st, cid, Puts(cid, writes), end);
    }
  }

  lemma MakeIndexShaped(enc: Encoder, st: State, cid: CollectionId, field: Str, kind: IndexKind, unique: bool)
    requires cid in st.collections && AllMirror(st) && !MakeIndexEffect(enc, st, cid, field, kind, unique).thrown
    ensures var e := MakeIndexEffect(enc, st, cid, field, kind, unique);
            Shaped(e.records) && |e.records| <= 1 && (|e.records| > 0 ==> e.next != st)
  {
    hide RecordsOf, CreateIndexIn, Mirrors;
    var c := st.collections[cid];
    var op := CreateIndex(cid, field, kind, unique);
    SingleShaped(enc, st, op, st);
    if CreateIndexIn(c, field, kind, unique).Ok? && field !in c.indexes {
      CreateIndexMirrors(c, field, kind, unique);
      assert field in MakeIndexEffect(enc, st, cid, field, kind, unique).next.collections[cid].indexes;
    } else {
      ExistingKind(c, field, kind, unique);
    }
  }

  lemma ExistingKind(c: Collection, field: Str, kind: IndexKind, unique: bool)
    requires field in c.indexes && CreateIndexIn(c, field, kind, unique).Ok?
    ensures c.indexes[field].kind == kind
  {
  }

  /** A call that appends one record changes the memory. */
  lemma CallShaped(enc: Encoder, st: State, end: nat, call: Call)
    requires AllMirror(st) && OffsetsBelow(st, end) && Admissible(st, call) && !Perform(enc, st, end, call).thrown
    ensures var e := Perform(enc, st, end, call);
            Shaped(e.records) && (|e.records| == 1 ==> e.next != st)
  {
    hide Single, Batch, WriteOne, WriteBatch, MakeIndexEffect, AllMirror, NewId, OffsetsBelow, Shaped, RecordsOf;
    hide CreateIndexIn, PutInto, RemoveFrom, PrepareInserts, PrepareUpdates, DocumentId, Stored, Existing, DropIndexIn, DistinctIds;
    NothingShaped();
    if call.OpenCollection? {
      var next := State(st.collections[call.newId := Collection(call.name, map[], map[])], st.names[call.name := call.newId]);
      SingleShaped(enc, st, NewCollection(call.newId, call.name), next);
      SingleNext(enc, st, NewCollection(call.newId, call.name), next);
      assert call.newId in next.collections;
    } else if call.cid in st.collections {
      var cid, c := call.cid, st.collections[call.cid];
      match call
      case InsertOne(_, insert) =>
        if DocumentId(c, insert).Ok? {
          WriteOneShaped(enc, st, cid, Stored(insert.document, DocumentId(c, insert).value), None, end);
        }
      case InsertMany(_, inserts) =>
        var writes := PrepareInserts(c, inserts);
        if writes.Ok? && DistinctIds(writes.value) {
          WriteBatchShaped(enc, st, cid, writes.value, end);
        }
      case ReplaceOne(_, id, document) => WriteOneShaped(enc, st, cid, Stored(document, id), Some(id), end);
      case UpdateOne(_, id, update) =>
        if id in c.documents && update(c.documents[id].document).Ok? {
          WriteOneShaped(enc, st, cid, Stored(update(c.documents[id].document).value, id), Some(id), end);
        }
      case UpdateMany(_, ids, update) =>
        var writes := PrepareUpdates(c, ids, update);
        if writes.Ok? && |writes.value| > 0 {
          WriteBatchShaped(enc, st, cid, writes.value, end);
        }
      case DeleteOne(_, id) => DeleteShaped(enc, st, cid, id);
      case DeleteMany(_, ids) =>
        if |Existing(c, ids)| > 0 {
          BatchShaped(enc, st, cid, Deletes(cid, Existing(c, ids)), end);
        }
      case MakeIndex(_, field, kind, unique) => MakeIndexShaped(enc, st, cid, field, kind, unique);
      case RemoveIndex(_, field) => RemoveIndexShaped(enc, st, cid, field);
      case Drop(_) =>
        var next := State(st.collections - {cid}, st.names - {c.name});
        SingleShaped(enc, st, DropCollection(cid), next);
        SingleNext(enc, st, DropCollection(cid), next);
        assert cid !in next.collections;
    }
  }

  lemma NothingShaped()
    ensures Shaped([])
  {
  }

  lemma DeleteShaped(enc: Encoder, st: State, cid: CollectionId, id: Str)
    requires cid in st.collections
    ensures id in st.collections[cid].documents ==>
              var e := Single(enc, st, DeleteDocument(cid, id), WithCollection(st, cid, RemoveFrom(st.collections[cid], id)));
              Shaped(e.records) && (|e.records| == 1 ==> e.next != st)
  {
    hide Single, Shaped;
    var next := WithCollection(st, cid, RemoveFrom(st.collections[cid], id));
    SingleShaped(enc, st, DeleteDocument(cid, id), next);
    SingleNext(enc, st, DeleteDocument(cid, id), next);
    assert id !in next.collections[cid].documents;
  }

  lemma RemoveIndexShaped(enc: Encoder, st: State, cid: CollectionId, field: Str)
    requires cid in st.collections
    ensures var d := DropIndexIn(st.collections[cid], field);
            d.Ok? ==> var e := Single(enc, st, DropIndex(cid, field), WithCollection(st, cid, d.value));
                      Shaped(e.records) && (|e.records| == 1 ==> e.next != st)
  {
    hide Single, Shaped;
    var d := DropIndexIn(st.collections[cid], field);
    if d.Ok? {
      var next := WithCollection(st, cid, d.value);
      SingleShaped(enc, st, DropIndex(cid, field), next);
      SingleNext(enc, st, DropIndex(cid, field), next);
      assert field !in next.collections[cid].indexes;
    }
  }

  // ---------------------------------------------------------------------------
  // Documents point into the file
  // ---------------------------------------------------------------------------

  lemma TracedBelow(st: State, ss: seq<Stamped>, end: nat)
    requires Traced(st, ss) && forall s :: s in ss ==> s.offset < end
    ensures OffsetsBelow(st, end)
  {
    hide TracedIndex;
    forall cid, id | cid in st.collections && id in st.collections[cid].documents
      ensures st.collections[cid].documents[id].offset < end
    {
      assert TracedCollection(st.collections[cid], cid, ss);
      assert PutStamp(cid, id, st.collections[cid].documents[id]) in ss;
    }
  }

  lemma OpenedBelow(enc: Encoder, w: World, open: bool)
    requires JustOpened(enc, w, open)
    ensures Sound(w.db) && OffsetsBelow(w.db, |w.file|)
    ensures ReplayLog(enc, ScanLog(w.file).records).Ok?
    ensures var r := ReplayLog(enc, ScanLog(w.file).records).value; r.db == w.db && r.staged.Some? == open
  {
    hide ReplayFrom, ScanFrom, AllUnique, NamesConsistent, Sound, Traced, OffsetsBelow, ApplyAll, ApplyOps, Decode, IsMarker;
    OpenLog(enc, w.file);
    var ls := ScanLog(w.file).records;
    ReplaySound(enc, Replayed(EMPTY, None), ls) by {
      EmptySound();
    }
    var applied := ReplayIsApply(enc, EMPTY, ls);
    ApplyIsOps(enc, EMPTY, applied);
    var ss := Stamps(enc, applied);
    OpsTraced(ss);
    RecordsAfter(w.file, FILE_HEADER_BYTES);
    UnmarkedWithin(ls);
    forall s | s in ss
      ensures s.offset < |w.file|
    {
      var i :| 0 <= i < |ss| && ss[i] == s;
      assert Unmarked(ls)[i] == applied[i] && applied[i] in Unmarked(ls);
    }
    TracedBelow(w.db, ss, |w.file|);
  }

  // ---------------------------------------------------------------------------
  // Appending behind an unfinished transaction
  // ---------------------------------------------------------------------------

  lemma StagedOrNested(enc: Encoder, before: Replayed, rs: seq<ValidRecord>, end: nat)
    requires before.staged.Some? && Shaped(rs) && |rs| > 0
    ensures var r := ReplayFrom(enc, before, Locate(rs, end));
            if rs[0].identifier == TRANSACTION_BEGIN then r.Err? else r.Ok? && r.value.db == before.db && r.value.staged.Some?
  {
    hide ApplyRecord, ApplyAll;
    var ls := Locate(rs, end);
    assert ls[..1] + ls[1..] == ls && [ls[0]] == ls[..1] && [ls[0]][..0] == [];
    assert ReplayFrom(enc, before, [ls[0]]) == Consume(enc, before, ls[0]);
    ReplaySplits(enc, before, [ls[0]], ls[1..]);
    assert |rs| == 1 ==> ls[1..] == [];
  }

  /** One record joins the transaction and is not applied; a transaction inside it makes opening throw. */
  lemma AppendBehind(enc: Encoder, w: World, rs: seq<ValidRecord>)
    requires JustOpened(enc, w, true) && Shaped(rs) && |rs| > 0
    ensures var file := w.file + EncodeAll(rs);
            if rs[0].identifier == TRANSACTION_BEGIN then OpenFile(enc, file).Err? else OpenFile(enc, file) == Ok(Opened(w.db, true, file, false))
  {
    hide ScanFrom, AllUnique, NamesConsistent, EncodeAll, ReplayFrom, Shaped, Sound, OffsetsBelow;
    var file := w.file + EncodeAll(rs);
    OpenedBelow(enc, w, true);
    ScanAppendAll(w.file, rs);
    var before := ReplayLog(enc, ScanLog(w.file).records).value;
    StagedOrNested(enc, before, rs, |w.file|);
    ReplaySplits(enc, Replayed(EMPTY, None), ScanLog(w.file).records, Locate(rs, |w.file|));
    OpenLog(enc, file);
    assert file[..|file|] == file;
  }

  // ---------------------------------------------------------------------------
  // Which calls append nothing
  // ---------------------------------------------------------------------------

  /** The write passes the unique check and its document can be encoded. */
  predicate Accepted(enc: Encoder, c: Collection, document: Doc, exclude: Option<Str>) {
    Free(c, document, exclude) && Encodes(enc, document)
  }

  /** Refused, or nothing to do, or one record that cannot be written: decided before the first append. */
  predicate Silent(enc: Encoder, st: State, call: Call) {
    if call.OpenCollection? then call.name in st.names || |call.name| > U29_MAX_VALUE
    else if call.cid !in st.collections then true
    else
      var c := st.collections[call.cid];
      match call
      case InsertOne(_, insert) =>
        var id := DocumentId(c, insert);
        id.Err? || !Accepted(enc, c, Stored(insert.document, id.value).document, None)
      case ReplaceOne(_, id, document) => id !in c.documents || !Accepted(enc, c, Stored(document, id).document, Some(id))
      case UpdateOne(_, id, update) =>
        || id !in c.documents || update(c.documents[id].document).Err?
        || !Accepted(enc, c, Stored(update(c.documents[id].document).value, id).document, Some(id))
      case InsertMany(_, _) => !ChecksPass(st, call)
      case UpdateMany(_, _, _) => !ChecksPass(st, call)
      case DeleteOne(_, id) => id !in c.documents
      case DeleteMany(_, ids) => forall id :: id in ids ==> id !in c.documents
      case MakeIndex(_, field, kind, unique) =>
        CreateIndexIn(c, field, kind, unique).Err? || (field in c.indexes && c.indexes[field].kind == kind) || |field| > U29_MAX_VALUE
      case RemoveIndex(_, field) => field !in c.indexes || |field| > U29_MAX_VALUE
      case Drop(_) => false
  }

  lemma SingleSilent(enc: Encoder, st: State, op: Operation, next: State)
    ensures |Single(enc, st, op, next).records| == 0 <==> Encode(enc, op).Err?
  {
    hide Encode;
  }

  lemma WriteOneSilent(enc: Encoder, st: State, cid: CollectionId, w: Write, exclude: Option<Str>, end: nat)
    requires cid in st.collections && |cid| == 4 && IsObjectIdHex(w.id)
    ensures |WriteOne(enc, st, cid, w, exclude, end).records| == 0 <==> !Accepted(enc, st.collections[cid], w.document, exclude)
  {
    hide Free, Single, Encode, Encodes, IsObjectIdHex, PutInto;
    EncodesOp(enc, PutDocument(cid, w.id, w.document));
    SingleSilent(enc, st, PutDocument(cid, w.id, w.document), WithCollection(st, cid, PutInto(st.collections[cid], w.id, Entry(end, w.document))));
  }

  lemma NamedEncodes(enc: Encoder, cid: CollectionId, name: Str, kind: IndexKind, unique: bool)
    requires |cid| == 4
    ensures Encode(enc, NewCollection(cid, name)).Ok? <==> |name| <= U29_MAX_VALUE
    ensures Encode(enc, DropIndex(cid, name)).Ok? <==> |name| <= U29_MAX_VALUE
    ensures Encode(enc, CreateIndex(cid, name, kind, unique)).Ok? <==> |name| <= U29_MAX_VALUE
    ensures Encode(enc, DropCollection(cid)).Ok?
  {
    hide Framed;
  }

  lemma {:induction false} ExistingNone(c: Collection, ids: seq<Str>)
    ensures |Existing(c, ids)| == 0 <==> forall id :: id in ids ==> id !in c.documents
    decreases |ids|
  {
    if |ids| > 0 {
      ExistingNone(c, ids[1..]);
      assert forall id :: id in ids <==> id == ids[0] || id in ids[1..];
    }
  }

  /** Calls that append one record or none. */
  lemma OneSilent(enc: Encoder, st: State, end: nat, call: Call)
    requires Identified(st) && Admissible(st, call) && !call.OpenCollection? && call.cid in st.collections
    requires call.InsertOne? || call.ReplaceOne? || call.UpdateOne? || call.DeleteOne?
    ensures |Perform(enc, st, end, call).records| == 0 <==> Silent(enc, st, call)
  {
    hide WriteOne, Accepted, Single, Encode, IsObjectIdHex, Put;
    var cid, c := call.cid, st.collections[call.cid];
    assert |cid| == 4 && HexIds(c);
    match call
    case InsertOne(_, insert) =>
      var id := DocumentId(c, insert);
      if id.Ok? {
        WriteOneSilent(enc, st, cid, Stored(insert.document, id.value), None, end);
      }
    case ReplaceOne(_, id, document) =>
      if id in c.documents {
        WriteOneSilent(enc, st, cid, Stored(document, id), Some(id), end);
      }
    case UpdateOne(_, id, update) =>
      if id in c.documents && update(c.documents[id].document).Ok? {
        WriteOneSilent(enc, st, cid, Stored(update(c.documents[id].document).value, id), Some(id), end);
      }
    case DeleteOne(_, id) =>
      if id in c.documents {
        EncodesOp(enc, DeleteDocument(cid, id));
        SingleSilent(enc, st, DeleteDocument(cid, id), WithCollection(st, cid, RemoveFrom(c, id)));
      }
  }

  /** A call appends nothing exactly when its checks say so. */
  lemma SilentExactly(enc: Encoder, st: State, end: nat, call: Call)
    requires Identified(st) && Admissible(st, call)
    ensures |Perform(enc, st, end, call).records| == 0 <==> Silent(enc, st, call)
  {
    hide Single, Encode, HexIds, NewId, RemoveFrom, RecordsOf, CreateIndexIn, BatchFree, PrepareInserts, PrepareUpdates, DistinctIds, LiveBatch, WriteOne, Accepted, Existing;
    if call.OpenCollection? {
      NamedEncodes(enc, call.newId, call.name, Strings, false);
      SingleSilent(enc, st, NewCollection(call.newId, call.name),
                   State(st.collections[call.newId := Collection(call.name, map[], map[])], st.names[call.name := call.newId]));
    } else if call.cid in st.collections {
      var cid, c := call.cid, st.collections[call.cid];
      match call
      case InsertMany(_, _) => ManySilent(enc, st, end, call);
      case UpdateMany(_, _, _) => ManySilent(enc, st, end, call);
      case DeleteMany(_, ids) =>
        ExistingNone(c, ids);
        RecordsStart(enc, Deletes(cid, Existing(c, ids)));
      case MakeIndex(_, field, kind, unique) =>
        NamedEncodes(enc, cid, field, kind, unique);
        OneRecord(enc, CreateIndex(cid, field, kind, unique));
      case RemoveIndex(_, field) =>
        NamedEncodes(enc, cid, field, Strings, false);
        if field in c.indexes {
          SingleSilent(enc, st, DropIndex(cid, field), WithCollection(st, cid, DropIndexIn(c, field).value));
        }
      case Drop(_) =>
        NamedEncodes(enc, cid, [], Strings, false);
        SingleSilent(enc, st, DropCollection(cid), State(st.collections - {cid}, st.names - {c.name}));
      case _ => OneSilent(enc, st, end, call);
    }
  }

  lemma OneRecord(enc: Encoder, op: Operation)
    ensures |RecordsOf(enc, [op])| == 0 <==> Encode(enc, op).Err?
  {
    hide Encode;
  }

  lemma RecordsStart(enc: Encoder, ops: seq<Operation>)
    ensures |RecordsOf(enc, Envelope(ops))| > 0 && RecordsOf(enc, Envelope(ops))[0].identifier == TRANSACTION_BEGIN
  {
    hide Encode;
    MarkersEncode(enc);
    EncodeValid(enc, TransactionBegin);
    assert Envelope(ops)[0] == TransactionBegin;
  }

  lemma ManySilent(enc: Encoder, st: State, end: nat, call: Call)
    requires Identified(st) && Admissible(st, call) && (call.InsertMany? || call.UpdateMany?) && call.cid in st.collections
    ensures |Perform(enc, st, end, call).records| == 0 <==> !ChecksPass(st, call)
    ensures ChecksPass(st, call) ==> Perform(enc, st, end, call).records[0].identifier == TRANSACTION_BEGIN
  {
    hide RecordsOf, BatchFree, PrepareInserts, PrepareUpdates, DistinctIds, LiveBatch, Identified, Admissible;
    if ChecksPass(st, call) {
      RecordsStart(enc, Puts(call.cid, WritesOf(st, call)));
    }
  }

  // ---------------------------------------------------------------------------
  // When memory and file agree
  // ---------------------------------------------------------------------------

  /**
   After a call, opening the file gives the state in memory exactly when no transaction was open
   at the end of the log, or the call is one that appends nothing; and it is no index too long to be written.
   */
  lemma LiveEqualsReplayExactly(enc: Encoder, w: World, open: bool, call: Call)
    requires JustOpened(enc, w, open) && Admissible(w.db, call) && FaithfulCall(enc, w.db, call)
    ensures FILE_HEADER_BYTES <= |w.file|
    ensures OpensAs(enc, After(enc, w, call).file, After(enc, w, call).db) <==> (!open || Silent(enc, w.db, call)) && !Overlong(w.db, call)
  {
    hide ScanFrom, AllUnique, NamesConsistent, Sound, Admissible, FaithfulCall, ReplayFrom, OpenFile, Overlong;
    hide Perform, Shaped, OffsetsBelow, EncodeAll, StopsHalfway, Silent, EffectReplays;
    var e := EffectOf(enc, w, call);
    OpenedBelow(enc, w, open);
    SoundParts(w.db);
    CallReplays(enc, w.db, |w.file|, call);
    SilentExactly(enc, w.db, |w.file|, call);
    if Overlong(w.db, call) {
      OverlongEffect(enc, w.db, |w.file|, call);
      NothingEncoded(w.file);
    } else if |e.records| == 0 {
      NothingAppended(enc, w, e);
    } else if open {
      ThrowsHalfway(enc, w.db, |w.file|, call);
      if e.thrown {
        HalfwayShaped(enc, w.db, |w.file|, call);
      } else {
        CallShaped(enc, w.db, |w.file|, call);
      }
      AppendBehind(enc, w, e.records);
      assert e.records[0].identifier != TRANSACTION_BEGIN ==> e.next != w.db by {
        OnlyOne(e.records);
      }
    } else {
      assert Synced(enc, w);
      WholeEffect(enc, w, e);
    }
  }

  lemma OnlyOne(rs: seq<ValidRecord>)
    requires Shaped(rs) && |rs| > 0
    ensures rs[0].identifier == TRANSACTION_BEGIN || |rs| == 1
  {
  }

  lemma HalfwayShaped(enc: Encoder, st: State, end: nat, call: Call)
    requires Identified(st) && Admissible(st, call) && StopsHalfway(enc, st, call)
    ensures |Perform(enc, st, end, call).records| > 0 && Shaped(Perform(enc, st, end, call).records)
    ensures Perform(enc, st, end, call).records[0].identifier == TRANSACTION_BEGIN
  {
    hide Perform, Identified, Admissible, BatchFree, DistinctIds, WritesOf;
    ManySilent(enc, st, end, call);
  }

  lemma NothingAppended(enc: Encoder, w: World, e: Effect)
    requires EffectReplays(enc, w.db, |w.file|, e) && |e.records| == 0
    ensures e.next == w.db && w.file + EncodeAll(e.records) == w.file
  {
    assert Locate(e.records, |w.file|)[..0] == [];
    assert AfterPrefix(w.db, |w.file|, e, 0).db == w.db;
  }

  // ---------------------------------------------------------------------------
  // How a log comes to end inside a transaction
  // ---------------------------------------------------------------------------

  /** A batch that stops halfway changes no memory and leaves its transaction open at the end of the log. */
  lemma HalfwayLeavesOpen(enc: Encoder, w: World, call: Call)
    requires Synced(enc, w) && Admissible(w.db, call) && FaithfulCall(enc, w.db, call) && StopsHalfway(enc, w.db, call)
    ensures EffectOf(enc, w, call).thrown && After(enc, w, call).db == w.db
    ensures JustOpened(enc, After(enc, w, call), true)
  {
    hide ScanFrom, AllUnique, NamesConsistent, Sound, Admissible, FaithfulCall, ReplayFrom, Perform, EncodeAll, StopsHalfway, EffectReplays;
    var e := EffectOf(enc, w, call);
    SyncedLog(enc, w);
    SoundParts(w.db);
    CallReplays(enc, w.db, |w.file|, call);
    ThrowsHalfway(enc, w.db, |w.file|, call);
    HalfwayIsBatch(enc, w.db, call);
    ThrownKeeps(enc, w, e);
    WholeEffect(enc, w, e);
    ScanAppendAll(w.file, e.records);
  }

  lemma HalfwayIsBatch(enc: Encoder, st: State, call: Call)
    requires StopsHalfway(enc, st, call)
    ensures !Overlong(st, call)
  {
    hide BatchFree, WritesOf, Encodes, DistinctIds;
  }

  /** A document that cannot be encoded, and one that can. */
  datatype Mishap = Mishap(header: seq<byte>, cid: CollectionId, name: Str, badId: Str, bad: Doc, goodId: Str, good: Doc) {

    predicate Happens(enc: Encoder) {
      && |header| == FILE_HEADER_BYTES && |cid| == 4 && |name| <= U29_MAX_VALUE && IsObjectIdHex(badId) && IsObjectIdHex(goodId)
      && Get(bad, ID_FIELD).None? && !Encodes(enc, Identify(bad, badId))
      && Get(good, ID_FIELD).None? && Encodes(enc, Identify(good, goodId))
    }

    function Opened(enc: Encoder): World {
      After(enc, World(header, EMPTY), OpenCollection(name, cid))
    }

    function Batch(): Call {
      InsertMany(cid, [Insert(bad, badId)])
    }

    function Halfway(enc: Encoder): World {
      After(enc, Opened(enc), Batch())
    }

    function Next(): Call {
      InsertOne(cid, Insert(good, goodId))
    }
  }

  lemma MishapOpens(enc: Encoder, m: Mishap)
    requires m.Happens(enc)
    ensures Synced(enc, m.Opened(enc)) && m.Opened(enc).db == Opening(m.name, m.cid)
  {
    hide Synced, IsObjectIdHex, Get, Encodes, ScanFrom, Framed, After;
    var w := World(m.header, EMPTY);
    NamedEncodes(enc, m.cid, m.name, Strings, false);
    EmptySynced(enc, m.header);
    CallSynced(enc, w, OpenCollection(m.name, m.cid));
    OpenPlays(enc, m.header, m.name, m.cid);
  }

  lemma MishapStops(enc: Encoder, m: Mishap)
    requires m.Happens(enc)
    ensures var st := Opening(m.name, m.cid);
            Admissible(st, m.Batch()) && FaithfulCall(enc, st, m.Batch()) && StopsHalfway(enc, st, m.Batch())
  {
    hide Encodes, IsObjectIdHex, Get;
    var c := Collection(m.name, map[], map[]);
    var inserts := [Insert(m.bad, m.badId)];
    NewDocumentId(c, m.bad, m.badId);
    assert inserts[1..] == [] && PrepareInserts(c, []) == Ok([]);
    assert [Stored(m.bad, m.badId)] + [] == [Stored(m.bad, m.badId)];
    assert PrepareInserts(c, inserts) == Ok([Stored(m.bad, m.badId)]);
    Unencodable(enc, Stored(m.bad, m.badId).document);
  }

  lemma Unencodable(enc: Encoder, document: Doc)
    requires !Encodes(enc, document)
    ensures Faithful(enc, document)
  {
  }

  /**
   On a file that calls have written: a batch stopped halfway, and a later insert, which succeeds, is
   in memory and is gone when the file is opened.
   */
  lemma LaterInsertLost(enc: Encoder, m: Mishap)
    requires m.Happens(enc)
    ensures var w := m.Halfway(enc);
            && JustOpened(enc, w, true) && Admissible(w.db, m.Next()) && !EffectOf(enc, w, m.Next()).thrown
            && m.cid in After(enc, w, m.Next()).db.collections && m.goodId in After(enc, w, m.Next()).db.collections[m.cid].documents
            && |After(enc, w, m.Next()).file| >= FILE_HEADER_BYTES
            && OpenFile(enc, After(enc, w, m.Next()).file).Ok?
            && OpenFile(enc, After(enc, w, m.Next()).file).value.db == Opening(m.name, m.cid)
  {
    hide Encodes, IsObjectIdHex, Get, Synced, JustOpened, OpenFile, ScanFrom, Encode, Record.Encoded, Identify, EncodeAll, Shaped, Identifier;
    MishapOpens(enc, m);
    MishapStops(enc, m);
    HalfwayLeavesOpen(enc, m.Opened(enc), m.Batch());
    var w := m.Halfway(enc);
    var op := PutDocument(m.cid, m.goodId, Identify(m.good, m.goodId));
    EncodesOp(enc, op);
    InsertEffect(enc, w, m.cid, m.good, m.goodId);
    OneShaped(enc, op);
    AppendBehind(enc, w, [RecordOf(enc, op)]);
  }

  lemma InsertEffect(enc: Encoder, w: World, cid: CollectionId, document: Doc, id: Str)
    requires Plain(w.db, cid) && Get(document, ID_FIELD).None? && Encode(enc, PutDocument(cid, id, Identify(document, id))).Ok?
    ensures EffectOf(enc, w, InsertOne(cid, Insert(document, id)))
         == Effect([RecordOf(enc, PutDocument(cid, id, Identify(document, id)))], WithDocument(w.db, cid, id, Entry(|w.file|, Identify(document, id))), false)
  {
    hide Encode, WriteOne, Put, Get;
    NewDocumentId(w.db.collections[cid], document, id);
    PlainWrite(enc, w, cid, Stored(document, id), None);
  }

  lemma OneShaped(enc: Encoder, op: Operation)
    requires Encode(enc, op).Ok? && op.PutDocument?
    ensures Shaped([RecordOf(enc, op)]) && RecordOf(enc, op).identifier != TRANSACTION_BEGIN
  {
    hide EncodePayload, Identifier;
    EncodeValid(enc, op);
    IdentifiersDiffer(op);
  }

  // ---------------------------------------------------------------------------
  // How an index comes to be in memory only
  // ---------------------------------------------------------------------------

  /**
   The call throws, yet the index is in memory, filled; the same call again succeeds and does nothing. The
   file opens without the index.
   */
  lemma OverlongIndexLost(enc: Encoder, w: World, call: Call)
    requires Synced(enc, w) && Overlong(w.db, call)
    ensures var v := After(enc, w, call);
            && EffectOf(enc, w, call).thrown && v.file == w.file && |v.file| >= FILE_HEADER_BYTES
            && call.cid in v.db.collections && call.field in v.db.collections[call.cid].indexes
            && v.db.collections[call.cid].indexes[call.field]
               == Index(call.kind, call.unique, Postings(call.kind, call.field, w.db.collections[call.cid].documents))
            && EffectOf(enc, v, call) == Effect([], v.db, false)
            && OpenFile(enc, v.file) == Ok(Opened(w.db, false, v.file, false)) && call.field !in w.db.collections[call.cid].indexes
  {
    hide ScanFrom, AllUnique, NamesConsistent, Sound, Perform, OpenFile, ReplayFrom, Mirrors, Postings, Refile, EffectReplays, Identified;
    SyncedLog(enc, w);
    SoundParts(w.db);
    OverlongEffect(enc, w.db, |w.file|, call);
    NothingEncoded(w.file);
    var v := After(enc, w, call);
    RefileKeeps(v.db.collections[call.cid]);
    ExistingIndex(enc, v, call);
  }

  /** Creating an index that is there, with its own type and flag, has no effect. */
  lemma ExistingIndex(enc: Encoder, w: World, call: Call)
    requires call.MakeIndex? && call.cid in w.db.collections && |call.field| > 0 && call.field in w.db.collections[call.cid].indexes
    requires var i := w.db.collections[call.cid].indexes[call.field]; i.kind == call.kind && i.unique == call.unique
    requires RefileAll(w.db.collections[call.cid]) == w.db.collections[call.cid]
    ensures EffectOf(enc, w, call) == Effect([], w.db, false)
  {
    hide RefileAll, RecordsOf;
    assert w.db.collections[call.cid := w.db.collections[call.cid]] == w.db.collections;
  }

  /** An overlong name, in a collection just opened: such a call exists for every type and either flag. */
  lemma OverlongHappens(enc: Encoder, header: seq<byte>, name: Str, cid: CollectionId, field: Str, kind: IndexKind, unique: bool)
    requires |header| == FILE_HEADER_BYTES && |cid| == 4 && |name| <= U29_MAX_VALUE && |field| > U29_MAX_VALUE
    ensures var w := After(enc, World(header, EMPTY), OpenCollection(name, cid));
            Synced(enc, w) && Overlong(w.db, MakeIndex(cid, field, kind, unique))
  {
    hide Synced, ScanFrom, Framed, After, RefileAll;
    NamedEncodes(enc, cid, name, Strings, false);
    EmptySynced(enc, header);
    CallSynced(enc, World(header, EMPTY), OpenCollection(name, cid));
    OpenPlays(enc, header, name, cid);
    NewIndexNoDocuments(name, field, kind, unique);
  }

  lemma NewIndexNoDocuments(name: Str, field: Str, kind: IndexKind, unique: bool)
    requires |field| > 0
    ensures CreateIndexIn(Collection(name, map[], map[]), field, kind, unique).Ok?
  {
    var c := Collection(name, map[], map[]);
    NewIndexMirrors(c, field, kind, unique);
  }
}
