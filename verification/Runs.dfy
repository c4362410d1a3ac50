/**
 Whole runs of API calls over one file: memory and file stay in step, unique constraints hold,
 and a crash at any byte reopens at the state between two calls.
 */
module Runs {
  import opened Bytes
  import opened Records
  import opened LogScan
  import opened Documents
  import opened U29
  import opened Payloads
  import opened Operations
  import opened DatabaseState
  import opened Replay
  import opened Calls
  import opened LiveReplay
  import opened UniqueConstraint

  // ---------------------------------------------------------------------------
  // What holds of every replayed state
  // ---------------------------------------------------------------------------

  lemma {:induction false} HexDigits(bytes: seq<byte>)
    ensures forall i :: 0 <= i < |Hex(bytes)| ==> IsHexDigit(Hex(bytes)[i])
    decreases |bytes|
  {
    if |bytes| > 0 {
      HexDigits(bytes[1..]);
    }
  }

  lemma DecodedIds(enc: Encoder, r: Record)
    requires Decode(enc, r).Ok?
    ensures match Decode(enc, r).value
            case NewCollection(cid, _) => |cid| == 4
            case PutDocument(_, id, _) => IsObjectIdHex(id)
            case _ => true
  {
    hide ReadFramed, DecodeCreateIndex, Hex;
    match Decode(enc, r).value
    case PutDocument(_, id, _) => HexDigits(DecodePut(r.payload).value.documentId);
    case _ =>
  }

  predicate Sound(st: State) {
    AllMirror(st) && Identified(st)
  }

  lemma ApplyIdentified(st: State, op: Operation, offset: nat)
    requires Identified(st) && Apply(st, op, offset).Ok? && AllMirror(st)
    requires op.NewCollection? ==> |op.collectionId| == 4
    requires op.PutDocument? ==> IsObjectIdHex(op.id)
    ensures Identified(Apply(st, op, offset).value)
  {
    hide IsObjectIdHex, Mirrors, HexIds, PutInto, RemoveFrom, CreateIndexIn, DropIndexIn, Identified;
    if op.NewCollection? {
      KeepsHexIds(Collection(op.name, map[], map[]), []);
      CollectionIdentified(st, op.collectionId, Collection(op.name, map[], map[]), st.names[op.name := op.collectionId]);
    } else if op.DropCollection? {
      DroppedIdentified(st, op.collectionId, st.names - {st.collections[op.collectionId].name});
    } else if !op.Hole? {
      var cid := op.collectionId;
      var c := st.collections[cid];
      CollectionIs(st, cid);
      match op {
      case PutDocument(_, id, document) => PutKeepsHexIds(c, id, Entry(offset, document));
      case DeleteDocument(_, id) => KeepsHexIds(c, id);
      case CreateIndex(_, field, kind, unique) =>
        CreateIndexMirrors(c, field, kind, unique);
        SameHexIds(c, CreateIndexIn(c, field, kind, unique).value);
      case DropIndex(_, field) => DropKeepsHexIds(c, field);
      }
      CollectionIdentified(st, cid, Apply(st, op, offset).value.collections[cid], st.names);
    }
  }

  lemma CollectionIs(st: State, cid: CollectionId)
    requires Identified(st) && cid in st.collections
    ensures |cid| == 4 && HexIds(st.collections[cid])
  {
  }

  lemma CollectionIdentified(st: State, cid: CollectionId, c: Collection, names: map<Str, CollectionId>)
    requires Identified(st) && |cid| == 4 && HexIds(c)
    ensures Identified(State(st.collections[cid := c], names))
  {
    hide HexIds;
  }

  lemma DroppedIdentified(st: State, cid: CollectionId, names: map<Str, CollectionId>)
    requires Identified(st)
    ensures Identified(State(st.collections - {cid}, names))
  {
    hide HexIds;
  }

  lemma DropKeepsHexIds(c: Collection, field: Str)
    requires HexIds(c) && DropIndexIn(c, field).Ok?
    ensures HexIds(DropIndexIn(c, field).value)
  {
    hide IsObjectIdHex;
  }

  lemma PutKeepsHexIds(c: Collection, id: Str, entry: Entry)
    requires HexIds(c) && IsObjectIdHex(id)
    ensures HexIds(PutInto(c, id, entry))
  {
    hide KeyOf, IsObjectIdHex;
  }

  lemma KeepsHexIds(c: Collection, id: Str)
    ensures HexIds(c) ==> HexIds(RemoveFrom(c, id))
    ensures c.documents == map[] ==> HexIds(c)
  {
    hide IsObjectIdHex;
  }

  lemma SameHexIds(c: Collection, d: Collection)
    requires HexIds(c) && d.documents == c.documents
    ensures HexIds(d)
  {
    hide IsObjectIdHex;
  }

  lemma RecordSound(enc: Encoder, st: State, l: Located)
    requires Sound(st) && ApplyRecord(enc, st, l).Ok?
    ensures Sound(ApplyRecord(enc, st, l).value)
  {
    hide Decode, Apply, AllMirror, Identified, IsObjectIdHex;
    DecodedIds(enc, l.record);
    var op := Decode(enc, l.record).value;
    ApplyMirrors(st, op, l.offset);
    ApplyIdentified(st, op, l.offset);
  }

  lemma {:induction false} ApplyAllSound(enc: Encoder, st: State, ls: seq<Located>)
    requires Sound(st) && ApplyAll(enc, st, ls).Ok?
    ensures Sound(ApplyAll(enc, st, ls).value)
    decreases |ls|
  {
    hide ApplyRecord, Sound;
    if |ls| > 0 {
      var n := |ls| - 1;
      ApplyAllSound(enc, st, ls[..n]);
      RecordSound(enc, ApplyAll(enc, st, ls[..n]).value, ls[n]);
    }
  }

  /** In every state replay reaches, each index mirrors its documents. */
  lemma {:induction false} ReplaySound(enc: Encoder, start: Replayed, ls: seq<Located>)
    requires Sound(start.db) && ReplayFrom(enc, start, ls).Ok?
    ensures Sound(ReplayFrom(enc, start, ls).value.db)
    decreases |ls|
  {
    hide ApplyRecord, ApplyAll, Sound;
    if |ls| > 0 {
      var n := |ls| - 1;
      ReplaySound(enc, start, ls[..n]);
      var before := ReplayFrom(enc, start, ls[..n]).value;
      if before.staged.Some? {
        if ls[n].record.identifier == TRANSACTION_COMMIT {
          ApplyAllSound(enc, before.db, before.staged.value);
        }
      } else if ApplyRecord(enc, before.db, ls[n]).Ok? {
        RecordSound(enc, before.db, ls[n]);
      }
    }
  }

  // ---------------------------------------------------------------------------
  // Unique constraints, call by call
  // ---------------------------------------------------------------------------

  lemma CallKeepsUnique(enc: Encoder, st: State, end: nat, call: Call)
    requires AllMirror(st) && AllUnique(st) && Admissible(st, call)
    ensures AllUnique(Perform(enc, st, end, call).next)
  {
    hide Mirrors, UniqueHolds, Free, BatchFree, RecordsOf, PutInto, RemoveFrom, CreateIndexIn, LiveBatch, DistinctIds, IsObjectIdHex;
    hide PrepareInserts, PrepareUpdates, Stored, Existing;
    if !call.OpenCollection? && call.cid in st.collections {
      var c := st.collections[call.cid];
      assert Mirrors(c) && UniqueHolds(c);
      match call
      case InsertOne(cid, insert) =>
        var id := DocumentId(c, insert);
        if id.Ok? && Free(c, Stored(insert.document, id.value).document, None) {
          StoredId(insert.document, id.value);
          PutKeepsUnique(c, Stored(insert.document, id.value), None, end);
        }
      case InsertMany(cid, inserts) =>
        var writes := PrepareInserts(c, inserts);
        if writes.Ok? {
          BatchWriteKeepsUnique(enc, st, cid, writes.value, end);
        }
      case ReplaceOne(cid, id, document) =>
        StoredId(document, id);
        if Free(c, Stored(document, id).document, Some(id)) {
          PutKeepsUnique(c, Stored(document, id), Some(id), end);
        }
      case UpdateOne(cid, id, update) =>
        if id in c.documents && update(c.documents[id].document).Ok? {
          var document := update(c.documents[id].document).value;
          StoredId(document, id);
          if Free(c, Stored(document, id).document, Some(id)) {
            PutKeepsUnique(c, Stored(document, id), Some(id), end);
          }
        }
      case UpdateMany(cid, ids, update) =>
        var writes := PrepareUpdates(c, ids, update);
        if writes.Ok? {
          BatchWriteKeepsUnique(enc, st, cid, writes.value, end);
        }
      case DeleteOne(cid, id) => RemoveKeepsUnique(c, id);
      case DeleteMany(cid, ids) => BatchDeleteKeepsUnique(enc, st, cid, Existing(c, ids), end);
      case MakeIndex(cid, field, kind, unique) =>
        if CreateIndexIn(c, field, kind, unique).Ok? {
          CreateKeepsUnique(c, field, kind, unique);
        }
      case RemoveIndex(cid, field) =>
        if DropIndexIn(c, field).Ok? {
          DropIndexKeepsUnique(c, field);
        }
      case Drop(cid) =>
    } else {
      assert call.OpenCollection? ==> UniqueHolds(Collection(call.name, map[], map[])) by {
        EmptyUnique(if call.OpenCollection? then call.name else []);
      }
    }
  }

  lemma StoredId(document: Doc, id: Str)
    ensures Stored(document, id).id == id
  {
  }

  lemma EmptyUnique(name: Str)
    ensures UniqueHolds(Collection(name, map[], map[]))
  {
  }

  lemma RemoveKeepsUnique(c: Collection, id: Str)
    requires UniqueHolds(c)
    ensures UniqueHolds(RemoveFrom(c, id))
  {
    hide UniqueHolds;
    FewerKeepUnique(c, RemoveFrom(c, id));
  }

  lemma DropIndexKeepsUnique(c: Collection, field: Str)
    requires UniqueHolds(c) && DropIndexIn(c, field).Ok?
    ensures UniqueHolds(DropIndexIn(c, field).value)
  {
    hide KeyOf;
  }

  lemma BatchWriteKeepsUnique(enc: Encoder, st: State, cid: CollectionId, writes: seq<Write>, end: nat)
    requires AllMirror(st) && AllUnique(st) && cid in st.collections
    ensures AllUnique(WriteBatch(enc, st, cid, writes, end).next)
  {
    hide Mirrors, UniqueHolds, BatchFree, RecordsOf, LiveBatch;
    var c := st.collections[cid];
    assert Mirrors(c) && UniqueHolds(c);
    var e := WriteBatch(enc, st, cid, writes, end);
    if BatchFree(c, writes) && |writes| > 0 && !e.thrown {
      var ls := Locate(e.records, end)[1..|writes| + 1];
      PutsBatch(c, cid, writes, ls);
      BatchKeepsUnique(c, LiveBatch(c, Puts(cid, writes), ls), writes);
    }
  }

  lemma BatchDeleteKeepsUnique(enc: Encoder, st: State, cid: CollectionId, ids: seq<Str>, end: nat)
    requires AllUnique(st) && cid in st.collections
    ensures AllUnique(Batch(enc, st, cid, Deletes(cid, ids), end).next)
  {
    hide UniqueHolds, RecordsOf, LiveBatch;
    var c := st.collections[cid];
    assert UniqueHolds(c);
    var e := Batch(enc, st, cid, Deletes(cid, ids), end);
    if !e.thrown {
      var ls := Locate(e.records, end)[1..|ids| + 1];
      DeletesBatch(c, cid, ids, ls);
      FewerKeepUnique(c, LiveBatch(c, Deletes(cid, ids), ls));
    }
  }

  // ---------------------------------------------------------------------------
  // Collection names, call by call
  // ---------------------------------------------------------------------------

  lemma {:induction false} BatchKeepsName(c: Collection, ops: seq<Operation>, ls: seq<Located>)
    requires |ls| == |ops|
    ensures LiveBatch(c, ops, ls).name == c.name
    decreases |ops|
  {
    hide KeyOf;
    if |ops| > 0 {
      BatchKeepsName(c, ops[..|ops| - 1], ls[..|ls| - 1]);
    }
  }

  lemma RenamedNowhere(st: State, cid: CollectionId, c: Collection)
    requires NamesConsistent(st) && cid in st.collections && c.name == st.collections[cid].name
    ensures NamesConsistent(WithCollection(st, cid, c))
  {
  }

  lemma BatchKeepsNames(enc: Encoder, st: State, cid: CollectionId, ops: seq<Operation>, end: nat)
    requires NamesConsistent(st) && cid in st.collections
    ensures NamesConsistent(Batch(enc, st, cid, ops, end).next)
  {
    hide NamesConsistent, RecordsOf, LiveBatch;
    var e := Batch(enc, st, cid, ops, end);
    if !e.thrown {
      var ls := Locate(e.records, end)[1..|ops| + 1];
      BatchKeepsName(st.collections[cid], ops, ls);
      RenamedNowhere(st, cid, LiveBatch(st.collections[cid], ops, ls));
    }
  }

  lemma ChangeKeepsName(c: Collection, id: Str, entry: Entry, field: Str, kind: IndexKind, unique: bool)
    ensures PutInto(c, id, entry).name == c.name && RemoveFrom(c, id).name == c.name
    ensures CreateIndexIn(c, field, kind, unique).Ok? ==> CreateIndexIn(c, field, kind, unique).value.name == c.name
    ensures DropIndexIn(c, field).Ok? ==> DropIndexIn(c, field).value.name == c.name
  {
    hide KeyOf, HasDuplicate;
  }

  lemma OpeningKeepsNames(st: State, name: Str, newId: CollectionId)
    requires NamesConsistent(st) && name !in st.names && newId !in st.collections
    ensures NamesConsistent(State(st.collections[newId := Collection(name, map[], map[])], st.names[name := newId]))
  {
  }

  lemma DroppingKeepsNames(st: State, cid: CollectionId)
    requires NamesConsistent(st) && cid in st.collections
    ensures NamesConsistent(State(st.collections - {cid}, st.names - {st.collections[cid].name}))
  {
  }

  lemma WriteOneKeepsNames(enc: Encoder, st: State, cid: CollectionId, w: Write, exclude: Option<Str>, end: nat)
    requires NamesConsistent(st) && cid in st.collections
    ensures NamesConsistent(WriteOne(enc, st, cid, w, exclude, end).next)
  {
    hide NamesConsistent, RecordsOf, PutInto, CreateIndexIn, DropIndexIn, RemoveFrom, Free;
    var c := st.collections[cid];
    var entry := Entry(end, w.document);
    ChangeKeepsName(c, w.id, entry, [], Strings, false);
    RenamedNowhere(st, cid, PutInto(c, w.id, entry));
  }

  lemma WriteBatchKeepsNames(enc: Encoder, st: State, cid: CollectionId, writes: seq<Write>, end: nat)
    requires NamesConsistent(st) && cid in st.collections
    ensures NamesConsistent(WriteBatch(enc, st, cid, writes, end).next)
  {
    hide NamesConsistent, Batch, BatchFree;
    BatchKeepsNames(enc, st, cid, Puts(cid, writes), end);
  }

  /** Every collection keeps its name, and names stay unique. */
  lemma CallKeepsNames(enc: Encoder, st: State, end: nat, call: Call)
    requires NamesConsistent(st) && Admissible(st, call)
    ensures NamesConsistent(Perform(enc, st, end, call).next)
  {
    hide NamesConsistent, RecordsOf, WriteOne, WriteBatch, Batch, PutInto, RemoveFrom, CreateIndexIn, DropIndexIn, DistinctIds;
    hide PrepareInserts, PrepareUpdates, Stored, Existing, DocumentId, NewId;
    if call.OpenCollection? {
      if call.name !in st.names {
        OpeningKeepsNames(st, call.name, call.newId);
      }
    } else if call.cid in st.collections {
      var cid, c := call.cid, st.collections[call.cid];
      match call
      case InsertOne(_, insert) =>
        var id := DocumentId(c, insert);
        if id.Ok? {
          WriteOneKeepsNames(enc, st, cid, Stored(insert.document, id.value), None, end);
        }
      case InsertMany(_, inserts) =>
        if PrepareInserts(c, inserts).Ok? {
          WriteBatchKeepsNames(enc, st, cid, PrepareInserts(c, inserts).value, end);
        }
      case ReplaceOne(_, id, document) => WriteOneKeepsNames(enc, st, cid, Stored(document, id), Some(id), end);
      case UpdateOne(_, id, update) =>
        if id in c.documents && update(c.documents[id].document).Ok? {
          WriteOneKeepsNames(enc, st, cid, Stored(update(c.documents[id].document).value, id), Some(id), end);
        }
      case UpdateMany(_, ids, update) =>
        if PrepareUpdates(c, ids, update).Ok? {
          WriteBatchKeepsNames(enc, st, cid, PrepareUpdates(c, ids, update).value, end);
        }
      case DeleteOne(_, id) =>
        ChangeKeepsName(c, id, Entry(0, []), [], Strings, false);
        RenamedNowhere(st, cid, RemoveFrom(c, id));
      case DeleteMany(_, ids) => BatchKeepsNames(enc, st, cid, Deletes(cid, Existing(c, ids)), end);
      case MakeIndex(_, field, kind, unique) =>
        ChangeKeepsName(c, [], Entry(0, []), field, kind, unique);
        if CreateIndexIn(c, field, kind, unique).Ok? {
          RenamedNowhere(st, cid, CreateIndexIn(c, field, kind, unique).value);
        }
      case RemoveIndex(_, field) =>
        ChangeKeepsName(c, [], Entry(0, []), field, Strings, false);
        if DropIndexIn(c, field).Ok? {
          RenamedNowhere(st, cid, DropIndexIn(c, field).value);
        }
      case Drop(_) => DroppingKeepsNames(st, cid);
    }
  }

  // ---------------------------------------------------------------------------
  // A file and the database in memory over it
  // ---------------------------------------------------------------------------

  datatype World = World(file: seq<byte>, db: State)

  /** Opening the file gives the state in memory: no transaction open, nothing to recover; unique constraints and names are in order. */
  predicate Synced(enc: Encoder, w: World) {
    && |w.file| >= FILE_HEADER_BYTES
    && OpenFile(enc, w.file) == Ok(Opened(w.db, false, w.file, false))
    && AllUnique(w.db) && NamesConsistent(w.db)
  }

  /** A database just opened, nothing to recover, with or without a transaction open at the end of its log. */
  predicate JustOpened(enc: Encoder, w: World, open: bool) {
    && |w.file| >= FILE_HEADER_BYTES && ScanLog(w.file).status.Clean?
    && OpenFile(enc, w.file) == Ok(Opened(w.db, open, w.file, false))
    && AllUnique(w.db) && NamesConsistent(w.db)
  }

  predicate Encodes(enc: Encoder, document: Doc) {
    enc.encode(document).Ok? && |enc.encode(document).value| <= U29_MAX_VALUE
  }

  /** The batch of a call that passed every check, if it is a batch of documents. */
  predicate ChecksPass(st: State, call: Call) {
    && (call.InsertMany? || call.UpdateMany?) && call.cid in st.collections
    && |WritesOf(st, call)| > 0 && BatchFree(st.collections[call.cid], WritesOf(st, call))
    && (call.InsertMany? ==> DistinctIds(WritesOf(st, call)))
  }

  /** A batch that passes every check and holds a document that cannot be encoded: it stops between begin and commit. */
  predicate StopsHalfway(enc: Encoder, st: State, call: Call) {
    ChecksPass(st, call) && exists w :: w in WritesOf(st, call) && !Encodes(enc, w.document)
  }

  /**
   The call's ids are new, what the encoder accepts of its documents it can read back, it is no batch
   that stops halfway and no index whose name is too long to be written. A single document that cannot
   be encoded is reasonable: the call throws. So is an overlong name that is refused before memory changes.
   */
  predicate Reasonable(enc: Encoder, st: State, call: Call) {
    Admissible(st, call) && FaithfulCall(enc, st, call) && !StopsHalfway(enc, st, call) && !Overlong(st, call)
  }

  function EffectOf(enc: Encoder, w: World, call: Call): Effect
  {
    Perform(enc, w.db, |w.file|, call)
  }

  function After(enc: Encoder, w: World, call: Call): World
  {
    var e := EffectOf(enc, w, call);
    World(w.file + EncodeAll(e.records), e.next)
  }

  lemma EmptySynced(enc: Encoder, header: seq<byte>)
    requires |header| == FILE_HEADER_BYTES
    ensures Synced(enc, World(header, EMPTY))
  {
    StepAtEnd(header);
    assert ScanLog(header) == Scan([], 12, Clean);
    assert header[..12] == header;
  }

  /** What opening makes of a log, record by record. */
  lemma OpenLog(enc: Encoder, file: seq<byte>)
    requires |file| >= FILE_HEADER_BYTES && !ScanLog(file).status.Corrupted?
    ensures var s := ScanLog(file);
            var r := ReplayLog(enc, s.records);
            && OpenFile(enc, file).Ok? == r.Ok?
            && (r.Ok? ==> OpenFile(enc, file) == Ok(Opened(r.value.db, r.value.staged.Some?, file[..s.stop], s.status.TornTail?)))
  {
  }

  lemma SyncedLog(enc: Encoder, w: World)
    requires Synced(enc, w)
    ensures ScanLog(w.file).status.Clean?
    ensures ReplayLog(enc, ScanLog(w.file).records) == Ok(Replayed(w.db, None))
    ensures Sound(w.db)
  {
    hide ReplayFrom, ScanFrom, AllUnique, Sound;
    OpenLog(enc, w.file);
    var s := ScanLog(w.file);
    ReplaySound(enc, Replayed(EMPTY, None), s.records) by {
      EmptySound();
    }
  }

  lemma EmptySound()
    ensures Sound(EMPTY)
  {
  }

  /** What opening finds when the first `n` bytes of an effect reached the file. */
  function CutOpening(w: World, e: Effect, n: nat): Opened
    requires n <= |EncodeAll(e.records)|
  {
    var k := WholeRecords(e.records, n);
    var after := AfterPrefix(w.db, |w.file|, e, k);
    var whole := EncodeAll(e.records[..k]);
    Opened(after.db, after.staged.Some?, w.file + whole, |whole| < n)
  }

  lemma EffectCut(enc: Encoder, w: World, e: Effect, n: nat)
    requires Synced(enc, w) && EffectReplays(enc, w.db, |w.file|, e) && n <= |EncodeAll(e.records)|
    ensures OpenFile(enc, w.file + EncodeAll(e.records)[..n]) == Ok(CutOpening(w, e, n))
  {
    hide ScanFrom, AllUnique, Sound, ReplayFrom, EncodeAll, Locate, WholeRecords, Synced;
    var k := WholeRecords(e.records, n);
    var cut := w.file + EncodeAll(e.records)[..n];
    SyncedLog(enc, w);
    ScanAppendCut(w.file, e.records, n);
    LocatePrefix(e.records, k, |w.file|);
    ReplaySplits(enc, Replayed(EMPTY, None), ScanLog(w.file).records, Locate(e.records, |w.file|)[..k]);
    OpenLog(enc, cut);
    WholePrefix(e.records, n);
    assert cut[..|w.file| + |EncodeAll(e.records[..k])|] == w.file + EncodeAll(e.records[..k]);
  }

  lemma WholePrefix(rs: seq<ValidRecord>, n: nat)
    requires n <= |EncodeAll(rs)|
    ensures var whole := EncodeAll(rs[..WholeRecords(rs, n)]);
            |whole| <= n && whole == EncodeAll(rs)[..|whole|]
  {
    hide EncodeAll;
    var k := WholeRecords(rs, n);
    WholeRecordsExact(rs, n);
    EncodeAllAppend(rs[..k], rs[k..]);
    assert rs == rs[..k] + rs[k..];
  }

  lemma SoundParts(st: State)
    requires Sound(st)
    ensures AllMirror(st) && Identified(st)
  {
  }

  lemma {:induction false} LocatePrefix(rs: seq<ValidRecord>, k: nat, base: nat)
    requires k <= |rs|
    ensures Locate(rs[..k], base) == Locate(rs, base)[..k]
    decreases k
  {
    hide Record.Encoded;
    if k > 0 {
      assert rs[..k][1..] == rs[1..][..k - 1];
      LocatePrefix(rs[1..], k - 1, base + rs[0].Length());
    }
  }

  // ---------------------------------------------------------------------------
  // Which calls leave a transaction open
  // ---------------------------------------------------------------------------

  lemma {:induction false} AllEncoded(enc: Encoder, ops: seq<Operation>)
    ensures |RecordsOf(enc, ops)| == |ops| <==> forall i :: 0 <= i < |ops| ==> Encode(enc, ops[i]).Ok?
    decreases |ops|
  {
    hide Encode;
    if |ops| > 0 && Encode(enc, ops[0]).Ok? {
      EncodeValid(enc, ops[0]);
      AllEncoded(enc, ops[1..]);
      assert RecordsOf(enc, ops) == [Encode(enc, ops[0]).value] + RecordsOf(enc, ops[1..]);
      assert forall i :: 1 <= i < |ops| ==> ops[i] == ops[1..][i - 1];
    }
  }

  lemma EncodesOp(enc: Encoder, op: Operation)
    requires op.PutDocument? || op.DeleteDocument?
    requires |op.collectionId| == 4 && IsObjectIdHex(op.id)
    ensures Encode(enc, op).Ok? <==> (op.PutDocument? ==> Encodes(enc, op.document))
  {
    hide Framed, Unhex;
  }

  /** A batch is written whole exactly when every document can be encoded. */
  lemma WholeBatch(enc: Encoder, ops: seq<Operation>)
    requires forall op :: op in ops ==> (op.PutDocument? || op.DeleteDocument?) && |op.collectionId| == 4 && IsObjectIdHex(op.id)
    ensures |RecordsOf(enc, Envelope(ops))| > 0
    ensures |RecordsOf(enc, Envelope(ops))| == |ops| + 2 <==>
              forall op :: op in ops && op.PutDocument? ==> Encodes(enc, op.document)
  {
    hide Encode, Encodes, IsObjectIdHex;
    var all := Envelope(ops);
    AllEncoded(enc, all);
    assert Encode(enc, all[0]).Ok? && Encode(enc, all[|ops| + 1]).Ok? by { MarkersEncode(enc); }
    assert |RecordsOf(enc, all)| > 0;
    forall i | 0 <= i < |ops|
      ensures all[i + 1] == ops[i] && (Encode(enc, ops[i]).Ok? <==> (ops[i].PutDocument? ==> Encodes(enc, ops[i].document)))
    {
      assert ops[i] in ops;
      EncodesOp(enc, ops[i]);
    }
    assert forall i :: 0 <= i < |all| ==> i == 0 || i == |ops| + 1 || all[i] == ops[i - 1];
  }

  lemma MarkersEncode(enc: Encoder)
    ensures Encode(enc, TransactionBegin).Ok? && Encode(enc, TransactionCommit).Ok?
  {
  }

  predicate HexWrites(writes: seq<Write>) {
    forall w :: w in writes ==> IsObjectIdHex(w.id)
  }

  lemma {:induction false} InsertsHex(c: Collection, inserts: seq<Insert>)
    requires PrepareInserts(c, inserts).Ok? && forall i :: i in inserts ==> IsObjectIdHex(i.freshId)
    ensures HexWrites(PrepareInserts(c, inserts).value)
    decreases |inserts|
  {
    hide IsObjectIdHex;
    if |inserts| > 0 {
      assert inserts[0] in inserts;
      InsertsHex(c, inserts[1..]);
    }
  }

  lemma {:induction false} UpdatesHex(c: Collection, ids: seq<Str>, update: Doc -> Result<Doc>)
    requires PrepareUpdates(c, ids, update).Ok? && HexIds(c)
    ensures HexWrites(PrepareUpdates(c, ids, update).value)
    decreases |ids|
  {
    hide IsObjectIdHex;
    if |ids| > 0 {
      if ids[0] !in c.documents || update(c.documents[ids[0]].document).Ok? {
        UpdatesHex(c, ids[1..], update);
      }
    }
  }

  lemma BatchThrows(enc: Encoder, st: State, end: nat, call: Call)
    requires Identified(st) && Admissible(st, call) && ChecksPass(st, call)
    ensures var e := Perform(enc, st, end, call);
            && |e.records| > 0
            && (e.thrown <==> exists w :: w in WritesOf(st, call) && !Encodes(enc, w.document))
  {
    hide Encode, Encodes, BatchFree, RecordsOf, IsObjectIdHex, DistinctIds, LiveBatch, PrepareInserts, PrepareUpdates;
    var c, writes := st.collections[call.cid], WritesOf(st, call);
    if call.InsertMany? {
      assert forall i :: i in call.inserts ==> NewId(st, call.cid, i.freshId);
      InsertsHex(c, call.inserts);
    } else {
      UpdatesHex(c, call.ids, call.update);
    }
    var ops := Puts(call.cid, writes);
    forall op | op in ops
      ensures op.PutDocument? && |op.collectionId| == 4 && IsObjectIdHex(op.id)
    {
      var i :| 0 <= i < |ops| && op == ops[i];
      assert writes[i] in writes;
    }
    WholeBatch(enc, ops);
    assert forall i :: 0 <= i < |writes| ==> ops[i] in ops && writes[i] in writes;
  }

  lemma DeletesWhole(enc: Encoder, st: State, end: nat, cid: CollectionId, ids: seq<Str>)
    requires Identified(st) && cid in st.collections && forall id :: id in ids ==> id in st.collections[cid].documents
    ensures !Batch(enc, st, cid, Deletes(cid, ids), end).thrown
  {
    hide IsObjectIdHex, RecordsOf, LiveBatch;
    var ops := Deletes(cid, ids);
    forall op | op in ops
      ensures op.DeleteDocument? && |op.collectionId| == 4 && IsObjectIdHex(op.id)
    {
      var i :| 0 <= i < |ops| && op == ops[i];
      assert HexIds(st.collections[cid]) && ids[i] in ids;
    }
    WholeBatch(enc, ops);
  }

  /**
   A call that throws has appended something exactly when it is a batch of documents that
   passed its checks and holds one that cannot be encoded.
   */
  lemma ThrowsHalfway(enc: Encoder, st: State, end: nat, call: Call)
    requires Identified(st) && Admissible(st, call)
    ensures var e := Perform(enc, st, end, call);
            e.thrown && |e.records| > 0 <==> StopsHalfway(enc, st, call)
  {
    hide Encode, Encodes, BatchFree, RecordsOf, DistinctIds, LiveBatch, PrepareInserts, PrepareUpdates, Identified;
    hide Free, PutInto, RemoveFrom, Stored, Existing, CreateIndexIn, NewId, DocumentId, DropIndexIn;
    if ChecksPass(st, call) {
      BatchThrows(enc, st, end, call);
    } else if call.DeleteMany? && call.cid in st.collections {
      DeletesWhole(enc, st, end, call.cid, Existing(st.collections[call.cid], call.ids));
    }
  }

  // ---------------------------------------------------------------------------
  // Runs
  // ---------------------------------------------------------------------------

  /** A reasonable call keeps file and memory in step; if it throws, it changes neither. */
  lemma CallSynced(enc: Encoder, w: World, call: Call)
    requires Synced(enc, w) && Reasonable(enc, w.db, call)
    ensures Synced(enc, After(enc, w, call))
    ensures EffectOf(enc, w, call).thrown ==> After(enc, w, call) == w
    ensures EffectReplays(enc, w.db, |w.file|, EffectOf(enc, w, call))
  {
    hide Perform, ReplayFrom, ScanFrom, AllUnique, NamesConsistent, Sound, Admissible, FaithfulCall, StopsHalfway, Overlong;
    var e := EffectOf(enc, w, call);
    SyncedLog(enc, w);
    SoundParts(w.db);
    CallReplays(enc, w.db, |w.file|, call);
    ThrowsHalfway(enc, w.db, |w.file|, call);
    CallKeepsUnique(enc, w.db, |w.file|, call);
    CallKeepsNames(enc, w.db, |w.file|, call);
    if e.thrown {
      assert w.file + EncodeAll(e.records) == w.file;
    } else {
      WholeEffect(enc, w, e);
    }
  }

  lemma NothingEncoded(file: seq<byte>)
    ensures file + EncodeAll([]) == file
  {
  }

  /** So file and memory stay in step exactly when the call is no batch that stops halfway and no index too long to be written. */
  lemma CallSyncedExactly(enc: Encoder, w: World, call: Call)
    requires Synced(enc, w) && Admissible(w.db, call) && FaithfulCall(enc, w.db, call)
    ensures Synced(enc, After(enc, w, call)) <==> !StopsHalfway(enc, w.db, call) && !Overlong(w.db, call)
  {
    hide Perform, ReplayFrom, ScanFrom, AllUnique, NamesConsistent, Sound, Admissible, FaithfulCall, StopsHalfway, Overlong, EffectReplays, Identified;
    var e := EffectOf(enc, w, call);
    SyncedLog(enc, w);
    SoundParts(w.db);
    if Overlong(w.db, call) {
      OverlongEffect(enc, w.db, |w.file|, call);
      NothingEncoded(w.file);
    } else if StopsHalfway(enc, w.db, call) {
      CallReplays(enc, w.db, |w.file|, call);
      ThrowsHalfway(enc, w.db, |w.file|, call);
      WholeEffect(enc, w, e);
    } else {
      CallSynced(enc, w, call);
    }
  }

  lemma WholeEffect(enc: Encoder, w: World, e: Effect)
    requires Synced(enc, w) && EffectReplays(enc, w.db, |w.file|, e)
    ensures var file := w.file + EncodeAll(e.records);
            OpenFile(enc, file) == Ok(Opened(e.next, e.thrown && |e.records| > 0, file, false))
  {
    hide EffectReplays, Synced, ScanFrom, ReplayFrom;
    var n := |EncodeAll(e.records)|;
    EffectCut(enc, w, e, n);
    WholeRecordsAll(e.records);
    assert EncodeAll(e.records)[..n] == EncodeAll(e.records) && e.records[..|e.records|] == e.records;
    if e.thrown {
      ThrownKeeps(enc, w, e);
    }
  }

  lemma ThrownKeeps(enc: Encoder, w: World, e: Effect)
    requires EffectReplays(enc, w.db, |w.file|, e) && e.thrown
    ensures e.next == w.db
  {
  }

  lemma {:induction false} WholeRecordsAll(rs: seq<ValidRecord>)
    ensures WholeRecords(rs, |EncodeAll(rs)|) == |rs|
    decreases |rs|
  {
    hide Record.Encoded;
    if |rs| > 0 {
      WholeRecordsAll(rs[1..]);
    }
  }

  function Run(enc: Encoder, w: World, calls: seq<Call>): World {
    if |calls| == 0 then w else After(enc, Run(enc, w, calls[..|calls| - 1]), calls[|calls| - 1])
  }

  predicate ReasonableRun(enc: Encoder, w: World, calls: seq<Call>) {
    forall i :: 0 <= i < |calls| ==> Reasonable(enc, Run(enc, w, calls[..i]).db, calls[i])
  }

  lemma ShorterRun(enc: Encoder, w: World, calls: seq<Call>, m: nat)
    requires ReasonableRun(enc, w, calls) && m <= |calls|
    ensures ReasonableRun(enc, w, calls[..m])
  {
    hide Run, Reasonable;
    forall i | 0 <= i < m
      ensures Reasonable(enc, Run(enc, w, calls[..m][..i]).db, calls[..m][i])
    {
      assert calls[..m][..i] == calls[..i];
    }
  }

  /**
   After every call of every run, opening the file gives the state in memory, and no two
   documents share a value under a unique index.
   */
  lemma {:induction false} RunSynced(enc: Encoder, w: World, calls: seq<Call>)
    requires Synced(enc, w) && ReasonableRun(enc, w, calls)
    ensures Synced(enc, Run(enc, w, calls))
    decreases |calls|
  {
    hide Synced, After, Reasonable;
    if |calls| > 0 {
      var m := |calls| - 1;
      ShorterRun(enc, w, calls, m);
      RunSynced(enc, w, calls[..m]);
      assert Reasonable(enc, Run(enc, w, calls[..m]).db, calls[m]);
      CallSynced(enc, Run(enc, w, calls[..m]), calls[m]);
    }
  }

  lemma {:induction false} RunGrows(enc: Encoder, w: World, calls: seq<Call>)
    ensures |w.file| <= |Run(enc, w, calls).file|
    decreases |calls|
  {
    hide EffectOf;
    if |calls| > 0 {
      RunGrows(enc, w, calls[..|calls| - 1]);
    }
  }

  predicate OpensAs(enc: Encoder, file: seq<byte>, db: State)
    requires |file| >= FILE_HEADER_BYTES
  {
    OpenFile(enc, file).Ok? && OpenFile(enc, file).value.db == db
  }

  /** What a process has after opening a file: the file without a torn tail, and its memory. */
  function Reopened(enc: Encoder, file: seq<byte>): World
    requires |file| >= FILE_HEADER_BYTES && OpenFile(enc, file).Ok?
  {
    World(OpenFile(enc, file).value.file, OpenFile(enc, file).value.db)
  }

  /** The state after `k` calls, `k` the last call whose bytes all lie in the first `n`. */
  predicate OpensAfter(enc: Encoder, w: World, calls: seq<Call>, n: nat, k: nat) {
    && k <= |calls| && FILE_HEADER_BYTES <= n <= |Run(enc, w, calls).file|
    && |Run(enc, w, calls[..k]).file| <= n
    && (k < |calls| ==> n < |Run(enc, w, calls[..k + 1]).file|)
    && OpensAs(enc, Run(enc, w, calls).file[..n], Run(enc, w, calls[..k]).db)
  }

  /** The call after `k` calls has its first record, but not all of them, in the first `n` bytes. */
  predicate CutInside(enc: Encoder, w: World, calls: seq<Call>, n: nat, k: nat) {
    && k < |calls| && n < |Run(enc, w, calls[..k + 1]).file|
    && var before := Run(enc, w, calls[..k]);
       var rs := EffectOf(enc, before, calls[k]).records;
       |rs| > 0 && |before.file| + rs[0].Length() <= n
  }

  /** Opening what opening has left finds the same, and nothing to recover. */
  lemma OpensAgain(enc: Encoder, file: seq<byte>)
    requires |file| >= FILE_HEADER_BYTES && OpenFile(enc, file).Ok?
    ensures var o := OpenFile(enc, file).value;
            FILE_HEADER_BYTES <= |o.file| && OpenFile(enc, o.file) == Ok(o.(recovered := false)) && ScanLog(o.file).status.Clean?
  {
    hide ReplayFrom, ScanFrom;
    var s := ScanLog(file);
    if s.status.TornTail? {
      ScanTruncated(file, FILE_HEADER_BYTES);
    } else {
      assert file[..|file|] == file;
    }
    assert file[..s.stop][..s.stop] == file[..s.stop];
  }

  /**
   Crash atomicity: the file of any run, cut at any byte the run has written, opens, and the
   state is that after some prefix of the calls. A batch is wholly visible or not at all. What has been
   opened is in step with its file again exactly when the cut is not inside a transaction; otherwise the
   transaction is open at the end of the log.
   */
  lemma {:induction false} CrashAtomicity(enc: Encoder, w: World, calls: seq<Call>, n: nat) returns (k: nat)
    requires Synced(enc, w) && ReasonableRun(enc, w, calls)
    requires |w.file| <= n <= |Run(enc, w, calls).file|
    ensures OpensAfter(enc, w, calls, n, k)
    ensures JustOpened(enc, Reopened(enc, Run(enc, w, calls).file[..n]), CutInside(enc, w, calls, n, k))
    ensures Synced(enc, Reopened(enc, Run(enc, w, calls).file[..n])) <==> !CutInside(enc, w, calls, n, k)
    decreases |calls|
  {
    hide Synced, EffectOf, OpenFile, ReasonableRun, Run, OpensAfter, CutInside, JustOpened;
    var m := |calls|;
    assert calls[..m] == calls;
    if n == |Run(enc, w, calls).file| {
      k := m;
      CutNowhere(enc, w, calls);
    } else {
      var last := m - 1;
      NoCalls(enc, w, calls);
      ShorterRun(enc, w, calls, last);
      if |Run(enc, w, calls[..last]).file| <= n {
        k := last;
        CutInLast(enc, w, calls, n);
      } else {
        k := CrashAtomicity(enc, w, calls[..last], n);
        CutEarlier(enc, w, calls, n, k);
      }
    }
  }

  lemma NoCalls(enc: Encoder, w: World, calls: seq<Call>)
    ensures |calls| == 0 ==> Run(enc, w, calls) == w
  {
  }

  lemma RunExtends(enc: Encoder, w: World, calls: seq<Call>)
    requires |calls| > 0
    ensures Run(enc, w, calls[..|calls| - 1]).file <= Run(enc, w, calls).file
  {
    hide EffectOf, EncodeAll;
  }

  lemma CutNowhere(enc: Encoder, w: World, calls: seq<Call>)
    requires Synced(enc, w) && ReasonableRun(enc, w, calls)
    ensures var n := |Run(enc, w, calls).file|;
            && OpensAfter(enc, w, calls, n, |calls|) && !CutInside(enc, w, calls, n, |calls|)
            && JustOpened(enc, Reopened(enc, Run(enc, w, calls).file[..n]), false) && Synced(enc, Reopened(enc, Run(enc, w, calls).file[..n]))
  {
    hide EffectOf, OpenFile, ReasonableRun, Run, ScanFrom, AllUnique, NamesConsistent;
    var final := Run(enc, w, calls);
    RunSynced(enc, w, calls);
    SyncedLog(enc, final);
    assert calls[..|calls|] == calls && final.file[..|final.file|] == final.file;
  }

  lemma CutInLast(enc: Encoder, w: World, calls: seq<Call>, n: nat)
    requires Synced(enc, w) && ReasonableRun(enc, w, calls) && |calls| > 0
    requires |Run(enc, w, calls[..|calls| - 1]).file| <= n < |Run(enc, w, calls).file|
    ensures var last := |calls| - 1;
            && OpensAfter(enc, w, calls, n, last)
            && JustOpened(enc, Reopened(enc, Run(enc, w, calls).file[..n]), CutInside(enc, w, calls, n, last))
            && (Synced(enc, Reopened(enc, Run(enc, w, calls).file[..n])) <==> !CutInside(enc, w, calls, n, last))
  {
    hide Synced, EffectOf, OpenFile, JustOpened, After, Reasonable;
    var last := |calls| - 1;
    assert calls[..last + 1] == calls;
    ShorterRun(enc, w, calls, last);
    RunSynced(enc, w, calls[..last]);
    assert Reasonable(enc, Run(enc, w, calls[..last]).db, calls[last]);
    CutLastCall(enc, Run(enc, w, calls[..last]), calls[last], n);
  }

  lemma CutEarlier(enc: Encoder, w: World, calls: seq<Call>, n: nat, k: nat)
    requires |calls| > 0 && n < |Run(enc, w, calls[..|calls| - 1]).file|
    requires OpensAfter(enc, w, calls[..|calls| - 1], n, k)
    ensures OpensAfter(enc, w, calls, n, k)
    ensures Run(enc, w, calls).file[..n] == Run(enc, w, calls[..|calls| - 1]).file[..n]
    ensures CutInside(enc, w, calls, n, k) <==> CutInside(enc, w, calls[..|calls| - 1], n, k)
  {
    hide OpensAs, Run, CutInside, OpensAfter;
    RunExtends(enc, w, calls);
    CutWithin(enc, w, calls[..|calls| - 1], n, k);
    SameCut(enc, w, calls[..|calls| - 1], calls, n, k);
  }

  lemma CutWithin(enc: Encoder, w: World, calls: seq<Call>, n: nat, k: nat)
    requires OpensAfter(enc, w, calls, n, k) && n < |Run(enc, w, calls).file|
    ensures k < |calls|
  {
    hide OpensAs, Run;
    assert calls[..|calls|] == calls;
  }

  lemma SameCut(enc: Encoder, w: World, calls: seq<Call>, longer: seq<Call>, n: nat, k: nat)
    requires k < |calls| && calls <= longer
    requires n <= |Run(enc, w, calls).file| && Run(enc, w, calls).file <= Run(enc, w, longer).file
    ensures Run(enc, w, longer).file[..n] == Run(enc, w, calls).file[..n]
    ensures OpensAfter(enc, w, calls, n, k) <==> OpensAfter(enc, w, longer, n, k)
    ensures CutInside(enc, w, calls, n, k) <==> CutInside(enc, w, longer, n, k)
  {
    hide Run, EffectOf, OpensAs;
    assert calls[..k] == longer[..k] && calls[..k + 1] == longer[..k + 1];
  }

  lemma SyncedHeader(enc: Encoder, w: World)
    requires Synced(enc, w)
    ensures FILE_HEADER_BYTES <= |w.file|
  {
  }

  lemma SyncedOpens(enc: Encoder, w: World)
    requires Synced(enc, w)
    ensures OpenFile(enc, w.file) == Ok(Opened(w.db, false, w.file, false))
  {
  }

  lemma CutLastCall(enc: Encoder, w: World, call: Call, n: nat)
    requires Synced(enc, w) && Reasonable(enc, w.db, call)
    requires |w.file| <= n < |After(enc, w, call).file|
    ensures FILE_HEADER_BYTES <= n && OpensAs(enc, After(enc, w, call).file[..n], w.db)
    ensures var rs := EffectOf(enc, w, call).records;
            var inside := |rs| > 0 && |w.file| + rs[0].Length() <= n;
            var v := Reopened(enc, After(enc, w, call).file[..n]);
            JustOpened(enc, v, inside) && (Synced(enc, v) <==> !inside)
  {
    hide Reasonable, EffectOf, OpenFile, WholeRecords, EffectReplays, EncodeAll, ScanFrom, AllUnique, NamesConsistent;
    var e := EffectOf(enc, w, call);
    CallSynced(enc, w, call);
    SyncedHeader(enc, w);
    EffectCut(enc, w, e, n - |w.file|);
    WholePrefix(e.records, n - |w.file|);
    assert After(enc, w, call).file[..n] == w.file + EncodeAll(e.records)[..n - |w.file|];
    assert e.records[..|e.records|] == e.records;
    SomeWhole(e.records, n - |w.file|);
    OpensAgain(enc, After(enc, w, call).file[..n]);
  }

  lemma SomeWhole(rs: seq<ValidRecord>, n: nat)
    ensures WholeRecords(rs, n) > 0 <==> |rs| > 0 && rs[0].Length() <= n
  {
  }

  // ---------------------------------------------------------------------------
  // Crash after crash
  // ---------------------------------------------------------------------------

  /** What one process does: its calls, and how many bytes of its file are there when it dies. */
  datatype Life = Life(calls: seq<Call>, cut: nat)

  /** What the next process opens. */
  function AfterLife(enc: Encoder, w: World, life: Life): World {
    var file := Run(enc, w, life.calls).file;
    if FILE_HEADER_BYTES <= life.cut <= |file| && OpenFile(enc, file[..life.cut]).Ok? then Reopened(enc, file[..life.cut]) else w
  }

  function AfterLives(enc: Encoder, w: World, lives: seq<Life>): World {
    if |lives| == 0 then w else AfterLife(enc, AfterLives(enc, w, lives[..|lives| - 1]), lives[|lives| - 1])
  }

  /** It dies, but not inside a transaction, and not before what it found. */
  predicate ReasonableLife(enc: Encoder, w: World, life: Life) {
    && ReasonableRun(enc, w, life.calls) && |w.file| <= life.cut <= |Run(enc, w, life.calls).file|
    && forall k :: 0 <= k < |life.calls| ==> !CutInside(enc, w, life.calls, life.cut, k)
  }

  predicate ReasonableLives(enc: Encoder, w: World, lives: seq<Life>) {
    forall i :: 0 <= i < |lives| ==> ReasonableLife(enc, AfterLives(enc, w, lives[..i]), lives[i])
  }

  lemma LifeSynced(enc: Encoder, w: World, life: Life) returns (k: nat)
    requires Synced(enc, w) && ReasonableLife(enc, w, life)
    ensures Synced(enc, AfterLife(enc, w, life))
    ensures k <= |life.calls| && AfterLife(enc, w, life).db == Run(enc, w, life.calls[..k]).db
  {
    hide Synced, ReasonableRun, Run, EffectOf, OpenFile, JustOpened;
    k := CrashAtomicity(enc, w, life.calls, life.cut);
  }

  /** However often it crashes, outside transactions, the next process starts in step with its file. */
  lemma {:induction false} LivesSynced(enc: Encoder, w: World, lives: seq<Life>)
    requires Synced(enc, w) && ReasonableLives(enc, w, lives)
    ensures Synced(enc, AfterLives(enc, w, lives))
    decreases |lives|
  {
    hide Synced, ReasonableLife, AfterLife;
    if |lives| > 0 {
      var m := |lives| - 1;
      assert ReasonableLives(enc, w, lives[..m]) by {
        assert forall i :: 0 <= i < m ==> lives[..m][..i] == lives[..i] && lives[..m][i] == lives[i];
      }
      LivesSynced(enc, w, lives[..m]);
      var _ := LifeSynced(enc, AfterLives(enc, w, lives[..m]), lives[m]);
    }
  }
}
