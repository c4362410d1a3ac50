/** In every state a run reaches, every document carries the id it is filed under. */
module StoredIds {
  import opened Bytes
  import opened Records
  import opened LogScan
  import opened Documents
  import opened Payloads
  import opened Operations
  import opened DatabaseState
  import opened Calls
  import opened LiveReplay
  import opened UniqueConstraint
  import opened Compaction
  import opened Runs
  import opened LogCompaction
  import opened CompactedRuns
  import opened Collections
  import opened Planner

  predicate AllIdsStored(st: State) {
    forall cid :: cid in st.collections ==> IdsStored(st.collections[cid])
  }

  /** Every document to be written carries its id. */
  predicate WritesStored(writes: seq<Write>) {
    forall i :: 0 <= i < |writes| ==> Get(writes[i].document, ID_FIELD) == Some(Text(writes[i].id))
  }

  lemma {:induction false} InsertsStored(c: Collection, inserts: seq<Insert>)
    requires PrepareInserts(c, inserts).Ok?
    ensures WritesStored(PrepareInserts(c, inserts).value)
    decreases |inserts|
  {
    hide DocumentId;
    if |inserts| > 0 {
      InsertsStored(c, inserts[1..]);
    }
  }

  lemma {:induction false} UpdatesStored(c: Collection, ids: seq<Str>, update: Doc -> Result<Doc>)
    requires PrepareUpdates(c, ids, update).Ok?
    ensures WritesStored(PrepareUpdates(c, ids, update).value)
    decreases |ids|
  {
    if |ids| > 0 && (ids[0] !in c.documents || update(c.documents[ids[0]].document).Ok?) {
      UpdatesStored(c, ids[1..], update);
    }
  }

  lemma PutKeepsIds(c: Collection, w: Write, offset: nat)
    requires IdsStored(c) && Get(w.document, ID_FIELD) == Some(Text(w.id))
    ensures IdsStored(PutInto(c, w.id, Entry(offset, w.document)))
  {
    hide Get;
    PutDocuments(c, w.id, Entry(offset, w.document));
  }

  lemma BatchKeepsIds(c: Collection, cid: CollectionId, writes: seq<Write>, ls: seq<Located>)
    requires IdsStored(c) && WritesStored(writes) && |ls| == |writes|
    ensures IdsStored(LiveBatch(c, Puts(cid, writes), ls))
  {
    hide Get, LiveBatch;
    PutsBatch(c, cid, writes, ls);
  }

  lemma FewerKeepIds(c: Collection, d: Collection)
    requires IdsStored(c) && forall id :: id in d.documents ==> id in c.documents && d.documents[id] == c.documents[id]
    ensures IdsStored(d)
  {
    hide Get;
  }

  lemma WriteOneKeepsIds(enc: Encoder, st: State, cid: CollectionId, w: Write, exclude: Option<Str>, end: nat)
    requires AllIdsStored(st) && cid in st.collections && Get(w.document, ID_FIELD) == Some(Text(w.id))
    ensures AllIdsStored(WriteOne(enc, st, cid, w, exclude, end).next)
  {
    hide Free, RecordsOf, PutInto, IdsStored;
    PutKeepsIds(st.collections[cid], w, end);
  }

  lemma WriteBatchKeepsIds(enc: Encoder, st: State, cid: CollectionId, writes: seq<Write>, end: nat)
    requires AllIdsStored(st) && cid in st.collections && WritesStored(writes)
    ensures AllIdsStored(WriteBatch(enc, st, cid, writes, end).next)
  {
    hide BatchFree, RecordsOf, LiveBatch, IdsStored, Locate, WritesStored;
    var e := WriteBatch(enc, st, cid, writes, end);
    if BatchFree(st.collections[cid], writes) && |writes| > 0 && !e.thrown {
      BatchKeepsIds(st.collections[cid], cid, writes, Locate(e.records, end)[1..|writes| + 1]);
    }
  }

  lemma DeletesKeepIds(enc: Encoder, st: State, cid: CollectionId, ids: seq<Str>, end: nat)
    requires AllIdsStored(st) && cid in st.collections
    ensures AllIdsStored(Batch(enc, st, cid, Deletes(cid, ids), end).next)
  {
    hide RecordsOf, LiveBatch, IdsStored, Locate;
    var c := st.collections[cid];
    var e := Batch(enc, st, cid, Deletes(cid, ids), end);
    if !e.thrown {
      var ls := Locate(e.records, end)[1..|ids| + 1];
      DeletesBatch(c, cid, ids, ls);
      FewerKeepIds(c, LiveBatch(c, Deletes(cid, ids), ls));
    }
  }

  lemma IndexesKeepIds(c: Collection, field: Str, kind: IndexKind, unique: bool, id: Str)
    requires IdsStored(c)
    ensures CreateIndexIn(c, field, kind, unique).Ok? ==> IdsStored(CreateIndexIn(c, field, kind, unique).value)
    ensures DropIndexIn(c, field).Ok? ==> IdsStored(DropIndexIn(c, field).value)
    ensures IdsStored(RemoveFrom(c, id))
  {
    hide Get, HasDuplicate, Refile, RemovePosting;
  }

  /** What any call writes carries its id. */
  lemma CallKeepsIds(enc: Encoder, st: State, end: nat, call: Call)
    requires AllIdsStored(st)
    ensures AllIdsStored(Perform(enc, st, end, call).next)
  {
    hide RecordsOf, WriteOne, WriteBatch, Batch, PutInto, RemoveFrom, CreateIndexIn, DropIndexIn, DistinctIds;
    hide PrepareInserts, PrepareUpdates, Existing, DocumentId, IdsStored, Get;
    if !call.OpenCollection? && call.cid in st.collections {
      var cid, c := call.cid, st.collections[call.cid];
      match call
      case InsertOne(_, insert) =>
        if DocumentId(c, insert).Ok? {
          WriteOneKeepsIds(enc, st, cid, Stored(insert.document, DocumentId(c, insert).value), None, end);
        }
      case InsertMany(_, inserts) =>
        if PrepareInserts(c, inserts).Ok? {
          InsertsStored(c, inserts);
          WriteBatchKeepsIds(enc, st, cid, PrepareInserts(c, inserts).value, end);
        }
      case ReplaceOne(_, id, document) => WriteOneKeepsIds(enc, st, cid, Stored(document, id), Some(id), end);
      case UpdateOne(_, id, update) =>
        if id in c.documents && update(c.documents[id].document).Ok? {
          WriteOneKeepsIds(enc, st, cid, Stored(update(c.documents[id].document).value, id), Some(id), end);
        }
      case UpdateMany(_, ids, update) =>
        if PrepareUpdates(c, ids, update).Ok? {
          UpdatesStored(c, ids, update);
          WriteBatchKeepsIds(enc, st, cid, PrepareUpdates(c, ids, update).value, end);
        }
      case DeleteOne(_, id) => IndexesKeepIds(c, [], Strings, false, id);
      case DeleteMany(_, ids) => DeletesKeepIds(enc, st, cid, Existing(c, ids), end);
      case MakeIndex(_, field, kind, unique) => IndexesKeepIds(c, field, kind, unique, []);
      case RemoveIndex(_, field) => IndexesKeepIds(c, field, Strings, false, []);
      case Drop(_) =>
    } else if call.OpenCollection? {
      NoIds(call.name);
    }
  }

  lemma NoIds(name: Str)
    ensures IdsStored(Collection(name, map[], map[]))
  {
  }

  lemma RelocateKeepsIds(st: State, mv: map<nat, nat>)
    requires AllIdsStored(st)
    ensures AllIdsStored(RelocateState(st, mv))
  {
    hide Get, Postings;
    forall cid | cid in st.collections
      ensures IdsStored(Relocate(st.collections[cid], mv))
    {
      assert IdsStored(st.collections[cid]);
    }
  }

  /** After every run of calls and compactions. */
  lemma {:induction false} RunKeepsIds(enc: Encoder, w: World, actions: seq<Action>)
    requires AllIdsStored(w.db)
    ensures AllIdsStored(RunAll(enc, w, actions).db)
    decreases |actions|
  {
    hide AllIdsStored, RelocateState, CompactedFile, Perform;
    if |actions| > 0 {
      var m := |actions| - 1;
      RunKeepsIds(enc, w, actions[..m]);
      var before := RunAll(enc, w, actions[..m]);
      match actions[m]
      case Do(call) => CallKeepsIds(enc, before.db, |before.file|, call);
      case CompactNow =>
        if |before.file| >= FILE_HEADER_BYTES {
          RelocateKeepsIds(before.db, Moves(KeptLog(enc, before.db, ScanLog(before.file).records)));
        }
    }
  }
}
