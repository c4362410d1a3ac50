/**
 Compaction cannot be observed: a run of calls with compactions anywhere in between holds the same
 documents and index definitions, and each call has the same outcome and appends the same records,
 as the run of the calls alone.
 */
module InvisibleCompaction {
  import opened Bytes
  import opened Records
  import opened LogScan
  import opened Documents
  import opened Payloads
  import opened Operations
  import opened DatabaseState
  import opened Calls
  import opened LiveReplay
  import opened UniqueConstraint
  import opened Compaction
  import opened Runs
  import opened LogCompaction
  import opened CompactedRuns
  import opened Collections

  // ---------------------------------------------------------------------------
  // States that differ in offsets only
  // ---------------------------------------------------------------------------

  predicate SameDocuments(c: Collection, d: Collection) {
    c.documents.Keys == d.documents.Keys && forall id :: id in c.documents ==> c.documents[id].document == d.documents[id].document
  }

  predicate SameCollection(c: Collection, d: Collection) {
    c.name == d.name && SameDocuments(c, d) && SameDefinitions(c, d)
  }

  predicate Same(a: State, b: State) {
    && a.names == b.names && a.collections.Keys == b.collections.Keys
    && forall cid :: cid in a.collections ==> SameCollection(a.collections[cid], b.collections[cid])
  }

  lemma SameItself(st: State)
    ensures Same(st, st)
  {
  }

  lemma RelocateKeepsSame(c: Collection, d: Collection, mv: map<nat, nat>)
    requires SameCollection(c, d)
    ensures SameCollection(Relocate(c, mv), d)
  {
    hide Postings;
  }

  lemma RelocatedSame(a: State, b: State, mv: map<nat, nat>)
    requires Same(a, b)
    ensures Same(RelocateState(a, mv), b)
  {
    hide Relocate, SameCollection;
    forall cid | cid in a.collections
      ensures SameCollection(Relocate(a.collections[cid], mv), b.collections[cid])
    {
      RelocateKeepsSame(a.collections[cid], b.collections[cid], mv);
    }
  }

  // ---------------------------------------------------------------------------
  // Checks see no offsets
  // ---------------------------------------------------------------------------

  lemma OwnedByDocuments(c: Collection, f: Str, key: Key, exclude: Option<Str>)
    requires Mirrors(c) && f in c.indexes
    ensures Owned(c.indexes[f], key, exclude) <==>
              exists id :: id in c.documents && KeyOf(c.indexes[f].kind, f, c.documents[id].document) == Some(key) && exclude != Some(id)
  {
    hide KeyOf;
    var ps := c.indexes[f].postings;
    assert ps == Postings(c.indexes[f].kind, f, c.documents);
    if exists id :: id in c.documents && KeyOf(c.indexes[f].kind, f, c.documents[id].document) == Some(key) && exclude != Some(id) {
      var id :| id in c.documents && KeyOf(c.indexes[f].kind, f, c.documents[id].document) == Some(key) && exclude != Some(id);
      assert id in ps && ps[id].key == key;
    }
  }

  lemma SameOwned(c: Collection, d: Collection, f: Str, key: Key, exclude: Option<Str>)
    requires Mirrors(c) && Mirrors(d) && SameCollection(c, d) && f in c.indexes
    ensures Owned(c.indexes[f], key, exclude) <==> Owned(d.indexes[f], key, exclude)
  {
    hide KeyOf, Mirrors, Owned;
    OwnedByDocuments(c, f, key, exclude);
    OwnedByDocuments(d, f, key, exclude);
  }

  lemma SameFree(c: Collection, d: Collection, document: Doc, exclude: Option<Str>)
    requires Mirrors(c) && Mirrors(d) && SameCollection(c, d)
    ensures Free(c, document, exclude) <==> Free(d, document, exclude)
  {
    hide KeyOf, Mirrors, Owned;
    forall f | f in c.indexes && KeyOf(c.indexes[f].kind, f, document).Some?
      ensures Owned(c.indexes[f], KeyOf(c.indexes[f].kind, f, document).value, exclude)
         <==> Owned(d.indexes[f], KeyOf(c.indexes[f].kind, f, document).value, exclude)
    {
      SameOwned(c, d, f, KeyOf(c.indexes[f].kind, f, document).value, exclude);
    }
  }

  lemma SameFieldFree(c: Collection, d: Collection, f: Str, writes: seq<Write>)
    requires Mirrors(c) && Mirrors(d) && SameCollection(c, d) && f in c.indexes
    ensures FieldFree(c.indexes[f], f, writes) <==> FieldFree(d.indexes[f], f, writes)
  {
    hide KeyOf, Mirrors, Owned;
    forall i | 0 <= i < |writes| && KeyOf(c.indexes[f].kind, f, writes[i].document).Some?
      ensures Owned(c.indexes[f], KeyOf(c.indexes[f].kind, f, writes[i].document).value, Some(writes[i].id))
         <==> Owned(d.indexes[f], KeyOf(c.indexes[f].kind, f, writes[i].document).value, Some(writes[i].id))
    {
      SameOwned(c, d, f, KeyOf(c.indexes[f].kind, f, writes[i].document).value, Some(writes[i].id));
    }
  }

  lemma SameBatchFree(c: Collection, d: Collection, writes: seq<Write>)
    requires Mirrors(c) && Mirrors(d) && SameCollection(c, d)
    ensures BatchFree(c, writes) <==> BatchFree(d, writes)
  {
    hide FieldFree, Mirrors;
    forall f | f in c.indexes
      ensures FieldFree(c.indexes[f], f, writes) <==> FieldFree(d.indexes[f], f, writes)
    {
      SameFieldFree(c, d, f, writes);
    }
  }

  lemma {:induction false} SameInserts(c: Collection, d: Collection, inserts: seq<Insert>)
    requires SameCollection(c, d)
    ensures PrepareInserts(c, inserts) == PrepareInserts(d, inserts)
    decreases |inserts|
  {
    if |inserts| > 0 {
      SameInserts(c, d, inserts[1..]);
    }
  }

  lemma {:induction false} SameUpdates(c: Collection, d: Collection, ids: seq<Str>, update: Doc -> Result<Doc>)
    requires SameCollection(c, d)
    ensures PrepareUpdates(c, ids, update) == PrepareUpdates(d, ids, update)
    decreases |ids|
  {
    if |ids| > 0 {
      SameUpdates(c, d, ids[1..], update);
    }
  }

  lemma {:induction false} SameExisting(c: Collection, d: Collection, ids: seq<Str>)
    requires SameCollection(c, d)
    ensures Existing(c, ids) == Existing(d, ids)
    decreases |ids|
  {
    if |ids| > 0 {
      SameExisting(c, d, ids[1..]);
    }
  }

  // ---------------------------------------------------------------------------
  // Changes keep states the same
  // ---------------------------------------------------------------------------

  lemma SamePut(c: Collection, d: Collection, id: Str, document: Doc, o: nat, p: nat)
    requires SameCollection(c, d)
    ensures SameCollection(PutInto(c, id, Entry(o, document)), PutInto(d, id, Entry(p, document)))
  {
    hide UpdatePosting;
    PutKeepsDefinitions(c, id, Entry(o, document));
    PutKeepsDefinitions(d, id, Entry(p, document));
  }

  lemma SameRemove(c: Collection, d: Collection, id: Str)
    requires SameCollection(c, d)
    ensures SameCollection(RemoveFrom(c, id), RemoveFrom(d, id))
  {
  }

  /** Two documents that collide in one collection collide in the other. */
  lemma DuplicateMoves(kind: IndexKind, f: Str, unique: bool, c: Collection, d: Collection)
    requires SameDocuments(c, d) && HasDuplicate(Index(kind, unique, Postings(kind, f, c.documents)))
    ensures HasDuplicate(Index(kind, unique, Postings(kind, f, d.documents)))
  {
    hide KeyOf;
    var ps, qs := Postings(kind, f, c.documents), Postings(kind, f, d.documents);
    var i, j :| i in ps && j in ps && i != j && ps[i].key == ps[j].key;
    assert i in qs && j in qs && qs[i].key == ps[i].key && qs[j].key == ps[j].key;
  }

  lemma SameCreate(c: Collection, d: Collection, field: Str, kind: IndexKind, unique: bool)
    requires Mirrors(c) && Mirrors(d) && SameCollection(c, d)
    ensures CreateIndexIn(c, field, kind, unique).Ok? <==> CreateIndexIn(d, field, kind, unique).Ok?
  {
    hide Mirrors, RefileAll, HasDuplicate, Postings;
    if |field| > 0 && field !in c.indexes {
      NewIndexMirrors(c, field, kind, unique);
      NewIndexMirrors(d, field, kind, unique);
      if HasDuplicate(Index(kind, unique, Postings(kind, field, c.documents))) {
        DuplicateMoves(kind, field, unique, c, d);
      }
      if HasDuplicate(Index(kind, unique, Postings(kind, field, d.documents))) {
        DuplicateMoves(kind, field, unique, d, c);
      }
    }
  }

  lemma SameCreated(c: Collection, d: Collection, field: Str, kind: IndexKind, unique: bool)
    requires Mirrors(c) && Mirrors(d) && SameCollection(c, d)
    requires CreateIndexIn(c, field, kind, unique).Ok? && CreateIndexIn(d, field, kind, unique).Ok?
    ensures SameCollection(CreateIndexIn(c, field, kind, unique).value, CreateIndexIn(d, field, kind, unique).value)
  {
    hide Mirrors, CreateIndexIn, Postings;
    CreateIndexMirrors(c, field, kind, unique);
    CreateIndexMirrors(d, field, kind, unique);
  }

  lemma {:induction false} SameBatch(c: Collection, d: Collection, ops: seq<Operation>, ls: seq<Located>, ms: seq<Located>)
    requires SameCollection(c, d) && |ls| == |ops| == |ms|
    ensures SameCollection(LiveBatch(c, ops, ls), LiveBatch(d, ops, ms))
    decreases |ops|
  {
    hide SameCollection, PutInto, RemoveFrom;
    if |ops| > 0 {
      var n := |ops| - 1;
      SameBatch(c, d, ops[..n], ls[..n], ms[..n]);
      var x, y := LiveBatch(c, ops[..n], ls[..n]), LiveBatch(d, ops[..n], ms[..n]);
      match ops[n]
      case PutDocument(_, id, document) => SamePut(x, y, id, document, ls[n].offset, ms[n].offset);
      case DeleteDocument(_, id) => SameRemove(x, y, id);
      case _ =>
    }
  }

  /** The same records, the same outcome, the same state but for offsets. */
  predicate SameEffect(e: Effect, f: Effect) {
    e.records == f.records && e.thrown == f.thrown && Same(e.next, f.next)
  }

  lemma SameWith(a: State, b: State, cid: CollectionId, c: Collection, d: Collection)
    requires Same(a, b) && SameCollection(c, d)
    ensures Same(WithCollection(a, cid, c), WithCollection(b, cid, d))
  {
    hide SameCollection;
  }

  lemma SameSingle(enc: Encoder, a: State, b: State, op: Operation, x: State, y: State)
    requires Same(a, b) && Same(x, y)
    ensures SameEffect(Single(enc, a, op, x), Single(enc, b, op, y))
  {
    hide RecordsOf, Same;
  }

  lemma SameWriteOne(enc: Encoder, a: State, b: State, cid: CollectionId, w: Write, exclude: Option<Str>, o: nat, p: nat)
    requires Same(a, b) && AllMirror(a) && AllMirror(b) && cid in a.collections
    ensures SameEffect(WriteOne(enc, a, cid, w, exclude, o), WriteOne(enc, b, cid, w, exclude, p))
  {
    hide Mirrors, Free, Single, PutInto, SameCollection, SameEffect;
    var c, d := a.collections[cid], b.collections[cid];
    assert SameCollection(c, d);
    SameFree(c, d, w.document, exclude);
    SamePut(c, d, w.id, w.document, o, p);
    SameWith(a, b, cid, PutInto(c, w.id, Entry(o, w.document)), PutInto(d, w.id, Entry(p, w.document)));
    SameSingle(enc, a, b, PutDocument(cid, w.id, w.document), WithCollection(a, cid, PutInto(c, w.id, Entry(o, w.document))),
               WithCollection(b, cid, PutInto(d, w.id, Entry(p, w.document))));
    SameRefused(a, b);
  }

  lemma SameRefused(a: State, b: State)
    requires Same(a, b)
    ensures SameEffect(Refused(a), Refused(b)) && SameEffect(Unchanged(a), Unchanged(b))
  {
    hide Same;
  }

  lemma SameBatchEffect(enc: Encoder, a: State, b: State, cid: CollectionId, ops: seq<Operation>, o: nat, p: nat)
    requires Same(a, b) && cid in a.collections
    ensures SameEffect(Batch(enc, a, cid, ops, o), Batch(enc, b, cid, ops, p))
  {
    hide RecordsOf, LiveBatch, Locate, SameCollection;
    var records := RecordsOf(enc, Envelope(ops));
    assert SameCollection(a.collections[cid], b.collections[cid]);
    if |records| == |ops| + 2 {
      var ls, ms := Locate(records, o)[1..|ops| + 1], Locate(records, p)[1..|ops| + 1];
      SameBatch(a.collections[cid], b.collections[cid], ops, ls, ms);
      SameWith(a, b, cid, LiveBatch(a.collections[cid], ops, ls), LiveBatch(b.collections[cid], ops, ms));
    }
  }

  lemma SameWriteBatch(enc: Encoder, a: State, b: State, cid: CollectionId, writes: seq<Write>, o: nat, p: nat)
    requires Same(a, b) && AllMirror(a) && AllMirror(b) && cid in a.collections
    ensures SameEffect(WriteBatch(enc, a, cid, writes, o), WriteBatch(enc, b, cid, writes, p))
  {
    hide Mirrors, BatchFree, Batch, SameCollection, SameEffect;
    assert SameCollection(a.collections[cid], b.collections[cid]);
    SameBatchFree(a.collections[cid], b.collections[cid], writes);
    SameBatchEffect(enc, a, b, cid, Puts(cid, writes), o, p);
    SameRefused(a, b);
  }

  lemma SameMakeIndex(enc: Encoder, a: State, b: State, cid: CollectionId, field: Str, kind: IndexKind, unique: bool)
    requires Same(a, b) && AllMirror(a) && AllMirror(b) && cid in a.collections
    ensures SameEffect(MakeIndexEffect(enc, a, cid, field, kind, unique), MakeIndexEffect(enc, b, cid, field, kind, unique))
  {
    hide Mirrors, RecordsOf, CreateIndexIn;
    var c, d := a.collections[cid], b.collections[cid];
    assert SameCollection(c, d);
    SameCreate(c, d, field, kind, unique);
    if CreateIndexIn(c, field, kind, unique).Ok? {
      SameCreated(c, d, field, kind, unique);
      SameWith(a, b, cid, CreateIndexIn(c, field, kind, unique).value, CreateIndexIn(d, field, kind, unique).value);
    }
  }

  lemma SameRemoveIndex(enc: Encoder, a: State, b: State, cid: CollectionId, field: Str)
    requires Same(a, b) && cid in a.collections
    ensures var c, d := DropIndexIn(a.collections[cid], field), DropIndexIn(b.collections[cid], field);
            c.Ok? == d.Ok? && (c.Ok? ==> SameEffect(Single(enc, a, DropIndex(cid, field), WithCollection(a, cid, c.value)),
                                                    Single(enc, b, DropIndex(cid, field), WithCollection(b, cid, d.value))))
  {
    hide Single, SameEffect;
    assert SameCollection(a.collections[cid], b.collections[cid]);
    var c, d := DropIndexIn(a.collections[cid], field), DropIndexIn(b.collections[cid], field);
    if c.Ok? {
      SameWith(a, b, cid, c.value, d.value);
      SameSingle(enc, a, b, DropIndex(cid, field), WithCollection(a, cid, c.value), WithCollection(b, cid, d.value));
    }
  }

  lemma SameOpen(a: State, b: State, name: Str, newId: CollectionId)
    requires Same(a, b)
    ensures Same(State(a.collections[newId := Collection(name, map[], map[])], a.names[name := newId]),
                 State(b.collections[newId := Collection(name, map[], map[])], b.names[name := newId]))
  {
    assert SameCollection(Collection(name, map[], map[]), Collection(name, map[], map[]));
  }

  lemma SameDrop(a: State, b: State, cid: CollectionId)
    requires Same(a, b) && cid in a.collections
    ensures Same(State(a.collections - {cid}, a.names - {a.collections[cid].name}), State(b.collections - {cid}, b.names - {b.collections[cid].name}))
  {
  }

  /** Calls that write one document. */
  lemma SameOneCall(enc: Encoder, a: State, b: State, o: nat, p: nat, call: Call)
    requires Same(a, b) && AllMirror(a) && AllMirror(b)
    requires (call.InsertOne? || call.ReplaceOne? || call.UpdateOne?) && call.cid in a.collections
    ensures SameEffect(Perform(enc, a, o, call), Perform(enc, b, p, call))
  {
    hide Mirrors, AllMirror, WriteOne, Stored, SameEffect;
    SameRefused(a, b);
    var cid, c, d := call.cid, a.collections[call.cid], b.collections[call.cid];
    assert SameCollection(c, d);
    match call
    case InsertOne(_, insert) =>
      assert DocumentId(c, insert) == DocumentId(d, insert);
      if DocumentId(c, insert).Ok? {
        SameWriteOne(enc, a, b, cid, Stored(insert.document, DocumentId(c, insert).value), None, o, p);
      }
    case ReplaceOne(_, id, document) => SameWriteOne(enc, a, b, cid, Stored(document, id), Some(id), o, p);
    case UpdateOne(_, id, update) =>
      if id in c.documents && update(c.documents[id].document).Ok? {
        SameWriteOne(enc, a, b, cid, Stored(update(c.documents[id].document).value, id), Some(id), o, p);
      }
  }

  /** Calls that write a batch. */
  lemma SameManyCall(enc: Encoder, a: State, b: State, o: nat, p: nat, call: Call)
    requires Same(a, b) && AllMirror(a) && AllMirror(b)
    requires (call.InsertMany? || call.UpdateMany? || call.DeleteMany?) && call.cid in a.collections
    ensures SameEffect(Perform(enc, a, o, call), Perform(enc, b, p, call))
  {
    hide Mirrors, AllMirror, WriteBatch, Batch, DistinctIds, PrepareInserts, PrepareUpdates, Existing, SameEffect;
    SameRefused(a, b);
    var cid, c, d := call.cid, a.collections[call.cid], b.collections[call.cid];
    assert SameCollection(c, d);
    hide SameCollection;
    match call
    case InsertMany(_, inserts) =>
      SameInserts(c, d, inserts);
      if PrepareInserts(c, inserts).Ok? {
        SameWriteBatch(enc, a, b, cid, PrepareInserts(c, inserts).value, o, p);
      }
    case UpdateMany(_, ids, update) =>
      SameUpdates(c, d, ids, update);
      if PrepareUpdates(c, ids, update).Ok? {
        SameWriteBatch(enc, a, b, cid, PrepareUpdates(c, ids, update).value, o, p);
      }
    case DeleteMany(_, ids) =>
      SameExisting(c, d, ids);
      SameBatchEffect(enc, a, b, cid, Deletes(cid, Existing(c, ids)), o, p);
  }

  /** Every call does the same in states that differ in offsets only. */
  lemma SameCall(enc: Encoder, a: State, b: State, o: nat, p: nat, call: Call)
    requires Same(a, b) && AllMirror(a) && AllMirror(b)
    ensures SameEffect(Perform(enc, a, o, call), Perform(enc, b, p, call))
  {
    hide Mirrors, AllMirror, Single, RemoveFrom, DropIndexIn, SameEffect, MakeIndexEffect;
    if call.OpenCollection? {
      SameRefused(a, b);
      SameOpen(a, b, call.name, call.newId);
      SameSingle(enc, a, b, NewCollection(call.newId, call.name),
                 State(a.collections[call.newId := Collection(call.name, map[], map[])], a.names[call.name := call.newId]),
                 State(b.collections[call.newId := Collection(call.name, map[], map[])], b.names[call.name := call.newId]));
    } else if call.cid !in a.collections {
      SameRefused(a, b);
    } else if call.InsertOne? || call.ReplaceOne? || call.UpdateOne? {
      SameOneCall(enc, a, b, o, p, call);
    } else if call.InsertMany? || call.UpdateMany? || call.DeleteMany? {
      SameManyCall(enc, a, b, o, p, call);
    } else {
      SameRefused(a, b);
      var cid, c, d := call.cid, a.collections[call.cid], b.collections[call.cid];
      assert SameCollection(c, d);
      match call
      case DeleteOne(_, id) =>
        SameRemove(c, d, id);
        SameWith(a, b, cid, RemoveFrom(c, id), RemoveFrom(d, id));
        SameSingle(enc, a, b, DeleteDocument(cid, id), WithCollection(a, cid, RemoveFrom(c, id)), WithCollection(b, cid, RemoveFrom(d, id)));
      case MakeIndex(_, field, kind, unique) => SameMakeIndex(enc, a, b, cid, field, kind, unique);
      case RemoveIndex(_, field) => SameRemoveIndex(enc, a, b, cid, field);
      case Drop(_) =>
        SameDrop(a, b, cid);
        SameSingle(enc, a, b, DropCollection(cid), State(a.collections - {cid}, a.names - {c.name}), State(b.collections - {cid}, b.names - {d.name}));
    }
  }

  // ---------------------------------------------------------------------------
  // Whole runs
  // ---------------------------------------------------------------------------

  /** The same documents are set out to be written in either state. */
  lemma SameWrites(a: State, b: State, call: Call)
    requires Same(a, b)
    ensures WritesOf(a, call) == WritesOf(b, call)
  {
    hide PrepareInserts, PrepareUpdates, Stored;
    if !call.OpenCollection? && call.cid in a.collections {
      var c, d := a.collections[call.cid], b.collections[call.cid];
      assert SameCollection(c, d);
      match call
      case InsertMany(_, inserts) => SameInserts(c, d, inserts);
      case UpdateMany(_, ids, update) => SameUpdates(c, d, ids, update);
      case _ =>
    }
  }

  lemma SameAdmissible(a: State, b: State, call: Call)
    requires Same(a, b) && Admissible(a, call)
    ensures Admissible(b, call)
  {
    hide IsObjectIdHex, SameDefinitions;
    if call.InsertMany? {
      forall i | i in call.inserts
        ensures NewId(b, call.cid, i.freshId)
      {
        assert NewId(a, call.cid, i.freshId);
        assert call.cid in a.collections ==> SameCollection(a.collections[call.cid], b.collections[call.cid]);
      }
    }
  }

  /** A batch passes its checks in both states or in neither. */
  lemma SameChecks(a: State, b: State, call: Call)
    requires Same(a, b) && AllMirror(a) && AllMirror(b)
    ensures ChecksPass(a, call) <==> ChecksPass(b, call)
  {
    hide WritesOf, BatchFree, DistinctIds, Mirrors, SameCollection;
    SameWrites(a, b, call);
    if !call.OpenCollection? && call.cid in a.collections {
      assert SameCollection(a.collections[call.cid], b.collections[call.cid]);
      SameBatchFree(a.collections[call.cid], b.collections[call.cid], WritesOf(a, call));
    }
  }

  lemma SameOverlong(a: State, b: State, call: Call)
    requires Same(a, b) && AllMirror(a) && AllMirror(b)
    ensures Overlong(a, call) <==> Overlong(b, call)
  {
    hide Mirrors, CreateIndexIn, SameDocuments;
    if call.MakeIndex? && call.cid in a.collections {
      assert SameCollection(a.collections[call.cid], b.collections[call.cid]);
      SameCreate(a.collections[call.cid], b.collections[call.cid], call.field, call.kind, call.unique);
    }
  }

  /** A call that is reasonable in one of the states is so in the other. */
  lemma SameReasonable(enc: Encoder, a: State, b: State, call: Call)
    requires Same(a, b) && AllMirror(a) && AllMirror(b) && Reasonable(enc, a, call)
    ensures Reasonable(enc, b, call)
  {
    hide Faithful, Encodes, Same, Admissible, WritesOf, ChecksPass, AllMirror, Overlong;
    SameWrites(a, b, call);
    SameAdmissible(a, b, call);
    SameChecks(a, b, call);
    SameOverlong(a, b, call);
  }

  /** The calls of a run, compactions left out. */
  function CallsOf(actions: seq<Action>): seq<Call> {
    if |actions| == 0 then []
    else CallsOf(actions[..|actions| - 1]) + (if actions[|actions| - 1].Do? then [actions[|actions| - 1].call] else [])
  }

  /** One more call, on both sides. */
  lemma CallInvisible(enc: Encoder, w: World, u: World, call: Call)
    requires Synced(enc, w) && Synced(enc, u) && Same(w.db, u.db) && Reasonable(enc, w.db, call)
    ensures Synced(enc, After(enc, u, call)) && Same(After(enc, w, call).db, After(enc, u, call).db)
    ensures EffectOf(enc, w, call).thrown == EffectOf(enc, u, call).thrown && EffectOf(enc, w, call).records == EffectOf(enc, u, call).records
  {
    hide Synced, Reasonable, Perform, Same, Identified, AllMirror;
    SyncedMirrors(enc, w);
    SyncedMirrors(enc, u);
    SameReasonable(enc, w.db, u.db, call);
    CallSynced(enc, u, call);
    SameCall(enc, w.db, u.db, |w.file|, |u.file|, call);
  }

  lemma SyncedMirrors(enc: Encoder, w: World)
    requires Synced(enc, w)
    ensures AllMirror(w.db)
  {
    hide Synced, AllMirror;
    SyncedLog(enc, w);
    SoundParts(w.db);
  }

  /** A run with compactions holds what the run of its calls alone holds. */
  lemma {:induction false} CompactionIsInvisible(enc: Encoder, w: World, actions: seq<Action>)
    requires Synced(enc, w) && ReasonableActions(enc, w, actions)
    ensures Synced(enc, Run(enc, w, CallsOf(actions))) && Same(RunAll(enc, w, actions).db, Run(enc, w, CallsOf(actions)).db)
    decreases |actions|
  {
    hide Synced, Same, ReasonableAction, After, Compact;
    if |actions| == 0 {
      SameItself(w.db);
    } else {
      var m := |actions| - 1;
      var before := RunAll(enc, w, actions[..m]);
      ShorterActions(enc, w, actions, m);
      CompactionIsInvisible(enc, w, actions[..m]);
      ActionsSynced(enc, w, actions[..m]);
      assert ReasonableAction(enc, before, actions[m]);
      match actions[m]
      case Do(call) =>
        var calls := CallsOf(actions[..m]);
        assert (calls + [call])[..|calls|] == calls;
        DoReasonable(enc, before, call);
        CallInvisible(enc, before, Run(enc, w, calls), call);
      case CompactNow =>
        assert CallsOf(actions) == CallsOf(actions[..m]);
        CompactKeepsSame(enc, before, Run(enc, w, CallsOf(actions)));
    }
  }

  lemma DoReasonable(enc: Encoder, w: World, call: Call)
    requires ReasonableAction(enc, w, Do(call))
    ensures Reasonable(enc, w.db, call)
  {
  }

  lemma CompactKeepsSame(enc: Encoder, w: World, u: World)
    requires Same(w.db, u.db)
    ensures Same(Act(enc, w, CompactNow).db, u.db)
  {
    hide Same, RelocateState, CompactedFile;
    if |w.file| >= FILE_HEADER_BYTES {
      RelocatedSame(w.db, u.db, Moves(KeptLog(enc, w.db, ScanLog(w.file).records)));
    }
  }
}
