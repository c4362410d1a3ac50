/**
 One live collection: documents are held as file offsets, indexes in memory, and every change is
 appended to the storage before the memory follows. Each call is proved to do what `Perform` says.
 */
module Collections {
  import opened Bytes
  import opened Records
  import opened LogScan
  import opened Storage
  import opened Documents
  import opened U29
  import opened Payloads
  import opened Operations
  import opened DatabaseState
  import opened Calls
  import opened Compaction
  import opened Indexes
  import opened Manager
  import opened Backing
  import opened CompactionLoop
  import opened LiveReplay
  import opened Runs

  /** A database that holds this collection alone. */
  function Alone(cid: CollectionId, c: Collection): State {
    State(map[cid := c], map[c.name := cid])
  }

  // ---------------------------------------------------------------------------
  // Filing documents one after the other
  // ---------------------------------------------------------------------------

  /** The index after the documents `done` were filed in it. */
  function FiledSome(index: Index, field: Str, documents: map<Str, Entry>, done: set<Str>): Index {
    index.(postings := (index.postings - done) + Postings(index.kind, field, Chosen(documents, done)))
  }

  lemma FiledNone(index: Index, field: Str, documents: map<Str, Entry>)
    ensures FiledSome(index, field, documents, {}) == index
  {
  }

  function Chosen(documents: map<Str, Entry>, done: set<Str>): map<Str, Entry> {
    map id | id in documents && id in done :: documents[id]
  }

  lemma PostingsMore(kind: IndexKind, field: Str, some: map<Str, Entry>, id: Str, entry: Entry)
    requires id !in some
    ensures var key := KeyOf(kind, field, entry.document);
            var before := Postings(kind, field, some);
            Postings(kind, field, some[id := entry]) == if key.Some? then before[id := Posting(key.value, entry.offset)] else before
    ensures id !in Postings(kind, field, some)
  {
    hide KeyOf;
  }

  lemma WithoutOneMore(p: map<Str, Posting>, q: map<Str, Posting>, done: set<Str>, id: Str)
    requires id !in q
    ensures (p - (done + {id})) + q == ((p - done) + q) - {id}
  {
  }

  lemma ChosenMore(documents: map<Str, Entry>, done: set<Str>, id: Str)
    requires id in documents && id !in done
    ensures Chosen(documents, done + {id}) == Chosen(documents, done)[id := documents[id]] && id !in Chosen(documents, done)
  {
  }

  lemma FiledMore(index: Index, field: Str, documents: map<Str, Entry>, done: set<Str>, id: Str)
    requires id in documents && id !in done
    ensures FiledSome(index, field, documents, done + {id}) == UpdatePosting(FiledSome(index, field, documents, done), field, id, documents[id])
  {
    hide KeyOf, Postings, Chosen;
    ChosenMore(documents, done, id);
    PostingsMore(index.kind, field, Chosen(documents, done), id, documents[id]);
    WithoutOneMore(index.postings, Postings(index.kind, field, Chosen(documents, done)), done, id);
    var p, q := index.postings - (done + {id}), Postings(index.kind, field, Chosen(documents, done));
    var key := KeyOf(index.kind, field, documents[id].document);
    assert key.Some? ==> p + q[id := Posting(key.value, documents[id].offset)] == (p + q)[id := Posting(key.value, documents[id].offset)];
  }

  lemma FiledAll(index: Index, field: Str, documents: map<Str, Entry>)
    ensures FiledSome(index, field, documents, documents.Keys) == Refile(index, field, documents)
  {
    hide KeyOf;
    assert Chosen(documents, documents.Keys) == documents;
  }

  function FiledIndexes(indexes: map<Str, Index>, documents: map<Str, Entry>, done: set<Str>): map<Str, Index> {
    map f | f in indexes :: FiledSome(indexes[f], f, documents, done)
  }

  lemma FiledIndexesNone(indexes: map<Str, Index>, documents: map<Str, Entry>)
    ensures FiledIndexes(indexes, documents, {}) == indexes
  {
    hide FiledSome;
    forall f | f in indexes
      ensures FiledSome(indexes[f], f, documents, {}) == indexes[f]
    {
      FiledNone(indexes[f], f, documents);
    }
  }

  lemma FiledIndexesMore(indexes: map<Str, Index>, documents: map<Str, Entry>, done: set<Str>, id: Str)
    requires id in documents && id !in done
    ensures FiledIndexes(indexes, documents, done + {id}) == UpdatedIndexes(FiledIndexes(indexes, documents, done), id, documents[id])
  {
    hide FiledSome, UpdatePosting;
    forall f | f in indexes
      ensures FiledSome(indexes[f], f, documents, done + {id}) == UpdatePosting(FiledSome(indexes[f], f, documents, done), f, id, documents[id])
    {
      FiledMore(indexes[f], f, documents, done, id);
    }
  }

  lemma FiledIndexesAll(c: Collection)
    ensures FiledIndexes(c.indexes, c.documents, c.documents.Keys) == RefileAll(c).indexes
  {
    hide FiledSome, Refile;
    forall f | f in c.indexes
      ensures FiledSome(c.indexes[f], f, c.documents, c.documents.Keys) == Refile(c.indexes[f], f, c.documents)
    {
      FiledAll(c.indexes[f], f, c.documents);
    }
  }

  function IdsOf(candidates: seq<Candidate>): set<Str> {
    set c | c in candidates :: c.id
  }

  // ---------------------------------------------------------------------------
  // Records appended one by one
  // ---------------------------------------------------------------------------

  lemma {:induction false} RecordsOfMore(enc: Encoder, ops: seq<Operation>, i: nat)
    requires i < |ops| && |RecordsOf(enc, ops[..i])| == i
    ensures Encode(enc, ops[i]).Ok? ==>
              Encode(enc, ops[i]).value.Valid() && RecordsOf(enc, ops[..i + 1]) == RecordsOf(enc, ops[..i]) + [Encode(enc, ops[i]).value]
    ensures Encode(enc, ops[i]).Err? ==> RecordsOf(enc, ops) == RecordsOf(enc, ops[..i])
    decreases i
  {
    hide Encode;
    if Encode(enc, ops[i]).Ok? {
      EncodeValid(enc, ops[i]);
    }
    if i == 0 {
      assert ops[..1][1..] == [] && ops[..0] == [];
    } else {
      assert ops[..i][1..] == ops[1..][..i - 1] && ops[..i + 1][1..] == ops[1..][..i] && ops[..i][0] == ops[0];
      RecordsOfMore(enc, ops[1..], i - 1);
    }
  }

  lemma EncodeAllSnoc(rs: seq<ValidRecord>, r: ValidRecord)
    ensures EncodeAll(rs + [r]) == EncodeAll(rs) + r.Encoded()
  {
    hide Record.Encoded;
    EncodeAllAppend(rs, [r]);
    assert [r][1..] == [] && EncodeAll([]) == [];
    assert EncodeAll([r]) == r.Encoded();
  }

  lemma LocateSnoc(rs: seq<ValidRecord>, r: ValidRecord, base: nat)
    ensures Locate(rs + [r], base) == Locate(rs, base) + [Located(base + |EncodeAll(rs)|, r)]
  {
    hide Record.Encoded;
    LocateAppend(rs, [r], base);
    assert [r][1..] == [] && Locate([], base + |EncodeAll(rs)| + r.Length()) == [];
  }

  lemma SingleDone(enc: Encoder, st: State, op: Operation, next: State)
    ensures Encode(enc, op).Ok? ==>
              Encode(enc, op).value.Valid() && Single(enc, st, op, next) == Effect([Encode(enc, op).value], next, false)
              && EncodeAll([Encode(enc, op).value]) == Encode(enc, op).value.Encoded()
    ensures Encode(enc, op).Err? ==> Single(enc, st, op, next) == Refused(st)
  {
    hide Encode, Record.Encoded;
    if Encode(enc, op).Ok? {
      EncodeValid(enc, op);
      assert [Encode(enc, op).value][1..] == [] && EncodeAll([]) == [];
      assert [op][1..] == [];
    }
  }

  /** What a log and the records appended to it back. */
  ghost predicate BackedBy(enc: Encoder, file: seq<byte>, ls: seq<Located>, cid: CollectionId, documents: map<Str, Entry>) {
    LogOf(file, ls) && AllStand(enc, ls, cid, documents)
  }

  lemma BackingLog(enc: Encoder, file: seq<byte>, cid: CollectionId, documents: map<Str, Entry>) returns (ls: seq<Located>)
    requires Backed(enc, file, cid, documents)
    ensures BackedBy(enc, file, ls, cid, documents)
  {
    hide LogOf, AllStand;
    ls :| LogOf(file, ls) && AllStand(enc, ls, cid, documents);
  }

  lemma BackedFrom(enc: Encoder, file: seq<byte>, ls: seq<Located>, cid: CollectionId, documents: map<Str, Entry>)
    requires BackedBy(enc, file, ls, cid, documents)
    ensures Backed(enc, file, cid, documents)
  {
    hide LogOf, AllStand;
  }

  lemma {:induction false} LogAppended(file: seq<byte>, ls: seq<Located>, rs: seq<ValidRecord>)
    requires LogOf(file, ls)
    ensures LogOf(file + EncodeAll(rs), ls + Locate(rs, |file|))
    decreases |rs|
  {
    hide ReadRecord, LogOf, Record.Encoded;
    if |rs| == 0 {
      assert file + EncodeAll(rs) == file && ls + Locate(rs, |file|) == ls;
    } else {
      var n := |rs| - 1;
      LogAppended(file, ls, rs[..n]);
      assert rs == rs[..n] + [rs[n]];
      EncodeAllSnoc(rs[..n], rs[n]);
      LocateSnoc(rs[..n], rs[n], |file|);
      OneAppended(file + EncodeAll(rs[..n]), ls + Locate(rs[..n], |file|), rs[n]);
      assert file + EncodeAll(rs) == (file + EncodeAll(rs[..n])) + rs[n].Encoded();
      assert ls + Locate(rs, |file|) == (ls + Locate(rs[..n], |file|)) + [Located(|file + EncodeAll(rs[..n])|, rs[n])];
    }
  }

  lemma OneAppended(file: seq<byte>, ls: seq<Located>, r: ValidRecord)
    requires LogOf(file, ls)
    ensures LogOf(file + r.Encoded(), ls + [Located(|file|, r)])
  {
    hide ReadRecord, Record.Encoded, Ordered;
    LogGrows(file, r.Encoded(), ls);
    var longer := file + r.Encoded();
    assert longer[|file|..|file| + r.Length()] == r.Encoded();
    ReadBack(longer, |file|, r);
    forall l | l in ls
      ensures l.offset + l.record.Length() <= |file|
    {
      assert ReadRecord(file, l.offset).Ok?;
    }
    OrderedSnoc(ls, Located(|file|, r));
  }

  lemma PutStands(enc: Encoder, ls: seq<Located>, l: Located, cid: CollectionId, documents: map<Str, Entry>, id: Str, document: Doc)
    requires AllStand(enc, ls, cid, documents) && l in ls
    requires Encode(enc, PutDocument(cid, id, document)) == Ok(l.record) && Faithful(enc, document)
    ensures AllStand(enc, ls, cid, documents[id := Entry(l.offset, document)])
  {
    hide Encode, Decode;
    OperationRoundTrip(enc, PutDocument(cid, id, document)) by {
      EncodedFits(enc, PutDocument(cid, id, document));
    }
    assert Stands(enc, ls, cid, id, Entry(l.offset, document));
    assert forall other :: other in documents ==> Stands(enc, ls, cid, other, documents[other]);
  }

  lemma OnlyIndexes(c: Collection, document: Doc, exclude: Option<Str>)
    ensures Free(Only(c.indexes), document, exclude) <==> Free(c, document, exclude)
  {
    hide KeyOf, Owned;
  }

  lemma PutIsAlone(cid: CollectionId, c: Collection, id: Str, entry: Entry)
    ensures WithCollection(Alone(cid, c), cid, PutInto(c, id, entry)) == Alone(cid, PutInto(c, id, entry))
  {
    hide UpdatePosting;
  }

  lemma RemoveIsAlone(cid: CollectionId, c: Collection, id: Str)
    ensures WithCollection(Alone(cid, c), cid, RemoveFrom(c, id)) == Alone(cid, RemoveFrom(c, id))
  {
    hide RemovePosting;
  }

  lemma BackedPut(enc: Encoder, file: seq<byte>, cid: CollectionId, documents: map<Str, Entry>, id: Str, document: Doc)
    requires Backed(enc, file, cid, documents) && Faithful(enc, document)
    requires Encode(enc, PutDocument(cid, id, document)).Ok? && Encode(enc, PutDocument(cid, id, document)).value.Valid()
    ensures Backed(enc, file + Encode(enc, PutDocument(cid, id, document)).value.Encoded(), cid, documents[id := Entry(|file|, document)])
  {
    hide LogOf, AllStand, Encode, Record.Encoded, Faithful;
    var r := Encode(enc, PutDocument(cid, id, document)).value;
    var ls :| LogOf(file, ls) && AllStand(enc, ls, cid, documents);
    OneAppended(file, ls, r);
    var more := ls + [Located(|file|, r)];
    MoreStand(enc, ls, more, cid, documents);
    PutStands(enc, more, Located(|file|, r), cid, documents, id, document);
  }

  lemma MoreStand(enc: Encoder, ls: seq<Located>, more: seq<Located>, cid: CollectionId, documents: map<Str, Entry>)
    requires AllStand(enc, ls, cid, documents) && forall l :: l in ls ==> l in more
    ensures AllStand(enc, more, cid, documents)
  {
    hide Decode;
    forall id | id in documents
      ensures Stands(enc, more, cid, id, documents[id])
    {
      assert Stands(enc, ls, cid, id, documents[id]);
    }
  }

  lemma BackedRemoved(enc: Encoder, file: seq<byte>, more: seq<byte>, cid: CollectionId, c: Collection, id: Str)
    requires Backed(enc, file, cid, c.documents)
    ensures Backed(enc, file + more, cid, RemoveFrom(c, id).documents)
  {
    hide Backed, RemovePosting;
    BackedGrows(enc, file, more, cid, c.documents);
    BackedFewer(enc, file + more, cid, c.documents, RemoveFrom(c, id).documents);
  }

  lemma OnlyIndexesBatch(c: Collection, writes: seq<Write>)
    ensures BatchFree(Only(c.indexes), writes) <==> BatchFree(c, writes)
  {
    hide FieldFree;
  }

  lemma NewIndexRemoved(c: Collection, field: Str, index: Index)
    requires field !in c.indexes
    ensures c.indexes[field := index] - {field} == c.indexes
  {
  }

  lemma CreatedIsAlone(cid: CollectionId, c: Collection, field: Str, kind: IndexKind, unique: bool)
    requires CreateIndexIn(c, field, kind, unique).Ok?
    ensures WithCollection(Alone(cid, c), cid, CreateIndexIn(c, field, kind, unique).value) == Alone(cid, CreateIndexIn(c, field, kind, unique).value)
  {
    hide Refile, HasDuplicate;
  }

  lemma StartOfRecords(enc: Encoder, ops: seq<Operation>, file: seq<byte>)
    ensures RecordsOf(enc, ops[..0]) == [] && file + EncodeAll([]) == file
  {
  }

  lemma LiveBatchNone(c: Collection)
    ensures LiveBatch(c, [], []) == c
  {
  }

  lemma LiveBatchMore(c: Collection, ops: seq<Operation>, ls: seq<Located>, i: nat)
    requires |ls| == |ops| && i < |ops|
    ensures LiveBatch(c, ops[..i + 1], ls[..i + 1]) == LiveApply(LiveBatch(c, ops[..i], ls[..i]), ops[i], ls[i].offset)
  {
    hide PutInto, RemoveFrom;
    assert ops[..i + 1][..i] == ops[..i] && ls[..i + 1][..i] == ls[..i];
  }

  lemma PutDocuments(c: Collection, id: Str, entry: Entry)
    ensures PutInto(c, id, entry).documents == c.documents[id := entry]
  {
    hide UpdatePosting;
  }

  lemma {:induction false} BatchName(c: Collection, ops: seq<Operation>, ls: seq<Located>)
    requires |ls| == |ops|
    ensures LiveBatch(c, ops, ls).name == c.name
  {
    BatchKeepsName(c, ops, ls);
  }

  lemma BatchIsAlone(enc: Encoder, cid: CollectionId, c: Collection, ops: seq<Operation>, end: nat)
    requires |RecordsOf(enc, Envelope(ops))| == |ops| + 2
    ensures var ls := Locate(RecordsOf(enc, Envelope(ops)), end)[1..|ops| + 1];
            Batch(enc, Alone(cid, c), cid, ops, end) == Effect(RecordsOf(enc, Envelope(ops)), Alone(cid, LiveBatch(c, ops, ls)), false)
  {
    hide LiveBatch, RecordsOf, Locate;
    BatchName(c, ops, Locate(RecordsOf(enc, Envelope(ops)), end)[1..|ops| + 1]);
  }

  lemma RemovedBacked(enc: Encoder, file: seq<byte>, cid: CollectionId, c: Collection, id: Str)
    requires Backed(enc, file, cid, c.documents)
    ensures Backed(enc, file, cid, RemoveFrom(c, id).documents)
  {
    hide Backed, RemovePosting;
    BackedFewer(enc, file, cid, c.documents, RemoveFrom(c, id).documents);
  }

  /** `assertUniqueBatchIds`. */
  method AssertUniqueBatchIds(writes: seq<Write>) returns (ok: bool)
    ensures ok <==> DistinctIds(writes)
  {
    var seen: set<Str> := {};
    for i := 0 to |writes|
      invariant forall id :: id in seen <==> exists k :: 0 <= k < i && writes[k].id == id
      invariant DistinctIds(writes[..i])
    {
      if writes[i].id in seen {
        return false;
      }
      seen := seen + {writes[i].id};
      assert writes[..i + 1] == writes[..i] + [writes[i]];
    }
    assert writes[..|writes|] == writes;
    return true;
  }

  class PocketCollection {
    const id: CollectionId
    const name: Str
    const storage: FileStorage
    const encoder: Encoder
    const indexManager: IndexManager
    var primaryIndex: map<Str, nat>
    var dropped: bool
    ghost var documents: map<Str, Entry>  // what stands at those offsets

    /** The primary index holds the offsets of the documents. */
    ghost predicate Addressed()
      reads this
    {
      primaryIndex.Keys == documents.Keys && forall d :: d in documents ==> primaryIndex[d] == documents[d].offset
    }

    ghost predicate Valid()
      reads this, indexManager, indexManager.stringRepr, indexManager.numberRepr
    {
      Addressed() && indexManager.owner == id && indexManager.Valid()
    }

    ghost function Contents(): Collection
      reads this, indexManager
    {
      Collection(name, documents, indexManager.indexesByField)
    }

    /** Valid, over a valid storage that holds every document. */
    ghost predicate Ready()
      reads this, storage, indexManager, indexManager.stringRepr, indexManager.numberRepr
    {
      Valid() && storage.Valid() && Backed(encoder, storage.bytes, id, documents)
    }

    constructor (id: CollectionId, name: Str, storage: FileStorage, encoder: Encoder)
      ensures Valid() && Contents() == Collection(name, map[], map[]) && !dropped
      ensures fresh(indexManager) && indexManager.stringRepr == {} && indexManager.numberRepr == {}
      ensures this.id == id && this.name == name && this.storage == storage && this.encoder == encoder
    {
      this.id, this.name, this.storage, this.encoder := id, name, storage, encoder;
      indexManager := new IndexManager(id);
      primaryIndex, documents, dropped := map[], map[], false;
    }

    method UpdateDocumentOffset(documentId: Str, newOffset: nat)
      requires Valid() && documentId in documents
      modifies this`primaryIndex, this`documents
      ensures Valid() && Contents() == Readdressed(old(Contents()), documentId, newOffset) && unchanged(this`dropped)
    {
      primaryIndex := primaryIndex[documentId := newOffset];
      documents := documents[documentId := Entry(newOffset, documents[documentId].document)];
    }

    /** Reads every candidate from one range of the file and files it in every index. */
    method FileCandidates(candidates: seq<Candidate>)
      requires Ready() && Lists(candidates, primaryIndex) && |candidates| > 0
      modifies indexManager`indexesByField, indexManager.stringRepr, indexManager.numberRepr
      ensures Valid() && indexManager.indexesByField == FiledIndexes(old(indexManager.indexesByField), documents, documents.Keys)
    {
      hide ReadRecord, Decode, Backed, FiledIndexes, UpdatedIndexes, Lists, OffsetsOf, IdsOf;
      ghost var before := indexManager.indexesByField;
      CandidatesStand(candidates);
      var buffer, rangeStart := storage.ReadBulkRange(OffsetsOf(candidates));
      RangeCovers(candidates, buffer, rangeStart);
      FiledIndexesNone(before, documents);
      AllIds(candidates);
      for i := 0 to |candidates|
        invariant indexManager.Valid() && indexManager.indexesByField == FiledIndexes(before, documents, IdsOf(candidates[..i]))
      {
        var c := candidates[i];
        assert c in candidates;
        var operation := ReadRecord(buffer, c.offset - rangeStart);
        var put := Decode(encoder, operation.value);
        NextIds(candidates, i);
        FiledIndexesMore(before, documents, IdsOf(candidates[..i]), c.id);
        indexManager.UpdateDocument(put.value.document, c.id, c.offset);
      }
    }

    lemma AllIds(candidates: seq<Candidate>)
      requires Valid() && Lists(candidates, primaryIndex)
      ensures IdsOf(candidates[..0]) == {} && IdsOf(candidates[..|candidates|]) == documents.Keys
    {
      assert candidates[..|candidates|] == candidates;
      assert forall d :: d in documents ==> Candidate(d, primaryIndex[d]) in candidates;
    }

    /** Every candidate is read, and is the document filed under its id. */
    lemma CandidatesStand(candidates: seq<Candidate>)
      requires Ready() && Lists(candidates, primaryIndex)
      ensures forall o :: o in OffsetsOf(candidates) ==> ReadRecord(storage.bytes, o).Ok?
      ensures forall c :: c in candidates ==>
                c.id in documents && documents[c.id].offset == c.offset
                && ReadRecord(storage.bytes, c.offset).Ok?
                && Decode(encoder, ReadRecord(storage.bytes, c.offset).value) == Ok(PutDocument(id, c.id, documents[c.id].document))
    {
      hide ReadRecord, Decode, Backed;
      forall c | c in candidates
        ensures c.id in documents && documents[c.id].offset == c.offset
                && ReadRecord(storage.bytes, c.offset).Ok?
                && Decode(encoder, ReadRecord(storage.bytes, c.offset).value) == Ok(PutDocument(id, c.id, documents[c.id].document))
      {
        BackedReads(encoder, storage.bytes, id, documents, c.id);
      }
      forall o | o in OffsetsOf(candidates)
        ensures ReadRecord(storage.bytes, o).Ok?
      {
        var i :| 0 <= i < |candidates| && OffsetsOf(candidates)[i] == o;
        assert candidates[i] in candidates;
      }
    }

    lemma RangeCovers(candidates: seq<Candidate>, buffer: seq<byte>, rangeStart: nat)
      requires Ready() && Lists(candidates, primaryIndex)
      requires forall o :: o in OffsetsOf(candidates) ==> ReadRecord(storage.bytes, o).Ok?
      requires exists o :: o in OffsetsOf(candidates) && (forall p :: p in OffsetsOf(candidates) ==> p <= o)
                           && rangeStart + |buffer| == o + ReadRecord(storage.bytes, o).value.Length()
      requires forall o :: o in OffsetsOf(candidates) ==> rangeStart <= o
      requires forall o :: o in OffsetsOf(candidates) && o + ReadRecord(storage.bytes, o).value.Length() <= rangeStart + |buffer| ==>
                 ReadRecord(buffer, o - rangeStart) == ReadRecord(storage.bytes, o)
      ensures forall c :: c in candidates ==> rangeStart <= c.offset && ReadRecord(buffer, c.offset - rangeStart) == ReadRecord(storage.bytes, c.offset)
    {
      hide ReadRecord, Decode, Backed, Lists, Ready;
      var offsets := OffsetsOf(candidates);
      var last :| last in offsets && (forall p :: p in offsets ==> p <= last)
                  && rangeStart + |buffer| == last + ReadRecord(storage.bytes, last).value.Length();
      var k :| 0 <= k < |candidates| && offsets[k] == last;
      forall c | c in candidates
        ensures rangeStart <= c.offset && ReadRecord(buffer, c.offset - rangeStart) == ReadRecord(storage.bytes, c.offset)
      {
        var i :| 0 <= i < |candidates| && candidates[i] == c;
        assert offsets[i] in offsets;
        EndsWithin(c, candidates[k], candidates);
      }
    }

    lemma EndsWithin(c: Candidate, last: Candidate, candidates: seq<Candidate>)
      requires Ready() && Lists(candidates, primaryIndex) && c in candidates && last in candidates && c.offset <= last.offset
      ensures ReadRecord(storage.bytes, c.offset).Ok? && ReadRecord(storage.bytes, last.offset).Ok?
      ensures c.offset + ReadRecord(storage.bytes, c.offset).value.Length() <= last.offset + ReadRecord(storage.bytes, last.offset).value.Length()
    {
      hide ReadRecord, Backed;
      BackedOrdered(encoder, storage.bytes, id, documents, c.id, last.id);
    }

    lemma NextIds(candidates: seq<Candidate>, i: nat)
      requires i < |candidates| && Lists(candidates, primaryIndex)
      ensures IdsOf(candidates[..i + 1]) == IdsOf(candidates[..i]) + {candidates[i].id}
      ensures candidates[i].id !in IdsOf(candidates[..i])
    {
      assert candidates[..i + 1] == candidates[..i] + [candidates[i]];
    }

    method RebuildIndex()
      requires Ready()
      modifies indexManager`indexesByField, indexManager.stringRepr, indexManager.numberRepr
      ensures Valid() && Contents() == RefileAll(old(Contents()))
    {
      hide Backed, FiledIndexes, Refile, Lists;
      FiledIndexesAll(Contents());
      FiledIndexesNone(indexManager.indexesByField, documents);
      var candidates := Listing(primaryIndex);
      if |candidates| == 0 {
        EmptyListing(candidates, primaryIndex);
        assert documents.Keys == {};
        return;
      }
      FileCandidates(candidates);
    }

    /** After offsets have moved: all indexes are emptied and filled again from the file. */
    method RefreshIndexesAfterCompaction()
      requires Ready()
      modifies indexManager`indexesByField, indexManager.stringRepr, indexManager.numberRepr
      ensures Valid() && Contents() == RefileAll(old(Contents()).(indexes := EmptiedIndexes(old(Contents()).indexes)))
    {
      hide Backed, FiledIndexes, Refile, Lists, EmptiedIndexes;
      indexManager.ClearAllIndexContents();
      RebuildIndex();
    }

    // -------------------------------------------------------------------------
    // Writes of one record
    // -------------------------------------------------------------------------

    /** The file, the memory and the outcome are what the call's effect says. */
    ghost predicate Performed(call: Call, before: Collection, file: seq<byte>, thrown: bool)
      reads this, indexManager, storage
    {
      var e := Perform(encoder, Alone(id, before), |file|, call);
      storage.bytes == file + EncodeAll(e.records) && e.next == Alone(id, Contents()) && thrown == e.thrown
    }

    ghost predicate Sensible(call: Call)
      reads this, indexManager
    {
      FaithfulCall(encoder, Alone(id, Contents()), call)
    }

    method Append(op: Operation) returns (offset: Result<nat>)
      requires storage.Valid()
      modifies storage`bytes, storage`currentOffset
      ensures storage.Valid() && (offset.Ok? <==> Encode(encoder, op).Ok?)
      ensures offset.Ok? ==> Encode(encoder, op).value.Valid() && offset.value == |old(storage.bytes)|
                             && storage.bytes == old(storage.bytes) + Encode(encoder, op).value.Encoded()
      ensures offset.Err? ==> storage.bytes == old(storage.bytes)
    {
      hide EncodePayload, Record.Encoded;
      var payload := EncodePayload(encoder, op);
      if payload.Err? {
        return Err(payload.error);
      }
      EncodeValid(encoder, op);
      offset := storage.AppendOperation(Identifier(op), payload.value);
    }

    method ApplyPutDocument(documentId: Str, offset: nat, document: Doc)
      requires Valid()
      modifies this, indexManager`indexesByField, indexManager.stringRepr, indexManager.numberRepr
      ensures Valid() && Contents() == PutInto(old(Contents()), documentId, Entry(offset, document)) && unchanged(this`dropped)
    {
      hide UpdatePosting;
      primaryIndex := primaryIndex[documentId := offset];
      documents := documents[documentId := Entry(offset, document)];
      indexManager.UpdateDocument(document, documentId, offset);
    }

    method DeletePrimaryIndexEntry(documentId: Str)
      requires Valid()
      modifies this, indexManager`indexesByField, indexManager.stringRepr, indexManager.numberRepr
      ensures Valid() && Contents() == RemoveFrom(old(Contents()), documentId) && unchanged(this`dropped)
    {
      hide RemovePosting;
      primaryIndex := primaryIndex - {documentId};
      documents := documents - {documentId};
      indexManager.RemoveDocument(documentId);
    }

    /** The id a document brings, checked, or the fresh one. */
    method CreateDocumentId(insert: Insert) returns (documentId: Result<Str>)
      requires Valid()
      ensures documentId == DocumentId(Contents(), insert)
    {
      var provided := Get(insert.document, ID_FIELD);
      if provided.None? {
        return Ok(insert.freshId);
      }
      if !provided.value.Text? {
        return Err("Document _id must be a string when provided.");
      }
      if !IsObjectIdHex(provided.value.s) {
        return Err("Document _id must be a 24-character lowercase hex string.");
      }
      if provided.value.s in primaryIndex {
        return Err("Cannot insert document: duplicate _id.");
      }
      return Ok(provided.value.s);
    }

    /** Checks the unique indexes, appends the document, and only then changes the memory. */
    method PutOne(w: Write, exclude: Option<Str>) returns (ok: bool)
      requires Ready() && Faithful(encoder, w.document)
      modifies this, indexManager`indexesByField, indexManager.stringRepr, indexManager.numberRepr, storage
      ensures Ready() && unchanged(this`dropped)
      ensures var e := WriteOne(encoder, Alone(id, old(Contents())), id, w, exclude, |old(storage.bytes)|);
              storage.bytes == old(storage.bytes) + EncodeAll(e.records) && e.next == Alone(id, Contents()) && !ok == e.thrown
    {
      hide Faithful, Encode, Record.Encoded, EncodeAll, PutInto, Single, Backed, Free;
      var unique := indexManager.AssertUnique(w.document, exclude);
      OnlyIndexes(Contents(), w.document, exclude);
      ghost var file, before := storage.bytes, Contents();
      ghost var op := PutDocument(id, w.id, w.document);
      NothingEncoded(file);
      if !unique {
        return false;
      }
      ghost var next := WithCollection(Alone(id, before), id, PutInto(before, w.id, Entry(|file|, w.document)));
      SingleDone(encoder, Alone(id, before), op, next);
      var offset := Append(PutDocument(id, w.id, w.document));
      if offset.Err? {
        return false;
      }
      BackedPut(encoder, file, id, documents, w.id, w.document);
      ApplyPutDocument(w.id, offset.value, w.document);
      PutDocuments(before, w.id, Entry(|file|, w.document));
      assert documents == Contents().documents;
      PutIsAlone(id, before, w.id, Entry(|file|, w.document));
      return true;
    }

    method InsertOne(insert: Insert) returns (insertedId: Result<Str>)
      requires Ready() && Sensible(Call.InsertOne(id, insert))
      modifies this, indexManager`indexesByField, indexManager.stringRepr, indexManager.numberRepr, storage
      ensures Ready() && unchanged(this`dropped)
      ensures !dropped ==> Performed(Call.InsertOne(id, insert), old(Contents()), old(storage.bytes), insertedId.Err?)
      ensures dropped ==> insertedId.Err? && storage.bytes == old(storage.bytes) && Contents() == old(Contents())
    {
      hide Faithful, WriteOne, Backed, Stored, DocumentId;
      if dropped {
        return Err("Collection has been dropped.");
      }
      NothingEncoded(storage.bytes);
      insertedId := CreateDocumentId(insert);
      if insertedId.Err? {
        return;
      }
      var w := Stored(insert.document, insertedId.value);
      assert w in WritesOf(Alone(id, Contents()), Call.InsertOne(id, insert));
      var ok := PutOne(w, None);
      if !ok {
        return Err("Cannot write document.");
      }
    }

    method ReplaceOne(documentId: Str, document: Doc) returns (ok: bool)
      requires Ready() && Sensible(Call.ReplaceOne(id, documentId, document))
      modifies this, indexManager`indexesByField, indexManager.stringRepr, indexManager.numberRepr, storage
      ensures Ready() && unchanged(this`dropped)
      ensures !dropped ==> Performed(Call.ReplaceOne(id, documentId, document), old(Contents()), old(storage.bytes), !ok)
      ensures dropped ==> !ok && storage.bytes == old(storage.bytes) && Contents() == old(Contents())
    {
      hide Faithful, WriteOne, Backed, Stored;
      if dropped {
        return false;
      }
      NothingEncoded(storage.bytes);
      if documentId !in primaryIndex {
        return false;
      }
      var w := Stored(document, documentId);
      assert w in WritesOf(Alone(id, Contents()), Call.ReplaceOne(id, documentId, document));
      ok := PutOne(w, Some(documentId));
    }

    /** Reads a document where the primary index says it stands. */
    method ReadDocument(documentId: Str) returns (document: Doc)
      requires Ready() && documentId in documents
      ensures document == documents[documentId].document
    {
      hide ReadRecord, Decode, Backed;
      BackedReads(encoder, storage.bytes, id, documents, documentId);
      var operation := storage.ReadOperationAtOffset(primaryIndex[documentId]);
      document := Decode(encoder, operation.value).value.document;
    }

    method UpdateOne(documentId: Str, update: Doc -> Result<Doc>) returns (ok: bool)
      requires Ready() && Sensible(Call.UpdateOne(id, documentId, update))
      modifies this, indexManager`indexesByField, indexManager.stringRepr, indexManager.numberRepr, storage
      ensures Ready() && unchanged(this`dropped)
      ensures !dropped ==> Performed(Call.UpdateOne(id, documentId, update), old(Contents()), old(storage.bytes), !ok)
      ensures dropped ==> !ok && storage.bytes == old(storage.bytes) && Contents() == old(Contents())
    {
      hide Faithful, WriteOne, Backed, Stored;
      if dropped {
        return false;
      }
      NothingEncoded(storage.bytes);
      if documentId !in primaryIndex {
        return true;
      }
      var document := ReadDocument(documentId);
      var updated := update(document);
      if updated.Err? {
        return false;
      }
      var w := Stored(updated.value, documentId);
      assert w in WritesOf(Alone(id, Contents()), Call.UpdateOne(id, documentId, update));
      ok := PutOne(w, Some(documentId));
    }

    method DeleteOne(documentId: Str) returns (ok: bool)
      requires Ready()
      modifies this, indexManager`indexesByField, indexManager.stringRepr, indexManager.numberRepr, storage
      ensures Ready() && unchanged(this`dropped)
      ensures !dropped ==> Performed(Call.DeleteOne(id, documentId), old(Contents()), old(storage.bytes), !ok)
      ensures dropped ==> !ok && storage.bytes == old(storage.bytes) && Contents() == old(Contents())
    {
      hide Encode, Record.Encoded, EncodeAll, RemoveFrom, Single, Backed;
      if dropped {
        return false;
      }
      ghost var file, before := storage.bytes, Contents();
      NothingEncoded(file);
      if documentId !in primaryIndex {
        return true;
      }
      SingleDone(encoder, Alone(id, before), DeleteDocument(id, documentId), WithCollection(Alone(id, before), id, RemoveFrom(before, documentId)));
      var offset := Append(DeleteDocument(id, documentId));
      if offset.Err? {
        return false;
      }
      BackedRemoved(encoder, file, Encode(encoder, DeleteDocument(id, documentId)).value.Encoded(), id, before, documentId);
      DeletePrimaryIndexEntry(documentId);
      assert documents == Contents().documents;
      RemoveIsAlone(id, before, documentId);
      return true;
    }

    // -------------------------------------------------------------------------
    // Indexes and the end of the collection
    // -------------------------------------------------------------------------

    /** Creates, fills, and for a new unique index checks; a conflict leaves no trace. */
    method CreateIndexInMemory(field: Str, kind: IndexKind, unique: bool) returns (ok: bool)
      requires Ready() && Mirrors(Contents())
      modifies indexManager, indexManager.stringRepr, indexManager.numberRepr
      ensures Valid() && indexManager.Grown()
      ensures ok <==> CreateIndexIn(old(Contents()), field, kind, unique).Ok?
      ensures Contents() == if ok then CreateIndexIn(old(Contents()), field, kind, unique).value else old(Contents())
    {
      hide Backed, RefileAll, HasDuplicate, Mirrors, IndexManager.Valid;
      if |field| == 0 {
        return false;
      }
      ghost var before := Contents();
      var isNewIndex := field !in indexManager.Fields();
      ok := indexManager.CreateIndex(field, kind, unique);
      if !ok {
        return;
      }
      RebuildIndex();
      if isNewIndex {
        NewIndexMirrors(before, field, kind, unique);
      }
      if isNewIndex && unique {
        var duplicate := indexManager.FindDuplicate(field);
        if duplicate {
          NewIndexRemoved(before, field, indexManager.indexesByField[field]);
          var _ := indexManager.RemoveIndex(field);
          return false;
        }
      }
    }

    method DropIndexFromReplay(field: Str) returns (ok: bool)
      requires Valid()
      modifies indexManager
      ensures Valid() && unchanged(indexManager`stringRepr, indexManager`numberRepr)
      ensures ok <==> DropIndexIn(old(Contents()), field).Ok?
      ensures ok ==> Contents() == DropIndexIn(old(Contents()), field).value
    {
      hide IndexManager.Valid;
      ok := indexManager.RemoveIndex(field);
    }

    method CreateIndex(field: Str, kind: IndexKind, unique: bool) returns (ok: bool)
      requires Ready() && Mirrors(Contents()) && |id| == 4
      modifies this, indexManager, indexManager.stringRepr, indexManager.numberRepr, storage
      ensures Ready() && unchanged(this`dropped)
      ensures !dropped ==> Performed(Call.MakeIndex(id, field, kind, unique), old(Contents()), old(storage.bytes), !ok)
      ensures dropped ==> !ok && storage.bytes == old(storage.bytes) && Contents() == old(Contents())
    {
      hide Encode, Record.Encoded, EncodeAll, CreateIndexIn, Backed, Mirrors, IndexManager.Valid;
      if dropped {
        return false;
      }
      ghost var file, before := storage.bytes, Contents();
      NothingEncoded(file);
      var alreadyExists := field in indexManager.Fields() && indexManager.KindOf(field) == kind;
      ok := CreateIndexInMemory(field, kind, unique);
      if !ok {
        return;
      }
      CreatedIsAlone(id, before, field, kind, unique);
      if !alreadyExists {
        ghost var op := Operation.CreateIndex(id, field, kind, unique);
        SingleDone(encoder, Alone(id, before), op, Alone(id, Contents()));
        var offset := Append(Operation.CreateIndex(id, field, kind, unique));
        if offset.Err? {
          return false;
        }
        BackedGrows(encoder, file, Encode(encoder, op).value.Encoded(), id, documents);
      }
    }

    method DropIndex(field: Str) returns (ok: bool)
      requires Ready()
      modifies this, indexManager, indexManager.stringRepr, indexManager.numberRepr, storage
      ensures Ready() && unchanged(this`dropped)
      ensures !dropped ==> Performed(Call.RemoveIndex(id, field), old(Contents()), old(storage.bytes), !ok)
      ensures dropped ==> !ok && storage.bytes == old(storage.bytes) && Contents() == old(Contents())
    {
      hide Encode, Record.Encoded, EncodeAll, Single, Backed, IndexManager.Valid;
      if dropped {
        return false;
      }
      ghost var file, before := storage.bytes, Contents();
      NothingEncoded(file);
      if field !in indexManager.Fields() {
        return false;
      }
      ghost var op := Operation.DropIndex(id, field);
      ghost var next := before.(indexes := before.indexes - {field});
      SingleDone(encoder, Alone(id, before), op, WithCollection(Alone(id, before), id, next));
      var offset := Append(Operation.DropIndex(id, field));
      if offset.Err? {
        return false;
      }
      BackedGrows(encoder, file, Encode(encoder, op).value.Encoded(), id, documents);
      ok := indexManager.RemoveIndex(field);
    }

    method Drop() returns (ok: bool)
      requires Ready()
      modifies this, indexManager, indexManager.stringRepr, indexManager.numberRepr, storage
      ensures Ready()
      ensures var e := Perform(encoder, Alone(id, old(Contents())), |old(storage.bytes)|, Call.Drop(id));
              if old(dropped) then !ok && storage.bytes == old(storage.bytes) && unchanged(this)
              else storage.bytes == old(storage.bytes) + EncodeAll(e.records) && ok == !e.thrown && dropped == ok
                   && (ok ==> e.next == EMPTY && Contents() == Collection(name, map[], map[]))
                   && (!ok ==> Contents() == old(Contents()) && e.next == Alone(id, Contents()))
      ensures unchanged(indexManager`stringRepr, indexManager`numberRepr)
    {
      hide Encode, Record.Encoded, EncodeAll, Single, Backed, IndexManager.Valid;
      if dropped {
        return false;
      }
      ghost var file, before := storage.bytes, Contents();
      NothingEncoded(file);
      ghost var op := DropCollection(id);
      SingleDone(encoder, Alone(id, before), op, EMPTY);
      assert Alone(id, before).collections - {id} == map[] && Alone(id, before).names - {before.name} == map[];
      var offset := Append(DropCollection(id));
      if offset.Err? {
        return false;
      }
      BackedGrows(encoder, file, Encode(encoder, op).value.Encoded(), id, documents);
      BackedFewer(encoder, storage.bytes, id, documents, map[]);
      primaryIndex, documents := map[], map[];
      indexManager.Clear();
      dropped := true;
      return true;
    }

    // -------------------------------------------------------------------------
    // Batches
    // -------------------------------------------------------------------------

    /** Begin, the operations, commit; stops where an operation cannot be encoded. */
    method AppendTransaction(ops: seq<Operation>) returns (offsets: Result<seq<nat>>)
      requires storage.Valid()
      modifies storage`bytes, storage`currentOffset
      ensures storage.Valid()
      ensures storage.bytes == old(storage.bytes) + EncodeAll(RecordsOf(encoder, Envelope(ops)))
      ensures offsets.Ok? <==> |RecordsOf(encoder, Envelope(ops))| == |ops| + 2
      ensures offsets.Ok? ==> |offsets.value| == |ops| && forall i :: 0 <= i < |ops| ==>
                offsets.value[i] == Locate(RecordsOf(encoder, Envelope(ops)), |old(storage.bytes)|)[i + 1].offset
    {
      hide Encode, Record.Encoded, EncodeAll, Locate, RecordsOf;
      ghost var file := storage.bytes;
      var all := Envelope(ops);
      var positions: seq<nat> := [];
      StartOfRecords(encoder, all, file);
      for i := 0 to |all|
        invariant storage.Valid() && |positions| == i == |RecordsOf(encoder, all[..i])|
        invariant storage.bytes == file + EncodeAll(RecordsOf(encoder, all[..i]))
        invariant forall k :: 0 <= k < i ==> positions[k] == Locate(RecordsOf(encoder, all[..i]), |file|)[k].offset
      {
        RecordsOfMore(encoder, all, i);
        var offset := Append(all[i]);
        if offset.Err? {
          return Err(offset.error);
        }
        ghost var rs, r := RecordsOf(encoder, all[..i]), Encode(encoder, all[i]).value;
        EncodeAllSnoc(rs, r);
        LocateSnoc(rs, r, |file|);
        assert (file + EncodeAll(rs)) + r.Encoded() == file + EncodeAll(rs + [r]);
        positions := positions + [offset.value];
      }
      assert all[..|all|] == all;
      offsets := Ok(positions[1..|ops| + 1]);
    }

    /** Checks the batch, writes it as one transaction, and only then changes the memory. */
    method PutMany(writes: seq<Write>) returns (ok: bool)
      requires Ready() && forall w :: w in writes ==> Faithful(encoder, w.document)
      modifies this, indexManager`indexesByField, indexManager.stringRepr, indexManager.numberRepr, storage
      ensures Ready() && unchanged(this`dropped)
      ensures var e := WriteBatch(encoder, Alone(id, old(Contents())), id, writes, |old(storage.bytes)|);
              storage.bytes == old(storage.bytes) + EncodeAll(e.records) && e.next == Alone(id, Contents()) && !ok == e.thrown
    {
      hide Faithful, Encode, Record.Encoded, EncodeAll, PutInto, Backed, BatchFree, Locate, RecordsOf, LogOf, AllStand, LiveBatch;
      ghost var file, before := storage.bytes, Contents();
      NothingEncoded(file);
      var unique := indexManager.AssertUniqueBatch(writes);
      OnlyIndexesBatch(before, writes);
      if !unique {
        return false;
      }
      if |writes| == 0 {
        return true;
      }
      ghost var ops := Puts(id, writes);
      var offsets := AppendTransaction(Puts(id, writes));
      ghost var rs := RecordsOf(encoder, Envelope(ops));
      ghost var log := BackingLog(encoder, file, id, documents);
      LogAppended(file, log, rs);
      ghost var longer := log + Locate(rs, |file|);
      MoreStand(encoder, log, longer, id, documents);
      BackedFrom(encoder, storage.bytes, longer, id, documents);
      if offsets.Err? {
        return false;
      }
      ghost var ls := Locate(rs, |file|)[1..|ops| + 1];
      LiveBatchNone(before);
      for i := 0 to |writes|
        invariant Valid() && unchanged(this`dropped) && storage.Valid() && storage.bytes == file + EncodeAll(rs)
        invariant Contents() == LiveBatch(before, ops[..i], ls[..i])
        invariant AllStand(encoder, longer, id, documents)
      {
        LiveBatchMore(before, ops, ls, i);
        assert writes[i] in writes && longer[|log| + i + 1] == ls[i];
        assert Encode(encoder, Envelope(ops)[i + 1]) == Ok(rs[i + 1]) && Envelope(ops)[i + 1] == ops[i];
        PutStands(encoder, longer, ls[i], id, documents, writes[i].id, writes[i].document);
        ApplyPutDocument(writes[i].id, offsets.value[i], writes[i].document);
        PutDocuments(LiveBatch(before, ops[..i], ls[..i]), writes[i].id, Entry(ls[i].offset, writes[i].document));
      }
      assert ops[..|ops|] == ops && ls[..|ls|] == ls;
      BackedFrom(encoder, storage.bytes, longer, id, documents);
      BatchIsAlone(encoder, id, before, ops, |file|);
      return true;
    }

    /** Gives every document its id; the first one that cannot get one stops it all. */
    method PrepareInsertedDocuments(inserts: seq<Insert>) returns (writes: Result<seq<Write>>)
      requires Valid()
      ensures writes == PrepareInserts(Contents(), inserts)
    {
      hide DocumentId, Stored;
      var prepared: seq<Write> := [];
      assert inserts[0..] == inserts;
      assert PrepareInserts(Contents(), inserts).Ok? ==> prepared + PrepareInserts(Contents(), inserts).value == PrepareInserts(Contents(), inserts).value;
      for i := 0 to |inserts|
        invariant PrepareInserts(Contents(), inserts) == match PrepareInserts(Contents(), inserts[i..])
                                                         case Ok(rest) => Ok(prepared + rest)
                                                         case Err(e) => Err(e)
      {
        assert inserts[i..][0] == inserts[i] && inserts[i..][1..] == inserts[i + 1..];
        var documentId := CreateDocumentId(inserts[i]);
        if documentId.Err? {
          return Err(documentId.error);
        }
        var w := Stored(inserts[i].document, documentId.value);
        assert forall rest: seq<Write> :: prepared + ([w] + rest) == (prepared + [w]) + rest;
        prepared := prepared + [w];
      }
      assert prepared + [] == prepared;
      return Ok(prepared);
    }

    /** Reads the documents that still exist and updates them. */
    method PrepareUpdatedDocuments(ids: seq<Str>, update: Doc -> Result<Doc>) returns (writes: Result<seq<Write>>)
      requires Ready()
      ensures writes == PrepareUpdates(Contents(), ids, update)
    {
      hide Stored, Backed;
      var prepared: seq<Write> := [];
      assert ids[0..] == ids;
      assert PrepareUpdates(Contents(), ids, update).Ok? ==>
        prepared + PrepareUpdates(Contents(), ids, update).value == PrepareUpdates(Contents(), ids, update).value;
      for i := 0 to |ids|
        invariant PrepareUpdates(Contents(), ids, update) == match PrepareUpdates(Contents(), ids[i..], update)
                                                             case Ok(rest) => Ok(prepared + rest)
                                                             case Err(e) => Err(e)
      {
        assert ids[i..][0] == ids[i] && ids[i..][1..] == ids[i + 1..];
        if ids[i] in primaryIndex {
          var document := ReadDocument(ids[i]);
          var updated := update(document);
          if updated.Err? {
            return Err(updated.error);
          }
          var w := Stored(updated.value, ids[i]);
          assert forall rest: seq<Write> :: prepared + ([w] + rest) == (prepared + [w]) + rest;
          prepared := prepared + [w];
        }
      }
      assert prepared + [] == prepared;
      return Ok(prepared);
    }

    method InsertMany(inserts: seq<Insert>) returns (ok: bool)
      requires Ready() && Sensible(Call.InsertMany(id, inserts))
      modifies this, indexManager`indexesByField, indexManager.stringRepr, indexManager.numberRepr, storage
      ensures Ready() && unchanged(this`dropped)
      ensures !dropped ==> Performed(Call.InsertMany(id, inserts), old(Contents()), old(storage.bytes), !ok)
      ensures dropped ==> !ok && storage.bytes == old(storage.bytes) && Contents() == old(Contents())
    {
      hide Faithful, WriteBatch, Backed, PrepareInserts, DistinctIds;
      if dropped {
        return false;
      }
      NothingEncoded(storage.bytes);
      var writes := PrepareInsertedDocuments(inserts);
      if writes.Err? {
        return false;
      }
      var distinct := AssertUniqueBatchIds(writes.value);
      if !distinct {
        return false;
      }
      assert WritesOf(Alone(id, Contents()), Call.InsertMany(id, inserts)) == writes.value;
      ok := PutMany(writes.value);
    }

    method UpdateMany(ids: seq<Str>, update: Doc -> Result<Doc>) returns (ok: bool)
      requires Ready() && Sensible(Call.UpdateMany(id, ids, update))
      modifies this, indexManager`indexesByField, indexManager.stringRepr, indexManager.numberRepr, storage
      ensures Ready() && unchanged(this`dropped)
      ensures !dropped ==> Performed(Call.UpdateMany(id, ids, update), old(Contents()), old(storage.bytes), !ok)
      ensures dropped ==> !ok && storage.bytes == old(storage.bytes) && Contents() == old(Contents())
    {
      hide Faithful, WriteBatch, Backed, PrepareUpdates;
      if dropped {
        return false;
      }
      NothingEncoded(storage.bytes);
      var writes := PrepareUpdatedDocuments(ids, update);
      if writes.Err? {
        return false;
      }
      if |writes.value| == 0 {
        return true;
      }
      assert WritesOf(Alone(id, Contents()), Call.UpdateMany(id, ids, update)) == writes.value;
      ok := PutMany(writes.value);
    }

    /** The ids that still exist, deleted in one transaction. */
    method DeleteMany(ids: seq<Str>) returns (ok: bool)
      requires Ready()
      modifies this, indexManager`indexesByField, indexManager.stringRepr, indexManager.numberRepr, storage
      ensures Ready() && unchanged(this`dropped)
      ensures !dropped ==> Performed(Call.DeleteMany(id, ids), old(Contents()), old(storage.bytes), !ok)
      ensures dropped ==> !ok && storage.bytes == old(storage.bytes) && Contents() == old(Contents())
    {
      hide Encode, Record.Encoded, EncodeAll, RemoveFrom, Backed, Locate, RecordsOf, LiveBatch, Existing, IndexManager.Valid;
      if dropped {
        return false;
      }
      ghost var file, before := storage.bytes, Contents();
      NothingEncoded(file);
      var existing := ExistingIds(ids);
      if |existing| == 0 {
        return true;
      }
      ghost var ops := Deletes(id, existing);
      var offsets := AppendTransaction(Deletes(id, existing));
      ghost var rs := RecordsOf(encoder, Envelope(ops));
      BackedGrows(encoder, file, EncodeAll(rs), id, documents);
      if offsets.Err? {
        return false;
      }
      ghost var ls := Locate(rs, |file|)[1..|ops| + 1];
      LiveBatchNone(before);
      for i := 0 to |existing|
        invariant Valid() && unchanged(this`dropped) && storage.Valid() && storage.bytes == file + EncodeAll(rs)
        invariant Contents() == LiveBatch(before, ops[..i], ls[..i])
        invariant Backed(encoder, storage.bytes, id, documents)
      {
        LiveBatchMore(before, ops, ls, i);
        RemovedBacked(encoder, storage.bytes, id, Contents(), existing[i]);
        DeletePrimaryIndexEntry(existing[i]);
        assert documents == Contents().documents;
      }
      assert ops[..|ops|] == ops && ls[..|ls|] == ls;
      BatchIsAlone(encoder, id, before, ops, |file|);
      return true;
    }

    method ExistingIds(ids: seq<Str>) returns (existing: seq<Str>)
      requires Valid()
      ensures existing == Existing(Contents(), ids)
    {
      existing := [];
      assert ids[0..] == ids;
      for i := 0 to |ids|
        invariant Existing(Contents(), ids) == existing + Existing(Contents(), ids[i..])
      {
        assert ids[i..][0] == ids[i] && ids[i..][1..] == ids[i + 1..];
        if ids[i] in primaryIndex {
          existing := existing + [ids[i]];
        }
      }
    }
  }

  lemma EmptyListing(candidates: seq<Candidate>, found: map<Str, nat>)
    requires Lists(candidates, found) && |candidates| == 0
    ensures found == map[]
  {
    assert found.Keys == {};
  }
}
