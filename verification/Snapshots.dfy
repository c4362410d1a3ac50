/**
 What a cursor holds on to: offsets of record versions, which stay readable however much is
 appended behind them, and cached documents, which are the records at their offsets.
 */
module Snapshots {
  import opened Bytes
  import opened Records
  import opened LogScan
  import opened Documents
  import opened Operations
  import opened DatabaseState
  import opened Indexes
  import opened Backing
  import opened Cache

  /** The document of the put record at an offset. */
  ghost predicate Holds(enc: Encoder, file: seq<byte>, offset: nat, document: Doc) {
    var op := DocumentAt(enc, file, offset);
    op.Ok? && op.value.PutDocument? && op.value.document == document
  }

  ghost predicate StandsDoc(enc: Encoder, ls: seq<Located>, offset: nat, document: Doc) {
    exists l :: l in ls && l.offset == offset && Decode(enc, l.record).Ok?
                && Decode(enc, l.record).value.PutDocument? && Decode(enc, l.record).value.document == document
  }

  ghost predicate AllStandDocs(enc: Encoder, ls: seq<Located>, candidates: seq<Candidate>, documents: seq<Doc>) {
    |documents| == |candidates| && forall i :: 0 <= i < |candidates| ==> StandsDoc(enc, ls, candidates[i].offset, documents[i])
  }

  /** These documents are the records at the candidates' offsets. */
  ghost predicate Snapshot(enc: Encoder, file: seq<byte>, candidates: seq<Candidate>, documents: seq<Doc>) {
    exists ls :: LogOf(file, ls) && AllStandDocs(enc, ls, candidates, documents)
  }

  lemma SnapshotReads(enc: Encoder, file: seq<byte>, candidates: seq<Candidate>, documents: seq<Doc>, i: nat)
    requires Snapshot(enc, file, candidates, documents) && i < |candidates|
    ensures |documents| == |candidates| && ReadRecord(file, candidates[i].offset).Ok? && Holds(enc, file, candidates[i].offset, documents[i])
  {
    hide ReadRecord, Decode, Ordered;
    var ls :| LogOf(file, ls) && AllStandDocs(enc, ls, candidates, documents);
    assert StandsDoc(enc, ls, candidates[i].offset, documents[i]);
  }

  /** A record at a lower offset ends first. */
  lemma SnapshotOrdered(enc: Encoder, file: seq<byte>, candidates: seq<Candidate>, documents: seq<Doc>, i: nat, j: nat)
    requires Snapshot(enc, file, candidates, documents) && i < |candidates| && j < |candidates| && candidates[i].offset <= candidates[j].offset
    ensures ReadRecord(file, candidates[i].offset).Ok? && ReadRecord(file, candidates[j].offset).Ok?
    ensures candidates[i].offset + ReadRecord(file, candidates[i].offset).value.Length()
         <= candidates[j].offset + ReadRecord(file, candidates[j].offset).value.Length()
  {
    hide ReadRecord, Decode, Ordered;
    var ls :| LogOf(file, ls) && AllStandDocs(enc, ls, candidates, documents);
    assert StandsDoc(enc, ls, candidates[i].offset, documents[i]) && StandsDoc(enc, ls, candidates[j].offset, documents[j]);
    var l: Located :| l in ls && l.offset == candidates[i].offset;
    var m: Located :| m in ls && m.offset == candidates[j].offset;
    StandsOnce(ls, l, m);
  }

  /** A snapshot outlives every append. */
  lemma SnapshotGrows(enc: Encoder, file: seq<byte>, more: seq<byte>, candidates: seq<Candidate>, documents: seq<Doc>)
    requires Snapshot(enc, file, candidates, documents)
    ensures Snapshot(enc, file + more, candidates, documents)
  {
    hide LogOf, AllStandDocs;
    var ls :| LogOf(file, ls) && AllStandDocs(enc, ls, candidates, documents);
    LogGrows(file, more, ls);
  }

  /** Candidates of live documents are a snapshot of these documents. */
  lemma SnapshotTaken(enc: Encoder, file: seq<byte>, cid: CollectionId, documents: map<Str, Entry>, candidates: seq<Candidate>, snapshot: seq<Doc>)
    requires Backed(enc, file, cid, documents) && |snapshot| == |candidates|
    requires forall i :: 0 <= i < |candidates| ==>
               candidates[i].id in documents && candidates[i].offset == documents[candidates[i].id].offset && snapshot[i] == documents[candidates[i].id].document
    ensures Snapshot(enc, file, candidates, snapshot)
  {
    hide LogOf, Decode;
    var ls :| LogOf(file, ls) && AllStand(enc, ls, cid, documents);
    forall i | 0 <= i < |candidates|
      ensures StandsDoc(enc, ls, candidates[i].offset, snapshot[i])
    {
      assert Stands(enc, ls, cid, candidates[i].id, documents[candidates[i].id]);
    }
  }

  // ---------------------------------------------------------------------------
  // One range read for all candidates
  // ---------------------------------------------------------------------------

  /** Every candidate reads the same from the range as from the file. */
  ghost predicate RangeHolds(file: seq<byte>, candidates: seq<Candidate>, buffer: seq<byte>, rangeStart: nat) {
    forall i :: 0 <= i < |candidates| ==>
      rangeStart <= candidates[i].offset && ReadRecord(buffer, candidates[i].offset - rangeStart) == ReadRecord(file, candidates[i].offset)
  }

  lemma RangeGrows(enc: Encoder, file: seq<byte>, more: seq<byte>, candidates: seq<Candidate>, documents: seq<Doc>, buffer: seq<byte>, rangeStart: nat)
    requires Snapshot(enc, file, candidates, documents) && RangeHolds(file, candidates, buffer, rangeStart)
    ensures RangeHolds(file + more, candidates, buffer, rangeStart)
  {
    hide ReadRecord, Snapshot, Holds;
    forall i | 0 <= i < |candidates|
      ensures ReadRecord(file + more, candidates[i].offset) == ReadRecord(file, candidates[i].offset)
    {
      SnapshotReads(enc, file, candidates, documents, i);
      ReadGrows(file, more, candidates[i].offset);
    }
  }

  lemma OffsetsReadable(enc: Encoder, file: seq<byte>, candidates: seq<Candidate>, documents: seq<Doc>)
    requires Snapshot(enc, file, candidates, documents)
    ensures forall o :: o in OffsetsOf(candidates) ==> ReadRecord(file, o).Ok?
  {
    hide ReadRecord, Snapshot, Holds;
    forall o | o in OffsetsOf(candidates)
      ensures ReadRecord(file, o).Ok?
    {
      var i :| 0 <= i < |candidates| && OffsetsOf(candidates)[i] == o;
      SnapshotReads(enc, file, candidates, documents, i);
    }
  }

  /** What `ReadBulkRange` promises is enough for every candidate. */
  lemma RangeCoversAll(enc: Encoder, file: seq<byte>, candidates: seq<Candidate>, documents: seq<Doc>, buffer: seq<byte>, rangeStart: nat)
    requires Snapshot(enc, file, candidates, documents)
    requires forall o :: o in OffsetsOf(candidates) ==> rangeStart <= o && ReadRecord(file, o).Ok?
    requires exists o :: o in OffsetsOf(candidates) && (forall p :: p in OffsetsOf(candidates) ==> p <= o)
                         && rangeStart + |buffer| == o + ReadRecord(file, o).value.Length()
    requires forall o :: o in OffsetsOf(candidates) && o + ReadRecord(file, o).value.Length() <= rangeStart + |buffer| ==>
               ReadRecord(buffer, o - rangeStart) == ReadRecord(file, o)
    ensures RangeHolds(file, candidates, buffer, rangeStart)
  {
    hide ReadRecord, Snapshot, Holds;
    var offsets := OffsetsOf(candidates);
    var last :| last in offsets && (forall p :: p in offsets ==> p <= last) && rangeStart + |buffer| == last + ReadRecord(file, last).value.Length();
    var k :| 0 <= k < |candidates| && offsets[k] == last;
    forall i | 0 <= i < |candidates|
      ensures rangeStart <= candidates[i].offset && ReadRecord(buffer, candidates[i].offset - rangeStart) == ReadRecord(file, candidates[i].offset)
    {
      assert offsets[i] in offsets;
      SnapshotOrdered(enc, file, candidates, documents, i, k);
    }
  }

  // ---------------------------------------------------------------------------
  // Cached documents
  // ---------------------------------------------------------------------------

  /** Every cached document is the record at its offset. */
  ghost predicate CacheCurrent(enc: Encoder, file: seq<byte>, r: seq<CacheEntry>) {
    forall e :: e in r ==> Holds(enc, file, e.offset, e.document)
  }

  lemma HoldsGrows(enc: Encoder, file: seq<byte>, more: seq<byte>, offset: nat, document: Doc)
    requires Holds(enc, file, offset, document)
    ensures Holds(enc, file + more, offset, document)
  {
    hide ReadRecord, Decode;
    ReadGrows(file, more, offset);
  }

  /** Appending leaves the cache true, whatever is appended. */
  lemma CacheGrows(enc: Encoder, file: seq<byte>, more: seq<byte>, r: seq<CacheEntry>)
    requires CacheCurrent(enc, file, r)
    ensures CacheCurrent(enc, file + more, r)
  {
    hide Holds;
    forall e | e in r
      ensures Holds(enc, file + more, e.offset, e.document)
    {
      HoldsGrows(enc, file, more, e.offset, e.document);
    }
  }

  /** Every operation of the cache leaves it true, if what is put in is the record at its offset. */
  lemma OperationsCurrent(enc: Encoder, file: seq<byte>, r: seq<CacheEntry>, id: Str, offset: nat, e: CacheEntry, maxBytes: nat)
    requires CacheCurrent(enc, file, r) && Distinct(r)
    ensures CacheCurrent(enc, file, AfterGet(r, id, offset)) && CacheCurrent(enc, file, Excluding(r, id)) && CacheCurrent(enc, file, Trim(r, 0, maxBytes))
    ensures Holds(enc, file, e.offset, e.document) ==> CacheCurrent(enc, file, AfterSet(r, e, maxBytes))
  {
    hide Holds, Trim, Excluding, Lookup;
    ExcludingKeeps(r, id);
    ExcludingKeeps(r, e.id);
    LookupFinds(r, id);
    TrimBounded(r, 0, maxBytes);
    if e.bytes <= maxBytes {
      ExcludingDistinct(r, e.id);
      TrimBounded(Excluding(r, e.id), e.bytes, maxBytes);
    }
  }

  /** A hit returns exactly what a read of the file would. */
  lemma HitIsRead(enc: Encoder, file: seq<byte>, r: seq<CacheEntry>, id: Str, offset: nat, document: Doc)
    requires CacheCurrent(enc, file, r) && Holds(enc, file, offset, document)
    requires Lookup(r, id).Some? && Lookup(r, id).value.offset == offset
    ensures Lookup(r, id).value.document == document
  {
    LookupFinds(r, id);
  }
}
