/**
 One step of the in-place compaction loop: liveness tested against offsets that are already
 changing, records copied to where they belong, and the file in between.
 */
module CompactionLoop {
  import opened Bytes
  import opened Records
  import opened LogScan
  import opened Documents
  import opened Payloads
  import opened Operations
  import opened DatabaseState
  import opened Replay
  import opened Compaction
  import opened Runs
  import opened LogCompaction
  import opened Backing

  // ---------------------------------------------------------------------------
  // A record that was read is its own encoding
  // ---------------------------------------------------------------------------

  lemma LastDigit(high: nat, low: nat)
    requires low < 0x100
    ensures (high * 0x100 + low) / 0x100 == high && (high * 0x100 + low) % 0x100 == low
  {
  }

  lemma U32Unique(b0: byte, b1: byte, b2: byte, b3: byte)
    ensures U32BE(FromBytesBE(b0, b1, b2, b3)) == [b0, b1, b2, b3]
  {
    var h: nat := b0 as int * 0x100 + b1;
    var m: nat := h * 0x100 + b2;
    var n: nat := m * 0x100 + b3;
    assert n == FromBytesBE(b0, b1, b2, b3);
    LastDigit(b0, b1);
    LastDigit(h, b2);
    LastDigit(m, b3);
    assert n / 0x1_0000 == n / 0x100 / 0x100;
    assert n / 0x100_0000 == n / 0x1_0000 / 0x100;
  }

  lemma U32Field(bs: seq<byte>, offset: nat)
    requires offset + 4 <= |bs|
    ensures U32BE(ReadU32BE(bs, offset)) == bs[offset..offset + 4]
  {
    hide U32BE, FromBytesBE;
    U32Unique(bs[offset], bs[offset + 1], bs[offset + 2], bs[offset + 3]);
  }

  lemma CoveredAgain(file: seq<byte>, offset: nat, n: nat, r: Record)
    requires n < TWO_TO_32 && offset + 8 + n <= |file|
    requires r.identifier == file[offset..offset + 4] && r.payload == file[offset + 8..offset + 8 + n]
    requires U32BE(n) == file[offset + 4..offset + 8]
    ensures r.Valid() && r.Covered() == file[offset..offset + 8 + n]
  {
    hide U32BE;
    assert file[offset..offset + 8 + n] == file[offset..offset + 4] + file[offset + 4..offset + 8] + file[offset + 8..offset + 8 + n];
  }

  /** Reading a record is decoding a slice of the file. */
  lemma ReadIsDecode(file: seq<byte>, offset: nat) returns (covered: seq<byte>)
    requires ReadRecord(file, offset).Ok?
    ensures var n := 8 + ReadU32BE(file, offset + 4);
            && offset + n + 4 <= |file| && covered == file[offset..offset + n] && |covered| == n == 8 + ReadU32BE(covered, 4)
            && ReadRecord(file, offset) == DecodeOperationRecord(covered, file[offset + n..offset + n + 4])
  {
    LengthOfRead(file, offset);
    hide ReadU32BE, ReadRecord, DecodeOperationRecord;
    var n := 8 + ReadU32BE(file, offset + 4);
    covered := file[offset..offset + n];
    ReadUnfolds(file, offset);
    ReadU32Window(file, offset, covered);
  }

  lemma ReadParts(file: seq<byte>, offset: nat)
    requires ReadRecord(file, offset).Ok?
    ensures var r := ReadRecord(file, offset).value;
            var end := offset + 8 + |r.payload|;
            && end + 4 <= |file| && |r.payload| == ReadU32BE(file, offset + 4)
            && r.identifier == file[offset..offset + 4] && r.payload == file[offset + 8..end]
            && Crc32.Checksum(file[offset..end]) == file[end..end + 4]
  {
    hide Crc32.Checksum, ReadU32BE, ReadRecord, DecodeOperationRecord;
    var covered := ReadIsDecode(file, offset);
    var n := |covered|;
    DecodeParts(covered, file[offset + n..offset + n + 4]);
    SliceOfSlice(file, offset, n, 0, 4);
    SliceOfSlice(file, offset, n, 8, n);
  }

  lemma DecodeParts(covered: seq<byte>, checksum: seq<byte>)
    requires |covered| >= 8 && |covered| == 8 + ReadU32BE(covered, 4) && DecodeOperationRecord(covered, checksum).Ok?
    ensures var r := DecodeOperationRecord(covered, checksum).value;
            r.identifier == covered[0..4] && r.payload == covered[8..|covered|] && Crc32.Checksum(covered) == checksum
  {
    hide Crc32.Checksum, ReadU32BE;
  }

  lemma ReadIsEncoded(file: seq<byte>, offset: nat)
    requires ReadRecord(file, offset).Ok?
    ensures var r := ReadRecord(file, offset).value;
            offset + r.Length() <= |file| && file[offset..offset + r.Length()] == r.Encoded()
  {
    hide Crc32.Checksum, U32BE, ReadU32BE, ReadRecord;
    var r := ReadRecord(file, offset).value;
    var end := offset + 8 + |r.payload|;
    ReadParts(file, offset);
    U32Field(file, offset + 4);
    CoveredAgain(file, offset, |r.payload|, r);
    assert file[offset..end + 4] == file[offset..end] + file[end..end + 4];
  }

  // ---------------------------------------------------------------------------
  // Records move towards the front
  // ---------------------------------------------------------------------------

  lemma {:induction false} OffsetsFill(ls: seq<Located>, k: nat)
    requires Ordered(ls) && k < |ls| && ls[0].offset >= FILE_HEADER_BYTES
    ensures FILE_HEADER_BYTES + Size(ls[..k]) <= ls[k].offset
    decreases k
  {
    if k > 0 {
      OffsetsFill(ls, k - 1);
      assert ls[..k][..k - 1] == ls[..k - 1];
    }
  }

  lemma {:induction false} KeptSize(enc: Encoder, st: State, ls: seq<Located>)
    ensures Size(KeptLog(enc, st, ls)) <= Size(ls)
    decreases |ls|
  {
    hide KeepRecord;
    if |ls| > 0 {
      var n := |ls| - 1;
      KeptSize(enc, st, ls[..n]);
      if KeepRecord(enc, st, ls[n]) {
        assert KeptLog(enc, st, ls)[..|KeptLog(enc, st, ls)| - 1] == KeptLog(enc, st, ls[..n]);
      } else {
        assert KeptLog(enc, st, ls) == KeptLog(enc, st, ls[..n]);
      }
    }
  }

  /** Where the next kept record goes. */
  function WriteHead(enc: Encoder, st: State, ls: seq<Located>, k: nat): nat
    requires k <= |ls|
  {
    FILE_HEADER_BYTES + Size(KeptLog(enc, st, ls[..k]))
  }

  /** The record about to be read lies at or behind the place it would be copied to. */
  lemma WriteHeadBehind(enc: Encoder, st: State, ls: seq<Located>, k: nat)
    requires Ordered(ls) && k < |ls| && ls[0].offset >= FILE_HEADER_BYTES
    ensures WriteHead(enc, st, ls, k) <= ls[k].offset
  {
    hide KeptLog, Size;
    OffsetsFill(ls, k);
    KeptSize(enc, st, ls[..k]);
  }

  lemma KeptNext(enc: Encoder, st: State, ls: seq<Located>, k: nat)
    requires k < |ls|
    ensures var kl := KeptLog(enc, st, ls[..k]);
            var next := KeptLog(enc, st, ls[..k + 1]);
            next == (if KeepRecord(enc, st, ls[k]) then kl + [ls[k]] else kl)
            && WriteHead(enc, st, ls, k + 1) == WriteHead(enc, st, ls, k) + (if KeepRecord(enc, st, ls[k]) then ls[k].record.Length() else 0)
            && Moves(next) == (if KeepRecord(enc, st, ls[k]) then Moves(kl)[ls[k].offset := WriteHead(enc, st, ls, k)] else Moves(kl))
  {
    hide KeepRecord;
    assert ls[..k + 1][..k] == ls[..k];
    var kl := KeptLog(enc, st, ls[..k]);
    assert (kl + [ls[k]])[..|kl|] == kl;
    assert kl + [] == kl;
  }

  predicate MovesDown(mv: map<nat, nat>, bound: nat) {
    forall o :: o in mv ==> mv[o] <= o < bound
  }

  /** So far, records before this one have moved, and only towards the front. */
  lemma {:induction false} MovedSoFar(enc: Encoder, st: State, ls: seq<Located>, k: nat)
    requires Ordered(ls) && k <= |ls| && (|ls| > 0 ==> ls[0].offset >= FILE_HEADER_BYTES)
    ensures MovesDown(Moves(KeptLog(enc, st, ls[..k])), if k < |ls| then ls[k].offset else if k == 0 then 0 else ls[k - 1].offset + 1)
    decreases k
  {
    hide KeepRecord, KeptLog, Moves, WriteHead;
    if k == 0 {
      NothingMoved(enc, st, ls);
    } else {
      MovedSoFar(enc, st, ls, k - 1);
      KeptNext(enc, st, ls, k - 1);
      WriteHeadBehind(enc, st, ls, k - 1);
    }
  }

  lemma NothingMoved(enc: Encoder, st: State, ls: seq<Located>)
    ensures KeptLog(enc, st, ls[..0]) == [] && Moves([]) == map[]
  {
  }

  // ---------------------------------------------------------------------------
  // The memory halfway through
  // ---------------------------------------------------------------------------

  /** Offsets moved, indexes not yet refreshed. */
  function HalfMoved(c: Collection, mv: map<nat, nat>): Collection {
    c.(documents := MoveDocuments(c.documents, mv))
  }

  function HalfState(st: State, mv: map<nat, nat>): State {
    State(map cid | cid in st.collections :: HalfMoved(st.collections[cid], mv), st.names)
  }

  /** Liveness of the next record is the same before and during the moves. */
  lemma LivenessStable(enc: Encoder, st: State, mv: map<nat, nat>, l: Located)
    requires MovesDown(mv, l.offset)
    ensures KeepRecord(enc, HalfState(st, mv), l) <==> KeepRecord(enc, st, l)
  {
    hide Decode;
  }

  /** Only this document has this offset. */
  predicate OnlyAt(st: State, cid: CollectionId, id: Str, offset: nat) {
    forall c, d :: c in st.collections && d in st.collections[c].documents && st.collections[c].documents[d].offset == offset ==>
      c == cid && d == id
  }

  predicate NoneAt(st: State, offset: nat) {
    forall c, d :: c in st.collections && d in st.collections[c].documents ==> st.collections[c].documents[d].offset != offset
  }

  function Readdressed(c: Collection, id: Str, offset: nat): Collection
    requires id in c.documents
  {
    c.(documents := c.documents[id := Entry(offset, c.documents[id].document)])
  }

  lemma DocumentsStay(documents: map<Str, Entry>, mv: map<nat, nat>, from: nat, to: nat)
    requires (forall d :: d in documents ==> documents[d].offset != from) || (from !in mv && from == to)
    ensures MoveDocuments(documents, mv[from := to]) == MoveDocuments(documents, mv)
  {
  }

  lemma OneMoves(documents: map<Str, Entry>, mv: map<nat, nat>, id: Str, from: nat, to: nat)
    requires id in documents && forall d :: d in documents ==> (documents[d].offset == from <==> d == id)
    ensures MoveDocuments(documents, mv[from := to]) == MoveDocuments(documents, mv)[id := Entry(to, documents[id].document)]
  {
  }

  /** A kept put record moves the one document that stands there. */
  lemma PutMoves(st: State, mv: map<nat, nat>, cid: CollectionId, id: Str, from: nat, to: nat)
    requires cid in st.collections && id in st.collections[cid].documents && st.collections[cid].documents[id].offset == from
    requires OnlyAt(st, cid, id, from)
    ensures HalfState(st, mv[from := to])
         == WithCollection(HalfState(st, mv), cid, Readdressed(HalfMoved(st.collections[cid], mv), id, to))
  {
    hide MoveDocuments;
    SameDocument(st.collections[cid].documents, mv, id);
    var a := HalfState(st, mv[from := to]);
    forall c | c in st.collections
      ensures a.collections[c] == if c == cid then Readdressed(HalfMoved(st.collections[cid], mv), id, to) else HalfMoved(st.collections[c], mv)
    {
      if c == cid {
        OneMoves(st.collections[c].documents, mv, id, from, to);
      } else {
        DocumentsStay(st.collections[c].documents, mv, from, to);
      }
    }
  }

  lemma SameDocument(documents: map<Str, Entry>, mv: map<nat, nat>, id: Str)
    requires id in documents
    ensures id in MoveDocuments(documents, mv) && MoveDocuments(documents, mv)[id].document == documents[id].document
  {
  }

  lemma OthersMove(st: State, mv: map<nat, nat>, from: nat, to: nat)
    requires NoneAt(st, from) || (from !in mv && from == to)
    ensures HalfState(st, mv[from := to]) == HalfState(st, mv)
  {
    hide MoveDocuments;
    forall c | c in st.collections
      ensures HalfMoved(st.collections[c], mv[from := to]) == HalfMoved(st.collections[c], mv)
    {
      DocumentsStay(st.collections[c].documents, mv, from, to);
    }
  }

  lemma NothingYetMoved(st: State)
    ensures HalfState(st, map[]) == st
  {
    forall c | c in st.collections
      ensures HalfMoved(st.collections[c], map[]) == st.collections[c]
    {
      assert MoveDocuments(st.collections[c].documents, map[]) == st.collections[c].documents;
    }
    assert HalfState(st, map[]).collections == st.collections;
  }

  // ---------------------------------------------------------------------------
  // Which logs can be compacted
  // ---------------------------------------------------------------------------

  /** Nothing torn, every record decodes, and every document in memory is a record of the log. */
  ghost predicate Compactible(enc: Encoder, file: seq<byte>, st: State) {
    && |file| >= FILE_HEADER_BYTES && ScanLog(file).status.Clean? && AllDecode(enc, ScanLog(file).records)
    && forall cid :: cid in st.collections ==> AllStand(enc, ScanLog(file).records, cid, st.collections[cid].documents)
  }

  lemma StandsAt(enc: Encoder, st: State, ls: seq<Located>, l: Located)
    requires Ordered(ls) && l in ls && AllDecode(enc, ls)
    requires forall cid :: cid in st.collections ==> AllStand(enc, ls, cid, st.collections[cid].documents)
    ensures match Decode(enc, l.record).value
            case PutDocument(cid, id, _) => OnlyAt(st, cid, id, l.offset)
            case _ => NoneAt(st, l.offset)
  {
    hide Decode, Ordered;
    forall c, d | c in st.collections && d in st.collections[c].documents && st.collections[c].documents[d].offset == l.offset
      ensures Decode(enc, l.record) == Ok(PutDocument(c, d, st.collections[c].documents[d].document))
    {
      assert AllStand(enc, ls, c, st.collections[c].documents);
      assert Stands(enc, ls, c, d, st.collections[c].documents[d]);
      var m: Located :| m in ls && m.offset == l.offset && Decode(enc, m.record) == Ok(PutDocument(c, d, st.collections[c].documents[d].document));
      StandsOnce(ls, l, m);
    }
  }

  /** One step of the loop on the memory: what the next moves make of it. */
  lemma MemoryStep(enc: Encoder, st: State, ls: seq<Located>, k: nat)
    requires Ordered(ls) && k < |ls| && ls[0].offset >= FILE_HEADER_BYTES && AllDecode(enc, ls)
    requires forall cid :: cid in st.collections ==> AllStand(enc, ls, cid, st.collections[cid].documents)
    ensures var half := HalfState(st, Moves(KeptLog(enc, st, ls[..k])));
            var next := HalfState(st, Moves(KeptLog(enc, st, ls[..k + 1])));
            var to := WriteHead(enc, st, ls, k);
            && Decode(enc, ls[k].record).Ok?
            && (KeepRecord(enc, half, ls[k]) <==> KeepRecord(enc, st, ls[k]))
            && match Decode(enc, ls[k].record).value
               case PutDocument(cid, id, _) =>
                 if KeepRecord(enc, st, ls[k]) && to < ls[k].offset
                 then cid in half.collections && id in half.collections[cid].documents
                      && next == WithCollection(half, cid, Readdressed(half.collections[cid], id, to))
                 else next == half
               case _ => next == half
  {
    hide Decode, KeptLog, Moves, WriteHead, HalfState, Ordered, AllStand, OnlyAt, NoneAt;
    assert ls[k] in ls;
    var l, mv, to := ls[k], Moves(KeptLog(enc, st, ls[..k])), WriteHead(enc, st, ls, k);
    KeptNext(enc, st, ls, k);
    MovedSoFar(enc, st, ls, k);
    LivenessStable(enc, st, mv, l);
    StandsAt(enc, st, ls, l);
    WriteHeadBehind(enc, st, ls, k);
    if KeepRecord(enc, st, l) {
      if Decode(enc, l.record).value.PutDocument? && to < l.offset {
        PutKept(enc, st, mv, l, to);
      } else {
        OthersMove(st, mv, l.offset, to);
      }
    }
  }

  lemma PutKept(enc: Encoder, st: State, mv: map<nat, nat>, l: Located, to: nat)
    requires Decode(enc, l.record).Ok? && Decode(enc, l.record).value.PutDocument? && KeepRecord(enc, st, l)
    requires var op := Decode(enc, l.record).value; OnlyAt(st, op.collectionId, op.id, l.offset)
    ensures var op := Decode(enc, l.record).value;
            var half := HalfState(st, mv);
            && op.collectionId in half.collections && op.id in half.collections[op.collectionId].documents
            && HalfState(st, mv[l.offset := to])
            == WithCollection(half, op.collectionId, Readdressed(half.collections[op.collectionId], op.id, to))
  {
    hide Decode, OnlyAt;
    var op := Decode(enc, l.record).value;
    PutMoves(st, mv, op.collectionId, op.id, l.offset, to);
  }

  // ---------------------------------------------------------------------------
  // After the loop
  // ---------------------------------------------------------------------------

  /** Emptying the indexes and filing every document again gives the relocated collection. */
  lemma RefreshedIsRelocated(c: Collection, mv: map<nat, nat>)
    ensures var half := HalfMoved(c, mv);
            RefileAll(half.(indexes := map f | f in half.indexes :: half.indexes[f].(postings := map[]))) == Relocate(c, mv)
  {
    hide Postings;
    var half := HalfMoved(c, mv);
    forall f | f in half.indexes
      ensures Refile(half.indexes[f].(postings := map[]), f, half.documents)
           == Index(c.indexes[f].kind, c.indexes[f].unique, Postings(c.indexes[f].kind, f, half.documents))
    {
      EmptyRefiled(half.indexes[f].(postings := map[]), f, half.documents);
    }
  }

  lemma EmptyRefiled(index: Index, field: Str, documents: map<Str, Entry>)
    requires index.postings == map[]
    ensures Refile(index, field, documents).postings == Postings(index.kind, field, documents)
  {
    hide Postings;
    assert index.postings - documents.Keys == map[];
  }

  lemma InKept(enc: Encoder, st: State, ls: seq<Located>, k: nat)
    requires k < |ls| && KeepRecord(enc, st, ls[k])
    ensures ls[k] in KeptLog(enc, st, ls)
    decreases |ls|
  {
    hide KeepRecord;
    if k < |ls| - 1 {
      InKept(enc, st, ls[..|ls| - 1], k);
    }
  }

  /** In the compacted file, every document stands where compaction put it. */
  lemma CompactedBacks(enc: Encoder, file: seq<byte>, st: State, cid: CollectionId)
    requires Compactible(enc, file, st) && cid in st.collections
    ensures var mv := Moves(KeptLog(enc, st, ScanLog(file).records));
            Backed(enc, CompactedFile(enc, st, file), cid, MoveDocuments(st.collections[cid].documents, mv))
  {
    hide Decode, ScanFrom, Moves, KeptLog, EncodeAll, LogOf, AllStand, Increasing;
    var ls := ScanLog(file).records;
    var kl := KeptLog(enc, st, ls);
    var nl := Relocated(kl);
    var next := CompactedFile(enc, st, file);
    LogIncreases(file);
    KeptWithin(enc, st, ls);
    ScanRelocated(file[..FILE_HEADER_BYTES], kl);
    ScanIsLog(next);
    RelocatedStand(enc, st, ls, cid);
    assert LogOf(next, nl) && AllStand(enc, nl, cid, MoveDocuments(st.collections[cid].documents, Moves(kl)));
  }

  lemma RelocatedStand(enc: Encoder, st: State, ls: seq<Located>, cid: CollectionId)
    requires cid in st.collections && AllStand(enc, ls, cid, st.collections[cid].documents) && Increasing(KeptLog(enc, st, ls))
    ensures var kl := KeptLog(enc, st, ls);
            AllStand(enc, Relocated(kl), cid, MoveDocuments(st.collections[cid].documents, Moves(kl)))
  {
    hide Decode, Moves, KeptLog, Increasing, Relocated;
    var kl := KeptLog(enc, st, ls);
    MovesAreRelocations(kl);
    var documents := st.collections[cid].documents;
    forall id | id in documents
      ensures Stands(enc, Relocated(kl), cid, id, MoveEntry(documents[id], Moves(kl)))
    {
      assert Stands(enc, ls, cid, id, documents[id]);
      var l: Located :| l in ls && l.offset == documents[id].offset && Decode(enc, l.record) == Ok(PutDocument(cid, id, documents[id].document));
      var k :| 0 <= k < |ls| && ls[k] == l;
      InKept(enc, st, ls, k);
      var i :| 0 <= i < |kl| && kl[i] == l;
      assert Relocated(kl)[i] == Located(Moves(kl)[l.offset], l.record);
    }
  }

  /** A database in step with its file can be compacted. */
  lemma SyncedCompactible(enc: Encoder, w: World)
    requires Synced(enc, w)
    ensures Compactible(enc, w.file, w.db)
  {
    hide Synced, Decode, ApplyOps, Unmarked, Traced, AllStand, ScanFrom, IsMarker;
    SyncedHeader(enc, w);
    SyncedLog(enc, w);
    var ls := ScanLog(w.file).records;
    var us := Unmarked(ls);
    SyncedOps(enc, w);
    OpsTraced(Stamps(enc, us));
    AllRecordsDecode(enc, ls);
    UnmarkedWithin(ls);
    forall cid | cid in w.db.collections
      ensures AllStand(enc, ls, cid, w.db.collections[cid].documents)
    {
      TracedStands(enc, w.db, us, cid);
      MoreRecordsStand(enc, us, ls, cid, w.db.collections[cid].documents);
    }
  }

  lemma MoreRecordsStand(enc: Encoder, us: seq<Located>, ls: seq<Located>, cid: CollectionId, documents: map<Str, Entry>)
    requires AllStand(enc, us, cid, documents) && forall l :: l in us ==> l in ls
    ensures AllStand(enc, ls, cid, documents)
  {
    hide Decode;
    forall id | id in documents
      ensures Stands(enc, ls, cid, id, documents[id])
    {
      assert Stands(enc, us, cid, id, documents[id]);
    }
  }

  lemma {:induction false} AllRecordsDecode(enc: Encoder, ls: seq<Located>)
    requires AllDecode(enc, Unmarked(ls))
    ensures AllDecode(enc, ls)
    decreases |ls|
  {
    hide Decode;
    if |ls| > 0 {
      var n := |ls| - 1;
      assert forall l :: l in Unmarked(ls[..n]) ==> l in Unmarked(ls);
      AllRecordsDecode(enc, ls[..n]);
      if IsMarker(ls[n]) {
        MarkerDecodes(enc, ls[n]);
      } else {
        assert ls[n] in Unmarked(ls);
      }
      assert forall l :: l in ls ==> l in ls[..n] || l == ls[n];
    }
  }

  lemma MarkerDecodes(enc: Encoder, l: Located)
    requires IsMarker(l)
    ensures Decode(enc, l.record).Ok?
  {
    IdentifiersDiffer(TransactionBegin);
    IdentifiersDiffer(TransactionCommit);
    hide ReadFramed, DecodeCreateIndex;
  }
}
