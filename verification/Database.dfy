/**
 The live database: collections over one storage, compaction of the file in place while it is
 being read, the scan for statistics, and the loading of a log.
 */
module Database {
  import opened Bytes
  import opened Records
  import opened LogScan
  import opened Storage
  import opened Documents
  import opened Payloads
  import opened Operations
  import opened DatabaseState
  import opened Calls
  import opened Replay
  import opened Compaction
  import opened Runs
  import opened LogCompaction
  import opened Manager
  import opened Backing
  import opened CompactionLoop
  import opened Collections
  import opened LocalCalls
  import FileFormat
  import U29

  const DEFAULT_REPLAY_CHUNK_BYTES: nat := 8 * 1024 * 1024

  lemma HalfDocuments(c: Collection, mv: map<nat, nat>)
    ensures HalfMoved(c, mv).documents == MoveDocuments(c.documents, mv)
  {
  }

  lemma LogFacts(enc: Encoder, file: seq<byte>, st: State)
    requires Compactible(enc, file, st)
    ensures var ls := ScanLog(file).records;
            && Ordered(ls) && AllDecode(enc, ls) && (|ls| > 0 ==> ls[0].offset >= FILE_HEADER_BYTES)
            && ScanFrom(file, FILE_HEADER_BYTES) == Scan(ls[0..], |file|, Clean)
            && forall cid :: cid in st.collections ==> AllStand(enc, ls, cid, st.collections[cid].documents)
  {
    hide ScanFrom, AllStand, AllDecode, Ordered;
    RecordsOrdered(file, FILE_HEADER_BYTES);
    RecordsAfter(file, FILE_HEADER_BYTES);
  }

  /** What the scan says about the next step of the reader. */
  lemma ScanStep(file: seq<byte>, offset: nat, ls: seq<Located>, k: nat)
    requires offset <= |file| && k <= |ls| && ScanFrom(file, offset) == Scan(ls[k..], |file|, Clean)
    ensures match StepAt(file, offset)
            case Next(record) => k < |ls| && ls[k] == Located(offset, record) && offset + record.Length() <= |file|
                                 && ScanFrom(file, offset + record.Length()) == Scan(ls[k + 1..], |file|, Clean)
            case End => k == |ls| && offset == |file|
            case _ => false
    ensures StepAt(file, offset).Next? ==> ReadRecord(file, offset) == Ok(StepAt(file, offset).record)
  {
    hide ReadRecord;
    if StepAt(file, offset).Next? {
      var rest := ScanFrom(file, offset + StepAt(file, offset).record.Length());
      assert ls[k..][1..] == ls[k + 1..];
      assert ([Located(offset, StepAt(file, offset).record)] + rest.records)[1..] == rest.records;
    }
  }

  /** The front of the file holds the kept records so far; the rest is as it was. */
  predicate Copied(enc: Encoder, st: State, file: seq<byte>, ls: seq<Located>, k: nat, bytes: seq<byte>)
    requires k <= |ls| && |file| >= FILE_HEADER_BYTES
  {
    var head := WriteHead(enc, st, ls, k);
    && |bytes| == |file| && head <= |bytes|
    && bytes[..head] == file[..FILE_HEADER_BYTES] + EncodeAll(RecordsIn(KeptLog(enc, st, ls[..k])))
    && bytes[head..] == file[head..]
  }

  lemma InitialFile(enc: Encoder, st: State, file: seq<byte>, ls: seq<Located>)
    requires |file| >= FILE_HEADER_BYTES
    ensures WriteHead(enc, st, ls, 0) == FILE_HEADER_BYTES && Copied(enc, st, file, ls, 0, file)
  {
  }

  lemma FinalFile(enc: Encoder, st: State, file: seq<byte>, ls: seq<Located>, bytes: seq<byte>)
    requires |file| >= FILE_HEADER_BYTES && ls == ScanLog(file).records && Copied(enc, st, file, ls, |ls|, bytes)
    ensures FILE_HEADER_BYTES <= WriteHead(enc, st, ls, |ls|) <= |bytes|
    ensures bytes[..WriteHead(enc, st, ls, |ls|)] == CompactedFile(enc, st, file)
  {
    hide KeptLog, EncodeAll, ScanFrom;
    assert ls[..|ls|] == ls;
  }

  /** The raw copy reads the record's original bytes, and puts them where they belong. */
  lemma FileStep(enc: Encoder, st: State, file: seq<byte>, ls: seq<Located>, k: nat, bytes: seq<byte>)
    requires |file| >= FILE_HEADER_BYTES && k < |ls| && Ordered(ls) && ls[0].offset >= FILE_HEADER_BYTES
    requires Copied(enc, st, file, ls, k, bytes)
    requires ReadRecord(file, ls[k].offset) == Ok(ls[k].record)
    ensures var head, from, n := WriteHead(enc, st, ls, k), ls[k].offset, ls[k].record.Length();
            && head <= from && from + n <= |bytes|
            && WriteHead(enc, st, ls, k + 1) == (if KeepRecord(enc, st, ls[k]) then head + n else head)
            && bytes[from..from + n] == ls[k].record.Encoded()
            && bytes[from + n..] == file[from + n..]
            && (if KeepRecord(enc, st, ls[k])
                then Copied(enc, st, file, ls, k + 1, bytes[..head] + bytes[from..from + n] + bytes[head + n..])
                     && (bytes[..head] + bytes[from..from + n] + bytes[head + n..])[from + n..] == file[from + n..]
                     && (head == from ==> bytes[..head] + bytes[from..from + n] + bytes[head + n..] == bytes)
                else Copied(enc, st, file, ls, k + 1, bytes))
  {
    hide KeptLog, EncodeAll, KeepRecord, ReadRecord, Record.Encoded, Ordered, Size, RecordsIn, Copied, Relocated;
    var head, from, n := WriteHead(enc, st, ls, k), ls[k].offset, ls[k].record.Length();
    CopiedBehind(enc, st, file, ls, k, bytes);
    WriteHeadBehind(enc, st, ls, k);
    KeptNext(enc, st, ls, k);
    ReadIsEncoded(file, from);
    UntouchedBehind(file, bytes, head, from, from + n);
    if KeepRecord(enc, st, ls[k]) {
      RelocatedSnoc(KeptLog(enc, st, ls[..k]), ls[k]);
      CopyForward(file, bytes, head, from, n);
      CopiedMore(enc, st, file, ls, k, bytes);
    } else {
      CopiedSame(enc, st, file, ls, k, bytes);
    }
  }

  lemma CopiedBehind(enc: Encoder, st: State, file: seq<byte>, ls: seq<Located>, k: nat, bytes: seq<byte>)
    requires |file| >= FILE_HEADER_BYTES && k <= |ls| && Copied(enc, st, file, ls, k, bytes)
    ensures |file| == |bytes| && WriteHead(enc, st, ls, k) <= |bytes| && bytes[WriteHead(enc, st, ls, k)..] == file[WriteHead(enc, st, ls, k)..]
  {
    hide KeptLog, EncodeAll;
  }

  lemma CopiedSame(enc: Encoder, st: State, file: seq<byte>, ls: seq<Located>, k: nat, bytes: seq<byte>)
    requires |file| >= FILE_HEADER_BYTES && k < |ls| && Copied(enc, st, file, ls, k, bytes) && !KeepRecord(enc, st, ls[k])
    ensures Copied(enc, st, file, ls, k + 1, bytes)
  {
    hide EncodeAll, KeepRecord, KeptLog, Size;
    KeptNext(enc, st, ls, k);
  }

  lemma UntouchedBehind(file: seq<byte>, bytes: seq<byte>, head: nat, from: nat, to: nat)
    requires |file| == |bytes| && head <= from <= to <= |file| && bytes[head..] == file[head..]
    ensures bytes[from..to] == file[from..to] && bytes[to..] == file[to..]
  {
    SliceFrom(file, bytes, head, from, to);
    assert bytes[head..][to - head..] == bytes[to..] && file[head..][to - head..] == file[to..];
  }

  lemma CopyForward(file: seq<byte>, bytes: seq<byte>, head: nat, from: nat, n: nat)
    requires |file| == |bytes| && head <= from && from + n <= |file| && bytes[head..] == file[head..]
    ensures var after := bytes[..head] + bytes[from..from + n] + bytes[head + n..];
            && |after| == |file| && after[..head + n] == bytes[..head] + bytes[from..from + n] && after[head + n..] == file[head + n..]
            && after[from + n..] == file[from + n..]
            && (head == from ==> after == bytes)
  {
    UntouchedBehind(file, bytes, head, head + n, head + n);
    var after := bytes[..head] + bytes[from..from + n] + bytes[head + n..];
    assert after[head + n..] == bytes[head + n..];
    assert after[from + n..] == after[head + n..][from - head..] == file[head + n..][from - head..];
  }

  lemma CopiedMore(enc: Encoder, st: State, file: seq<byte>, ls: seq<Located>, k: nat, bytes: seq<byte>)
    requires |file| >= FILE_HEADER_BYTES && k < |ls| && Copied(enc, st, file, ls, k, bytes) && KeepRecord(enc, st, ls[k])
    requires var head, from, n := WriteHead(enc, st, ls, k), ls[k].offset, ls[k].record.Length();
             && head <= from && from + n <= |bytes| && bytes[from..from + n] == ls[k].record.Encoded()
    ensures var head, from, n := WriteHead(enc, st, ls, k), ls[k].offset, ls[k].record.Length();
            Copied(enc, st, file, ls, k + 1, bytes[..head] + bytes[from..from + n] + bytes[head + n..])
  {
    hide KeptLog, EncodeAll, KeepRecord, Record.Encoded, WriteHead, RecordsIn;
    var head, from, n := WriteHead(enc, st, ls, k), ls[k].offset, ls[k].record.Length();
    var kl := KeptLog(enc, st, ls[..k]);
    KeptNext(enc, st, ls, k);
    CopyForward(file, bytes, head, from, n);
    EncodedMore(kl, ls[k]);
    Associative(file[..FILE_HEADER_BYTES], EncodeAll(RecordsIn(kl)), ls[k].record.Encoded());
  }

  lemma Associative(a: seq<byte>, b: seq<byte>, c: seq<byte>)
    ensures (a + b) + c == a + (b + c)
  {
  }

  lemma EncodedMore(kl: seq<Located>, l: Located)
    ensures EncodeAll(RecordsIn(kl + [l])) == EncodeAll(RecordsIn(kl)) + l.record.Encoded()
  {
    hide EncodeAll, Record.Encoded;
    assert RecordsIn(kl + [l]) == RecordsIn(kl) + [l.record];
    EncodeAllSnoc(RecordsIn(kl), l.record);
  }

  /** The collections in `rest` still await their refresh. */
  function RefreshedSome(st: State, mv: map<nat, nat>, rest: set<CollectionId>): State {
    State(map cid | cid in st.collections :: if cid in rest then HalfMoved(st.collections[cid], mv) else Relocate(st.collections[cid], mv), st.names)
  }

  lemma RefreshedMore(st: State, mv: map<nat, nat>, rest: set<CollectionId>, cid: CollectionId)
    requires cid in rest && cid in st.collections
    ensures RefreshedSome(st, mv, rest - {cid}) == WithCollection(RefreshedSome(st, mv, rest), cid, Relocate(st.collections[cid], mv))
  {
    hide HalfMoved, Relocate;
  }

  // ---------------------------------------------------------------------------
  // Statistics per collection
  // ---------------------------------------------------------------------------

  /** `operationCollectionIdHex`: the collection a record belongs to. */
  function CollectionOfRecord(enc: Encoder, r: ValidRecord): Option<CollectionId> {
    match Decode(enc, r)
    case Ok(NewCollection(cid, _)) => Some(cid)
    case Ok(DropCollection(cid)) => Some(cid)
    case Ok(CreateIndex(cid, _, _, _)) => Some(cid)
    case Ok(DropIndex(cid, _)) => Some(cid)
    case Ok(PutDocument(cid, _, _)) => Some(cid)
    case Ok(DeleteDocument(cid, _)) => Some(cid)
    case _ => None
  }

  function Belonging(enc: Encoder, ls: seq<Located>, cid: CollectionId): seq<Located> {
    if |ls| == 0 then []
    else
      var last := ls[|ls| - 1];
      Belonging(enc, ls[..|ls| - 1], cid) + (if CollectionOfRecord(enc, last.record) == Some(cid) then [last] else [])
  }

  function StatsOf(byCollection: map<CollectionId, Stats>, cid: CollectionId): Stats {
    if cid in byCollection then byCollection[cid] else Stats(0, 0, 0, 0)
  }

  lemma BelongingMore(enc: Encoder, st: State, ls: seq<Located>, k: nat, cid: CollectionId)
    requires k < |ls|
    ensures Tally(enc, st, Belonging(enc, ls[..k + 1], cid))
         == if CollectionOfRecord(enc, ls[k].record) == Some(cid)
            then Accumulate(Tally(enc, st, Belonging(enc, ls[..k], cid)), KeepRecord(enc, st, ls[k]), ls[k].record.Length())
            else Tally(enc, st, Belonging(enc, ls[..k], cid))
  {
    hide KeepRecord, Accumulate, CollectionOfRecord;
    assert ls[..k + 1][..k] == ls[..k];
    var bs := Belonging(enc, ls[..k], cid);
    if CollectionOfRecord(enc, ls[k].record) == Some(cid) {
      assert (bs + [ls[k]])[..|bs|] == bs;
    } else {
      assert bs + [] == bs;
    }
  }

  /** The record names the collection in the first four bytes of its payload: one of the six operations that have one. */
  predicate BelongsTo(r: ValidRecord, cid: CollectionId) {
    && (exists letters :: letters in ["ncl1", "dco1", "idx1", "dix1", "put1", "del1"] && FileFormat.IsAscii(r.identifier, letters))
    && |r.payload| >= 4 && r.payload[..4] == cid
  }

  lemma OwnerMeans(enc: Encoder, r: ValidRecord, cid: CollectionId)
    requires Decode(enc, r).Ok?
    ensures CollectionOfRecord(enc, r) == Some(cid) <==> BelongsTo(r, cid)
  {
    hide Decode, FileFormat.Letters, FileFormat.IsAscii, Identifier;
    var op := Decode(enc, r).value;
    FileFormat.DecodedIdentifier(enc, r);
    DecodedOwner(enc, r);
    FileFormat.LettersExact(r.identifier, op);
    LettersOwned(op);
    if BelongsTo(r, cid) {
      var letters :| letters in ["ncl1", "dco1", "idx1", "dix1", "put1", "del1"] && FileFormat.IsAscii(r.identifier, letters);
      SameLetters(r.identifier, letters, FileFormat.Letters(op));
    }
  }

  predicate Unowned(op: Operation) {
    op.TransactionBegin? || op.TransactionCommit? || op.Hole?
  }

  lemma LettersOwned(op: Operation)
    ensures FileFormat.Letters(op) in ["ncl1", "dco1", "idx1", "dix1", "put1", "del1"] <==> !Unowned(op)
  {
    var t := FileFormat.Letters(op);
    if Unowned(op) {
      assert t[0] == 't' || t[0] == 'h';
    }
  }

  lemma PayloadOwner(payload: seq<byte>)
    ensures DecodeNamed(payload).Ok? ==> |payload| >= 4 && DecodeNamed(payload).value.0 == payload[..4]
    ensures DecodePut(payload).Ok? ==> |payload| >= 4 && DecodePut(payload).value.collectionId == payload[..4]
    ensures DecodeCreateIndex(payload).Ok? ==> |payload| >= 4 && DecodeCreateIndex(payload).value.collectionId == payload[..4]
  {
    hide Payloads.ReadFramed, U29.DecodeU29;
  }

  /** The collection of an operation is in the first four bytes. */
  lemma DecodedOwner(enc: Encoder, r: ValidRecord)
    requires Decode(enc, r).Ok?
    ensures CollectionOfRecord(enc, r).None? <==> Unowned(Decode(enc, r).value)
    ensures CollectionOfRecord(enc, r).Some? ==> |r.payload| >= 4 && CollectionOfRecord(enc, r).value == r.payload[..4]
  {
    hide DecodeNamed, DecodePut, DecodeCreateIndex, Hex;
    PayloadOwner(r.payload);
  }

  /** A record with an identifier that is none of the nine makes loading throw, and compaction keeps it. */
  lemma UnknownKept(enc: Encoder, st: State, l: Located)
    requires forall letters :: letters in ["ncl1", "dco1", "idx1", "dix1", "put1", "del1", "txnb", "txnc", "hol0"] ==> !FileFormat.IsAscii(l.record.identifier, letters)
    ensures Decode(enc, l.record).Err? && ApplyRecord(enc, st, l).Err? && KeepRecord(enc, st, l)
  {
    hide Decode, Keep, FileFormat.IsAscii, Identifier;
    if Decode(enc, l.record).Ok? {
      var op := Decode(enc, l.record).value;
      FileFormat.DecodedIdentifier(enc, l.record);
      FileFormat.LettersExact(l.record.identifier, op);
      LettersKnown(op);
    }
  }

  /** A hole changes nothing, and compaction drops it. */
  lemma HoleIgnored(enc: Encoder, st: State, l: Located)
    requires FileFormat.IsAscii(l.record.identifier, "hol0")
    ensures ApplyRecord(enc, st, l) == Ok(st) && !KeepRecord(enc, st, l)
  {
    hide Decode, FileFormat.IsAscii, FileFormat.IsReadAs;
    FileFormat.DecodeExact(enc, l.record, Hole);
    HoleIsRead(enc, l.record.payload);
  }

  lemma HoleIsRead(enc: Encoder, payload: seq<byte>)
    ensures FileFormat.IsReadAs(enc, payload, Hole) && FileFormat.Letters(Hole) == "hol0"
  {
  }

  lemma LettersKnown(op: Operation)
    ensures FileFormat.Letters(op) in ["ncl1", "dco1", "idx1", "dix1", "put1", "del1", "txnb", "txnc", "hol0"]
  {
  }

  lemma SameLetters(bs: seq<byte>, s: string, t: string)
    requires FileFormat.IsAscii(bs, s) && FileFormat.IsAscii(bs, t)
    ensures s == t
  {
    forall i | 0 <= i < |s|
      ensures s[i] == t[i]
    {
      assert s[i] as int == t[i] as int;
    }
  }

  /** The records of a collection in their order: those at these places, and no others. */
  ghost predicate Owned(ls: seq<Located>, cid: CollectionId, owned: seq<Located>, places: seq<nat>) {
    && |places| == |owned| && (forall i, j :: 0 <= i < j < |places| ==> places[i] < places[j])
    && (forall i :: 0 <= i < |places| ==> places[i] < |ls| && owned[i] == ls[places[i]])
    && forall k: nat :: k in places <==> k < |ls| && BelongsTo(ls[k].record, cid)
  }

  lemma {:induction false} BelongingMeans(enc: Encoder, ls: seq<Located>, cid: CollectionId) returns (places: seq<nat>)
    requires AllDecode(enc, ls)
    ensures Owned(ls, cid, Belonging(enc, ls, cid), places)
    decreases |ls|
  {
    hide Decode, CollectionOfRecord, BelongsTo;
    if |ls| == 0 {
      places := [];
    } else {
      var n := |ls| - 1;
      assert forall l :: l in ls[..n] ==> l in ls;
      assert ls[n] in ls;
      var before := BelongingMeans(enc, ls[..n], cid);
      OwnerMeans(enc, ls[n].record, cid);
      places := if BelongsTo(ls[n].record, cid) then before + [n] else before;
      OwnedMore(ls, cid, Belonging(enc, ls[..n], cid), before);
      assert Belonging(enc, ls[..n], cid) + [] == Belonging(enc, ls[..n], cid);
    }
  }

  lemma OwnedMore(ls: seq<Located>, cid: CollectionId, owned: seq<Located>, places: seq<nat>)
    requires |ls| > 0 && Owned(ls[..|ls| - 1], cid, owned, places)
    ensures var n := |ls| - 1;
            if BelongsTo(ls[n].record, cid) then Owned(ls, cid, owned + [ls[n]], places + [n]) else Owned(ls, cid, owned, places)
  {
    hide BelongsTo;
    var n := |ls| - 1;
    var all := if BelongsTo(ls[n].record, cid) then places + [n] else places;
    forall k: nat
      ensures k in all <==> k < |ls| && BelongsTo(ls[k].record, cid)
    {
      assert k < n ==> ls[..n][k] == ls[k];
      assert k in all <==> k in places || (k == n && BelongsTo(ls[n].record, cid));
    }
  }

  /**
   The numbers of a collection: its records, those of them that compaction would leave out, and the bytes of both kinds,
   in terms of the records that name it and of those among them that are kept.
   */
  lemma StatisticsMean(enc: Encoder, st: State, ls: seq<Located>, cid: CollectionId)
    requires AllDecode(enc, ls)
    ensures exists owned, places ::
              && Owned(ls, cid, owned, places)
              && var t := Tally(enc, st, Belonging(enc, ls, cid));
                 && t.operationCount == |owned| && t.tombstoneCount == |owned| - |KeptLog(enc, st, owned)|
                 && t.liveBytes == Size(KeptLog(enc, st, owned)) && t.deadBytes == Size(owned) - Size(KeptLog(enc, st, owned))
  {
    hide KeepRecord, Owned, Tally, Belonging, KeptLog, Size;
    var places := BelongingMeans(enc, ls, cid);
    TallyAddsUp(enc, st, Belonging(enc, ls, cid));
    assert Owned(ls, cid, Belonging(enc, ls, cid), places);
  }

  predicate TalliedFor(enc: Encoder, st: State, ls: seq<Located>, ids: set<CollectionId>, byCollection: map<CollectionId, Stats>) {
    forall cid :: cid in ids ==> StatsOf(byCollection, cid) == Tally(enc, st, Belonging(enc, ls, cid))
  }

  lemma TalliedForAll(enc: Encoder, st: State, ls: seq<Located>, ids: set<CollectionId>, byCollection: map<CollectionId, Stats>)
    requires TalliedFor(enc, st, ls, ids, byCollection)
    ensures forall cid :: cid in ids ==> StatsOf(byCollection, cid) == Tally(enc, st, Belonging(enc, ls, cid))
  {
  }

  lemma NothingTallied(enc: Encoder, st: State, ls: seq<Located>, ids: set<CollectionId>)
    ensures Tally(enc, st, ls[..0]) == Stats(0, 0, 0, 0) && TalliedFor(enc, st, ls[..0], ids, map[])
  {
  }

  lemma TalliedMore(enc: Encoder, st: State, ls: seq<Located>, k: nat, ids: set<CollectionId>, byCollection: map<CollectionId, Stats>)
    requires k < |ls| && TalliedFor(enc, st, ls[..k], ids, byCollection)
    ensures var l, owner := ls[k], CollectionOfRecord(enc, ls[k].record);
            var live := KeepRecord(enc, st, l);
            && Tally(enc, st, ls[..k + 1]) == Accumulate(Tally(enc, st, ls[..k]), live, l.record.Length())
            && TalliedFor(enc, st, ls[..k + 1], ids,
                 if owner.Some? && owner.value in ids
                 then byCollection[owner.value := Accumulate(StatsOf(byCollection, owner.value), live, l.record.Length())] else byCollection)
  {
    hide KeepRecord, Accumulate, CollectionOfRecord, Belonging;
    assert ls[..k + 1][..k] == ls[..k];
    forall cid | cid in ids
      ensures Tally(enc, st, Belonging(enc, ls[..k + 1], cid))
           == if CollectionOfRecord(enc, ls[k].record) == Some(cid)
              then Accumulate(Tally(enc, st, Belonging(enc, ls[..k], cid)), KeepRecord(enc, st, ls[k]), ls[k].record.Length())
              else Tally(enc, st, Belonging(enc, ls[..k], cid))
    {
      BelongingMore(enc, st, ls, k, cid);
    }
  }

  /** The reader stands before record `k` of a log without damage. */
  ghost predicate Standing(reader: OperationReader, file: seq<byte>, ls: seq<Located>, k: nat)
    reads reader
  {
    && reader.original == file && reader.Valid()
    && k <= |ls| && ScanFrom(file, reader.fileOffset) == Scan(ls[k..], |file|, Clean)
  }

  ghost predicate Reads(reader: OperationReader, file: seq<byte>, ls: seq<Located>, k: nat)
    reads reader, reader.storage
  {
    Standing(reader, file, ls, k) && reader.Ahead()
  }

  /** Writes to what has been read do not disturb it. */
  lemma StillReads(reader: OperationReader, file: seq<byte>, ls: seq<Located>, k: nat)
    requires Standing(reader, file, ls, k) && reader.storage.Valid() && |reader.storage.bytes| == |file|
    requires reader.fileOffset <= |file| && reader.storage.bytes[reader.fileOffset..] == file[reader.fileOffset..]
    ensures Reads(reader, file, ls, k)
  {
    hide ScanFrom;
    var n := reader.fileOffset + |reader.window|;
    UntouchedBehind(file, reader.storage.bytes, reader.fileOffset, n, n);
  }

  /** The next record of such a log. */
  method ReadNext(reader: OperationReader, ghost file: seq<byte>, ghost ls: seq<Located>, ghost k: nat) returns (next: Option<Located>)
    requires Reads(reader, file, ls, k)
    modifies reader, reader.storage
    ensures unchanged(reader.storage)
    ensures next.None? ==> k == |ls| && Reads(reader, file, ls, k)
    ensures next.Some? ==> k < |ls| && next.value == ls[k] && reader.fileOffset == ls[k].offset + ls[k].record.Length()
                           && ReadRecord(file, ls[k].offset) == Ok(ls[k].record) && Reads(reader, file, ls, k + 1)
  {
    hide StepAt, ScanFrom;
    var offset := reader.fileOffset;
    ScanStep(file, offset, ls, k);
    var step := reader.Next();
    next := if step.End? then None else Some(Located(offset, step.record));
  }

  // ---------------------------------------------------------------------------
  // While the log is loaded
  // ---------------------------------------------------------------------------

  ghost predicate LoadedFrom(enc: Encoder, st: State, ls: seq<Located>) {
    forall cid :: cid in st.collections ==> AllStand(enc, ls, cid, st.collections[cid].documents) && Mirrors(st.collections[cid])
  }

  lemma LoadedBacks(enc: Encoder, file: seq<byte>, st: State, ls: seq<Located>, cid: CollectionId)
    requires LogOf(file, ls) && LoadedFrom(enc, st, ls) && cid in st.collections
    ensures Backed(enc, file, cid, st.collections[cid].documents) && Mirrors(st.collections[cid])
  {
    hide LogOf, AllStand, Mirrors;
  }

  lemma StandStill(enc: Encoder, ls: seq<Located>, cid: CollectionId, documents: map<Str, Entry>, fewer: map<Str, Entry>)
    requires AllStand(enc, ls, cid, documents) && forall id :: id in fewer ==> id in documents && fewer[id] == documents[id]
    ensures AllStand(enc, ls, cid, fewer)
  {
    hide Stands;
  }

  lemma NoneStand(enc: Encoder, ls: seq<Located>, cid: CollectionId)
    ensures AllStand(enc, ls, cid, map[])
  {
  }

  lemma OneMoreStands(enc: Encoder, ls: seq<Located>, l: Located, cid: CollectionId, documents: map<Str, Entry>, id: Str, document: Doc)
    requires AllStand(enc, ls, cid, documents) && l in ls && Decode(enc, l.record) == Ok(PutDocument(cid, id, document))
    ensures AllStand(enc, ls, cid, documents[id := Entry(l.offset, document)])
  {
    hide Decode;
    assert Stands(enc, ls, cid, id, Entry(l.offset, document));
    assert forall other :: other in documents ==> Stands(enc, ls, cid, other, documents[other]);
  }

  lemma AppliedStands(enc: Encoder, st: State, ls: seq<Located>, l: Located, op: Operation, cid: CollectionId)
    requires l in ls && Decode(enc, l.record) == Ok(op) && Apply(st, op, l.offset).Ok? && cid in Apply(st, op, l.offset).value.collections
    requires cid in st.collections ==> AllStand(enc, ls, cid, st.collections[cid].documents) && Mirrors(st.collections[cid])
    ensures AllStand(enc, ls, cid, Apply(st, op, l.offset).value.collections[cid].documents)
  {
    hide Decode, AllStand, Mirrors, PutInto, RemoveFrom, CreateIndexIn, DropIndexIn;
    if op.NewCollection? {
      NoneStand(enc, ls, cid);
    } else if !op.DropCollection? && !op.Hole? && op.collectionId == cid {
      var c := st.collections[cid];
      match op
      case PutDocument(_, id, document) =>
        PutDocuments(c, id, Entry(l.offset, document));
        OneMoreStands(enc, ls, l, cid, c.documents, id, document);
      case DeleteDocument(_, id) =>
        RemoveDocuments(c, id);
        StandStill(enc, ls, cid, c.documents, c.documents - {id});
      case CreateIndex(_, field, kind, unique) => CreateIndexMirrors(c, field, kind, unique);
      case DropIndex(_, field) => DropDocuments(c, field);
    }
  }

  lemma AppliedLoaded(enc: Encoder, st: State, ls: seq<Located>, l: Located)
    requires LoadedFrom(enc, st, ls) && l in ls && ApplyRecord(enc, st, l).Ok?
    ensures LoadedFrom(enc, ApplyRecord(enc, st, l).value, ls)
  {
    hide Decode, AllStand, Mirrors, Apply;
    var next := ApplyRecord(enc, st, l).value;
    ApplyMirrors(st, Decode(enc, l.record).value, l.offset);
    forall cid | cid in next.collections
      ensures AllStand(enc, ls, cid, next.collections[cid].documents)
    {
      AppliedStands(enc, st, ls, l, Decode(enc, l.record).value, cid);
    }
  }

  lemma RemoveDocuments(c: Collection, id: Str)
    ensures RemoveFrom(c, id).documents == c.documents - {id}
  {
    hide RemovePosting;
  }

  lemma DropDocuments(c: Collection, field: Str)
    requires DropIndexIn(c, field).Ok?
    ensures DropIndexIn(c, field).value.documents == c.documents
  {
  }

  /** The reader stands before record `k` of any log. */
  ghost predicate Reading(reader: OperationReader, file: seq<byte>, s: Scan, k: nat)
    reads reader, reader.storage
  {
    && reader.original == file && reader.Valid() && reader.Ahead()
    && k <= |s.records| && ScanFrom(file, reader.fileOffset) == s.(records := s.records[k..])
  }

  lemma StartReading(reader: OperationReader, file: seq<byte>, s: Scan)
    requires reader.original == file && reader.Valid() && reader.Ahead() && reader.fileOffset == FILE_HEADER_BYTES
    requires |file| >= FILE_HEADER_BYTES && s == ScanLog(file)
    ensures Reading(reader, file, s, 0)
  {
    hide ScanFrom;
    assert s.records[0..] == s.records;
  }

  /** The next step through any log; a torn tail is cut off on the way. */
  method ReadAny(reader: OperationReader, ghost file: seq<byte>, ghost s: Scan, ghost k: nat) returns (step: Step, offset: nat)
    requires Reading(reader, file, s, k)
    modifies reader, reader.storage
    ensures reader.storage.Valid()
    ensures match step
            case Next(record) => k < |s.records| && s.records[k].offset == offset && s.records[k].record == record
                                 && unchanged(reader.storage) && Reading(reader, file, s, k + 1)
            case End => k == |s.records| && s.status.Clean? && s.stop == |file| && unchanged(reader.storage)
            case Torn => k == |s.records| && s.status.TornTail? && reader.storage.tornTailRecovered
                         && s.stop <= |old(reader.storage.bytes)| && reader.storage.bytes == old(reader.storage.bytes)[..s.stop]
            case Corrupt => s.status.Corrupted? && unchanged(reader.storage)
  {
    hide StepAt;
    offset := reader.fileOffset;
    ScanAnyStep(file, offset, s, k);
    step := reader.Next();
  }

  lemma ScanAnyStep(file: seq<byte>, offset: nat, s: Scan, k: nat)
    requires offset <= |file| && k <= |s.records| && ScanFrom(file, offset) == s.(records := s.records[k..])
    ensures match StepAt(file, offset)
            case Next(record) => k < |s.records| && s.records[k] == Located(offset, record) && offset + record.Length() <= |file|
                                 && ScanFrom(file, offset + record.Length()) == s.(records := s.records[k + 1..])
            case End => k == |s.records| && s.stop == |file| == offset && s.status.Clean?
            case Torn => k == |s.records| && s.stop == offset && s.status.TornTail?
            case Corrupt => s.status.Corrupted?
  {
    hide StepAt;
    if StepAt(file, offset).Next? {
      var rest := ScanFrom(file, offset + StepAt(file, offset).record.Length());
      assert s.records[k..][1..] == s.records[k + 1..];
      assert ([Located(offset, StepAt(file, offset).record)] + rest.records)[1..] == rest.records;
    } else if StepAt(file, offset).End? {
      EndOnlyAtEnd(file, offset);
    }
  }

  lemma EndOnlyAtEnd(file: seq<byte>, offset: nat)
    requires offset <= |file| && StepAt(file, offset).End?
    ensures offset == |file|
  {
  }

  lemma StartLoading(enc: Encoder, file: seq<byte>, ls: seq<Located>)
    requires |file| >= FILE_HEADER_BYTES && ls == ScanLog(file).records
    ensures LogOf(file, ls) && ReplayLog(enc, ls[..0]) == Ok(Replayed(EMPTY, None))
  {
    hide ScanFrom, LogOf;
    ScanIsLog(file);
  }

  lemma ReplayOneMore(enc: Encoder, ls: seq<Located>, k: nat)
    requires k < |ls| && ReplayLog(enc, ls[..k]).Ok?
    ensures ReplayLog(enc, ls[..k + 1]) == Consume(enc, ReplayLog(enc, ls[..k]).value, ls[k])
  {
    hide Consume;
    assert ls[..k + 1][..k] == ls[..k];
  }

  lemma ReplayFails(enc: Encoder, file: seq<byte>, k: nat)
    requires |file| >= FILE_HEADER_BYTES && k <= |ScanLog(file).records| && ReplayLog(enc, ScanLog(file).records[..k]).Err?
    ensures OpenFile(enc, file).Err?
  {
    hide Consume, ScanFrom;
    var ls := ScanLog(file).records;
    ReplaySplits(enc, Replayed(EMPTY, None), ls[..k], ls[k..]);
    assert ls == ls[..k] + ls[k..];
  }

  lemma RefusesDamage(enc: Encoder, file: seq<byte>)
    requires |file| >= FILE_HEADER_BYTES && ScanLog(file).status.Corrupted?
    ensures OpenFile(enc, file).Err?
  {
    hide ReplayFrom, ScanFrom;
  }

  /** The index manager and its indexes belong to this collection, and so to no other. */
  ghost predicate OwnedBy(manager: IndexManager, cid: CollectionId)
    reads manager
  {
    manager.owner == cid && (forall x :: x in manager.stringRepr ==> x.owner == cid) && (forall x :: x in manager.numberRepr ==> x.owner == cid)
  }

  lemma ManagerOwned(c: PocketCollection)
    requires c.Valid()
    ensures OwnedBy(c.indexManager, c.id)
  {
  }

  lemma DroppedOrNot(st: State, c: Collection, cid: CollectionId, d: Collection)
    requires cid in st.collections && st.collections[cid] == c
    ensures WithCollection(st, cid, c) == st && WithCollection(st, cid, d).collections - {cid} == st.collections - {cid}
    ensures cid !in EMPTY.collections && cid in Alone(cid, c).collections && Alone(cid, c).collections[cid] == c
  {
  }

  class PocketDatabase {
    const storage: FileStorage
    const encoder: Encoder
    var collectionsById: map<CollectionId, PocketCollection>
    var collectionsByName: map<Str, CollectionId>

    ghost var repr: set<object>  // the collections and their indexes

    /** Every collection is filed under its id and works on this storage. */
    ghost predicate Valid()
      reads this, repr
    {
      && this !in repr && storage !in repr
      && forall cid :: cid in collectionsById ==> Member(collectionsById[cid], cid)
    }

    ghost predicate Member(c: PocketCollection, cid: CollectionId)
      reads this, repr
    {
      c.indexManager in repr && Placed(c) && c.id == cid && c.storage == storage && c.encoder == encoder && OwnedBy(c.indexManager, cid) && c.Valid()
    }

    ghost predicate Placed(c: PocketCollection)
      reads this, c.indexManager
    {
      c in repr && c.indexManager in repr && c.indexManager.stringRepr <= repr && c.indexManager.numberRepr <= repr
    }

    /** The state this memory stands for. */
    ghost function Model(): State
      requires Valid()
      reads this, repr
    {
      State(map cid | cid in collectionsById :: collectionsById[cid].Contents(), collectionsByName)
    }

    constructor (storage: FileStorage, encoder: Encoder)
      ensures Valid() && Model() == EMPTY && this.storage == storage && this.encoder == encoder && repr == {}
    {
      this.storage, this.encoder := storage, encoder;
      collectionsById, collectionsByName, repr := map[], map[], {};
    }

    lemma MemberOf(cid: CollectionId)
      requires Valid() && (cid in collectionsById || cid in Model().collections)
      ensures cid in collectionsById && cid in Model().collections
      ensures var c := collectionsById[cid];
              && c in repr && c.indexManager in repr && c.indexManager.stringRepr <= repr && c.indexManager.numberRepr <= repr
              && c.id == cid && c.storage == storage && c.encoder == encoder && c.Valid()
              && Model().collections[cid] == c.Contents()
    {
      hide PocketCollection.Valid;
    }

    /** A change inside one collection changes that collection of the state. */
    twostate lemma OneChanged(cid: CollectionId)
      requires old(Valid()) && unchanged(`collectionsById, `collectionsByName) && old(repr) <= repr && cid in collectionsById
      requires this !in repr && storage !in repr && collectionsById[cid].Valid() && Placed(collectionsById[cid])
      requires var c := collectionsById[cid];
               forall o :: o in old(repr) && o != c && o != c.indexManager && o !in old(c.indexManager.stringRepr) && o !in old(c.indexManager.numberRepr) ==> unchanged(o)
      ensures Valid() && cid in old(Model()).collections && Model() == WithCollection(old(Model()), cid, collectionsById[cid].Contents())
    {
      hide PocketCollection.Valid, PocketCollection.Contents;
      ManagerOwned(collectionsById[cid]);
      assert forall d :: d in collectionsById && d != cid ==>
               collectionsById[d] != collectionsById[cid] && collectionsById[d].indexManager != collectionsById[cid].indexManager;
      assert forall d :: d in collectionsById && d != cid ==> unchanged(collectionsById[d]) && unchanged(collectionsById[d].indexManager);
    }

    // -------------------------------------------------------------------------
    // Compaction
    // -------------------------------------------------------------------------

    /** `shouldKeepOperation`, against the memory as it is now. */
    method ShouldKeepOperation(record: ValidRecord, offset: nat) returns (keep: bool)
      requires Valid()
      ensures keep <==> KeepRecord(encoder, Model(), Located(offset, record))
    {
      hide Decode;
      var decoded := Decode(encoder, record);
      if decoded.Err? {
        return true;
      }
      match decoded.value
      case NewCollection(cid, _) => keep := cid in collectionsById;
      case CreateIndex(cid, field, _, _) => keep := cid in collectionsById && field in collectionsById[cid].indexManager.Fields();
      case PutDocument(cid, id, _) =>
        keep := cid in collectionsById && id in collectionsById[cid].primaryIndex && collectionsById[cid].primaryIndex[id] == offset;
      case _ => keep := false;
    }

    method UpdateDocumentOffset(cid: CollectionId, id: Str, offset: nat)
      requires Valid() && cid in Model().collections && id in Model().collections[cid].documents
      modifies repr
      ensures Valid() && Model() == WithCollection(old(Model()), cid, Readdressed(old(Model()).collections[cid], id, offset))
    {
      hide Readdressed, PocketCollection.Valid, Model, Member;
      MemberOf(cid);
      collectionsById[cid].UpdateDocumentOffset(id, offset);
      OneChanged(cid);
    }

    /**
     Keeps the records that `shouldKeepOperation` keeps, moving each towards the front of the file
     while the reader is still ahead, and corrects the offsets as it goes; then the indexes follow.
     */
    method Compact()
      requires Valid() && storage.Valid() && Compactible(encoder, storage.bytes, Model())
      modifies storage, repr
      ensures Valid() && storage.Valid()
      ensures storage.bytes == CompactedFile(encoder, old(Model()), old(storage.bytes))
      ensures Model() == RelocateState(old(Model()), Moves(KeptLog(encoder, old(Model()), ScanLog(old(storage.bytes)).records)))
    {
      ghost var st, file := Model(), storage.bytes;
      MoveRecords(st, file);
      RefreshIndexes(st, file);
    }

    /** Between two records: file and memory are those of the first `k`, and the reader is ahead. */
    ghost predicate Underway(reader: OperationReader, writeHead: nat, st: State, file: seq<byte>, k: nat)
      requires Valid() && Compactible(encoder, file, st)
      reads this, repr, storage, reader, reader.storage
    {
      var ls := ScanLog(file).records;
      && reader.storage == storage && Reads(reader, file, ls, k)
      && writeHead == WriteHead(encoder, st, ls, k) && Copied(encoder, st, file, ls, k, storage.bytes)
      && Model() == HalfState(st, Moves(KeptLog(encoder, st, ls[..k])))
    }

    /** The loop over the log. */
    method MoveRecords(ghost st: State, ghost file: seq<byte>)
      requires Valid() && storage.Valid() && Compactible(encoder, file, st) && Model() == st && storage.bytes == file
      modifies storage, repr
      ensures Valid() && storage.Valid() && storage.bytes == CompactedFile(encoder, st, file)
      ensures Model() == HalfState(st, Moves(KeptLog(encoder, st, ScanLog(file).records)))
    {
      hide ScanFrom, KeptLog, Moves, WriteHead, HalfState, AllDecode, AllStand, EncodeAll, Model, Member, Ordered, Copied, CompactedFile, Compactible;
      ghost var ls := ScanLog(file).records;
      LogFacts(encoder, file, st);
      NothingMoved(encoder, st, ls);
      NothingYetMoved(st);
      InitialFile(encoder, st, file, ls);
      var reader := new OperationReader(storage, DEFAULT_REPLAY_CHUNK_BYTES);
      var writeHead := FILE_HEADER_BYTES;
      ghost var k := 0;
      var more := true;
      hide Underway;
      while more
        invariant Valid() && storage.Valid() && fresh(reader) && reader.storage == storage
        invariant k <= |ls| && (!more ==> k == |ls|)
        invariant Underway(reader, writeHead, st, file, k)
        decreases |ls| - k, more
      {
        more, writeHead, k := MoveNext(reader, writeHead, st, file, k);
      }
      Finished(reader, writeHead, st, file);
      storage.TruncateTo(writeHead);
    }

    lemma Finished(reader: OperationReader, writeHead: nat, st: State, file: seq<byte>)
      requires Valid() && Compactible(encoder, file, st) && Underway(reader, writeHead, st, file, |ScanLog(file).records|)
      ensures FILE_HEADER_BYTES <= writeHead <= |storage.bytes| && storage.bytes[..writeHead] == CompactedFile(encoder, st, file)
      ensures Model() == HalfState(st, Moves(KeptLog(encoder, st, ScanLog(file).records)))
    {
      hide ScanFrom, KeptLog, Moves, WriteHead, HalfState, Model, Member, Copied, CompactedFile, Compactible;
      var ls := ScanLog(file).records;
      assert ls[..|ls|] == ls;
      FinalFile(encoder, st, file, ls, storage.bytes);
    }

    /** One turn of the loop. */
    method MoveNext(reader: OperationReader, writeHead: nat, ghost st: State, ghost file: seq<byte>, ghost k: nat)
      returns (more: bool, newHead: nat, ghost next: nat)
      requires Valid() && storage.Valid() && Compactible(encoder, file, st) && Underway(reader, writeHead, st, file, k)
      requires reader !in repr && reader.storage == storage
      modifies storage, repr, reader
      ensures Valid() && storage.Valid() && Underway(reader, newHead, st, file, next)
      ensures if more then next == k + 1 else next == k == |ScanLog(file).records|
    {
      hide ScanFrom, KeptLog, Moves, WriteHead, HalfState, Model, Member, Copied, Compactible, FileStorage.Valid, Standing, OperationReader.Ahead, OperationReader.Valid;
      ghost var ls := ScanLog(file).records;
      var operation := ReadNext(reader, file, ls, k);
      if operation.None? {
        return false, writeHead, k;
      }
      newHead := MoveOne(operation.value.record, operation.value.offset, writeHead, st, file, ls, k);
      StillReads(reader, file, ls, k + 1);
      return true, newHead, k + 1;
    }

    /** One record: tested against the memory as it is, copied if it has to move, its offset corrected. */
    method MoveOne(record: ValidRecord, scanHead: nat, writeHead: nat, ghost st: State, ghost file: seq<byte>, ghost ls: seq<Located>, ghost k: nat)
      returns (newHead: nat)
      requires Valid() && storage.Valid() && Compactible(encoder, file, st) && ls == ScanLog(file).records
      requires k < |ls| && ls[k] == Located(scanHead, record) && ReadRecord(file, scanHead) == Ok(record)
      requires writeHead == WriteHead(encoder, st, ls, k) && Copied(encoder, st, file, ls, k, storage.bytes)
      requires Model() == HalfState(st, Moves(KeptLog(encoder, st, ls[..k])))
      modifies storage, repr
      ensures Valid() && storage.Valid() && newHead == WriteHead(encoder, st, ls, k + 1) && Copied(encoder, st, file, ls, k + 1, storage.bytes)
      ensures |storage.bytes| == |file| && storage.bytes[scanHead + record.Length()..] == file[scanHead + record.Length()..]
      ensures Model() == HalfState(st, Moves(KeptLog(encoder, st, ls[..k + 1])))
    {
      hide ReadRecord, ScanFrom, KeptLog, Moves, WriteHead, HalfState, AllDecode, AllStand, EncodeAll, KeepRecord, Model, Member, Decode, Record.Encoded, Ordered, Copied;
      LogFacts(encoder, file, st);
      MemoryStep(encoder, st, ls, k);
      FileStep(encoder, st, file, ls, k, storage.bytes);
      newHead := writeHead;
      var keep := ShouldKeepOperation(record, scanHead);
      if keep {
        if writeHead < scanHead {
          var rawBytes := storage.ReadRawBytes(scanHead, record.Length());
          storage.WriteRawAt(writeHead, rawBytes);
          var op := Decode(encoder, record);
          if op.Ok? && op.value.PutDocument? {
            UpdateDocumentOffset(op.value.collectionId, op.value.id, writeHead);
          }
        }
        newHead := writeHead + record.Length();
      }
    }

    method RefreshIndexes(ghost st: State, ghost file: seq<byte>)
      requires Valid() && storage.Valid() && Compactible(encoder, file, st) && storage.bytes == CompactedFile(encoder, st, file)
      requires Model() == HalfState(st, Moves(KeptLog(encoder, st, ScanLog(file).records)))
      modifies repr
      ensures Valid() && Model() == RelocateState(st, Moves(KeptLog(encoder, st, ScanLog(file).records)))
    {
      hide KeptLog, Moves, Compactible, CompactedFile, Relocate, HalfMoved, Member, Model, FileStorage.Valid;
      ghost var mv := Moves(KeptLog(encoder, st, ScanLog(file).records));
      var rest := collectionsById.Keys;
      ModelKeys();
      assert Model() == RefreshedSome(st, mv, rest);
      while rest != {}
        invariant rest <= collectionsById.Keys && Valid() && storage.Valid()
        invariant Model() == RefreshedSome(st, mv, rest)
        decreases |rest|
      {
        var cid :| cid in rest;
        RefreshOne(cid, st, file);
        RefreshedMore(st, mv, rest, cid);
        rest := rest - {cid};
      }
    }

    lemma ModelKeys()
      requires Valid()
      ensures Model().collections.Keys == collectionsById.Keys
    {
    }

    method RefreshOne(cid: CollectionId, ghost st: State, ghost file: seq<byte>)
      requires Valid() && storage.Valid() && Compactible(encoder, file, st) && storage.bytes == CompactedFile(encoder, st, file)
      requires cid in collectionsById && cid in st.collections
      requires Model().collections[cid] == HalfMoved(st.collections[cid], Moves(KeptLog(encoder, st, ScanLog(file).records)))
      modifies repr
      ensures Valid()
      ensures Model() == WithCollection(old(Model()), cid, Relocate(st.collections[cid], Moves(KeptLog(encoder, st, ScanLog(file).records))))
    {
      hide KeptLog, Moves, Compactible, CompactedFile, Relocate, HalfMoved, RefileAll, Backed, PocketCollection.Valid, Model, Member;
      ghost var mv := Moves(KeptLog(encoder, st, ScanLog(file).records));
      MemberOf(cid);
      HalfDocuments(st.collections[cid], mv);
      CompactedBacks(encoder, file, st, cid);
      RefreshedIsRelocated(st.collections[cid], mv);
      collectionsById[cid].RefreshIndexesAfterCompaction();
      OneChanged(cid);
    }

    // -------------------------------------------------------------------------
    // Statistics
    // -------------------------------------------------------------------------

    /** One scan of the log tallies live and dead records, of the file and of each live collection. */
    method ComputeStorageStats() returns (global: Stats, byCollection: map<CollectionId, Stats>)
      requires Valid() && storage.Valid() && Compactible(encoder, storage.bytes, Model())
      modifies storage
      ensures unchanged(storage)
      ensures global == Tally(encoder, Model(), ScanLog(storage.bytes).records)
      ensures forall cid :: cid in collectionsById ==>
                StatsOf(byCollection, cid) == Tally(encoder, Model(), Belonging(encoder, ScanLog(storage.bytes).records, cid))
    {
      hide ScanFrom, Model, Member, Compactible, KeepRecord, Decode, Tally, Accumulate, AllDecode, AllStand, Ordered, CollectionOfRecord, TalliedFor;
      LogFacts(encoder, storage.bytes, Model());
      ghost var file, ls := storage.bytes, ScanLog(storage.bytes).records;
      var reader := new OperationReader(storage, DEFAULT_REPLAY_CHUNK_BYTES);
      hide Standing, Reads, OperationReader.Ahead, OperationReader.Valid, FileStorage.Valid;
      global, byCollection := Stats(0, 0, 0, 0), map[];
      ghost var k := 0;
      NothingTallied(encoder, Model(), ls, collectionsById.Keys);
      while true
        invariant unchanged(storage) && fresh(reader) && reader.storage == storage && Reads(reader, file, ls, k)
        invariant k <= |ls| && global == Tally(encoder, Model(), ls[..k]) && TalliedFor(encoder, Model(), ls[..k], collectionsById.Keys, byCollection)
        decreases |ls| - k
      {
        var operation := ReadNext(reader, file, ls, k);
        if operation.None? {
          break;
        }
        global, byCollection := TallyOne(operation.value.record, operation.value.offset, global, byCollection, ls, k);
        k := k + 1;
      }
      assert ls[..k] == ls;
      TalliedForAll(encoder, Model(), ls, collectionsById.Keys, byCollection);
    }

    method TallyOne(record: ValidRecord, offset: nat, global: Stats, byCollection: map<CollectionId, Stats>, ghost ls: seq<Located>, ghost k: nat)
      returns (nextGlobal: Stats, next: map<CollectionId, Stats>)
      requires Valid() && k < |ls| && ls[k] == Located(offset, record)
      requires global == Tally(encoder, Model(), ls[..k]) && TalliedFor(encoder, Model(), ls[..k], collectionsById.Keys, byCollection)
      ensures nextGlobal == Tally(encoder, Model(), ls[..k + 1]) && TalliedFor(encoder, Model(), ls[..k + 1], collectionsById.Keys, next)
    {
      hide Model, Member, KeepRecord, Tally, Accumulate, CollectionOfRecord, TalliedFor;
      var live := ShouldKeepOperation(record, offset);
      var owner := CollectionOfRecord(encoder, record);
      TalliedMore(encoder, Model(), ls, k, collectionsById.Keys, byCollection);
      nextGlobal, next := Accumulate(global, live, record.Length()), byCollection;
      if owner.Some? && owner.value in collectionsById {
        next := byCollection[owner.value := Accumulate(StatsOf(byCollection, owner.value), live, record.Length())];
      }
    }

    // -------------------------------------------------------------------------
    // Loading
    // -------------------------------------------------------------------------

    /** The documents in memory come from records read so far, and each index mirrors them. */
    ghost predicate Loaded(ls: seq<Located>)
      requires Valid()
      reads this, repr, storage
    {
      storage.Valid() && LogOf(storage.bytes, ls) && LoadedFrom(encoder, Model(), ls)
    }

    method CreateCollection(cid: CollectionId, name: Str) returns (c: PocketCollection)
      requires Valid()
      ensures Valid() && Model() == old(Model()) && fresh(c) && fresh(c.indexManager)
      ensures c.indexManager.stringRepr == {} && c.indexManager.numberRepr == {}
      ensures c.id == cid && c.storage == storage && c.encoder == encoder && OwnedBy(c.indexManager, cid) && c.Valid()
      ensures c.Contents() == Collection(name, map[], map[])
    {
      c := new PocketCollection(cid, name, storage, encoder);
      ManagerOwned(c);
    }

    /** A new collection takes its place under its id and its name. */
    method Admit(c: PocketCollection, cid: CollectionId, name: Str)
      requires Valid() && c.storage == storage && c.encoder == encoder && c.id == cid && OwnedBy(c.indexManager, cid) && c.Valid()
      requires c.indexManager.stringRepr == {} && c.indexManager.numberRepr == {}
      modifies this
      ensures Valid() && repr == old(repr) + {c, c.indexManager}
      ensures Model() == State(old(Model()).collections[cid := c.Contents()], old(Model()).names[name := cid])
    {
      hide PocketCollection.Valid, PocketCollection.Contents, OwnedBy;
      collectionsById, collectionsByName, repr := collectionsById[cid := c], collectionsByName[name := cid], repr + {c, c.indexManager};
    }

    /** `registerCollection`. */
    method RegisterCollection(cid: CollectionId, name: Str)
      requires Valid()
      modifies this
      ensures Valid() && fresh(repr - old(repr))
      ensures Model() == State(old(Model()).collections[cid := Collection(name, map[], map[])], old(Model()).names[name := cid])
    {
      hide PocketCollection.Valid, PocketCollection.Contents, Valid, Model;
      var c := CreateCollection(cid, name);
      Admit(c, cid, name);
    }

    method AddPrimaryIndexEntry(cid: CollectionId, id: Str, offset: nat, document: Doc)
      requires Valid() && cid in collectionsById
      modifies repr
      ensures Valid() && cid in old(Model()).collections
      ensures Model() == WithCollection(old(Model()), cid, PutInto(old(Model()).collections[cid], id, Entry(offset, document)))
    {
      hide PutInto, PocketCollection.Valid, Model, Member;
      MemberOf(cid);
      collectionsById[cid].ApplyPutDocument(id, offset, document);
      OneChanged(cid);
    }

    method DeletePrimaryIndexEntry(cid: CollectionId, id: Str)
      requires Valid() && cid in collectionsById
      modifies repr
      ensures Valid() && cid in old(Model()).collections
      ensures Model() == WithCollection(old(Model()), cid, RemoveFrom(old(Model()).collections[cid], id))
    {
      hide RemoveFrom, PocketCollection.Valid, Model, Member;
      MemberOf(cid);
      collectionsById[cid].DeletePrimaryIndexEntry(id);
      OneChanged(cid);
    }

    method CreateIndexFromReplay(cid: CollectionId, field: Str, kind: IndexKind, unique: bool, ghost ls: seq<Located>) returns (ok: bool)
      requires Valid() && Loaded(ls) && cid in collectionsById
      modifies this, repr
      ensures Valid() && cid in old(Model()).collections && fresh(repr - old(repr)) && unchanged(`collectionsById)
      ensures ok <==> CreateIndexIn(old(Model()).collections[cid], field, kind, unique).Ok?
      ensures ok ==> Model() == WithCollection(old(Model()), cid, CreateIndexIn(old(Model()).collections[cid], field, kind, unique).value)
    {
      hide CreateIndexIn, Mirrors, LogOf, AllStand, Backed, PocketCollection.Valid, Model, Member;
      MemberOf(cid);
      LoadedBacks(encoder, storage.bytes, Model(), ls, cid);
      ok := collectionsById[cid].CreateIndexInMemory(field, kind, unique);
      repr := repr + collectionsById[cid].indexManager.stringRepr + collectionsById[cid].indexManager.numberRepr;
      OneChanged(cid);
    }

    method DropIndexFromReplay(cid: CollectionId, field: Str) returns (ok: bool)
      requires Valid() && cid in collectionsById
      modifies repr
      ensures Valid() && cid in old(Model()).collections
      ensures ok <==> DropIndexIn(old(Model()).collections[cid], field).Ok?
      ensures ok ==> Model() == WithCollection(old(Model()), cid, DropIndexIn(old(Model()).collections[cid], field).value)
    {
      hide PocketCollection.Valid, Model, Member;
      MemberOf(cid);
      ok := collectionsById[cid].DropIndexFromReplay(field);
      OneChanged(cid);
    }

    /** `dropFromReplay`, and what the collection's owner does about it. */
    method DropFromReplay(cid: CollectionId)
      requires Valid() && cid in collectionsById
      modifies this
      ensures Valid() && repr == old(repr) && cid in old(Model()).collections
      ensures Model() == State(old(Model()).collections - {cid}, old(Model()).names - {old(Model()).collections[cid].name})
    {
      hide PocketCollection.Valid, OwnedBy;
      collectionsByName, collectionsById := collectionsByName - {collectionsById[cid].name}, collectionsById - {cid};
    }

    /** `applyOperation`; false when the source throws. */
    method ApplyOperation(l: Located, ghost ls: seq<Located>) returns (ok: bool)
      requires Valid() && Loaded(ls) && l in ls
      modifies this, repr
      ensures ok <==> ApplyRecord(encoder, old(Model()), l).Ok?
      ensures ok ==> Valid() && Loaded(ls) && fresh(repr - old(repr)) && Model() == ApplyRecord(encoder, old(Model()), l).value
    {
      hide Decode, PutInto, RemoveFrom, CreateIndexIn, DropIndexIn, LogOf, LoadedFrom, Model, Member, FileStorage.Valid;
      ModelKeys();
      ghost var before := Model();
      var decoded := Decode(encoder, l.record);
      if decoded.Err? {
        return false;
      }
      var op := decoded.value;
      ok := true;
      if op.NewCollection? {
        RegisterCollection(op.collectionId, op.name);
      } else if op.TransactionBegin? || op.TransactionCommit? {
        return false;
      } else if !op.Hole? {
        if op.collectionId !in collectionsById {
          return false;
        }
        match op
        case PutDocument(cid, id, document) => AddPrimaryIndexEntry(cid, id, l.offset, document);
        case CreateIndex(cid, field, kind, unique) => ok := CreateIndexFromReplay(cid, field, kind, unique, ls);
        case DeleteDocument(cid, id) => DeletePrimaryIndexEntry(cid, id);
        case DropCollection(cid) => DropFromReplay(cid);
        case DropIndex(cid, field) => ok := DropIndexFromReplay(cid, field);
      }
      if ok {
        AppliedLoaded(encoder, before, ls, l);
      }
    }

    /** One record of the log: markers open and close a transaction, whose records wait for its commit. */
    method LoadOperation(l: Located, staged: Option<seq<Located>>, ghost ls: seq<Located>) returns (ok: bool, next: Option<seq<Located>>)
      requires Valid() && Loaded(ls) && l in ls && (staged.Some? ==> forall s :: s in staged.value ==> s in ls)
      modifies this, repr
      ensures ok <==> Consume(encoder, Replayed(old(Model()), staged), l).Ok?
      ensures ok ==> Valid() && Loaded(ls) && fresh(repr - old(repr)) && (next.Some? ==> forall s :: s in next.value ==> s in ls)
                     && Consume(encoder, Replayed(old(Model()), staged), l) == Ok(Replayed(Model(), next))
    {
      hide Loaded, Model, Member, ApplyRecord;
      if l.record.identifier == TRANSACTION_BEGIN {
        return staged.None?, Some([]);
      }
      if l.record.identifier == TRANSACTION_COMMIT {
        if staged.None? {
          return false, None;
        }
        ok := LoadTransaction(staged.value, ls);
        return ok, None;
      }
      if staged.Some? {
        return true, Some(staged.value + [l]);
      }
      ok := ApplyOperation(l, ls);
      return ok, None;
    }

    method LoadTransaction(staged: seq<Located>, ghost ls: seq<Located>) returns (ok: bool)
      requires Valid() && Loaded(ls) && forall s :: s in staged ==> s in ls
      modifies this, repr
      ensures ok <==> ApplyAll(encoder, old(Model()), staged).Ok?
      ensures ok ==> Valid() && Loaded(ls) && fresh(repr - old(repr)) && ApplyAll(encoder, old(Model()), staged) == Ok(Model())
    {
      hide Loaded, Model, Member, ApplyRecord;
      ghost var before := Model();
      for i := 0 to |staged|
        invariant Valid() && Loaded(ls) && fresh(repr - old(repr))
        invariant ApplyAll(encoder, before, staged[..i]) == Ok(Model())
      {
        assert staged[..i + 1][..i] == staged[..i] && staged[i] in staged;
        var applied := ApplyOperation(staged[i], ls);
        if !applied {
          ApplySplits(encoder, before, staged[..i + 1], staged[i + 1..]);
          assert staged == staged[..i + 1] + staged[i + 1..];
          return false;
        }
      }
      assert staged[..|staged|] == staged;
      return true;
    }

    /**
     `loadCollections`: the memory becomes what opening the file means, a torn tail is cut off, and a
     damaged or contradictory log is refused.
     */
    method LoadCollections() returns (ok: bool, openTransaction: bool)
      requires Valid() && storage.Valid() && Model() == EMPTY && repr == {} && !storage.tornTailRecovered
      modifies this, storage
      ensures ok <==> OpenFile(encoder, old(storage.bytes)).Ok?
      ensures ok ==> Valid() && storage.Valid() && fresh(repr)
                     && OpenFile(encoder, old(storage.bytes)) == Ok(Opened(Model(), openTransaction, storage.bytes, storage.tornTailRecovered))
    {
      hide ScanFrom, Model, Member, ReplayFrom, Loaded, LogOf, Standing, OpenFile, Consume, OperationReader.Ahead;
      ghost var file := storage.bytes;
      ghost var s := ScanLog(file);
      var reader := new OperationReader(storage, DEFAULT_REPLAY_CHUNK_BYTES);
      var transactionOperations: Option<seq<Located>> := None;
      ghost var k := 0;
      StartLoading(encoder, file, s.records);
      LoadedNothing(s.records);
      StartReading(reader, file, s);
      while true
        invariant Valid() && Loaded(s.records) && fresh(repr) && this !in repr && storage !in repr && reader !in repr
        invariant unchanged(storage) && fresh(reader) && reader.storage == storage && Reading(reader, file, s, k)
        invariant transactionOperations.Some? ==> forall t :: t in transactionOperations.value ==> t in s.records
        invariant ReplayLog(encoder, s.records[..k]) == Ok(Replayed(Model(), transactionOperations))
        decreases |s.records| - k
      {
        var step, offset := ReadAny(reader, file, s, k);
        match step
        case Next(record) =>
          ghost var before := Replayed(Model(), transactionOperations);
          ReplayOneMore(encoder, s.records, k);
          ok, transactionOperations := LoadOperation(Located(offset, record), transactionOperations, s.records);
          if !ok {
            ReplayFails(encoder, file, k + 1);
            return false, false;
          }
          k := k + 1;
        case Corrupt =>
          RefusesDamage(encoder, file);
          return false, false;
        case _ =>
          assert s.records[..k] == s.records && file[..|file|] == file;
          OpenLog(encoder, file);
          return true, transactionOperations.Some?;
      }
    }

    lemma LoadedNothing(ls: seq<Located>)
      requires Valid() && storage.Valid() && LogOf(storage.bytes, ls) && Model() == EMPTY
      ensures Loaded(ls)
    {
      hide Model, Member, LogOf;
    }

    /** `collection(name)`: finds the collection, or appends its declaration and registers it. */
    method OpenCollection(name: Str, newId: CollectionId) returns (ok: bool)
      requires Valid() && storage.Valid() && newId !in collectionsById
      modifies this, storage
      ensures Valid() && storage.Valid()
      ensures var e := Perform(encoder, old(Model()), |old(storage.bytes)|, Call.OpenCollection(name, newId));
              storage.bytes == old(storage.bytes) + EncodeAll(e.records) && Model() == e.next && ok == !e.thrown
    {
      hide EncodePayload, Record.Encoded, Single, Model, Member, FileStorage.Valid, EncodeAll;
      NothingEncoded(storage.bytes);
      ModelNames();
      if name in collectionsByName {
        return true;
      }
      ghost var op := NewCollection(newId, name);
      ghost var st := Model();
      SingleDone(encoder, st, op, State(st.collections[newId := Collection(name, map[], map[])], st.names[name := newId]));
      var payload := EncodePayload(encoder, NewCollection(newId, name));
      if payload.Err? {
        return false;
      }
      var offset := storage.AppendOperation(NEW_COLLECTION, payload.value);
      RegisterCollection(newId, name);
      return true;
    }

    /** `drop` of a live collection: its record is appended, its memory emptied, and its owner forgets it. */
    method DropCollection(cid: CollectionId) returns (ok: bool)
      requires Valid() && storage.Valid() && cid in collectionsById && collectionsById[cid].Ready() && !collectionsById[cid].dropped
      modifies this, repr, storage
      ensures Valid() && storage.Valid()
      ensures var e := Perform(encoder, old(Model()), |old(storage.bytes)|, Call.Drop(cid));
              storage.bytes == old(storage.bytes) + EncodeAll(e.records) && Model() == e.next && ok == !e.thrown
    {
      hide PocketCollection.Valid, Model, Member, FileStorage.Valid, Perform, EncodeAll, Backed, OwnedBy;
      MemberOf(cid);
      ghost var st, before := Model(), collectionsById[cid].Contents();
      CallsAreLocal(encoder, st, |storage.bytes|, Call.Drop(cid));
      ok := collectionsById[cid].Drop();
      OneChanged(cid);
      DroppedOrNot(st, before, cid, collectionsById[cid].Contents());
      if ok {
        DropFromReplay(cid);
      }
    }

    lemma ModelNames()
      requires Valid()
      ensures Model().names == collectionsByName
    {
    }
  }
}
