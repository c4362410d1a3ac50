/** Every document in memory is the record at its offset, and records do not overlap. */
module Backing {
  import opened Bytes
  import opened Records
  import opened LogScan
  import opened Documents
  import opened Operations
  import opened DatabaseState
  import opened Replay
  import opened Compaction
  import opened Runs
  import opened LogCompaction

  /** These records stand in the file, one behind the other. */
  predicate LogOf(file: seq<byte>, ls: seq<Located>) {
    Ordered(ls) && forall l :: l in ls ==> ReadRecord(file, l.offset) == Ok(l.record)
  }

  ghost predicate Stands(enc: Encoder, ls: seq<Located>, cid: CollectionId, id: Str, e: Entry) {
    exists l :: l in ls && l.offset == e.offset && Decode(enc, l.record) == Ok(PutDocument(cid, id, e.document))
  }

  ghost predicate AllStand(enc: Encoder, ls: seq<Located>, cid: CollectionId, documents: map<Str, Entry>) {
    forall id :: id in documents ==> Stands(enc, ls, cid, id, documents[id])
  }

  ghost predicate Backed(enc: Encoder, file: seq<byte>, cid: CollectionId, documents: map<Str, Entry>) {
    exists ls :: LogOf(file, ls) && AllStand(enc, ls, cid, documents)
  }

  /** The document read at its offset. */
  function DocumentAt(enc: Encoder, file: seq<byte>, offset: nat): Result<Operation> {
    var record :- ReadRecord(file, offset);
    Decode(enc, record)
  }

  lemma BackedReads(enc: Encoder, file: seq<byte>, cid: CollectionId, documents: map<Str, Entry>, id: Str)
    requires Backed(enc, file, cid, documents) && id in documents
    ensures ReadRecord(file, documents[id].offset).Ok?
    ensures DocumentAt(enc, file, documents[id].offset) == Ok(PutDocument(cid, id, documents[id].document))
  {
    hide ReadRecord, Decode, Ordered;
    var ls :| LogOf(file, ls) && AllStand(enc, ls, cid, documents);
    assert Stands(enc, ls, cid, id, documents[id]);
  }

  lemma StandsOnce(ls: seq<Located>, l: Located, m: Located)
    requires Ordered(ls) && l in ls && m in ls
    ensures l.offset < m.offset ==> l.offset + l.record.Length() <= m.offset
    ensures l.offset == m.offset ==> l == m
  {
    var i :| 0 <= i < |ls| && ls[i] == l;
    var j :| 0 <= j < |ls| && ls[j] == m;
    assert i < j || j < i || i == j;
  }

  /** A record at a lower offset ends first. */
  lemma BackedOrdered(enc: Encoder, file: seq<byte>, cid: CollectionId, documents: map<Str, Entry>, i: Str, j: Str)
    requires Backed(enc, file, cid, documents) && i in documents && j in documents
    requires documents[i].offset <= documents[j].offset
    ensures ReadRecord(file, documents[i].offset).Ok? && ReadRecord(file, documents[j].offset).Ok?
    ensures documents[i].offset + ReadRecord(file, documents[i].offset).value.Length()
         <= documents[j].offset + ReadRecord(file, documents[j].offset).value.Length()
  {
    hide ReadRecord, Decode, Ordered;
    var ls :| LogOf(file, ls) && AllStand(enc, ls, cid, documents);
    assert Stands(enc, ls, cid, i, documents[i]) && Stands(enc, ls, cid, j, documents[j]);
    var l: Located :| l in ls && l.offset == documents[i].offset && Decode(enc, l.record) == Ok(PutDocument(cid, i, documents[i].document));
    var m: Located :| m in ls && m.offset == documents[j].offset && Decode(enc, m.record) == Ok(PutDocument(cid, j, documents[j].document));
    StandsOnce(ls, l, m);
  }

  lemma ReadGrows(file: seq<byte>, more: seq<byte>, offset: nat)
    requires ReadRecord(file, offset).Ok?
    ensures ReadRecord(file + more, offset) == ReadRecord(file, offset)
  {
    hide ReadRecord;
    var end := offset + ReadRecord(file, offset).value.Length();
    assert (file + more)[offset..end] == file[offset..end];
    ReadStable(file, file + more, offset);
  }

  lemma LogGrows(file: seq<byte>, more: seq<byte>, ls: seq<Located>)
    requires LogOf(file, ls)
    ensures LogOf(file + more, ls)
  {
    hide ReadRecord, Ordered;
    forall l | l in ls
      ensures ReadRecord(file + more, l.offset) == Ok(l.record)
    {
      ReadGrows(file, more, l.offset);
    }
  }

  /** Appending to the file leaves every document readable. */
  lemma BackedGrows(enc: Encoder, file: seq<byte>, more: seq<byte>, cid: CollectionId, documents: map<Str, Entry>)
    requires Backed(enc, file, cid, documents)
    ensures Backed(enc, file + more, cid, documents)
  {
    hide LogOf, AllStand;
    var ls :| LogOf(file, ls) && AllStand(enc, ls, cid, documents);
    LogGrows(file, more, ls);
  }

  lemma BackedFewer(enc: Encoder, file: seq<byte>, cid: CollectionId, documents: map<Str, Entry>, fewer: map<Str, Entry>)
    requires Backed(enc, file, cid, documents)
    requires forall id :: id in fewer ==> id in documents && fewer[id] == documents[id]
    ensures Backed(enc, file, cid, fewer)
  {
    hide LogOf, Stands;
    var ls :| LogOf(file, ls) && AllStand(enc, ls, cid, documents);
    assert AllStand(enc, ls, cid, fewer);
  }

  /** A state built from a log is backed by it. */
  lemma TracedStands(enc: Encoder, st: State, ls: seq<Located>, cid: CollectionId)
    requires AllDecode(enc, ls) && Traced(st, Stamps(enc, ls)) && cid in st.collections
    ensures AllStand(enc, ls, cid, st.collections[cid].documents)
  {
    hide Decode, TracedIndex;
    var documents := st.collections[cid].documents;
    assert TracedCollection(st.collections[cid], cid, Stamps(enc, ls));
    forall id | id in documents
      ensures Stands(enc, ls, cid, id, documents[id])
    {
      var s := PutStamp(cid, id, documents[id]);
      assert s in Stamps(enc, ls);
      var i :| 0 <= i < |ls| && Stamps(enc, ls)[i] == s;
      assert ls[i] in ls;
    }
  }

  lemma FewerLogOf(file: seq<byte>, ls: seq<Located>, us: seq<Located>)
    requires LogOf(file, ls) && Ordered(us) && forall l :: l in us ==> l in ls
    ensures LogOf(file, us)
  {
    hide ReadRecord, Ordered;
  }

  lemma OrderedLast(ls: seq<Located>)
    requires Ordered(ls) && |ls| > 0
    ensures Ordered(ls[..|ls| - 1])
    ensures forall l :: l in ls[..|ls| - 1] ==> l.offset + l.record.Length() <= ls[|ls| - 1].offset
  {
    var pre := ls[..|ls| - 1];
    forall l | l in pre
      ensures l.offset + l.record.Length() <= ls[|ls| - 1].offset
    {
      var j :| 0 <= j < |pre| && pre[j] == l;
      assert ls[j] == l;
    }
  }

  lemma OrderedSnoc(us: seq<Located>, l: Located)
    requires Ordered(us) && forall u :: u in us ==> u.offset + u.record.Length() <= l.offset
    ensures Ordered(us + [l])
  {
    assert forall i :: 0 <= i < |us| ==> us[i] in us;
  }

  lemma {:induction false} UnmarkedOrdered(ls: seq<Located>)
    requires Ordered(ls)
    ensures Ordered(Unmarked(ls))
    decreases |ls|
  {
    hide IsMarker, Ordered;
    if |ls| > 0 {
      var n := |ls| - 1;
      OrderedLast(ls);
      UnmarkedOrdered(ls[..n]);
      UnmarkedWithin(ls[..n]);
      OrderedSnoc(Unmarked(ls[..n]), ls[n]);
      assert Unmarked(ls[..n]) + [] == Unmarked(ls[..n]);
    } else {
      NoneOrdered(Unmarked(ls));
    }
  }

  lemma NoneOrdered(ls: seq<Located>)
    requires |ls| == 0
    ensures Ordered(ls)
  {
  }

  lemma ScanIsLog(file: seq<byte>)
    requires |file| >= FILE_HEADER_BYTES
    ensures LogOf(file, ScanLog(file).records)
  {
    hide ReadRecord, Ordered, ScanFrom;
    RecordsReadable(file, FILE_HEADER_BYTES);
    RecordsOrdered(file, FILE_HEADER_BYTES);
  }

  /** In every reachable state, every document is the record at its offset. */
  lemma SyncedBacked(enc: Encoder, w: World, cid: CollectionId)
    requires Synced(enc, w) && cid in w.db.collections
    ensures Backed(enc, w.file, cid, w.db.collections[cid].documents)
  {
    hide Synced, Decode, ApplyOps, Unmarked, LogOf, AllStand, Traced, AllDecode, ScanFrom, Ordered;
    SyncedHeader(enc, w);
    var ls := ScanLog(w.file).records;
    var us := Unmarked(ls);
    SyncedOps(enc, w);
    OpsTraced(Stamps(enc, us));
    TracedStands(enc, w.db, us, cid);
    ScanIsLog(w.file);
    RecordsOrdered(w.file, FILE_HEADER_BYTES);
    UnmarkedOrdered(ls);
    UnmarkedWithin(ls);
    FewerLogOf(w.file, ls, us);
  }
}
